/** Values that cross the notification-state boundary. */
module StateSchema {
  import opened Wrappers
  import opened ReportTypes
  import opened DisplayText

  const MAX_PAYLOAD_BYTES: nat := 65_536

  datatype NotificationStateError =
    | Missing | Corrupt | Contradiction | Capacity | Clock | Io | Disabled | InvalidInput | StaleView | Fenced

  datatype SafeDeliveryError =
    | Transport | Timeout | ConnectionReset | RetryableResponse | PermanentResponse
    | ClockFault | WriteFault | CorruptFault | DisabledFault

  /** SHA-256 and the Unicode tables; neither is modelled further. */
  datatype Env = Env(sha: seq<byte> -> Digest, unicode: UnicodeTable)

  /** `PayloadBytes`: between 1 and 65,536 bytes. */
  predicate ValidPayload(bytes: seq<byte>) {
    1 <= |bytes| <= MAX_PAYLOAD_BYTES
  }

  datatype ClockSample = ClockSample(bootId: string, epochNs: u64, monotonicNs: u64, synchronized: bool)

  datatype OverflowSummary = OverflowSummary(
    attentionReports: u64,
    warningReports: u64,
    completedReports: u64,
    targetOutcomes: u64,
    preAdmissionDrops: u64,
    blockedAdmissions: u64
  )

  const NO_OVERFLOW: OverflowSummary := OverflowSummary(0, 0, 0, 0, 0, 0)

  datatype DeliveryView = DeliveryView(stateGeneration: u64, overflow: OverflowSummary, reports: seq<Report>)
}
