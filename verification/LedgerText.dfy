/** JSONL ledger files: lines of bytes, rows of JSON, and what appending a row does to them. */
module LedgerText {
  import opened Wrappers
  import opened Json
  import opened JsonExtension
  import Utf8

  datatype CommitLedgerError = Io | Storage | Contradiction | InvalidInput

  const NEWLINE: byte := 10
  const RETURN: byte := 13

  function FirstNewline(b: seq<byte>): (n: nat)
    ensures n <= |b|
    ensures NEWLINE !in b[..n]
    ensures n < |b| ==> b[n] == NEWLINE
  {
    if b == [] || b[0] == NEWLINE then 0
    else
      var n := 1 + FirstNewline(b[1..]);
      assert b[..n] == [b[0]] + b[1..][..n - 1];
      n
  }

  function StripReturn(line: seq<byte>): seq<byte> {
    if line != [] && line[|line| - 1] == RETURN then line[..|line| - 1] else line
  }

  /** `BufRead::lines`: a last line without newline counts, and keeps a carriage return. */
  function Lines(b: seq<byte>): seq<seq<byte>>
    decreases |b|
  {
    if b == [] then []
    else
      var n := FirstNewline(b);
      if n == |b| then [b] else [StripReturn(b[..n])] + Lines(b[n + 1..])
  }

  /** What comes after the last newline. */
  function Tail(b: seq<byte>): seq<byte>
    decreases |b|
  {
    var n := FirstNewline(b);
    if n == |b| then b else Tail(b[n + 1..])
  }

  /** The lines that a newline ends. */
  function EndedLines(b: seq<byte>): seq<seq<byte>>
    decreases |b|
  {
    var n := FirstNewline(b);
    if n == |b| then [] else [StripReturn(b[..n])] + EndedLines(b[n + 1..])
  }

  predicate LineEnded(b: seq<byte>) {
    b == [] || b[|b| - 1] == NEWLINE
  }

  lemma {:induction false} TailIsUnended(b: seq<byte>)
    ensures LineEnded(b) <==> Tail(b) == []
    decreases |b|
  {
    var n := FirstNewline(b);
    if n == |b| {
      if b != [] {
        assert b[..n] == b && b[|b| - 1] in b;
      }
    } else {
      TailIsUnended(b[n + 1..]);
    }
  }

  lemma {:induction false} LinesAreEndedAndTail(b: seq<byte>)
    ensures Lines(b) == EndedLines(b) + (if Tail(b) == [] then [] else [Tail(b)])
    decreases |b|
  {
    var n := FirstNewline(b);
    if n < |b| {
      LinesAreEndedAndTail(b[n + 1..]);
    }
  }

  lemma {:induction false} FirstNewlineAt(a: seq<byte>, rest: seq<byte>)
    requires NEWLINE !in a
    ensures FirstNewline(a + [NEWLINE] + rest) == |a|
  {
    if a == [] {
    } else {
      var b := a + [NEWLINE] + rest;
      assert b[0] == a[0] && b[1..] == a[1..] + [NEWLINE] + rest;
      FirstNewlineAt(a[1..], rest);
    }
  }

  lemma LinesOfLine(joined: seq<byte>)
    requires joined != [] && NEWLINE !in joined && joined[|joined| - 1] != RETURN
    ensures Lines(joined + [NEWLINE]) == [joined]
  {
    var all := joined + [NEWLINE];
    assert all == joined + [NEWLINE] + [];
    FirstNewlineAt(joined, []);
    assert all[..|joined|] == joined && all[|joined| + 1..] == [];
  }

  lemma LinesOfPrefixed(head: seq<byte>, rest: seq<byte>)
    requires NEWLINE !in head
    ensures Lines(head + [NEWLINE] + rest) == [StripReturn(head)] + Lines(rest)
  {
    var all := head + [NEWLINE] + rest;
    FirstNewlineAt(head, rest);
    assert all[..|head|] == head && all[|head| + 1..] == rest;
  }

  lemma Regroup(b: seq<byte>, n: nat, line: seq<byte>)
    requires n < |b| && b[n] == NEWLINE
    ensures b + line + [NEWLINE] == b[..n] + [NEWLINE] + (b[n + 1..] + line + [NEWLINE])
  {
    assert b == b[..n] + [NEWLINE] + b[n + 1..];
  }

  /** Text appended with its newline continues the tail, whatever was there before. */
  lemma {:induction false} LinesAfterAppend(b: seq<byte>, line: seq<byte>)
    requires line != [] && NEWLINE !in line && line[|line| - 1] != RETURN
    ensures Lines(b + line + [NEWLINE]) == EndedLines(b) + [Tail(b) + line]
    ensures LineEnded(b + line + [NEWLINE])
    decreases |b|
  {
    hide Lines, FirstNewline;
    var n := FirstNewline(b);
    if n == |b| {
      assert b[..n] == b;
      LinesOfLine(b + line);
    } else {
      var head, rest := b[..n], b[n + 1..];
      Regroup(b, n, line);
      LinesOfPrefixed(head, rest + line + [NEWLINE]);
      LinesAfterAppend(rest, line);
      assert [StripReturn(head)] + (EndedLines(rest) + [Tail(rest) + line])
          == [StripReturn(head)] + EndedLines(rest) + [Tail(rest) + line];
    }
  }

  /* ---- Rows ---- */

  function ParseLine(line: seq<byte>): Result<Value, CommitLedgerError> {
    var text :- Utf8.Decode(line).OkOr(Io);
    Parse(text).OkOr(Storage)
  }

  /** The rows of some lines; the first line that is not a document decides the error. */
  function ParseLines(lines: seq<seq<byte>>): Result<seq<Value>, CommitLedgerError> {
    if lines == [] then Success([])
    else
      var first :- ParseLine(lines[0]);
      var rest :- ParseLines(lines[1..]);
      Success([first] + rest)
  }

  lemma {:induction false} ParseLinesConcat(a: seq<seq<byte>>, b: seq<seq<byte>>)
    ensures ParseLines(a).Failure? ==> ParseLines(a + b) == ParseLines(a)
    ensures ParseLines(a).Success? && ParseLines(b).Failure? ==> ParseLines(a + b) == ParseLines(b)
    ensures ParseLines(a).Success? && ParseLines(b).Success?
        ==> ParseLines(a + b) == Success(ParseLines(a).value + ParseLines(b).value)
  {
    hide ParseLine;
    if a == [] {
      assert a + b == b;
      if ParseLines(b).Success? {
        assert [] + ParseLines(b).value == ParseLines(b).value;
      }
    } else {
      assert (a + b)[0] == a[0] && (a + b)[1..] == a[1..] + b;
      ParseLinesConcat(a[1..], b);
      if ParseLines(a).Success? && ParseLines(b).Success? {
        var first, x, y := ParseLine(a[0]).value, ParseLines(a[1..]).value, ParseLines(b).value;
        assert [first] + (x + y) == [first] + x + y;
      }
    }
  }

  function Rows(b: seq<byte>): Result<seq<Value>, CommitLedgerError> {
    ParseLines(Lines(b))
  }

  /** `serde_json::to_string` of a row. */
  function RowText(row: Json): string {
    Print(Serde, row)
  }

  /** `canonical_line`. */
  function RowLine(row: Json): seq<byte> {
    Utf8.Encode(RowText(row)) + [NEWLINE]
  }

  lemma RowBytesAreOneLine(row: Json)
    ensures var line := Utf8.Encode(RowText(row)); line != [] && NEWLINE !in line && line[|line| - 1] != RETURN
  {
    hide Print;
    PrintHasNoControl(Serde, row);
    EncodedHasNoControl(RowText(row));
    PrintedHead(Serde, row);
    Utf8.EncodedLength(RowText(row));
  }

  lemma RowBytesParse(row: Json)
    ensures ParseLine(Utf8.Encode(RowText(row))) == Success(ToValue(row))
  {
    hide Print;
    Utf8.RoundTrip(RowText(row));
    RoundTrip(Serde, row);
  }

  lemma JoinedRowDoesNotParse(tail: seq<byte>, row: Json)
    requires ParseLine(tail).Success? && row.Obj?
    ensures ParseLine(tail + Utf8.Encode(RowText(row))) == Failure(Storage)
  {
    Utf8.RoundTrip(RowText(row));
    Utf8.DecodeConcat(tail, Utf8.Encode(RowText(row)));
    assert Breaks(RowText(row));
    TwoDocumentsDoNotParse(Utf8.Decode(tail).value, RowText(row));
  }

  lemma ParseOne(line: seq<byte>)
    ensures ParseLines([line]) == match ParseLine(line) case Success(v) => Success([v]) case Failure(e) => Failure(e)
  {
    hide ParseLine;
    assert [line][1..] == [] && ParseLines([line][1..]) == Success([]);
    if ParseLine(line).Success? {
      assert [ParseLine(line).value] + [] == [ParseLine(line).value];
    }
  }

  /**
    Appending a row to a readable ledger adds it to the rows exactly when the file ended
    in a newline (or was empty); otherwise the ledger is unreadable from then on.
   */
  lemma RowsAfterAppend(b: seq<byte>, row: Json)
    requires Rows(b).Success? && row.Obj?
    ensures LineEnded(b + RowLine(row))
    ensures Rows(b + RowLine(row))
         == if LineEnded(b) then Success(Rows(b).value + [ToValue(row)]) else Failure(Storage)
  {
    hide ParseLine, RowText, Lines, EndedLines, Tail, ParseLines, LineEnded;
    var line := Utf8.Encode(RowText(row));
    RowBytesAreOneLine(row);
    LinesAfterAppend(b, line);
    assert b + RowLine(row) == b + line + [NEWLINE];
    LinesAreEndedAndTail(b);
    TailIsUnended(b);
    ParseOne(Tail(b) + line);
    ParseLinesConcat(EndedLines(b), [Tail(b) + line]);
    if LineEnded(b) {
      assert [] + line == line && EndedLines(b) + [] == EndedLines(b);
      RowBytesParse(row);
      assert Lines(b) == EndedLines(b);
      assert Tail(b) + line == line;
    } else {
      ParseOne(Tail(b));
      ParseLinesConcat(EndedLines(b), [Tail(b)]);
      JoinedRowDoesNotParse(Tail(b), row);
    }
  }

  lemma {:induction false} NoNewline(line: seq<byte>)
    requires NEWLINE !in line
    ensures FirstNewline(line) == |line|
  {
    if line != [] {
      NoNewline(line[1..]);
    }
  }

  lemma NewlineInside(b: seq<byte>)
    requires b != [] && LineEnded(b)
    ensures FirstNewline(b) < |b|
  {
    assert b[..|b|] == b && b[|b| - 1] in b;
  }

  lemma Unended(b: seq<byte>, line: seq<byte>)
    requires line != [] && NEWLINE !in line
    ensures !LineEnded(b + line)
  {
    assert (b + line)[|b + line| - 1] == line[|line| - 1];
  }

  lemma SplitAt(b: seq<byte>, n: nat, line: seq<byte>)
    requires n < |b| && b[n] == NEWLINE
    ensures b == b[..n] + [NEWLINE] + b[n + 1..]
    ensures b + line == b[..n] + [NEWLINE] + (b[n + 1..] + line)
  {
  }

  /** A line appended without its newline becomes the tail of a file that ended in one. */
  lemma {:induction false} LinesAfterTornAppend(b: seq<byte>, line: seq<byte>)
    requires LineEnded(b) && line != [] && NEWLINE !in line
    ensures Lines(b + line) == Lines(b) + [line]
    decreases |b|
  {
    if b == [] {
      assert b + line == line;
      NoNewline(line);
    } else {
      hide Lines, FirstNewline;
      NewlineInside(b);
      var n := FirstNewline(b);
      var head, rest := b[..n], b[n + 1..];
      SplitAt(b, n, line);
      LinesOfPrefixed(head, rest);
      LinesOfPrefixed(head, rest + line);
      LinesAfterTornAppend(rest, line);
    }
  }

  /** A row torn off just before its newline still reads as a row. */
  lemma RowsAfterTornAppend(b: seq<byte>, row: Json)
    requires Rows(b).Success? && LineEnded(b)
    ensures var torn := b + Utf8.Encode(RowText(row));
      Rows(torn) == Success(Rows(b).value + [ToValue(row)]) && !LineEnded(torn)
  {
    hide ParseLine, RowText, Lines, ParseLines, LineEnded;
    var line := Utf8.Encode(RowText(row));
    RowBytesAreOneLine(row);
    LinesAfterTornAppend(b, line);
    Unended(b, line);
    RowBytesParse(row);
    ParseOne(line);
    ParseLinesConcat(Lines(b), [line]);
  }
}
