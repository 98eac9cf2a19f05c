/** Interleavings of ledger calls: they never deadlock, and they act as if run one after another. */
module LedgerSchedule {
  import opened Wrappers
  import opened LedgerText
  import opened LedgerCommit
  import opened LedgerConcurrency

  /** A caller collects its locks, runs its body, and gives the locks back. */
  datatype Phase =
    | Waiting(held: nat)
    | Running(steps: nat, locals: Locals)
    | Releasing(held: nat, result: Option<CommitLedgerError>)

  /** `order` lists the callers whose bodies are finished. */
  datatype World = World(files: Files, phases: seq<Phase>, order: seq<nat>)

  /** What stays fixed: the normalizer, the calls, and which ledger path sorts first. */
  datatype Setting = Setting(norm: string -> string, calls: seq<Call>, first: Which, initial: Files)

  function OtherLedger(w: Which): Which {
    if w.Registry? then State else Registry
  }

  /** The locks of a call, in the order it takes them. */
  function Locks(c: Setting, p: nat): seq<Which>
    requires p < |c.calls|
  {
    match c.calls[p]
    case PairCall(_, _, _, _) => [c.first, OtherLedger(c.first)]
    case AppendCall(w, _, _) => [w]
    case RewriteCall(w, _, _) => [w]
  }

  ghost predicate WellFormed(c: Setting, s: World) {
    && |s.phases| == |c.calls|
    && forall p :: 0 <= p < |c.calls| ==>
         match s.phases[p]
         case Waiting(h) => h < |Locks(c, p)|
         case Running(k, _) => k <= END
         case Releasing(h, _) => h <= |Locks(c, p)|
  }

  function HeldCount(c: Setting, phases: seq<Phase>, p: nat): nat
    requires p < |c.calls| == |phases|
  {
    match phases[p]
    case Waiting(h) => Min(h, |Locks(c, p)|)
    case Running(_, _) => |Locks(c, p)|
    case Releasing(h, _) => Min(h, |Locks(c, p)|)
  }

  predicate Holds(c: Setting, phases: seq<Phase>, p: nat, w: Which)
    requires p < |c.calls| == |phases|
  {
    w in Locks(c, p)[..HeldCount(c, phases, p)]
  }

  predicate Free(c: Setting, phases: seq<Phase>, w: Which)
    requires |c.calls| == |phases|
  {
    forall p :: 0 <= p < |c.calls| ==> !Holds(c, phases, p, w)
  }

  predicate Finished(s: World, p: nat)
    requires p < |s.phases|
  {
    s.phases[p].Releasing? && s.phases[p].held == 0
  }

  ghost predicate CanStep(c: Setting, s: World, p: nat)
    requires WellFormed(c, s) && p < |c.calls|
  {
    match s.phases[p]
    case Waiting(h) => Free(c, s.phases, Locks(c, p)[h])
    case Running(_, _) => true
    case Releasing(h, _) => h > 0
  }

  function SetPhase(s: World, p: nat, phase: Phase): World
    requires p < |s.phases|
  {
    s.(phases := s.phases[p := phase])
  }

  ghost function Step(c: Setting, s: World, p: nat): World
    requires WellFormed(c, s) && p < |c.calls| && CanStep(c, s, p)
  {
    match s.phases[p]
    case Waiting(h) => SetPhase(s, p, if h + 1 == |Locks(c, p)| then Running(0, ENTRY) else Waiting(h + 1))
    case Running(k, l) =>
      if l.pc == END then SetPhase(s, p, Releasing(|Locks(c, p)|, l.error)).(order := s.order + [p])
      else if k < END then
        var (f, l') := Micro(c.norm, c.calls[p], s.files, l);
        SetPhase(s, p, Running(k + 1, l')).(files := f)
      else s
    case Releasing(h, r) => SetPhase(s, p, Releasing(h - 1, r))
  }

  /** The files after running the locked bodies of some callers one after another. */
  function Serial(c: Setting, order: seq<nat>): Files
    decreases |order|
  {
    if order == [] then c.initial
    else
      var before := Serial(c, order[..|order| - 1]);
      var p := order[|order| - 1];
      if p < |c.calls| then Body(c.norm, c.calls[p], before).0 else before
  }

  /* ---- A body only touches and only sees the ledgers it locks ---- */

  predicate Agree(f: Files, g: Files, ws: seq<Which>) {
    forall w :: w in ws ==> f.At(w) == g.At(w)
  }

  lemma MicroIsLocal(c: Setting, p: nat, f: Files, g: Files, l: Locals)
    requires p < |c.calls| && Agree(f, g, Locks(c, p))
    ensures var (f', lf) := Micro(c.norm, c.calls[p], f, l);
      var (g', lg) := Micro(c.norm, c.calls[p], g, l);
      && lf == lg && Agree(f', g', Locks(c, p))
      && forall w :: w !in Locks(c, p) ==> f'.At(w) == f.At(w)
  {
    hide RowIdentity, Decide, AppendLine, RowLine, Restored;
    var call := c.calls[p];
    if call.PairCall? {
      assert Registry in Locks(c, p) && State in Locks(c, p);
      assert f.registry == f.At(Registry) == g.At(Registry) == g.registry;
      assert f.state == f.At(State) == g.At(State) == g.state;
      assert f == g;
    } else {
      var w := Locks(c, p)[0];
      assert f.At(w) == g.At(w);
    }
  }

  lemma {:induction false} IterateIsLocal(c: Setting, p: nat, f: Files, g: Files, k: nat)
    requires p < |c.calls| && Agree(f, g, Locks(c, p))
    ensures var (f', lf) := Iterate(c.norm, c.calls[p], f, k);
      var (g', lg) := Iterate(c.norm, c.calls[p], g, k);
      && lf == lg && Agree(f', g', Locks(c, p))
      && forall w :: w !in Locks(c, p) ==> f'.At(w) == f.At(w)
  {
    hide Micro, Locks, Files.At;
    if k > 0 {
      IterateIsLocal(c, p, f, g, k - 1);
      var (f', lf) := Iterate(c.norm, c.calls[p], f, k - 1);
      var (g', lg) := Iterate(c.norm, c.calls[p], g, k - 1);
      MicroIsLocal(c, p, f', g', lf);
    }
  }

  /* ---- The invariant ---- */

  ghost predicate Exclusive(c: Setting, phases: seq<Phase>)
    requires |c.calls| == |phases|
  {
    forall p, q, w :: 0 <= p < q < |c.calls| && Holds(c, phases, p, w) ==> !Holds(c, phases, q, w)
  }

  /** A running body is where its own steps from the serial state lead. */
  ghost predicate InPlace(c: Setting, s: World, serial: Files, p: nat)
    requires p < |c.calls| == |s.phases|
  {
    s.phases[p].Running? ==>
      var (f, l) := Iterate(c.norm, c.calls[p], serial, s.phases[p].steps);
      s.phases[p].locals == l && Agree(s.files, f, Locks(c, p))
  }

  predicate BodyActive(c: Setting, phases: seq<Phase>, w: Which)
    requires |c.calls| == |phases|
  {
    exists p :: 0 <= p < |c.calls| && phases[p].Running? && w in Locks(c, p)
  }

  ghost predicate FilesOk(c: Setting, s: World)
    requires |c.calls| == |s.phases|
  {
    var serial := Serial(c, s.order);
    && (forall p :: 0 <= p < |c.calls| ==> InPlace(c, s, serial, p))
    && (forall w :: !BodyActive(c, s.phases, w) ==> s.files.At(w) == serial.At(w))
  }

  ghost predicate ResultOk(c: Setting, s: World, i: nat)
    requires |c.calls| == |s.phases| && i < |s.order|
  {
    var p := s.order[i];
    && p < |c.calls| && s.phases[p].Releasing?
    && s.phases[p].result == Body(c.norm, c.calls[p], Serial(c, s.order[..i])).1
  }

  /** `order` has each finished body once, with the result its serial run gives. */
  ghost predicate OrderOk(c: Setting, s: World)
    requires |c.calls| == |s.phases|
  {
    && (forall i :: 0 <= i < |s.order| ==> ResultOk(c, s, i))
    && (forall i, j :: 0 <= i < j < |s.order| ==> s.order[i] != s.order[j])
    && (forall p :: 0 <= p < |c.calls| && s.phases[p].Releasing? ==> p in s.order)
  }

  ghost predicate Inv(c: Setting, s: World) {
    WellFormed(c, s) && Exclusive(c, s.phases) && FilesOk(c, s) && OrderOk(c, s)
  }

  /* ---- No deadlock ---- */

  /** While some caller is unfinished, some caller can step. */
  lemma NoDeadlock(c: Setting, s: World, p: nat) returns (q: nat)
    requires WellFormed(c, s) && p < |c.calls| && !Finished(s, p)
    ensures q < |c.calls| && !Finished(s, q) && CanStep(c, s, q)
  {
    if r :| 0 <= r < |c.calls| && !Finished(s, r) && !s.phases[r].Waiting? {
      q := r;
    } else {
      assert forall r :: 0 <= r < |c.calls| && !Finished(s, r) ==> s.phases[r].Waiting?;
      if r :| 0 <= r < |c.calls| && s.phases[r].Waiting? && s.phases[r].held == 1 {
        // It holds the first ledger and wants the second, which only finished collections hold.
        q := r;
        forall t | 0 <= t < |c.calls|
          ensures !Holds(c, s.phases, t, Locks(c, r)[1])
        {
        }
      } else {
        q := p;
      }
    }
  }

  /* ---- Every step keeps the invariant ---- */

  /** Changing one phase to one that holds no more locks than before, or newly a free one. */
  lemma ExclusiveAfter(c: Setting, s: World, p: nat, phase: Phase)
    requires WellFormed(c, s) && Exclusive(c, s.phases) && p < |c.calls|
    requires forall w :: Holds(c, s.phases[p := phase], p, w) ==> Holds(c, s.phases, p, w) || Free(c, s.phases, w)
    ensures Exclusive(c, s.phases[p := phase])
  {
    var phases := s.phases[p := phase];
    hide Locks;
    forall q, r, w | 0 <= q < r < |c.calls| && Holds(c, phases, q, w)
      ensures !Holds(c, phases, r, w)
    {
      assert q != p ==> Holds(c, s.phases, q, w);
      assert r != p && Holds(c, phases, r, w) ==> Holds(c, s.phases, r, w);
      assert Holds(c, s.phases, q, w) ==> !Holds(c, s.phases, r, w);
    }
  }

  /** A step that finishes no body leaves the record of finished ones good. */
  lemma OrderStays(c: Setting, s: World, t: World)
    requires |c.calls| == |s.phases| == |t.phases| && OrderOk(c, s) && t.order == s.order
    requires forall p :: 0 <= p < |c.calls| ==>
      && (t.phases[p].Releasing? <==> s.phases[p].Releasing?)
      && (s.phases[p].Releasing? ==> t.phases[p].result == s.phases[p].result)
    ensures OrderOk(c, t)
  {
    hide Serial, Body;
    forall i | 0 <= i < |t.order|
      ensures ResultOk(c, t, i)
    {
      assert ResultOk(c, s, i);
    }
  }

  /** A ledger some body works on stays so while that body runs. */
  lemma ActiveStays(c: Setting, phases: seq<Phase>, p: nat, phase: Phase, w: Which)
    requires p < |c.calls| == |phases|
    requires phases[p].Running? ==> phase.Running? || w !in Locks(c, p)
    ensures BodyActive(c, phases, w) ==> BodyActive(c, phases[p := phase], w)
  {
    if BodyActive(c, phases, w) {
      var q :| 0 <= q < |c.calls| && phases[q].Running? && w in Locks(c, q);
      assert phases[p := phase][q].Running?;
    }
  }

  /** A step that writes no file and lets at most `p` enter its body leaves the files good. */
  lemma FilesStay(c: Setting, s: World, p: nat, phase: Phase)
    requires p < |c.calls| == |s.phases| && FilesOk(c, s) && !s.phases[p].Running?
    requires InPlace(c, SetPhase(s, p, phase), Serial(c, s.order), p)
    ensures FilesOk(c, SetPhase(s, p, phase))
  {
    hide Serial, Iterate, Locks, Files.At;
    var t := SetPhase(s, p, phase);
    var serial := Serial(c, s.order);
    forall q | 0 <= q < |c.calls|
      ensures InPlace(c, t, serial, q)
    {
      assert InPlace(c, s, serial, q);
    }
    forall w | !BodyActive(c, t.phases, w)
      ensures t.files.At(w) == serial.At(w)
    {
      ActiveStays(c, s.phases, p, t.phases[p], w);
    }
  }

  /** What `p` becomes when it takes its next lock. */
  function Entered(c: Setting, p: nat, h: nat): Phase
    requires p < |c.calls|
  {
    if h + 1 == |Locks(c, p)| then Running(0, ENTRY) else Waiting(h + 1)
  }

  lemma WaitingStepKeeps(c: Setting, s: World, p: nat)
    requires Inv(c, s) && p < |c.calls| && s.phases[p].Waiting? && CanStep(c, s, p)
    ensures Inv(c, Step(c, s, p))
  {
    hide Serial, Iterate, Body, FilesOk, OrderOk, InPlace;
    var h := s.phases[p].held;
    var phase := Entered(c, p, h);
    assert Step(c, s, p) == SetPhase(s, p, phase);
    assert Locks(c, p)[..h + 1] == Locks(c, p)[..h] + [Locks(c, p)[h]];
    ExclusiveAfter(c, s, p, phase);
    StartsInPlace(c, s, p);
    FilesStay(c, s, p, phase);
    OrderStays(c, s, SetPhase(s, p, phase));
  }

  /** A caller that has just got its last lock sees the serial files. */
  lemma StartsInPlace(c: Setting, s: World, p: nat)
    requires WellFormed(c, s) && FilesOk(c, s) && Exclusive(c, s.phases)
    requires p < |c.calls| && s.phases[p].Waiting? && CanStep(c, s, p)
    ensures InPlace(c, SetPhase(s, p, Entered(c, p, s.phases[p].held)), Serial(c, s.order), p)
  {
    hide Serial, Micro, Exclusive;
    var h := s.phases[p].held;
    if h + 1 == |Locks(c, p)| {
      forall w | w in Locks(c, p)
        ensures !BodyActive(c, s.phases, w)
      {
        forall q | 0 <= q < |c.calls| && s.phases[q].Running?
          ensures w !in Locks(c, q)
        {
          NotInRunning(c, s, p, q, w);
        }
      }
      assert Iterate(c.norm, c.calls[p], Serial(c, s.order), 0) == (Serial(c, s.order), ENTRY);
    }
  }

  lemma NotInRunning(c: Setting, s: World, p: nat, q: nat, w: Which)
    requires WellFormed(c, s) && Exclusive(c, s.phases)
    requires p < |c.calls| && s.phases[p].Waiting? && CanStep(c, s, p)
    requires s.phases[p].held + 1 == |Locks(c, p)| && w in Locks(c, p)
    requires q < |c.calls| && s.phases[q].Running?
    ensures w !in Locks(c, q)
  {
    var h := s.phases[p].held;
    assert Locks(c, q)[..|Locks(c, q)|] == Locks(c, q);
    assert w in Locks(c, q) <==> Holds(c, s.phases, q, w);
    assert w == Locks(c, p)[h] || Holds(c, s.phases, p, w);
  }

  lemma ReleasingStepKeeps(c: Setting, s: World, p: nat)
    requires Inv(c, s) && p < |c.calls| && s.phases[p].Releasing? && CanStep(c, s, p)
    ensures Inv(c, Step(c, s, p))
  {
    hide Serial, Iterate, Body, FilesOk, OrderOk;
    var h := s.phases[p].held;
    var phase := Releasing(h - 1, s.phases[p].result);
    assert Locks(c, p)[..h] == Locks(c, p)[..h - 1] + [Locks(c, p)[h - 1]];
    ExclusiveAfter(c, s, p, phase);
    FilesStay(c, s, p, phase);
    OrderStays(c, s, SetPhase(s, p, phase));
  }

  /** Two running bodies have no ledger in common. */
  lemma RunningAreApart(c: Setting, s: World, p: nat, q: nat, w: Which)
    requires WellFormed(c, s) && Exclusive(c, s.phases) && p < |c.calls| && q < |c.calls| && p != q
    requires s.phases[p].Running? && s.phases[q].Running? && w in Locks(c, p)
    ensures w !in Locks(c, q)
  {
    assert Locks(c, p)[..|Locks(c, p)|] == Locks(c, p) && Locks(c, q)[..|Locks(c, q)|] == Locks(c, q);
    assert Holds(c, s.phases, p, w);
    assert w in Locks(c, q) <==> Holds(c, s.phases, q, w);
  }

  /** A small step of one body leaves every body in place and every idle ledger serial. */
  lemma BodyStepFiles(c: Setting, s: World, p: nat)
    requires WellFormed(c, s) && Exclusive(c, s.phases) && FilesOk(c, s)
    requires p < |c.calls| && s.phases[p].Running? && s.phases[p].locals.pc != END && s.phases[p].steps < END
    ensures FilesOk(c, Step(c, s, p))
  {
    hide Serial, Micro, Files.At, Locks, Exclusive;
    var t := Step(c, s, p);
    var k, l := s.phases[p].steps, s.phases[p].locals;
    var serial := Serial(c, s.order);
    var (f, lf) := Iterate(c.norm, c.calls[p], serial, k);
    assert InPlace(c, s, serial, p);
    MicroIsLocal(c, p, s.files, f, l);
    forall q | 0 <= q < |c.calls|
      ensures InPlace(c, t, serial, q)
    {
      assert InPlace(c, s, serial, q);
      if q != p && s.phases[q].Running? {
        forall w | w in Locks(c, q)
          ensures t.files.At(w) == s.files.At(w)
        {
          RunningAreApart(c, s, q, p, w);
        }
      }
    }
    forall w | !BodyActive(c, t.phases, w)
      ensures t.files.At(w) == serial.At(w)
    {
      assert t.phases[p].Running?;
      assert w !in Locks(c, p);
      ActiveStays(c, s.phases, p, t.phases[p], w);
    }
  }

  lemma BodyStepKeeps(c: Setting, s: World, p: nat)
    requires Inv(c, s) && p < |c.calls| && s.phases[p].Running? && s.phases[p].locals.pc != END && s.phases[p].steps < END
    ensures Inv(c, Step(c, s, p))
  {
    hide Serial, Micro, Body, FilesOk, OrderOk, Iterate;
    BodyStepFiles(c, s, p);
    var t := Step(c, s, p);
    ExclusiveAfter(c, s, p, t.phases[p]);
    assert t.phases == s.phases[p := t.phases[p]];
    OrderStays(c, s, t);
  }

  /** What finishing adds to the serial files. */
  lemma SerialSnoc(c: Setting, order: seq<nat>, p: nat)
    requires p < |c.calls|
    ensures Serial(c, order + [p]) == Body(c.norm, c.calls[p], Serial(c, order)).0
  {
    assert (order + [p])[..|order|] == order;
  }

  lemma FinishedBody(c: Setting, s: World, p: nat)
    requires Inv(c, s) && p < |c.calls| && s.phases[p].Running? && s.phases[p].locals.pc == END
    ensures var serial := Serial(c, s.order);
      var (f, e) := Body(c.norm, c.calls[p], serial);
      e == s.phases[p].locals.error && Agree(s.files, f, Locks(c, p))
      && forall w :: w !in Locks(c, p) ==> f.At(w) == serial.At(w)
  {
    hide Serial, Files.At, Locks;
    var serial := Serial(c, s.order);
    var k := s.phases[p].steps;
    assert InPlace(c, s, serial, p);
    IterateStops(c.norm, c.calls[p], serial, k, END);
    IterateIsLocal(c, p, serial, serial, END);
  }

  lemma FinishKeepsFiles(c: Setting, s: World, p: nat)
    requires Inv(c, s) && p < |c.calls| && s.phases[p].Running? && s.phases[p].locals.pc == END
    ensures FilesOk(c, Step(c, s, p))
  {
    hide Serial, Body, Iterate, Files.At, Locks;
    var t := Step(c, s, p);
    var serial := Serial(c, s.order);
    var after := Serial(c, t.order);
    SerialSnoc(c, s.order, p);
    FinishedBody(c, s, p);
    forall q | 0 <= q < |c.calls|
      ensures InPlace(c, t, after, q)
    {
      assert InPlace(c, s, serial, q);
      if q != p && s.phases[q].Running? {
        forall w | w in Locks(c, q)
          ensures after.At(w) == serial.At(w)
        {
          RunningAreApart(c, s, q, p, w);
        }
        IterateIsLocal(c, q, serial, after, s.phases[q].steps);
      }
    }
    forall w | !BodyActive(c, t.phases, w)
      ensures t.files.At(w) == after.At(w)
    {
      if w !in Locks(c, p) {
        ActiveStays(c, s.phases, p, t.phases[p], w);
      }
    }
  }

  lemma FinishKeepsOrder(c: Setting, s: World, p: nat)
    requires Inv(c, s) && p < |c.calls| && s.phases[p].Running? && s.phases[p].locals.pc == END
    ensures OrderOk(c, Step(c, s, p))
  {
    hide Serial, Body, Iterate, Files.At, Locks;
    var t := Step(c, s, p);
    FinishedBody(c, s, p);
    forall i | 0 <= i < |s.order|
      ensures s.order[i] != p
    {
      assert ResultOk(c, s, i);
    }
    forall i | 0 <= i < |t.order|
      ensures ResultOk(c, t, i)
    {
      if i < |s.order| {
        assert ResultOk(c, s, i);
        assert t.order[..i] == s.order[..i];
      } else {
        assert t.order[..i] == s.order;
      }
    }
  }

  lemma FinishStepKeeps(c: Setting, s: World, p: nat)
    requires Inv(c, s) && p < |c.calls| && s.phases[p].Running? && s.phases[p].locals.pc == END
    ensures Inv(c, Step(c, s, p))
  {
    hide Serial, Body, Iterate, Files.At, FilesOk, OrderOk;
    FinishKeepsFiles(c, s, p);
    FinishKeepsOrder(c, s, p);
    ExclusiveAfter(c, s, p, Releasing(|Locks(c, p)|, s.phases[p].locals.error));
  }

  lemma StepKeeps(c: Setting, s: World, p: nat)
    requires Inv(c, s) && p < |c.calls| && CanStep(c, s, p)
    ensures Inv(c, Step(c, s, p))
  {
    hide Serial, Body, Iterate, Files.At, FilesOk, OrderOk, Exclusive, Micro;
    match s.phases[p] {
      case Waiting(_) => WaitingStepKeeps(c, s, p);
      case Releasing(_, _) => ReleasingStepKeeps(c, s, p);
      case Running(k, l) =>
        if l.pc == END {
          FinishStepKeeps(c, s, p);
        } else if k < END {
          BodyStepKeeps(c, s, p);
        }
    }
  }

  /* ---- Whole schedules ---- */

  /** Everybody waiting for a first lock. */
  function Start(c: Setting): World {
    World(c.initial, seq(|c.calls|, p => Waiting(0)), [])
  }

  /** `schedule` names who steps next; a caller that cannot step is skipped. */
  ghost function RunSchedule(c: Setting, schedule: seq<nat>): (s: World)
    ensures Inv(c, s)
    decreases |schedule|
  {
    if schedule == [] then
      StartIsGood(c);
      Start(c)
    else
      var s := RunSchedule(c, schedule[..|schedule| - 1]);
      var p := schedule[|schedule| - 1];
      if p < |c.calls| && CanStep(c, s, p) then
        StepKeeps(c, s, p);
        Step(c, s, p)
      else s
  }

  lemma StartIsGood(c: Setting)
    ensures Inv(c, Start(c))
  {
    var s := Start(c);
    assert Serial(c, []) == c.initial;
    forall p | 0 <= p < |c.calls|
      ensures s.phases[p] == Waiting(0) && |Locks(c, p)| > 0
    {
    }
  }

  /** Steps left before everybody is finished. */
  function Left(c: Setting, phase: Phase): nat {
    match phase
    case Waiting(h) => 2 * END + 8 - Min(h, 2)
    case Running(k, l) => if l.pc == END then 4 else 5 + END - Min(k, END)
    case Releasing(h, _) => Min(h, 2)
  }

  function TotalLeft(c: Setting, phases: seq<Phase>): nat {
    if phases == [] then 0 else Left(c, phases[0]) + TotalLeft(c, phases[1..])
  }

  lemma {:induction false} LeftDrops(c: Setting, phases: seq<Phase>, p: nat, phase: Phase)
    requires p < |phases| && Left(c, phase) < Left(c, phases[p])
    ensures TotalLeft(c, phases[p := phase]) < TotalLeft(c, phases)
  {
    var next := phases[p := phase];
    if p == 0 {
      assert next[1..] == phases[1..];
    } else {
      LeftDrops(c, phases[1..], p - 1, phase);
      assert next[1..] == phases[1..][p - 1 := phase];
    }
  }

  /** Every step that can be taken brings the end closer. */
  lemma StepProgresses(c: Setting, s: World, p: nat)
    requires Inv(c, s) && p < |c.calls| && CanStep(c, s, p)
    ensures TotalLeft(c, Step(c, s, p).phases) < TotalLeft(c, s.phases)
  {
    hide Serial, Body, Iterate, Files.At, OrderOk, Exclusive, Micro, TotalLeft, Free, Agree;
    var t := Step(c, s, p);
    var serial := Serial(c, s.order);
    if s.phases[p].Running? {
      assert InPlace(c, s, serial, p);
      IterateProgress(c.norm, c.calls[p], serial, s.phases[p].steps);
    }
    assert t.phases == s.phases[p := t.phases[p]];
    LeftDrops(c, s.phases, p, t.phases[p]);
  }

  predicate AllFinished(s: World) {
    forall p :: 0 <= p < |s.phases| ==> Finished(s, p)
  }

  /** However far a schedule has got, it can be continued until every caller is finished. */
  lemma {:induction false} EverybodyCanFinish(c: Setting, schedule: seq<nat>) returns (more: seq<nat>)
    ensures AllFinished(RunSchedule(c, schedule + more))
    decreases TotalLeft(c, RunSchedule(c, schedule).phases)
  {
    hide Inv, Step, TotalLeft, CanStep;
    var s := RunSchedule(c, schedule);
    if AllFinished(s) {
      more := [];
      assert schedule + more == schedule;
    } else {
      var p :| 0 <= p < |s.phases| && !Finished(s, p);
      var q := UnfinishedSteps(c, s, p);
      var next := schedule + [q];
      assert next[..|next| - 1] == schedule;
      assert RunSchedule(c, next) == Step(c, s, q);
      StepProgresses(c, s, q);
      var rest := EverybodyCanFinish(c, next);
      more := [q] + rest;
      assert schedule + more == next + rest;
    }
  }

  lemma UnfinishedSteps(c: Setting, s: World, p: nat) returns (q: nat)
    requires Inv(c, s) && p < |s.phases| && !Finished(s, p)
    ensures WellFormed(c, s) && q < |c.calls| && CanStep(c, s, q)
  {
    q := NoDeadlock(c, s, p);
  }

  /**
    When a schedule has finished everybody, there is one order of the callers in which running
    the locked bodies back to back gives the same files and hands each caller the same result.
   */
  lemma ActsAsSerial(c: Setting, schedule: seq<nat>)
    requires AllFinished(RunSchedule(c, schedule))
    ensures var s := RunSchedule(c, schedule);
      && s.files == Serial(c, s.order)
      && (forall p :: 0 <= p < |c.calls| <==> p in s.order)
      && (forall i, j :: 0 <= i < j < |s.order| ==> s.order[i] != s.order[j])
      && forall i :: 0 <= i < |s.order| ==> ResultOk(c, s, i)
  {
    hide Serial, Body, Iterate, Exclusive, Locks;
    var s := RunSchedule(c, schedule);
    forall p | 0 <= p < |c.calls|
      ensures s.phases[p].Releasing?
    {
      assert Finished(s, p);
    }
    assert forall w :: !BodyActive(c, s.phases, w);
    assert s.files.At(Registry) == Serial(c, s.order).At(Registry);
    assert s.files.At(State) == Serial(c, s.order).At(State);
    forall p | p in s.order
      ensures p < |c.calls|
    {
      var i :| 0 <= i < |s.order| && s.order[i] == p;
      assert ResultOk(c, s, i);
    }
  }
}
