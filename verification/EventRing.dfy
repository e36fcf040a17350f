/**
 The xHCI event ring: the controller produces into a ring of 256 entries, the driver polls the cycle bit,
 drains, and only then writes the dequeue pointer register (ERDP).  Every step of the driver's loop may be
 interleaved with the controller, which follows section 4.9.4 of the xHCI specification: it writes its cycle
 state into each entry, flips it on every wrap, and does not advance onto the last written ERDP.
 */
module EventRing {

  const TRB_COUNT := 256

  datatype Trb = Trb(cycle: bool, payload: int)

  /** The ring position of the `k`-th event; negative numbers stand for the zeroed ring. */
  function Slot(k: int): (i: nat)
    ensures i < TRB_COUNT
    decreases if k < 0 then -k else k
  {
    if k < -TRB_COUNT then Slot(k + TRB_COUNT)
    else if k < 0 then k + TRB_COUNT
    else if k < TRB_COUNT then k
    else Slot(k - TRB_COUNT)
  }

  /** The cycle bit of the `k`-th event: set on the first lap, and flipped with every lap. */
  predicate Cycle(k: int)
    decreases if k < 0 then -k else k
  {
    if k < -TRB_COUNT then !Cycle(k + TRB_COUNT)
    else if k < 0 then false
    else if k < TRB_COUNT then true
    else !Cycle(k - TRB_COUNT)
  }

  /** The entry after a position. */
  function Advance(p: nat): nat {
    if p + 1 == TRB_COUNT then 0 else p + 1
  }

  lemma {:induction false} SlotNext(k: nat)
    ensures Slot(k + 1) == Advance(Slot(k))
    ensures Cycle(k + 1) == if Advance(Slot(k)) == 0 then !Cycle(k) else Cycle(k)
    decreases k
  {
    if k >= TRB_COUNT { SlotNext(k - TRB_COUNT); }
  }

  /** One lap apart is the same entry with the other cycle bit. */
  lemma LapFlips(k: nat)
    ensures Slot(k - TRB_COUNT) == Slot(k) && Cycle(k - TRB_COUNT) != Cycle(k)
  {
  }

  lemma {:induction false} SlotsDiffer(j: int, k: nat)
    requires j < k < j + TRB_COUNT
    ensures Slot(j) != Slot(k)
    decreases k
  {
    if k >= TRB_COUNT && j >= 0 {
      LapFlips(j);
      SlotsDiffer(j - TRB_COUNT, k - TRB_COUNT);
    }
  }

  /** Where the driver is: outside the loop, before a check, before a dequeue, before the register write. */
  datatype Driver = Idle | Checking | Taking | Acking

  datatype System = System(
    ring: seq<Trb>,
    dequeuePtr: nat, rcs: bool, erdp: nat, driver: Driver,    // driver and its register
    enqueuePtr: nat, pcs: bool,                               // controller
    produced: seq<int>, consumed: seq<int>, acked: nat)       // history: events written, read, acknowledged

  predicate IsInit(s: System) {
    && |s.ring| == TRB_COUNT && (forall i :: 0 <= i < TRB_COUNT ==> s.ring[i] == Trb(false, 0))
    && s.dequeuePtr == 0 && s.rcs && s.erdp == 0 && s.driver == Idle
    && s.enqueuePtr == 0 && s.pcs
    && s.produced == [] && s.consumed == [] && s.acked == 0
  }

  datatype Step = Produce(event: int) | Begin | Check | Take | Ack

  predicate Enabled(s: System, step: Step) {
    match step
    case Produce(_) => s.enqueuePtr < |s.ring| && Advance(s.enqueuePtr) != s.erdp
    case Begin => s.driver == Idle
    case Check => s.driver == Checking && s.dequeuePtr < |s.ring|
    case Take => s.driver == Taking && s.dequeuePtr < |s.ring|
    case Ack => s.driver == Acking
  }

  function Next(s: System, step: Step): System
    requires Enabled(s, step)
  {
    match step
    case Produce(x) =>
      s.(ring := s.ring[s.enqueuePtr := Trb(s.pcs, x)], enqueuePtr := Advance(s.enqueuePtr),
         pcs := if Advance(s.enqueuePtr) == 0 then !s.pcs else s.pcs, produced := s.produced + [x])
    case Begin => s.(driver := Checking)
    case Check => s.(driver := if s.ring[s.dequeuePtr].cycle == s.rcs then Taking else Acking)
    case Take =>
      if s.ring[s.dequeuePtr].cycle != s.rcs then s.(driver := Acking)     // an invalid TRB ends the loop
      else
        s.(dequeuePtr := Advance(s.dequeuePtr), rcs := if Advance(s.dequeuePtr) == 0 then !s.rcs else s.rcs,
           consumed := s.consumed + [s.ring[s.dequeuePtr].payload], driver := Checking)
    case Ack => s.(erdp := s.dequeuePtr, acked := |s.consumed|, driver := Idle)
  }

  // ------------------------------------------------------------------------- the invariant

  /** The ring still holds event `k`; before the first lap, an entry that is not yet valid. */
  ghost predicate HoldsEvent(ring: seq<Trb>, produced: seq<int>, k: int) {
    && |ring| == TRB_COUNT && ring[Slot(k)].cycle == Cycle(k)
    && (0 <= k < |produced| ==> ring[Slot(k)].payload == produced[k])
  }

  ghost predicate Inv(s: System) {
    var p, c := |s.produced|, |s.consumed|;
    && |s.ring| == TRB_COUNT
    && s.acked <= c <= p <= s.acked + TRB_COUNT - 1
    && s.enqueuePtr == Slot(p) && s.pcs == Cycle(p)
    && s.dequeuePtr == Slot(c) && s.rcs == Cycle(c)
    && s.erdp == Slot(s.acked)
    && s.consumed == s.produced[..c]
    && (forall k :: p - TRB_COUNT <= k < p ==> HoldsEvent(s.ring, s.produced, k))
    && (s.driver == Taking ==> c < p)
    && (s.driver == Idle ==> c == s.acked)
  }

  lemma InitInv(s: System)
    requires IsInit(s)
    ensures Inv(s)
  {
  }

  /** The cycle test answers exactly whether an event is outstanding. */
  lemma CycleTest(s: System)
    requires Inv(s)
    ensures s.ring[s.dequeuePtr].cycle == s.rcs <==> |s.consumed| < |s.produced|
    ensures |s.consumed| < |s.produced| ==> s.ring[s.dequeuePtr].payload == s.produced[|s.consumed|]
  {
    var p, c := |s.produced|, |s.consumed|;
    if c < p {
      assert HoldsEvent(s.ring, s.produced, c);
    } else {
      assert HoldsEvent(s.ring, s.produced, p - TRB_COUNT);
      LapFlips(p);
    }
  }

  lemma ProduceKeeps(s: System, x: int)
    requires Inv(s) && Enabled(s, Produce(x))
    ensures Inv(Next(s, Produce(x)))
  {
    var t, p := Next(s, Produce(x)), |s.produced|;
    SlotNext(p);
    if p == s.acked + TRB_COUNT - 1 { LapFlips(p + 1); }
    forall k | p + 1 - TRB_COUNT <= k < p + 1 ensures HoldsEvent(t.ring, t.produced, k) {
      if k < p {
        assert HoldsEvent(s.ring, s.produced, k);
        SlotsDiffer(k, p);
      }
    }
  }

  lemma StepKeeps(s: System, step: Step)
    requires Inv(s) && Enabled(s, step)
    ensures Inv(Next(s, step))
  {
    match step {
      case Produce(x) => ProduceKeeps(s, x);
      case Begin =>
      case Check => CycleTest(s);
      case Take =>
        CycleTest(s);
        SlotNext(|s.consumed|);
      case Ack =>
    }
  }

  // ------------------------------------------------------------------------- every interleaving

  ghost predicate RunsTo(s: System, steps: seq<Step>, t: System)
    decreases |steps|
  {
    if steps == [] then t == s else Enabled(s, steps[0]) && RunsTo(Next(s, steps[0]), steps[1..], t)
  }

  lemma {:induction false} RunKeeps(s: System, steps: seq<Step>, t: System)
    requires Inv(s) && RunsTo(s, steps, t)
    ensures Inv(t)
    decreases |steps|
  {
    if steps != [] {
      StepKeeps(s, steps[0]);
      RunKeeps(Next(s, steps[0]), steps[1..], t);
    }
  }

  /**
   In every interleaving the driver has read exactly the first events produced, in order, and stops reading
   exactly when none is left; no dequeue meets an invalid entry; and one drain reads at most 255 events,
   however fast the controller produces.
   */
  lemma DriverReadsWhatWasProduced(s: System, steps: seq<Step>, t: System)
    requires IsInit(s) && RunsTo(s, steps, t)
    ensures |t.consumed| <= |t.produced| && t.consumed == t.produced[..|t.consumed|]
    ensures Enabled(t, Check) ==> (Next(t, Check).driver == Acking <==> t.consumed == t.produced)
    ensures Enabled(t, Take) ==>
              |t.consumed| < |t.produced| && Next(t, Take).consumed == t.produced[..|t.consumed| + 1]
    ensures |t.consumed| - t.acked <= TRB_COUNT - 1
    ensures t.driver == Idle ==> t.acked == |t.consumed|
  {
    InitInv(s);
    RunKeeps(s, steps, t);
    CycleTest(t);
    if |t.consumed| == |t.produced| {
      assert t.consumed == t.produced;
    }
  }

  /** An event read through the returned pointer is intact as long as the controller is not a full lap ahead. */
  lemma PointersStayValid(s: System, steps: seq<Step>, t: System, k: nat)
    requires IsInit(s) && RunsTo(s, steps, t) && k < |t.consumed| && |t.produced| <= k + TRB_COUNT
    ensures |t.ring| == TRB_COUNT && k < |t.produced| && t.ring[Slot(k)].payload == t.produced[k]
  {
    InitInv(s);
    RunKeeps(s, steps, t);
    assert HoldsEvent(t.ring, t.produced, k);
  }

  // ------------------------------------------------------------------------- a drain ends, and reads everything

  /** The step that the driver does next. */
  function DriverStep(d: Driver): Step {
    match d
    case Idle => Begin
    case Checking => Check
    case Taking => Take
    case Acking => Ack
  }

  function DriverSteps(steps: seq<Step>): nat {
    if steps == [] then 0 else DriverSteps(steps[1..]) + if steps[0].Produce? then 0 else 1
  }

  /** The events that the controller writes during some steps. */
  function Written(steps: seq<Step>): seq<int> {
    if steps == [] then [] else (if steps[0].Produce? then [steps[0].event] else []) + Written(steps[1..])
  }

  /** An upper bound on the steps of the driver up to its next register write. */
  ghost function StepsLeft(s: System): int {
    var room := s.acked + TRB_COUNT - 1 - |s.consumed|;
    match s.driver
    case Idle => 2 * room + 4
    case Checking => 2 * room + 3
    case Taking => 2 * room + 2
    case Acking => 1
  }

  /**
   The driver is never stuck, and however fast the controller produces, it gets to the register write: without one it
   makes at most 513 steps.
   */
  lemma {:induction false} DrainEnds(s: System, steps: seq<Step>, t: System)
    requires Inv(s) && RunsTo(s, steps, t) && forall i :: 0 <= i < |steps| ==> steps[i] != Ack
    ensures Enabled(t, DriverStep(t.driver))
    ensures DriverSteps(steps) < StepsLeft(s) <= 514
    decreases |steps|
  {
    RunKeeps(s, steps, t);
    if steps != [] {
      StepKeeps(s, steps[0]);
      if steps[0].Take? { CycleTest(s); }
      DrainEnds(Next(s, steps[0]), steps[1..], t);
    }
  }

  /** From a `Begin` to the next register write. */
  ghost predicate IsDrain(steps: seq<Step>) {
    && |steps| >= 2 && steps[0] == Begin && steps[|steps| - 1] == Ack
    && forall i :: 0 <= i < |steps| - 1 ==> steps[i] != Ack
  }

  /** The last look of a drain whose driver stands as in `s`: there is none left if it is about to acknowledge. */
  ghost predicate LastLook(s: System, steps: seq<Step>, i: int) {
    && -1 <= i < |steps| && (forall k :: i < k < |steps| ==> steps[k] != Check)
    && if s.driver == Acking then i == -1 else i >= 0 && steps[i] == Check
  }

  /** What a drain has read at its end. */
  ghost function ReadAtEnd(s: System, steps: seq<Step>, i: int): seq<int> {
    if 0 <= i <= |steps| then s.produced + Written(steps[..i]) else s.consumed
  }

  /** One step back from a state of a drain to the one before. */
  lemma LookBack(s: System, steps: seq<Step>, j: int) returns (i: int)
    requires Inv(s) && s.driver != Idle && steps != [] && Enabled(s, steps[0]) && steps[0] != Ack
    requires LastLook(Next(s, steps[0]), steps[1..], j)
    ensures LastLook(s, steps, i) && ReadAtEnd(s, steps, i) == ReadAtEnd(Next(s, steps[0]), steps[1..], j)
  {
    CycleTest(s);
    i := if j >= 0 then j + 1 else if steps[0] == Check then 0 else -1;
    if i > 0 { assert steps[..i][1..] == steps[1..][..j]; }
  }

  lemma {:induction false} DrainTail(s: System, steps: seq<Step>, t: System) returns (i: int)
    requires Inv(s) && s.driver != Idle && RunsTo(s, steps, t)
    requires steps != [] && steps[|steps| - 1] == Ack && forall k :: 0 <= k < |steps| - 1 ==> steps[k] != Ack
    ensures LastLook(s, steps, i) && t.consumed == ReadAtEnd(s, steps, i)
    ensures t.driver == Idle && t.acked == |t.consumed| && t.erdp == Slot(|t.consumed|)
    decreases |steps|
  {
    if steps[0] == Ack {
      i := -1;
    } else {
      StepKeeps(s, steps[0]);
      i := DrainTail(Next(s, steps[0]), steps[1..], t);
      i := LookBack(s, steps, i);
    }
  }

  /**
   Whatever the controller does meanwhile, a drain reads everything that was produced before its last look at the ring,
   in particular everything from before it began, and writes the register behind it.
   */
  lemma DrainReadsAll(s: System, before: seq<Step>, u: System, steps: seq<Step>, t: System) returns (i: nat)
    requires IsInit(s) && RunsTo(s, before, u) && IsDrain(steps) && RunsTo(u, steps, t)
    ensures i < |steps| && steps[i] == Check && forall k :: i < k < |steps| ==> steps[k] != Check
    ensures t.consumed == u.produced + Written(steps[..i]) && t.driver == Idle
    ensures t.acked == |t.consumed| && t.erdp == Slot(|t.consumed|)
  {
    InitInv(s);
    RunKeeps(s, before, u);
    StepKeeps(u, Begin);
    var j := DrainTail(Next(u, Begin), steps[1..], t);
    i := j + 1;
    assert steps[..i][1..] == steps[1..][..j];
  }

  lemma {:induction false} RunWrites(s: System, steps: seq<Step>, t: System)
    requires RunsTo(s, steps, t)
    ensures t.produced == s.produced + Written(steps)
    decreases |steps|
  {
    if steps != [] { RunWrites(Next(s, steps[0]), steps[1..], t); }
  }

  /** If nothing is produced from the last look on, and so if nothing is produced during the drain, nothing is left. */
  lemma QuietDrainReadsAll(s: System, before: seq<Step>, u: System, steps: seq<Step>, t: System)
    requires IsInit(s) && RunsTo(s, before, u) && IsDrain(steps) && RunsTo(u, steps, t) && Written(steps) == []
    ensures t.consumed == t.produced == u.produced
  {
    var i := DrainReadsAll(s, before, u, steps, t);
    RunWrites(u, steps, t);
    WrittenPart(steps, i);
  }

  lemma {:induction false} WrittenPart(steps: seq<Step>, i: nat)
    requires i <= |steps| && Written(steps) == []
    ensures Written(steps[..i]) == []
    decreases i
  {
    if i > 0 {
      WrittenPart(steps[1..], i - 1);
      assert steps[..i][1..] == steps[1..][..i - 1];
    }
  }

  lemma {:induction false} RunsSnoc(s: System, steps: seq<Step>, t: System, step: Step)
    requires RunsTo(s, steps, t) && Enabled(t, step)
    ensures RunsTo(s, steps + [step], Next(t, step))
    decreases |steps|
  {
    if steps == [] {
      assert (steps + [step])[1..] == [];
    } else {
      RunsSnoc(Next(s, steps[0]), steps[1..], t, step);
      assert (steps + [step])[1..] == steps[1..] + [step];
    }
  }

  // ------------------------------------------------------------------------- the driver's loop on its own

  class XhciEventRing {
    var ring: seq<Trb>
    var dequeuePtr: nat
    var rcsBit: bool
    var erdp: nat
    ghost var produced: seq<int>
    ghost var consumed: seq<int>
    ghost var acked: nat

    /** The state seen as a system whose controller stands behind the last produced event. */
    ghost function State(driver: Driver): System
      reads this
    {
      System(ring, dequeuePtr, rcsBit, erdp, driver, Slot(|produced|), Cycle(|produced|), produced, consumed, acked)
    }

    constructor ()
      ensures Inv(State(Idle)) && produced == [] && consumed == []
    {
      ring := seq(TRB_COUNT, i => Trb(false, 0));
      dequeuePtr, rcsBit, erdp := 0, true, 0;
      produced, consumed, acked := [], [], 0;
    }

    method HasUnprocessedEvents() returns (r: bool)
      requires Inv(State(Checking))
      ensures r == (|consumed| < |produced|)
      ensures Next(State(Checking), Check) == State(if r then Taking else Acking)
    {
      CycleTest(State(Checking));
      r := ring[dequeuePtr].cycle == rcsBit;
    }

    method DequeueTrb() returns (ok: bool, event: int)
      requires Inv(State(Checking))
      modifies this`dequeuePtr, this`rcsBit, this`consumed
      ensures Inv(State(Checking))
      ensures ok == (old(|consumed|) < |produced|)
      ensures ok ==> event == produced[old(|consumed|)] && consumed == old(consumed) + [event]
      ensures !ok ==> State(Checking) == old(State(Checking))
      ensures Enabled(old(State(Taking)), Take)
      ensures Next(old(State(Taking)), Take) == State(if ok then Checking else Acking)
    {
      CycleTest(State(Checking));
      SlotNext(|consumed|);
      event := ring[dequeuePtr].payload;
      if ring[dequeuePtr].cycle != rcsBit {
        return false, event;
      }
      dequeuePtr := dequeuePtr + 1;
      if dequeuePtr == TRB_COUNT {
        dequeuePtr := 0;
        rcsBit := !rcsBit;
      }
      consumed := consumed + [event];
      assert consumed == produced[..|consumed|];
      return true, event;
    }

    /** The driver, on a drain from `start`, has done `steps` and stands at `d`. */
    ghost predicate Draining(start: System, steps: seq<Step>, d: Driver)
      reads this
    {
      Inv(State(Checking)) && RunsTo(start, steps, State(d)) && Unacked(steps) && steps != []
    }

    /** One look at the ring. */
    method Look(ghost start: System, ghost steps: seq<Step>) returns (more: bool, ghost steps': seq<Step>)
      requires Draining(start, steps, Checking)
      ensures more == (|consumed| < |produced|) && Draining(start, steps', if more then Taking else Acking)
    {
      more := HasUnprocessedEvents();
      steps' := DriverDid(start, steps, State(Checking), State(if more then Taking else Acking));
    }

    /** One dequeue; it does not fail after such a look. */
    method Fetch(ghost start: System, ghost steps: seq<Step>) returns (ok: bool, event: int, ghost steps': seq<Step>)
      requires Draining(start, steps, Taking) && |consumed| < |produced|
      modifies this`dequeuePtr, this`rcsBit, this`consumed
      ensures ok && Draining(start, steps', Checking)
      ensures event == produced[old(|consumed|)] && consumed == old(consumed) + [event]
    {
      ghost var taking := State(Taking);
      ok, event := DequeueTrb();
      steps' := DriverDid(start, steps, taking, State(Checking));
    }

    /** The loop of a drain. */
    method DequeueAll(ghost start: System, ghost begun: seq<Step>) returns (events: seq<int>, ghost steps: seq<Step>)
      requires Draining(start, begun, Checking)
      modifies this`dequeuePtr, this`rcsBit, this`consumed
      ensures Draining(start, steps, Acking) && |consumed| == |produced| && old(|consumed|) <= |produced|
      ensures events == produced[old(|consumed|)..]
    {
      events := [];
      var more;
      more, steps := Look(start, begun);
      while more
        invariant Draining(start, steps, if more then Taking else Acking)
        invariant more == (|consumed| < |produced|) && old(|consumed|) <= |consumed| <= |produced|
        invariant events == produced[old(|consumed|)..|consumed|]
        decreases |produced| - |consumed|
      {
        var ok, event;
        ok, event, steps := Fetch(start, steps);
        if !ok {
          break;
        }
        events := events + [event];
        more, steps := Look(start, steps);
      }
    }

    /** The register write. */
    method UpdateErdp(ghost start: System, ghost steps: seq<Step>) returns (ghost steps': seq<Step>)
      requires Draining(start, steps, Acking)
      modifies this`erdp, this`acked
      ensures Inv(State(Idle)) && acked == |consumed| && erdp == dequeuePtr
      ensures RunsTo(start, steps', State(Idle)) && IsDrain(steps') && Written(steps') == []
    {
      ghost var acking := State(Acking);
      erdp := dequeuePtr;
      acked := |consumed|;
      steps' := DriverDid(start, steps, acking, State(Idle));
    }

    /** Drains all outstanding events, then acknowledges them: a drain of the steps above. */
    method DequeueEvents() returns (events: seq<int>, ghost steps: seq<Step>)
      requires Inv(State(Idle))
      modifies this`dequeuePtr, this`rcsBit, this`consumed, this`erdp, this`acked
      ensures Inv(State(Idle)) && events == produced[old(|consumed|)..] && consumed == produced
      ensures acked == |consumed| && erdp == dequeuePtr
      ensures |events| <= TRB_COUNT - 1
      ensures RunsTo(old(State(Idle)), steps, State(Idle)) && IsDrain(steps) && Written(steps) == []
    {
      ghost var start := State(Idle);
      steps := DriverDid(start, [], start, State(Checking));
      events, steps := DequeueAll(start, steps);
      steps := UpdateErdp(start, steps);
    }
  }

  /** A drain that has begun and not yet written the register, and during which nothing is produced. */
  ghost predicate Unacked(steps: seq<Step>) {
    && (steps != [] ==> steps[0] == Begin)
    && (forall i :: 0 <= i < |steps| ==> steps[i] != Ack) && Written(steps) == []
  }

  /** The driver's next step, at the end of a run. */
  lemma DriverDid(s: System, steps: seq<Step>, t: System, t': System) returns (steps': seq<Step>)
    requires RunsTo(s, steps, t) && Unacked(steps) && Enabled(t, DriverStep(t.driver))
    requires t' == Next(t, DriverStep(t.driver)) && (steps == [] <==> t.driver == Idle)
    ensures |steps'| == |steps| + 1 && RunsTo(s, steps', t')
    ensures t.driver != Acking ==> Unacked(steps')
    ensures t.driver == Acking ==> IsDrain(steps') && Written(steps') == []
  {
    steps' := steps + [DriverStep(t.driver)];
    RunsSnoc(s, steps, t, DriverStep(t.driver));
    WrittenSnoc(steps, DriverStep(t.driver));
  }

  lemma {:induction false} WrittenSnoc(steps: seq<Step>, step: Step)
    ensures Written(steps + [step]) == Written(steps) + if step.Produce? then [step.event] else []
    decreases |steps|
  {
    if steps == [] {
      assert (steps + [step])[1..] == [];
    } else {
      var last := if step.Produce? then [step.event] else [];
      var first := if steps[0].Produce? then [steps[0].event] else [];
      WrittenSnoc(steps[1..], step);
      assert (steps + [step])[1..] == steps[1..] + [step];
      assert first + (Written(steps[1..]) + last) == (first + Written(steps[1..])) + last;
    }
  }
}
