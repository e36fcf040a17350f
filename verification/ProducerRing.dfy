/**
 The xHCI command and transfer rings: the driver produces, the controller consumes.

 The last of 256 entries is a Link TRB back to the first.  The driver builds it once, with cycle bit 1 and
 without the toggle-cycle bit, and flips its own cycle state on every lap.  The controller follows sections
 4.9.2, 4.9.3 and 6.4.4.1 of the xHCI specification: it reads entries whose cycle bit equals its consumer
 cycle state, follows the link, and flips that state only if the link asks for it.
 */
module ProducerRing {

  const TRB_COUNT := 256
  const USABLE := 255          // entries before the Link TRB

  /** An entry; a work item is named by the number of its enqueue. */
  datatype Trb = Blank | Work(cycle: bool, number: nat) | Link(cycle: bool, toggle: bool)

  /** A blank entry is all zeros, so its cycle bit is 0. */
  function CycleBit(t: Trb): bool {
    if t.Blank? then false else t.cycle
  }

  datatype Ring = Ring(entries: seq<Trb>, enqueuePtr: nat, cycle: bool)

  function NewRing(): Ring {
    Ring(seq(TRB_COUNT, i => if i == USABLE then Link(true, false) else Blank), 0, true)
  }

  function Enqueue(r: Ring, number: nat): Ring
    requires r.enqueuePtr < |r.entries|
  {
    var wraps := r.enqueuePtr + 1 == USABLE;
    Ring(r.entries[r.enqueuePtr := Work(r.cycle, number)],
         if wraps then 0 else r.enqueuePtr + 1, if wraps then !r.cycle else r.cycle)
  }

  // ------------------------------------------------------------------------- the producer

  /** The position and the cycle bit of enqueue number `k`. */
  function Slot(k: nat): (i: nat)
    ensures i < USABLE
    decreases k
  {
    if k < USABLE then k else Slot(k - USABLE)
  }

  predicate Cycle(k: nat)
    decreases k
  {
    if k < USABLE then true else !Cycle(k - USABLE)
  }

  lemma {:induction false} SlotByRemainder(k: nat)
    ensures Slot(k) == k % USABLE && Cycle(k) == (k / USABLE % 2 == 0)
    decreases k
  {
    if k >= USABLE {
      SlotByRemainder(k - USABLE);
      assert k % USABLE == (k - USABLE) % USABLE && k / USABLE == (k - USABLE) / USABLE + 1;
    }
  }

  lemma {:induction false} SlotNext(k: nat)
    ensures Slot(k + 1) == if Slot(k) + 1 == USABLE then 0 else Slot(k) + 1
    ensures Cycle(k + 1) == if Slot(k) + 1 == USABLE then !Cycle(k) else Cycle(k)
    decreases k
  {
    if k >= USABLE { SlotNext(k - USABLE); }
  }

  lemma {:induction false} SlotsDiffer(j: nat, k: nat)
    requires j < k < j + USABLE
    ensures Slot(j) != Slot(k)
    decreases k
  {
    if j >= USABLE {
      SlotsDiffer(j - USABLE, k - USABLE);
    }
  }

  /** After `k` enqueues: the last lap of items with their cycle bits, blanks before, and the untouched link. */
  ghost predicate After(r: Ring, k: nat) {
    && |r.entries| == TRB_COUNT && r.enqueuePtr == Slot(k) && r.cycle == Cycle(k)
    && r.entries[USABLE] == Link(true, false)
    && (forall i :: 0 <= i < k < i + TRB_COUNT ==> r.entries[Slot(i)] == Work(Cycle(i), i))
    && (forall i :: k <= i < USABLE ==> r.entries[i] == Blank)
  }

  /** The ring after the first `k` enqueues. */
  function Produced(k: nat): (r: Ring)
    ensures r.enqueuePtr < USABLE && |r.entries| == TRB_COUNT
  {
    if k == 0 then NewRing() else Enqueue(Produced(k - 1), k - 1)
  }

  lemma {:induction false} EnqueueKeeps(r: Ring, k: nat)
    requires After(r, k)
    ensures After(Enqueue(r, k), k + 1)
  {
    var r' := Enqueue(r, k);
    SlotNext(k);
    forall i | 0 <= i < k + 1 < i + TRB_COUNT ensures r'.entries[Slot(i)] == Work(Cycle(i), i) {
      if i < k { SlotsDiffer(i, k); }
    }
  }

  lemma {:induction false} ProducedAfter(k: nat)
    ensures After(Produced(k), k)
  {
    if k > 0 {
      ProducedAfter(k - 1);
      EnqueueKeeps(Produced(k - 1), k - 1);
    }
  }

  /** The enqueue pointer is `k` mod 255, the cycle state flips every 255 enqueues, the link never changes. */
  lemma ProducedState(k: nat)
    ensures After(Produced(k), k)
    ensures Produced(k).enqueuePtr == k % USABLE && Produced(k).cycle == (k / USABLE % 2 == 0)
    ensures Produced(k).entries[USABLE] == Link(true, false)
  {
    ProducedAfter(k);
    SlotByRemainder(k);
  }

  // ------------------------------------------------------------------------- producer and consumer

  /** The ring, how many items were enqueued, and the controller with the numbers it has consumed. */
  datatype System = System(ring: Ring, enqueued: nat, dequeuePtr: nat, ccs: bool, consumed: seq<nat>)

  datatype Step = DoEnqueue | DoConsume

  function Consume(s: System): System
    requires s.dequeuePtr < |s.ring.entries|
  {
    var t := s.ring.entries[s.dequeuePtr];
    if CycleBit(t) != s.ccs then s
    else
      match t
      case Link(_, toggle) => s.(dequeuePtr := 0, ccs := if toggle then !s.ccs else s.ccs)
      case Work(_, number) => s.(dequeuePtr := s.dequeuePtr + 1, consumed := s.consumed + [number])
      case Blank => s.(dequeuePtr := s.dequeuePtr + 1)
  }

  ghost predicate InBounds(s: System) {
    && |s.ring.entries| == TRB_COUNT && s.ring.enqueuePtr < USABLE && s.dequeuePtr < TRB_COUNT
    && s.ring.entries[USABLE] == Link(true, false)
  }

  function Next(s: System, step: Step): (t: System)
    requires InBounds(s)
    ensures InBounds(t)
  {
    match step
    case DoEnqueue => s.(ring := Enqueue(s.ring, s.enqueued), enqueued := s.enqueued + 1)
    case DoConsume => Consume(s)
  }

  ghost function Run(steps: seq<Step>): (t: System)
    ensures InBounds(t)
    decreases |steps|
  {
    if steps == [] then System(NewRing(), 0, 0, true, []) else Next(Run(steps[..|steps| - 1]), steps[|steps| - 1])
  }

  /** What every run keeps: the consumer's cycle state stays 1, so it reads entries of even laps only. */
  ghost predicate Inv(s: System) {
    && After(s.ring, s.enqueued) && s.dequeuePtr < TRB_COUNT && s.ccs
    && (forall i :: 0 <= i < |s.consumed| ==> s.consumed[i] < s.enqueued && Cycle(s.consumed[i]))
    && (forall j :: 0 <= j < USABLE ==> s.ring.entries[j].Blank? || s.ring.entries[j].Work?)
    && (forall j :: 0 <= j < USABLE && s.ring.entries[j].Work? ==>
          s.ring.entries[j].number < s.enqueued && s.ring.entries[j].cycle == Cycle(s.ring.entries[j].number))
  }

  lemma NextKeeps(s: System, step: Step)
    requires Inv(s)
    ensures Inv(Next(s, step))
  {
    if step == DoEnqueue { EnqueueKeeps(s.ring, s.enqueued); }
  }

  lemma {:induction false} RunKeeps(steps: seq<Step>)
    ensures Inv(Run(steps))
    decreases |steps|
  {
    if steps == [] {
      ProducedAfter(0);
    } else {
      RunKeeps(steps[..|steps| - 1]);
      NextKeeps(Run(steps[..|steps| - 1]), steps[|steps| - 1]);
    }
  }

  /** In every run, an item enqueued on an odd lap is never consumed: there the two cycle states have parted. */
  lemma OddLapsAreInvisible(steps: seq<Step>, k: nat)
    requires k / USABLE % 2 == 1
    ensures k !in Run(steps).consumed
  {
    RunKeeps(steps);
    SlotByRemainder(k);
  }

  /** The controller has consumed items 0, 1, 2, ..., each once, and gets no further item exactly if none is left. */
  ghost predicate IsQueue(s: System)
    requires InBounds(s)
  {
    && |s.consumed| <= s.enqueued && (forall i :: 0 <= i < |s.consumed| ==> s.consumed[i] == i)
    && (Consume(s).consumed == s.consumed <==> |s.consumed| == s.enqueued)
  }

  /** The invariant of the first lap: the consumer stands behind the last item it has read. */
  ghost predicate Fifo(s: System) {
    && s.enqueued < USABLE && s.dequeuePtr == |s.consumed| <= s.enqueued
    && (forall i :: 0 <= i < |s.consumed| ==> s.consumed[i] == i)
  }

  lemma FifoStep(s: System, step: Step)
    requires Inv(s) && Fifo(s) && (step == DoEnqueue ==> s.enqueued + 1 < USABLE)
    ensures Fifo(Next(s, step))
    ensures step == DoConsume ==> (Next(s, step).consumed == s.consumed <==> |s.consumed| == s.enqueued)
  {
    if step == DoConsume {
      var d := s.dequeuePtr;
      if d < s.enqueued { assert s.ring.entries[Slot(d)] == Work(Cycle(d), d); }
    }
  }

  lemma {:induction false} FirstLap(steps: seq<Step>)
    requires Run(steps).enqueued < USABLE
    ensures Fifo(Run(steps))
    decreases |steps|
  {
    if steps != [] {
      RunKeeps(steps[..|steps| - 1]);
      FirstLap(steps[..|steps| - 1]);
      FifoStep(Run(steps[..|steps| - 1]), steps[|steps| - 1]);
    }
  }

  /**
   In every run with at most 254 enqueues the controller consumes items 0, 1, 2, ... and stops only when none is left.
   */
  lemma FifoUpTo254(steps: seq<Step>)
    requires Run(steps).enqueued < USABLE
    ensures IsQueue(Run(steps))
  {
    RunKeeps(steps);
    FirstLap(steps);
    FifoStep(Run(steps), DoConsume);
  }

  lemma RunSnoc(steps: seq<Step>, step: Step)
    ensures Run(steps + [step]) == Next(Run(steps), step)
  {
    assert (steps + [step])[..|steps|] == steps;
  }

  /** `n` enqueues, then `k` steps of the controller. */
  ghost function LapSteps(n: nat, k: nat): seq<Step>
    decreases k, n
  {
    if k > 0 then LapSteps(n, k - 1) + [DoConsume]
    else if n > 0 then LapSteps(n - 1, 0) + [DoEnqueue]
    else []
  }

  function UpTo(k: nat): seq<nat> {
    if k == 0 then [] else UpTo(k - 1) + [k - 1]
  }

  lemma {:induction false} EnqueuesOnly(n: nat)
    ensures Run(LapSteps(n, 0)) == System(Produced(n), n, 0, true, [])
  {
    if n > 0 {
      EnqueuesOnly(n - 1);
      RunSnoc(LapSteps(n - 1, 0), DoEnqueue);
    }
  }

  lemma ReadsItem(n: nat, k: nat, read: seq<nat>)
    requires k < n == USABLE
    ensures Consume(System(Produced(n), n, k, true, read)) == System(Produced(n), n, k + 1, true, read + [k])
  {
    ProducedAfter(n);
    assert Produced(n).entries[Slot(k)] == Work(Cycle(k), k);
  }

  /** After 255 enqueues the controller first reads all 255 items in order. */
  lemma {:induction false} ReadsFullLap(n: nat, k: nat)
    requires k <= n == USABLE
    ensures Run(LapSteps(n, k)) == System(Produced(n), n, k, true, UpTo(k))
    decreases k
  {
    if k == 0 {
      EnqueuesOnly(n);
    } else {
      ReadsFullLap(n, k - 1);
      RunSnoc(LapSteps(n, k - 1), DoConsume);
      ReadsItem(n, k - 1, UpTo(k - 1));
    }
  }

  /** Then it is no queue: the link is followed without a flip, and item 0 is consumed a second time. */
  lemma ItemZeroAgain(n: nat)
    requires n == USABLE
    ensures var s := Run(LapSteps(n, n + 2)); s.enqueued == n && s.consumed == UpTo(n) + [0]
  {
    ReadsFullLap(n, n);
    ProducedAfter(n);
    RunSnoc(LapSteps(n, n), DoConsume);
    RunSnoc(LapSteps(n, n + 1), DoConsume);
    assert Run(LapSteps(n, n + 1)) == System(Produced(n), n, 0, true, UpTo(n));
    ReadsItem(n, 0, UpTo(n));
  }

  /**
   The rings are queues in every schedule of up to `k` enqueues exactly if `k` is at most 254.  With one more, the
   controller follows the untoggled link and consumes item 0 again, although it was enqueued once.
   */
  lemma FifoExactly(k: nat)
    ensures (forall steps :: Run(steps).enqueued <= k ==> IsQueue(Run(steps))) <==> k < USABLE
  {
    if k < USABLE {
      forall steps | Run(steps).enqueued <= k ensures IsQueue(Run(steps)) { FifoUpTo254(steps); }
    } else {
      ItemZeroAgain(USABLE);
      var s := Run(LapSteps(USABLE, USABLE + 2));
      UpToLength(USABLE);
      assert s.enqueued <= k && s.consumed[USABLE] == 0;
    }
  }

  lemma {:induction false} UpToLength(k: nat)
    ensures |UpTo(k)| == k
  {
    if k > 0 { UpToLength(k - 1); }
  }

  // ------------------------------------------------------------------------- the object

  /** The command ring and the transfer ring run the same code. */
  class XhciRing {
    var trbRing: seq<Trb>
    var enqueuePtr: nat
    var cycleBit: bool
    ghost var enqueued: nat

    ghost predicate Valid()
      reads this
    {
      Ring(trbRing, enqueuePtr, cycleBit) == Produced(enqueued)
    }

    constructor ()
      ensures Valid() && enqueued == 0
    {
      trbRing := seq(TRB_COUNT, i => Blank)[USABLE := Link(true, false)];
      enqueuePtr, cycleBit, enqueued := 0, true, 0;
      new;
      assert trbRing == NewRing().entries;
    }

    method EnqueueTrb(number: nat)
      requires Valid() && number == enqueued
      modifies this
      ensures Valid() && enqueued == old(enqueued) + 1
    {
      trbRing := trbRing[enqueuePtr := Work(cycleBit, number)];
      enqueuePtr := enqueuePtr + 1;
      if enqueuePtr == TRB_COUNT - 1 {
        enqueuePtr := 0;
        cycleBit := !cycleBit;
      }
      enqueued := enqueued + 1;
    }
  }
}
