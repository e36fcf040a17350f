/**
 A request or a free that no other thread disturbs does what the sequential allocator does.

 The steps of one thread, taken one after the other from any state that threads can reach together, lead back to the
 idle thread, and leave bitmap, hint and counters as the call of the sequential allocator leaves them.
 */
module FrameAlone {
  import opened FrameBitmap
  import opened PageTables
  import opened FrameConcurrency
  import A = FrameAllocator

  /** The shared state as the sequential allocator sees it. */
  ghost function View(s: System): A.Frames {
    A.Frames(BitsOf(s.bytes), s.total, s.hint, s.freeMemory, s.usedMemory)
  }

  // ------------------------------------------------------------------------- steps of one thread

  ghost predicate StepAt(states: seq<System>, t: nat, i: nat) {
    i + 1 < |states| && Enabled(states[i], Run(t)) && states[i + 1] == Next(states[i], Run(t))
  }

  /** The states lead from `s` to `z` by steps of thread `t`. */
  ghost predicate IsPath(states: seq<System>, t: nat, s: System, z: System) {
    && states != [] && states[0] == s && states[|states| - 1] == z
    && forall i {:trigger StepAt(states, t, i)} :: 0 <= i < |states| - 1 ==> StepAt(states, t, i)
  }

  /** Steps of thread `t`, and of no other thread, lead from `s` to `z`. */
  ghost predicate Alone(s: System, t: nat, z: System) {
    exists states :: IsPath(states, t, s, z)
  }

  lemma AloneHere(s: System, t: nat)
    ensures Alone(s, t, s)
  {
    assert IsPath([s], t, s, s);
  }

  lemma AloneStep(s: System, t: nat)
    requires Enabled(s, Run(t))
    ensures Alone(s, t, Next(s, Run(t)))
  {
    var states := [s, Next(s, Run(t))];
    assert StepAt(states, t, 0);
    assert IsPath(states, t, s, Next(s, Run(t)));
  }

  lemma AloneOn(s: System, t: nat, u: System, z: System)
    requires Alone(s, t, u) && Alone(u, t, z)
    ensures Alone(s, t, z)
  {
    var a :| IsPath(a, t, s, u);
    var b :| IsPath(b, t, u, z);
    PathsJoin(a, b, t, s, u, z);
  }

  lemma PathsJoin(a: seq<System>, b: seq<System>, t: nat, s: System, u: System, z: System)
    requires IsPath(a, t, s, u) && IsPath(b, t, u, z)
    ensures IsPath(a + b[1..], t, s, z)
  {
    var c := a + b[1..];
    forall i | 0 <= i < |c| - 1 ensures StepAt(c, t, i) {
      if i < |a| - 1 {
        assert StepAt(a, t, i);
      } else {
        assert StepAt(b, t, i - (|a| - 1));
      }
    }
  }

  /** Moving a thread twice is moving it once. */
  lemma Moved(pcs: map<nat, Pc>, t: nat, a: Pc, b: Pc)
    ensures pcs[t := a][t := b] == pcs[t := b]
  {
  }

  // ------------------------------------------------------------------------- one update

  /** Steps left inside an update. */
  function Left(phase: Phase): nat {
    match phase
    case WaitLock => 11
    case Test => 10
    case LoadClear => 9
    case StoreClear(_) => 8
    case LoadSet => 7
    case StoreSet(_) => 6
    case LoadFreeMemory => 5
    case StoreFreeMemory(_) => 4
    case LoadUsedMemory => 3
    case StoreUsedMemory(_) => 2
    case Release => 1
  }

  ghost predicate SumsFit(s: System, phase: Phase, used: bool) {
    && (phase.StoreFreeMemory? ==> phase.sum == s.freeMemory + Gain(used))
    && (phase.StoreUsedMemory? ==> phase.sum == s.usedMemory - Gain(used))
  }

  /** An update by thread `t` leads from `s` to `z` and to the point `pc`: bit `f` and the counters may differ. */
  ghost predicate Updated(s: System, t: nat, z: System, pc: Pc, lock: Option<nat>, bits: seq<bool>,
                          free: int, used: int) {
    && Inv(z) && Alone(s, t, z) && BitsOf(z.bytes) == bits && z.freeMemory == free && z.usedMemory == used
    && z == s.(bytes := z.bytes, pcs := s.pcs[t := pc], freeMemory := free, usedMemory := used, allocatorLock := lock)
  }

  lemma UpdatedOn(s: System, t: nat, u: System, z: System, pc: Pc, pc': Pc, lock: Option<nat>, lock': Option<nat>,
                  bits: seq<bool>, bits': seq<bool>, free: int, free': int, used: int, used': int)
    requires Updated(s, t, u, pc, lock, bits, free, used) && Updated(u, t, z, pc', lock', bits', free', used')
    ensures Updated(s, t, z, pc', lock', bits', free', used')
  {
    AloneOn(s, t, u, z);
    Moved(s.pcs, t, pc, pc');
  }

  /** The state after one step inside the update of a frame that is to be used and is not yet. */
  lemma MarkNext(s: System, t: nat, job: Job, page: nat, k: nat, phase: Phase) returns (z: System, next: Phase)
    requires t in s.pcs && s.pcs[t] == SetUsed(job, page, k, phase) && (page + k) / 8 < |s.bytes|
    requires SumsFit(s, phase, true) && (phase == WaitLock ==> s.allocatorLock == None)
    requires (phase != WaitLock ==> s.allocatorLock == Some(t)) && (phase == Test ==> !Used(s.bytes, page + k))
    ensures Enabled(s, Run(t)) && z == Next(s, Run(t))
    ensures z == s.(bytes := z.bytes,
                    pcs := s.pcs[t := if phase == Release then Locking(job, page, k + 1)
                                      else SetUsed(job, page, k, next)],
                    allocatorLock := if phase == Release then None else Some(t),
                    freeMemory := s.freeMemory + (if phase.StoreFreeMemory? then Gain(true) else 0),
                    usedMemory := s.usedMemory - (if phase.StoreUsedMemory? then Gain(true) else 0))
    ensures phase != Release ==> Left(next) == Left(phase) - 1 && SumsFit(z, next, true)
  {
    var f := page + k;
    z, next := Next(s, Run(t)), PhaseAfter(s, s.bytes[f / 8], f, true, phase);
  }

  /** One step inside the update of a frame that is to be used. */
  lemma MarkStep(s: System, t: nat, job: Job, page: nat, k: nat, phase: Phase) returns (z: System, next: Phase)
    requires Inv(s) && t in s.pcs && s.pcs[t] == SetUsed(job, page, k, phase) && SumsFit(s, phase, true)
    requires phase == WaitLock ==> s.allocatorLock == None
    ensures page + k < |BitsOf(s.bytes)|
    ensures Updated(s, t, z, if phase == Release then Locking(job, page, k + 1) else SetUsed(job, page, k, next),
                    if phase == Release then None else Some(t),
                    if phase.StoreSet? then BitsOf(s.bytes)[page + k := true] else BitsOf(s.bytes),
                    s.freeMemory + (if phase.StoreFreeMemory? then Gain(true) else 0),
                    s.usedMemory - (if phase.StoreUsedMemory? then Gain(true) else 0))
    ensures phase != Release ==> Left(next) == Left(phase) - 1 && SumsFit(z, next, true)
  {
    assert ThreadOk(s, t);
    NotYetUsed(s, t);
    z, next := MarkNext(s, t, job, page, k, phase);
    MarkBits(s, t, job, page, k, phase);
    StepKeeps(s, Run(t));
    AloneStep(s, t);
  }

  lemma MarkBits(s: System, t: nat, job: Job, page: nat, k: nat, phase: Phase)
    requires Inv(s) && t in s.pcs && s.pcs[t] == SetUsed(job, page, k, phase) && Enabled(s, Run(t))
    ensures page + k < |BitsOf(s.bytes)|
    ensures BitsOf(Next(s, Run(t)).bytes) ==
            if phase.StoreSet? then BitsOf(s.bytes)[page + k := true] else BitsOf(s.bytes)
  {
    var z, f := Next(s, Run(t)), page + k;
    assert ThreadOk(s, t);
    SetUsedBits(s, Run(t), 0);
    forall g | 0 <= g < 8 * |s.bytes|
      ensures BitsOf(z.bytes)[g] == if phase.StoreSet? && g == f then true else BitsOf(s.bytes)[g]
    {
      SetUsedBits(s, Run(t), g);
    }
  }

  /** Bits and counters at the end of the update of a frame that is to be used. */
  function MarkedBits(bits: seq<bool>, f: nat, phase: Phase): seq<bool> {
    if Left(phase) >= 6 && f < |bits| then bits[f := true] else bits
  }

  function MarkedFree(free: int, phase: Phase): int {
    free + if Left(phase) >= 4 then Gain(true) else 0
  }

  function MarkedUsed(used: int, phase: Phase): int {
    used - if Left(phase) >= 2 then Gain(true) else 0
  }

  /** A step brings bits and counters nearer to the same end. */
  lemma SameEnd(bits: seq<bool>, f: nat, free: int, used: int, phase: Phase, next: Phase)
    requires Left(next) == Left(phase) - 1
    ensures MarkedBits(if phase.StoreSet? && f < |bits| then bits[f := true] else bits, f, next) ==
            MarkedBits(bits, f, phase)
    ensures MarkedFree(free + (if phase.StoreFreeMemory? then Gain(true) else 0), next) == MarkedFree(free, phase)
    ensures MarkedUsed(used - (if phase.StoreUsedMemory? then Gain(true) else 0), next) == MarkedUsed(used, phase)
  {
  }

  /** The update of a frame that is to be used, from any of its steps to its end. */
  lemma {:induction false} MarkAlone(s: System, t: nat, job: Job, page: nat, k: nat, phase: Phase) returns (z: System)
    requires Inv(s) && t in s.pcs && s.pcs[t] == SetUsed(job, page, k, phase) && SumsFit(s, phase, true)
    requires phase == WaitLock ==> s.allocatorLock == None
    ensures page + k < |BitsOf(s.bytes)|
    ensures Updated(s, t, z, Locking(job, page, k + 1), None, MarkedBits(BitsOf(s.bytes), page + k, phase),
                    MarkedFree(s.freeMemory, phase), MarkedUsed(s.usedMemory, phase))
    decreases Left(phase)
  {
    var u, next := MarkStep(s, t, job, page, k, phase);
    if phase == Release {
      z := u;
    } else {
      z := MarkAlone(u, t, job, page, k, next);
      SameEnd(BitsOf(s.bytes), page + k, s.freeMemory, s.usedMemory, phase, next);
      UpdatedOn(s, t, u, z, SetUsed(job, page, k, next), Locking(job, page, k + 1), Some(t), None,
                BitsOf(u.bytes), MarkedBits(BitsOf(s.bytes), page + k, phase), u.freeMemory,
                MarkedFree(s.freeMemory, phase), u.usedMemory, MarkedUsed(s.usedMemory, phase));
    }
  }

  // ------------------------------------------------------------------------- locking the frames

  /** Locking one frame of a request. */
  lemma LockOneAlone(s: System, t: nat, job: Job, page: nat, k: nat) returns (z: System)
    requires Inv(s) && t in s.pcs && s.pcs[t] == Locking(job, page, k) && k < job.n && s.allocatorLock == None
    ensures Inv(z) && Alone(s, t, z) && z.pcs == s.pcs[t := Locking(job, page, k + 1)]
    ensures z == s.(bytes := z.bytes, pcs := z.pcs, freeMemory := z.freeMemory, usedMemory := z.usedMemory)
    ensures page + k < |View(s).bits| && View(z) == A.LockFrame(View(s), page + k)
  {
    var u := LockBegins(s, t, job, page, k);
    z := MarkAlone(u, t, job, page, k, WaitLock);
    AloneOn(s, t, u, z);
    Moved(s.pcs, t, SetUsed(job, page, k, WaitLock), Locking(job, page, k + 1));
  }

  lemma LockBegins(s: System, t: nat, job: Job, page: nat, k: nat) returns (u: System)
    requires Inv(s) && t in s.pcs && s.pcs[t] == Locking(job, page, k) && k < job.n
    ensures Inv(u) && Alone(s, t, u) && u == s.(pcs := s.pcs[t := SetUsed(job, page, k, WaitLock)])
    ensures page + k < |BitsOf(s.bytes)| && !BitsOf(s.bytes)[page + k]
  {
    assert ThreadOk(s, t);
    u := Next(s, Run(t));
    StepKeeps(s, Run(t));
    AloneStep(s, t);
  }

  /** Locking all frames of a request, after the first `k`. */
  lemma {:induction false} LockAlone(s0: System, s: System, t: nat, job: Job, page: nat, k: nat) returns (z: System)
    requires Alone(s0, t, s) && Inv(s) && t in s.pcs && s.pcs == s0.pcs[t := Locking(job, page, k)] && k <= job.n
    requires s0.allocatorLock == None && page + job.n <= |View(s0).bits|
    requires s == s0.(bytes := s.bytes, pcs := s.pcs, freeMemory := s.freeMemory, usedMemory := s.usedMemory)
    requires View(s) == A.LockRange(View(s0), page, k)
    ensures Inv(z) && Alone(s0, t, z) && z.pcs == s0.pcs[t := Locking(job, page, job.n)]
    ensures z == s0.(bytes := z.bytes, pcs := z.pcs, freeMemory := z.freeMemory, usedMemory := z.usedMemory)
    ensures View(z) == A.LockRange(View(s0), page, job.n)
    decreases job.n - k
  {
    if k == job.n {
      z := s;
    } else {
      var u := LockOneAlone(s, t, job, page, k);
      AloneOn(s0, t, s, u);
      Moved(s0.pcs, t, Locking(job, page, k), Locking(job, page, k + 1));
      z := LockAlone(s0, u, t, job, page, k + 1);
    }
  }

  // ------------------------------------------------------------------------- searching

  /** One step of the search. */
  lemma ScanStep(s: System, t: nat, job: Job, page: nat, k: nat) returns (u: System)
    requires Inv(s) && t in s.pcs && s.pcs[t] == Scan(job, page, k)
    ensures Inv(u) && Alone(s, t, u) && s.total < |BitsOf(s.bytes)| && k <= job.n
    ensures page >= s.total ==> u == s.(pcs := s.pcs[t := Idle], requestLock := None)
    ensures page < s.total && k == job.n ==>
              u == s.(pcs := s.pcs[t := Locking(job, page, 0)]) && A.AllFree(BitsOf(s.bytes), page, job.n)
    ensures page < s.total && k < job.n ==>
              && page + k <= s.total
              && if BitsOf(s.bytes)[page + k] then u == s.(pcs := s.pcs[t := Scan(job, page + 1, 0)])
                 else u == s.(pcs := s.pcs[t := Scan(job, page, k + 1)])
  {
    assert ThreadOk(s, t);
    u := Next(s, Run(t));
    StepKeeps(s, Run(t));
    AloneStep(s, t);
  }

  /** The state after a search that finds a run of free frames at `K`, or none. */
  ghost function Found(s: System, t: nat, job: Job, K: nat): System {
    if K < s.total then s.(pcs := s.pcs[t := Locking(job, K, 0)]) else s.(pcs := s.pcs[t := Idle], requestLock := None)
  }

  /** The search from any of its steps: it finds the first run of free frames, or gives up. */
  lemma {:induction false} ScanAlone(s: System, t: nat, job: Job, page: nat, k: nat, bits: seq<bool>)
    requires Inv(s) && t in s.pcs && s.pcs[t] == Scan(job, page, k) && bits == BitsOf(s.bytes)
    ensures var z := Found(s, t, job, A.FirstRun(bits, page, s.total, job.n)); Inv(z) && Alone(s, t, z)
    decreases s.total - page, job.n - k
  {
    var K := A.FirstRun(bits, page, s.total, job.n);
    var u := ScanStep(s, t, job, page, k);
    if page < s.total && k < job.n {
      var next := if bits[page + k] then Scan(job, page + 1, 0) else Scan(job, page, k + 1);
      ScanAlone(u, t, job, next.page, next.k, bits);
      Moved(s.pcs, t, next, Locking(job, K, 0));
      Moved(s.pcs, t, next, Idle);
      AloneOn(s, t, u, Found(s, t, job, K));
    }
  }

  lemma TrackStep(s: System, t: nat, job: Job, page: nat, pg: nat) returns (u: System)
    requires Inv(s) && t in s.pcs && s.pcs[t] == Track(job, page, pg)
    ensures Inv(u) && Alone(s, t, u) && s.total < |BitsOf(s.bytes)|
    ensures u == if pg >= s.total then s.(pcs := s.pcs[t := Leave(job, page)])
                 else if !BitsOf(s.bytes)[pg] then s.(pcs := s.pcs[t := Leave(job, page)], hint := pg)
                 else s.(pcs := s.pcs[t := Track(job, page, pg + 1)])
  {
    assert ThreadOk(s, t);
    u := Next(s, Run(t));
    StepKeeps(s, Run(t));
    AloneStep(s, t);
  }

  /** The state after the next hint was looked for. */
  ghost function Tracked(s: System, t: nat, job: Job, page: nat, h: nat): System {
    s.(pcs := s.pcs[t := Leave(job, page)], hint := if h < s.total then h else s.hint)
  }

  lemma {:induction false} TrackAlone(s: System, t: nat, job: Job, page: nat, pg: nat, bits: seq<bool>)
    requires Inv(s) && t in s.pcs && s.pcs[t] == Track(job, page, pg) && bits == BitsOf(s.bytes) && s.total <= |bits|
    ensures var z := Tracked(s, t, job, page, A.FirstFree(bits, pg, s.total)); Inv(z) && Alone(s, t, z)
    decreases s.total - pg
  {
    var u := TrackStep(s, t, job, page, pg);
    if pg < s.total && bits[pg] {
      TrackAlone(u, t, job, page, pg + 1, bits);
      Moved(s.pcs, t, Track(job, page, pg + 1), Leave(job, page));
      AloneOn(s, t, u, Tracked(s, t, job, page, A.FirstFree(bits, pg, s.total)));
    }
  }

  // ------------------------------------------------------------------------- whole requests

  /** The first step after the last frame is locked. */
  lemma LockedStep(s: System, t: nat, job: Job, page: nat) returns (u: System)
    requires Inv(s) && t in s.pcs && s.pcs[t] == Locking(job, page, job.n)
    ensures Inv(u) && Alone(s, t, u) && s.total <= |BitsOf(s.bytes)|
    ensures u == if job.single then s.(pcs := s.pcs[t := Leave(job, page)], hint := page + 1)
                 else s.(pcs := s.pcs[t := Track(job, page, s.hint)])
  {
    assert ThreadOk(s, t);
    u := Next(s, Run(t));
    StepKeeps(s, Run(t));
    AloneStep(s, t);
  }

  lemma LeaveStep(s: System, t: nat, job: Job, page: nat) returns (u: System)
    requires Inv(s) && t in s.pcs && s.pcs[t] == Leave(job, page)
    ensures Alone(s, t, u)
    ensures u == s.(pcs := s.pcs[t := Idle], requestLock := None, held := s.held + Frames(t, page, job.n))
  {
    assert ThreadOk(s, t);
    u := Next(s, Run(t));
    AloneStep(s, t);
  }

  /** The end of a request, once its frames are locked. */
  lemma EndAlone(s: System, t: nat, job: Job, page: nat) returns (z: System)
    requires Inv(s) && t in s.pcs && s.pcs[t] == Locking(job, page, job.n)
    ensures Alone(s, t, z) && s.total <= |BitsOf(s.bytes)|
    ensures z == s.(pcs := s.pcs[t := Idle], requestLock := None, held := s.held + Frames(t, page, job.n),
                    hint := z.hint)
    ensures var h := A.FirstFree(BitsOf(s.bytes), s.hint, s.total);
            z.hint == if job.single then page + 1 else if h < s.total then h else s.hint
  {
    var u := LockedStep(s, t, job, page);
    var w := u;
    if !job.single {
      var h := A.FirstFree(BitsOf(s.bytes), s.hint, s.total);
      TrackAlone(u, t, job, page, s.hint, BitsOf(s.bytes));
      w := Tracked(u, t, job, page, h);
      AloneOn(s, t, u, w);
      Moved(s.pcs, t, Track(job, page, s.hint), Leave(job, page));
    }
    z := LeaveStep(w, t, job, page);
    AloneOn(s, t, w, z);
    Moved(s.pcs, t, Leave(job, page), Idle);
  }

  lemma {:induction false} FirstRunOne(bits: seq<bool>, from: nat, total: nat)
    requires total <= |bits|
    ensures A.FirstRun(bits, from, total, 1) == A.FirstFree(bits, from, total)
    decreases total - from
  {
    if from < total { FirstRunOne(bits, from + 1, total); }
  }

  /** What the sequential allocator does for a job. */
  ghost function Sequential(v: A.Frames, job: Job): (A.Frames, Option<nat>)
    requires A.Valid(v)
  {
    if job.single then A.Request(v) else A.RequestRun(v, job.n)
  }

  /** The call is over; the shared state is `v`, and the frames granted, if any, are held. */
  ghost predicate Granted(s: System, z: System, t: nat, n: nat, v: A.Frames, r: Option<nat>) {
    && View(z) == v && z.pcs == s.pcs && z.requestLock == None && z.allocatorLock == None
    && z.held == s.held + match r case None => {} case Some(page) => Frames(t, page, n)
  }

  /** A thread that has just got the lock for requests. */
  lemma RequestBegins(s: System, t: nat, job: Job) returns (s1: System, s2: System)
    requires Inv(s) && Enabled(s, StartRequest(t, job)) && s.requestLock == None
    ensures A.Valid(View(s)) && s1 == Next(s, StartRequest(t, job)) && Alone(s1, t, s2) && Inv(s2)
    ensures s2 == s.(pcs := s.pcs[t := Scan(job, s.hint, 0)], requestLock := Some(t))
  {
    s1 := Next(s, StartRequest(t, job));
    StepKeeps(s, StartRequest(t, job));
    s2 := Next(s1, Run(t));
    StepKeeps(s1, Run(t));
    AloneStep(s1, t);
    Moved(s.pcs, t, WaitRequest(job), Scan(job, s.hint, 0));
  }

  /**
   From every state that threads can reach together, a request by an idle thread, with both locks free, is served: if
   only this thread moves it is idle again in the end, and holds exactly what the sequential allocator grants.
   */
  lemma RequestAlone(s: System, t: nat, job: Job) returns (z: System)
    requires Inv(s) && Enabled(s, StartRequest(t, job)) && s.requestLock == None && s.allocatorLock == None
    ensures A.Valid(View(s)) && Alone(Next(s, StartRequest(t, job)), t, z)
    ensures Granted(s, z, t, job.n, Sequential(View(s), job).0, Sequential(View(s), job).1)
  {
    var s1, s2 := RequestBegins(s, t, job);
    z := FromScan(s, s2, t, job);
    AloneOn(s1, t, s2, z);
  }

  lemma FromScan(s: System, s2: System, t: nat, job: Job) returns (z: System)
    requires A.Valid(View(s)) && t in s.pcs && s.pcs[t] == Idle && (job.single ==> job.n == 1)
    requires s.requestLock == None && s.allocatorLock == None
    requires Inv(s2) && s2 == s.(pcs := s.pcs[t := Scan(job, s.hint, 0)], requestLock := Some(t))
    ensures Alone(s2, t, z)
    ensures Granted(s, z, t, job.n, Sequential(View(s), job).0, Sequential(View(s), job).1)
  {
    var K := A.FirstRun(BitsOf(s.bytes), s.hint, s.total, job.n);
    if job.single { FirstRunOne(BitsOf(s.bytes), s.hint, s.total); }
    ScanAlone(s2, t, job, s.hint, 0, BitsOf(s.bytes));
    var u := Found(s2, t, job, K);
    if K >= s.total {
      z := u;
      Moved(s.pcs, t, Scan(job, s.hint, 0), Idle);
      assert s.pcs[t := Idle] == s.pcs;
    } else {
      Moved(s.pcs, t, Scan(job, s.hint, 0), Locking(job, K, 0));
      z := LockedAlone(s, u, t, job, K);
      AloneOn(s2, t, u, z);
    }
  }

  lemma LockedAlone(s: System, u: System, t: nat, job: Job, K: nat) returns (z: System)
    requires A.Valid(View(s)) && t in s.pcs && s.pcs[t] == Idle && (job.single ==> job.n == 1)
    requires s.requestLock == None && s.allocatorLock == None
    requires K == A.FirstRun(BitsOf(s.bytes), s.hint, s.total, job.n) < s.total
    requires job.single ==> K == A.FirstFree(BitsOf(s.bytes), s.hint, s.total)
    requires Inv(u) && u == s.(pcs := s.pcs[t := Locking(job, K, 0)], requestLock := Some(t))
    ensures Alone(u, t, z)
    ensures Granted(s, z, t, job.n, Sequential(View(s), job).0, Sequential(View(s), job).1)
  {
    Moved(s.pcs, t, Locking(job, K, 0), Locking(job, K, 0));
    AloneHere(u, t);
    var w := LockAlone(u, u, t, job, K, 0);
    z := EndAlone(w, t, job, K);
    AloneOn(u, t, w, z);
    Moved(s.pcs, t, Locking(job, K, 0), Locking(job, K, job.n));
    Moved(s.pcs, t, Locking(job, K, job.n), Idle);
    assert s.pcs[t := Idle] == s.pcs;
    assert View(w) == A.LockRange(View(s), K, job.n);
  }

  // ------------------------------------------------------------------------- whole frees

  /** The state after one step inside the free of a frame. */
  lemma ClearNext(s: System, t: nat, f: nat, phase: Phase) returns (z: System, next: Phase)
    requires t in s.pcs && s.pcs[t] == SetFree(f, phase) && f / 8 < |s.bytes| && !phase.LoadSet? && !phase.StoreSet?
    requires SumsFit(s, phase, false) && (phase == WaitLock ==> s.allocatorLock == None)
    requires (phase != WaitLock ==> s.allocatorLock == Some(t)) && (phase == Test ==> Used(s.bytes, f))
    ensures Enabled(s, Run(t)) && z == Next(s, Run(t))
    ensures z == s.(bytes := z.bytes, pcs := s.pcs[t := if phase == Release then Idle else SetFree(f, next)],
                    allocatorLock := if phase == Release then None else Some(t),
                    freeMemory := s.freeMemory + (if phase.StoreFreeMemory? then Gain(false) else 0),
                    usedMemory := s.usedMemory - (if phase.StoreUsedMemory? then Gain(false) else 0))
    ensures phase != Release ==>
              && Left(next) == Left(phase) - (if phase.StoreClear? then 3 else 1)
              && SumsFit(z, next, false) && !next.LoadSet? && !next.StoreSet?
  {
    z, next := Next(s, Run(t)), PhaseAfter(s, s.bytes[f / 8], f, false, phase);
  }

  lemma ClearBits(s: System, t: nat, f: nat, phase: Phase)
    requires Inv(s) && t in s.pcs && s.pcs[t] == SetFree(f, phase) && Enabled(s, Run(t))
    ensures f < |BitsOf(s.bytes)|
    ensures BitsOf(Next(s, Run(t)).bytes) == if phase.StoreClear? then BitsOf(s.bytes)[f := false] else BitsOf(s.bytes)
  {
    var z := Next(s, Run(t));
    assert ThreadOk(s, t);
    StepBits(s, Run(t), 0);
    forall g | 0 <= g < 8 * |s.bytes|
      ensures BitsOf(z.bytes)[g] == if phase.StoreClear? && g == f then false else BitsOf(s.bytes)[g]
    {
      StepBits(s, Run(t), g);
    }
  }

  /** One step inside the free of a frame. */
  lemma ClearStep(s: System, t: nat, f: nat, phase: Phase) returns (z: System, next: Phase)
    requires Inv(s) && t in s.pcs && s.pcs[t] == SetFree(f, phase) && SumsFit(s, phase, false)
    requires phase == WaitLock ==> s.allocatorLock == None
    ensures f < |BitsOf(s.bytes)| && (!Stored(phase) ==> BitsOf(s.bytes)[f])
    ensures Updated(s, t, z, if phase == Release then Idle else SetFree(f, next),
                    if phase == Release then None else Some(t),
                    if phase.StoreClear? then BitsOf(s.bytes)[f := false] else BitsOf(s.bytes),
                    s.freeMemory + (if phase.StoreFreeMemory? then Gain(false) else 0),
                    s.usedMemory - (if phase.StoreUsedMemory? then Gain(false) else 0))
    ensures phase != Release ==>
              && Left(next) == Left(phase) - (if phase.StoreClear? then 3 else 1)
              && SumsFit(z, next, false) && !next.LoadSet? && !next.StoreSet?
  {
    assert ThreadOk(s, t) && ClaimOk(s, t, f);
    z, next := ClearNext(s, t, f, phase);
    ClearBits(s, t, f, phase);
    StepKeeps(s, Run(t));
    AloneStep(s, t);
  }

  /** The free of a frame, from any of its steps to its end. */
  lemma {:induction false} ClearAlone(s: System, t: nat, f: nat, phase: Phase) returns (z: System)
    requires Inv(s) && t in s.pcs && s.pcs[t] == SetFree(f, phase) && SumsFit(s, phase, false)
    requires (phase == WaitLock ==> s.allocatorLock == None) && !phase.LoadSet? && !phase.StoreSet?
    ensures f < |BitsOf(s.bytes)| && (!Stored(phase) ==> BitsOf(s.bytes)[f])
    ensures Updated(s, t, z, Idle, None, if Left(phase) >= 8 then BitsOf(s.bytes)[f := false] else BitsOf(s.bytes),
                    s.freeMemory + (if Left(phase) >= 4 then Gain(false) else 0),
                    s.usedMemory - (if Left(phase) >= 2 then Gain(false) else 0))
    decreases Left(phase)
  {
    var u, next := ClearStep(s, t, f, phase);
    if phase == Release {
      z := u;
    } else {
      z := ClearAlone(u, t, f, next);
      UpdatedOn(s, t, u, z, SetFree(f, next), Idle, Some(t), None, BitsOf(u.bytes), BitsOf(z.bytes),
                u.freeMemory, z.freeMemory, u.usedMemory, z.usedMemory);
    }
  }

  lemma FreeBegins(s: System, t: nat, f: nat) returns (s1: System)
    requires Inv(s) && Enabled(s, StartFree(t, f))
    ensures s1 == Next(s, StartFree(t, f)) && Inv(s1)
    ensures s1 == s.(pcs := s.pcs[t := SetFree(f, WaitLock)], held := s.held - {(t, f)}) && s.pcs[t := Idle] == s.pcs
  {
    s1 := Next(s, StartFree(t, f));
    StepKeeps(s, StartFree(t, f));
  }

  /** A free by the owner of a frame, if only this thread moves, ends with what the sequential allocator leaves. */
  lemma FreeAlone(s: System, t: nat, f: nat) returns (z: System)
    requires Inv(s) && Enabled(s, StartFree(t, f)) && s.allocatorLock == None
    ensures Alone(Next(s, StartFree(t, f)), t, z)
    ensures f < |View(s).bits| && View(z) == A.FreeFrame(View(s), f)
    ensures z.pcs == s.pcs && z.held == s.held - {(t, f)} && z.allocatorLock == None && z.requestLock == s.requestLock
  {
    var s1 := FreeBegins(s, t, f);
    z := ClearAlone(s1, t, f, WaitLock);
    Moved(s.pcs, t, SetFree(f, WaitLock), Idle);
  }

  // ------------------------------------------------------------------------- no deadlock

  /** Locks are held by threads. */
  ghost predicate HoldersIn(s: System) {
    && (s.requestLock.Some? ==> s.requestLock.value in s.pcs)
    && (s.allocatorLock.Some? ==> s.allocatorLock.value in s.pcs)
  }

  lemma HoldersKept(s: System, a: Action)
    requires Inv(s) && Enabled(s, a) && HoldersIn(s)
    ensures HoldersIn(Next(s, a))
  {
  }

  lemma {:induction false} RunHolders(s: System, actions: seq<Action>, n: System)
    requires Inv(s) && HoldersIn(s) && FrameConcurrency.RunsTo(s, actions, n)
    ensures HoldersIn(n)
    decreases |actions|
  {
    if actions != [] {
      StepKeeps(s, actions[0]);
      HoldersKept(s, actions[0]);
      RunHolders(Next(s, actions[0]), actions[1..], n);
    }
  }

  /** A thread that is inside a call can move, or waits for a lock; the holder of the second lock can always move. */
  lemma CanMove(s: System, t: nat)
    requires Inv(s) && t in s.pcs && s.pcs[t] != Idle
    ensures Enabled(s, Run(t)) || (s.pcs[t].WaitRequest? && s.requestLock.Some?) || s.allocatorLock.Some?
    ensures s.allocatorLock == Some(t) ==> Enabled(s, Run(t))
    ensures s.requestLock == Some(t) ==> !s.pcs[t].WaitRequest?
  {
    assert ThreadOk(s, t);
  }

  /** In every interleaving, as long as some call is under way, some thread can move. */
  lemma NoDeadlock(s: System, actions: seq<Action>, n: System, t: nat) returns (u: nat)
    requires IsInit(s) && FrameConcurrency.RunsTo(s, actions, n) && t in n.pcs && n.pcs[t] != Idle
    ensures u in n.pcs && Enabled(n, Run(u))
  {
    InitInv(s);
    RunKeeps(s, actions, n);
    RunHolders(s, actions, n);
    u := if n.allocatorLock.Some? then n.allocatorLock.value
         else if n.requestLock.Some? then n.requestLock.value else t;
    assert ThreadOk(n, u);
    CanMove(n, u);
  }
}
