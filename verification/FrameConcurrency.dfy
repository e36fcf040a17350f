/**
 Any number of threads that request and free page frames at the same time.

 One spinlock serializes requests, another the updates of the bitmap and the counters.  Everything between is a step
 of its own: each look at a bit while searching, each load and each store of a bitmap byte or a counter.  A search
 looks at the bitmap without the second lock, while other threads free frames.
 */
module FrameConcurrency {
  import opened FrameBitmap
  import opened PageTables
  import FrameAllocator

  /** A request for `n` consecutive frames; `single` for the call that requests one frame. */
  datatype Job = Job(n: nat, single: bool)

  /** Inside an update, from waiting for the lock to releasing it; `reg` is a loaded byte, `sum` a new counter value. */
  datatype Phase =
    | WaitLock | Test | LoadClear | StoreClear(reg: bv8) | LoadSet | StoreSet(reg: bv8)
    | LoadFreeMemory | StoreFreeMemory(sum: int) | LoadUsedMemory | StoreUsedMemory(sum: int) | Release

  /** Where a thread is. */
  datatype Pc =
    | Idle
    | WaitRequest(job: Job)
    | Scan(job: Job, page: nat, k: nat)                       // the first k frames from page were seen free
    | Locking(job: Job, page: nat, k: nat)                    // the first k frames from page are locked
    | SetUsed(job: Job, page: nat, k: nat, phase: Phase)      // inside the lock of frame page + k
    | Track(job: Job, page: nat, pg: nat)                     // looking for the next hint
    | Leave(job: Job, page: nat)
    | SetFree(frame: nat, phase: Phase)                       // inside the free of a frame

  /** `held` records which thread was granted which frame and has not begun to free it. */
  datatype System = System(
    bytes: seq<bv8>, total: nat, hint: nat, freeMemory: int, usedMemory: int,
    requestLock: Option<nat>, allocatorLock: Option<nat>,
    pcs: map<nat, Pc>, held: set<(nat, nat)>)

  datatype Action = StartRequest(t: nat, job: Job) | StartFree(t: nat, frame: nat) | Run(t: nat)

  predicate Used(bytes: seq<bv8>, f: nat) {
    f / 8 < |bytes| && IsSet(bytes[f / 8], f % 8)
  }

  predicate Enabled(s: System, a: Action) {
    && a.t in s.pcs
    && match a
       case StartRequest(t, job) => s.pcs[t] == Idle && (job.single ==> job.n == 1)
       case StartFree(t, f) => s.pcs[t] == Idle && (t, f) in s.held
       case Run(t) =>
         match s.pcs[t]
         case Idle => false
         case WaitRequest(_) => s.requestLock == None
         case SetUsed(_, page, k, phase) =>
           (page + k) / 8 < |s.bytes| && (phase == WaitLock ==> s.allocatorLock == None)
         case SetFree(f, phase) => f / 8 < |s.bytes| && (phase == WaitLock ==> s.allocatorLock == None)
         case _ => true
  }

  /** The byte of frame `f` after one step of an update that gives the frame the value `used`. */
  function ByteAfter(b: bv8, f: nat, phase: Phase): bv8 {
    match phase
    case StoreClear(reg) => reg & !Mask(f % 8)
    case StoreSet(reg) => reg | Mask(f % 8)
    case _ => b
  }

  function PhaseAfter(s: System, b: bv8, f: nat, used: bool, phase: Phase): Phase {
    match phase
    case WaitLock => Test
    case Test => if IsSet(b, f % 8) == used then Release else LoadClear
    case LoadClear => StoreClear(b)
    case StoreClear(_) => if used then LoadSet else LoadFreeMemory
    case LoadSet => StoreSet(b)
    case StoreSet(_) => LoadFreeMemory
    case LoadFreeMemory => StoreFreeMemory(s.freeMemory + Gain(used))
    case StoreFreeMemory(_) => LoadUsedMemory
    case LoadUsedMemory => StoreUsedMemory(s.usedMemory - Gain(used))
    case StoreUsedMemory(_) => Release
    case Release => Release
  }

  /** What an update adds to the free memory. */
  function Gain(used: bool): int {
    if used then -PAGE_SIZE else PAGE_SIZE
  }

  /** One step of thread `t` inside the update of frame `f`. */
  function Update(s: System, t: nat, f: nat, phase: Phase): System
    requires f / 8 < |s.bytes|
  {
    s.(bytes := s.bytes[f / 8 := ByteAfter(s.bytes[f / 8], f, phase)], allocatorLock := LockAfter(s, t, phase),
       freeMemory := if phase.StoreFreeMemory? then phase.sum else s.freeMemory,
       usedMemory := if phase.StoreUsedMemory? then phase.sum else s.usedMemory)
  }

  function LockAfter(s: System, t: nat, phase: Phase): Option<nat> {
    if phase == WaitLock then Some(t) else if phase == Release then None else s.allocatorLock
  }

  function Frames(t: nat, page: nat, n: nat): set<(nat, nat)> {
    set f | page <= f < page + n :: (t, f)
  }

  function At(s: System, t: nat, pc: Pc): System {
    s.(pcs := s.pcs[t := pc])
  }

  function Next(s: System, a: Action): System
    requires Enabled(s, a)
  {
    var t := a.t;
    match a
    case StartRequest(_, job) => At(s, t, WaitRequest(job))
    case StartFree(_, f) => At(s, t, SetFree(f, WaitLock)).(held := s.held - {(t, f)})
    case Run(_) =>
      match s.pcs[t]
      case WaitRequest(job) => At(s, t, Scan(job, s.hint, 0)).(requestLock := Some(t))
      case Scan(job, page, k) =>
        if page >= s.total then At(s, t, Idle).(requestLock := None)
        else if k == job.n then At(s, t, Locking(job, page, 0))
        else if Used(s.bytes, page + k) then At(s, t, Scan(job, page + 1, 0))
        else At(s, t, Scan(job, page, k + 1))
      case Locking(job, page, k) =>
        if k < job.n then At(s, t, SetUsed(job, page, k, WaitLock))
        else if job.single then At(s, t, Leave(job, page)).(hint := page + 1)
        else At(s, t, Track(job, page, s.hint))
      case SetUsed(job, page, k, phase) =>
        var next := PhaseAfter(s, s.bytes[(page + k) / 8], page + k, true, phase);
        At(Update(s, t, page + k, phase), t,
           if phase == Release then Locking(job, page, k + 1) else SetUsed(job, page, k, next))
      case Track(job, page, pg) =>
        if pg >= s.total then At(s, t, Leave(job, page))
        else if !Used(s.bytes, pg) then At(s, t, Leave(job, page)).(hint := pg)
        else At(s, t, Track(job, page, pg + 1))
      case Leave(job, page) =>
        At(s, t, Idle).(requestLock := None, held := s.held + Frames(t, page, job.n))
      case SetFree(f, phase) =>
        var next := PhaseAfter(s, s.bytes[f / 8], f, false, phase);
        At(Update(s, t, f, phase), t, if phase == Release then Idle else SetFree(f, next))
  }

  // ------------------------------------------------------------------------- the invariant

  /** The thread is inside a request. */
  predicate Requesting(pc: Pc) {
    pc.Scan? || pc.Locking? || pc.SetUsed? || pc.Track? || pc.Leave?
  }

  /** The thread is inside an update of the bitmap. */
  predicate Updating(pc: Pc) {
    (pc.SetUsed? || pc.SetFree?) && pc.phase != WaitLock
  }

  /** The bit of the update is stored. */
  predicate Stored(phase: Phase) {
    phase.LoadFreeMemory? || phase.StoreFreeMemory? || phase.LoadUsedMemory? || phase.StoreUsedMemory? || phase.Release?
  }

  /** The frame belongs to what the thread has locked, or is about to free. */
  predicate Reserves(pc: Pc, f: nat) {
    match pc
    case Locking(_, page, k) => page <= f < page + k
    case SetUsed(_, page, k, phase) => page <= f < page + k || (Stored(phase) && f == page + k)
    case Track(job, page, _) => page <= f < page + job.n
    case Leave(job, page) => page <= f < page + job.n
    case SetFree(frame, phase) => f == frame && !Stored(phase)
    case _ => false
  }

  /** The thread holds the frame, or it belongs to a call of the thread that is under way. */
  ghost predicate Claims(s: System, t: nat, f: nat) {
    (t, f) in s.held || (t in s.pcs && Reserves(s.pcs[t], f))
  }

  /** The frames from `lo` to `hi` are free. */
  ghost predicate FreeRun(bytes: seq<bv8>, lo: nat, hi: nat) {
    forall f :: lo <= f < hi ==> !Used(bytes, f)
  }

  ghost predicate RegOk(bytes: seq<bv8>, f: nat, phase: Phase) {
    f / 8 < |bytes| && (phase.StoreClear? || phase.StoreSet? ==> phase.reg == bytes[f / 8])
  }

  /** What is known at each point of a call. */
  ghost predicate PointOk(bytes: seq<bv8>, total: nat, pc: Pc) {
    match pc
    case Scan(job, page, k) => k <= job.n && (page < total ==> page + k <= total && FreeRun(bytes, page, page + k))
    case Locking(job, page, k) => k <= job.n && page + job.n <= total && FreeRun(bytes, page + k, page + job.n)
    case SetUsed(job, page, k, phase) =>
      && k < job.n && page + job.n <= total && RegOk(bytes, page + k, phase)
      && FreeRun(bytes, page + k + if Stored(phase) then 1 else 0, page + job.n)
    case Track(job, page, _) => page + job.n <= total
    case Leave(job, page) => page + job.n <= total
    case SetFree(f, phase) =>
      f < total && RegOk(bytes, f, phase) && !phase.LoadSet? && !phase.StoreSet? && (Stored(phase) ==> !Used(bytes, f))
    case _ => true
  }

  ghost predicate ThreadOk(s: System, t: nat) {
    && t in s.pcs && PointOk(s.bytes, s.total, s.pcs[t])
    && (Requesting(s.pcs[t]) <==> s.requestLock == Some(t))
    && (Updating(s.pcs[t]) <==> s.allocatorLock == Some(t))
    && (s.pcs[t].SetFree? && !Stored(s.pcs[t].phase) ==> (t, s.pcs[t].frame) !in s.held)
  }

  ghost predicate ClaimOk(s: System, t: nat, f: nat) {
    Claims(s, t, f) ==> f < s.total && Used(s.bytes, f)
  }

  ghost predicate OneClaim(s: System, t: nat, u: nat, f: nat) {
    Claims(s, t, f) && Claims(s, u, f) ==> t == u
  }

  ghost predicate Inv(s: System) {
    && s.total < 8 * |s.bytes| && Used(s.bytes, s.total)
    && (forall t {:trigger ThreadOk(s, t)} :: t in s.pcs ==> ThreadOk(s, t))
    && (forall t, f {:trigger ClaimOk(s, t, f)} :: ClaimOk(s, t, f))
    && (forall t, u, f {:trigger OneClaim(s, t, u, f)} :: OneClaim(s, t, u, f))
  }

  // ------------------------------------------------------------------------- single bits

  lemma OrMask(b: bv8, k: nat)
    requires k < 8
    ensures (b | Mask(k)) == WithBit(b, k, true)
  {
  }

  /** Writing one byte with one bit changed changes one frame. */
  lemma WriteBit(bytes: seq<bv8>, f: nat, used: bool, g: nat)
    requires f / 8 < |bytes|
    ensures Used(bytes[f / 8 := WithBit(bytes[f / 8], f % 8, used)], g) == if g == f then used else Used(bytes, g)
  {
    if g / 8 == f / 8 { WithBitSets(bytes[f / 8], f % 8, used, g % 8); }
  }

  /** The frame that a thread is updating. */
  predicate Target(pc: Pc, f: nat) {
    (pc.SetUsed? && f == pc.page + pc.k) || (pc.SetFree? && f == pc.frame)
  }

  /** A frame is marked at the store that sets it, and freed at the store that clears it. */
  predicate Sets(pc: Pc, f: nat) { pc.SetUsed? && Target(pc, f) && pc.phase.StoreSet? }
  predicate Clears(pc: Pc, f: nat) { pc.SetFree? && Target(pc, f) && pc.phase.StoreClear? }

  lemma UpdateEffect(bytes: seq<bv8>, f: nat, phase: Phase, g: nat)
    requires RegOk(bytes, f, phase)
    ensures var r := bytes[f / 8 := ByteAfter(bytes[f / 8], f, phase)];
            Used(r, g) == if g == f && phase.StoreSet? then true
                          else if g == f && phase.StoreClear? then false
                          else Used(bytes, g)
  {
    StoredByte(bytes[f / 8], f, phase);
    if phase.StoreClear? || phase.StoreSet? {
      WriteBit(bytes, f, phase.StoreSet?, g);
    } else {
      assert bytes[f / 8 := bytes[f / 8]] == bytes;
    }
  }

  lemma StoredByte(b: bv8, f: nat, phase: Phase)
    requires phase.StoreClear? || phase.StoreSet? ==> phase.reg == b
    ensures ByteAfter(b, f, phase) ==
            if phase.StoreClear? || phase.StoreSet? then WithBit(b, f % 8, phase.StoreSet?) else b
  {
    OrMask(b, f % 8);
  }

  // ------------------------------------------------------------------------- one step

  /** The program point at which the action is taken. */
  function Point(s: System, a: Action): Pc
    requires Enabled(s, a)
  {
    if a.Run? then s.pcs[a.t] else Idle
  }

  /** No store is lost or spills over: a step changes at most the bit that its thread is updating, to its value. */
  lemma StepBits(s: System, a: Action, g: nat)
    requires Inv(s) && Enabled(s, a)
    ensures |Next(s, a).bytes| == |s.bytes| && Next(s, a).total == s.total && Next(s, a).pcs.Keys == s.pcs.Keys
    ensures Used(Next(s, a).bytes, g) ==
            if Sets(Point(s, a), g) then true else if Clears(Point(s, a), g) then false else Used(s.bytes, g)
  {
    assert ThreadOk(s, a.t);
    var pc := Point(s, a);
    if pc.SetUsed? {
      SetUsedBits(s, a, g);
    } else if pc.SetFree? {
      UpdateEffect(s.bytes, pc.frame, pc.phase, g);
    }
  }

  lemma SetUsedBits(s: System, a: Action, g: nat)
    requires Inv(s) && Enabled(s, a) && a.Run? && s.pcs[a.t].SetUsed?
    ensures |Next(s, a).bytes| == |s.bytes|
    ensures Used(Next(s, a).bytes, g) == if Sets(s.pcs[a.t], g) then true else Used(s.bytes, g)
  {
    var pc := s.pcs[a.t];
    var f := pc.page + pc.k;
    NotYetUsed(s, a.t);
    assert Next(s, a).bytes == s.bytes[f / 8 := ByteAfter(s.bytes[f / 8], f, pc.phase)];
    UpdateEffect(s.bytes, f, pc.phase, g);
    assert pc.phase.StoreClear? && g == f ==> !Used(s.bytes, g);
  }

  /** A frame that a thread is about to mark is free. */
  lemma NotYetUsed(s: System, t: nat)
    requires Inv(s) && t in s.pcs && s.pcs[t].SetUsed?
    ensures RegOk(s.bytes, s.pcs[t].page + s.pcs[t].k, s.pcs[t].phase)
    ensures !Stored(s.pcs[t].phase) ==> !Used(s.bytes, s.pcs[t].page + s.pcs[t].k)
  {
    assert ThreadOk(s, t);
  }

  lemma MarkClaims(s: System, a: Action, f: nat)
    requires Inv(s) && Enabled(s, a) && a.Run? && s.pcs[a.t].SetUsed?
    ensures Claims(Next(s, a), a.t, f) ==> Claims(s, a.t, f) || Sets(s.pcs[a.t], f)
  {
    assert ThreadOk(s, a.t);
    NotYetUsed(s, a.t);
  }

  /** A step adds no claim but that of the frame it marks used, and gives up the frame it clears. */
  lemma StepClaims(s: System, a: Action, u: nat, f: nat)
    requires Inv(s) && Enabled(s, a)
    ensures Claims(Next(s, a), u, f) ==> Claims(s, u, f) || (u == a.t && Sets(Point(s, a), f))
    ensures Clears(Point(s, a), f) ==> !Claims(Next(s, a), a.t, f)
  {
    assert ThreadOk(s, a.t);
    if u == a.t && a.Run? && s.pcs[a.t].SetUsed? { MarkClaims(s, a, f); }
  }

  lemma ClaimOkKept(s: System, a: Action, u: nat, f: nat)
    requires Inv(s) && Enabled(s, a)
    ensures ClaimOk(Next(s, a), u, f)
  {
    StepBits(s, a, f);
    StepClaims(s, a, u, f);
    assert ThreadOk(s, a.t) && ClaimOk(s, u, f) && OneClaim(s, u, a.t, f);
  }

  lemma OneClaimKept(s: System, a: Action, t: nat, u: nat, f: nat)
    requires Inv(s) && Enabled(s, a)
    ensures OneClaim(Next(s, a), t, u, f)
  {
    StepClaims(s, a, t, f);
    StepClaims(s, a, u, f);
    assert ThreadOk(s, a.t) && ClaimOk(s, t, f) && ClaimOk(s, u, f) && OneClaim(s, t, u, f);
    if Sets(Point(s, a), f) { assert !Used(s.bytes, f); }
  }

  /**
   What is known at a point of a call survives if free frames stay free during requests, and all bits during updates.
   */
  lemma PointKept(bytes: seq<bv8>, bytes': seq<bv8>, total: nat, pc: Pc)
    requires PointOk(bytes, total, pc) && |bytes'| == |bytes| && (Updating(pc) ==> bytes' == bytes)
    requires Requesting(pc) ==> forall g :: !Used(bytes, g) ==> !Used(bytes', g)
    ensures PointOk(bytes', total, pc)
  {
  }

  /** Another thread's knowledge survives a step. */
  lemma OtherThreadKept(s: System, a: Action, u: nat)
    requires Inv(s) && Enabled(s, a) && u in s.pcs && u != a.t
    ensures ThreadOk(Next(s, a), u)
  {
    var n, pc := Next(s, a), s.pcs[u];
    assert ThreadOk(s, a.t) && ThreadOk(s, u);
    assert n.pcs[u] == pc;
    StepBits(s, a, 0);
    if Requesting(pc) {
      forall g ensures !Used(s.bytes, g) ==> !Used(n.bytes, g) { StepBits(s, a, g); }
    }
    if Updating(pc) { OthersWait(s, a); }
    PointKept(s.bytes, n.bytes, s.total, pc);
  }

  /** A step of a thread that does not hold the second lock leaves the bitmap alone. */
  lemma OthersWait(s: System, a: Action)
    requires Inv(s) && Enabled(s, a) && s.allocatorLock != None && s.allocatorLock != Some(a.t)
    ensures Next(s, a).bytes == s.bytes
  {
    assert ThreadOk(s, a.t);
  }

  /** A thread inside the search knows what it has seen. */
  lemma ScanKept(s: System, a: Action)
    requires Inv(s) && Enabled(s, a) && a.Run? && (s.pcs[a.t].WaitRequest? || s.pcs[a.t].Scan?)
    ensures ThreadOk(Next(s, a), a.t)
  {
    assert ThreadOk(s, a.t);
  }

  lemma SetUsedKept(s: System, a: Action)
    requires Inv(s) && Enabled(s, a) && a.Run? && s.pcs[a.t].SetUsed?
    ensures ThreadOk(Next(s, a), a.t)
  {
    assert ThreadOk(s, a.t);
    var pc, n := s.pcs[a.t], Next(s, a);
    NotYetUsed(s, a.t);
    forall g ensures Used(n.bytes, g) == (Sets(pc, g) || Used(s.bytes, g)) { SetUsedBits(s, a, g); }
  }

  lemma SetFreeKept(s: System, a: Action)
    requires Inv(s) && Enabled(s, a) && a.Run? && s.pcs[a.t].SetFree?
    ensures ThreadOk(Next(s, a), a.t)
  {
    assert ThreadOk(s, a.t);
    var pc := s.pcs[a.t];
    StepBits(s, a, pc.frame);
    assert ClaimOk(s, a.t, pc.frame);
  }

  lemma OwnThreadKept(s: System, a: Action)
    requires Inv(s) && Enabled(s, a)
    ensures ThreadOk(Next(s, a), a.t)
  {
    assert ThreadOk(s, a.t);
    if a.StartFree? { assert ClaimOk(s, a.t, a.frame); }
    if a.Run? && (s.pcs[a.t].WaitRequest? || s.pcs[a.t].Scan?) {
      ScanKept(s, a);
    } else if a.Run? && s.pcs[a.t].SetUsed? {
      SetUsedKept(s, a);
    } else if a.Run? && s.pcs[a.t].SetFree? {
      SetFreeKept(s, a);
    }
  }

  /** Every step of every thread keeps the invariant. */
  lemma StepKeeps(s: System, a: Action)
    requires Inv(s) && Enabled(s, a)
    ensures Inv(Next(s, a))
  {
    var n := Next(s, a);
    StepBits(s, a, s.total);
    assert ThreadOk(s, a.t) && ClaimOk(s, a.t, s.total);
    forall u | u in n.pcs ensures ThreadOk(n, u) {
      if u == a.t { OwnThreadKept(s, a); } else { OtherThreadKept(s, a, u); }
    }
    forall u, f ensures ClaimOk(n, u, f) { ClaimOkKept(s, a, u, f); }
    forall t, u, f ensures OneClaim(n, t, u, f) { OneClaimKept(s, a, t, u, f); }
  }

  // ------------------------------------------------------------------------- every interleaving

  predicate IsInit(s: System) {
    && s.total < 8 * |s.bytes| && Used(s.bytes, s.total)
    && s.requestLock == None && s.allocatorLock == None && s.held == {}
    && forall t :: t in s.pcs ==> s.pcs[t] == Idle
  }

  lemma InitInv(s: System)
    requires IsInit(s)
    ensures Inv(s)
  {
    forall t | t in s.pcs ensures ThreadOk(s, t) {}
    forall t, f ensures ClaimOk(s, t, f) {}
    forall t, u, f ensures OneClaim(s, t, u, f) {}
  }

  ghost predicate RunsTo(s: System, actions: seq<Action>, n: System)
    decreases |actions|
  {
    if actions == [] then n == s else Enabled(s, actions[0]) && RunsTo(Next(s, actions[0]), actions[1..], n)
  }

  lemma {:induction false} RunKeeps(s: System, actions: seq<Action>, n: System)
    requires Inv(s) && RunsTo(s, actions, n)
    ensures Inv(n)
    decreases |actions|
  {
    if actions != [] {
      StepKeeps(s, actions[0]);
      RunKeeps(Next(s, actions[0]), actions[1..], n);
    }
  }

  /**
   In every interleaving of any number of threads that request frames and free frames they hold: no frame is held by
   two threads, every held frame is marked used, and what a thread is about to be granted is held by no one else.
   */
  lemma NoFrameHeldTwice(s: System, actions: seq<Action>, n: System, t: nat, u: nat, f: nat)
    requires IsInit(s) && RunsTo(s, actions, n)
    ensures (t, f) in n.held ==> f < n.total && Used(n.bytes, f)
    ensures (t, f) in n.held && (u, f) in n.held ==> t == u
    ensures (t, f) in n.held && u in n.pcs && n.pcs[u].Leave? && n.pcs[u].page <= f < n.pcs[u].page + n.pcs[u].job.n ==>
              t == u
  {
    InitInv(s);
    RunKeeps(s, actions, n);
    assert ClaimOk(n, t, f) && OneClaim(n, t, u, f);
  }

  /**
   In every interleaving an update takes effect: when a thread leaves the update of a bit, the bit has the value it
   wrote, and the only step that changes a bit is a store of the thread that holds the lock, to the bit it updates.
   */
  lemma NoUpdateLost(s: System, actions: seq<Action>, n: System, t: nat, a: Action, g: nat)
    requires IsInit(s) && RunsTo(s, actions, n) && t in n.pcs && Enabled(n, a)
    ensures n.pcs[t].SetUsed? && n.pcs[t].phase == Release ==> Used(n.bytes, n.pcs[t].page + n.pcs[t].k)
    ensures n.pcs[t].SetFree? && n.pcs[t].phase == Release ==> !Used(n.bytes, n.pcs[t].frame)
    ensures Used(Next(n, a).bytes, g) != Used(n.bytes, g) ==>
              a.Run? && n.allocatorLock == Some(a.t) && Target(n.pcs[a.t], g) &&
                Used(Next(n, a).bytes, g) == n.pcs[a.t].SetUsed?
  {
    InitInv(s);
    RunKeeps(s, actions, n);
    assert ThreadOk(n, t) && ThreadOk(n, a.t);
    if n.pcs[t].SetUsed? { assert ClaimOk(n, t, n.pcs[t].page + n.pcs[t].k); }
    StepBits(n, a, g);
  }

  // ------------------------------------------------------------------------- the counters

  ghost function BitsOf(bytes: seq<bv8>): seq<bool> {
    seq(8 * |bytes|, f requires 0 <= f < 8 * |bytes| => Used(bytes, f))
  }

  /** The size of the free frames. */
  ghost function FreeBytes(bytes: seq<bv8>): int {
    PAGE_SIZE * FrameAllocator.CountFree(BitsOf(bytes))
  }

  /** Where the thread is that holds the second lock. */
  ghost function Holder(s: System): Pc {
    if s.allocatorLock.Some? && s.allocatorLock.value in s.pcs then s.pcs[s.allocatorLock.value] else Idle
  }

  /** What a thread has changed in the bitmap and not yet in the free counter. */
  function FreePending(pc: Pc): int {
    if (pc.SetUsed? || pc.SetFree?) && (pc.phase.LoadFreeMemory? || pc.phase.StoreFreeMemory?)
    then Gain(pc.SetUsed?) else 0
  }

  /** The same for the used counter. */
  function UsedPending(pc: Pc): int {
    if (pc.SetUsed? || pc.SetFree?) && Stored(pc.phase) && !pc.phase.Release? then Gain(pc.SetUsed?) else 0
  }

  /** A new counter value that a thread is about to store is still right. */
  ghost predicate SumOk(s: System, pc: Pc) {
    pc.SetUsed? || pc.SetFree? ==>
      && (pc.phase.StoreFreeMemory? ==> pc.phase.sum == s.freeMemory + Gain(pc.SetUsed?))
      && (pc.phase.StoreUsedMemory? ==> pc.phase.sum == s.usedMemory - Gain(pc.SetUsed?))
  }

  /** But for what the holder of the lock has yet to book, the counters differ from the bitmap by constants. */
  ghost predicate Booked(s: System, slack: int, sum: int) {
    && SumOk(s, Holder(s))
    && s.freeMemory + FreePending(Holder(s)) == FreeBytes(s.bytes) + slack
    && s.usedMemory - UsedPending(Holder(s)) == sum - FreeBytes(s.bytes)
  }

  lemma FreeBytesStep(bytes: seq<bv8>, bytes': seq<bv8>, f: nat, used: bool)
    requires |bytes'| == |bytes| && f < 8 * |bytes| && Used(bytes, f) != used
    requires forall g :: Used(bytes', g) == if g == f then used else Used(bytes, g)
    ensures FreeBytes(bytes') == FreeBytes(bytes) + Gain(used)
  {
    FrameAllocator.CountUpdate(BitsOf(bytes), f, used);
    assert BitsOf(bytes') == BitsOf(bytes)[f := used];
  }

  lemma FreeBytesSame(bytes: seq<bv8>, bytes': seq<bv8>)
    requires |bytes'| == |bytes| && forall g :: Used(bytes', g) == Used(bytes, g)
    ensures FreeBytes(bytes') == FreeBytes(bytes)
  {
    assert BitsOf(bytes') == BitsOf(bytes);
  }

  /** A step changes the size of the free frames at the store of a bit, by one frame. */
  lemma FreeBytesNext(s: System, a: Action)
    requires Inv(s) && Enabled(s, a)
    ensures var pc := Point(s, a);
            FreeBytes(Next(s, a).bytes) == FreeBytes(s.bytes) +
            if pc.SetUsed? && pc.phase.StoreSet? then Gain(true)
            else if pc.SetFree? && pc.phase.StoreClear? then Gain(false) else 0
  {
    var pc, n := Point(s, a), Next(s, a);
    assert ThreadOk(s, a.t);
    forall g
      ensures Used(n.bytes, g) == if Sets(pc, g) then true else if Clears(pc, g) then false else Used(s.bytes, g)
    {
      StepBits(s, a, g);
    }
    if pc.SetUsed? && pc.phase.StoreSet? {
      NotYetUsed(s, a.t);
      FreeBytesStep(s.bytes, n.bytes, pc.page + pc.k, true);
    } else if pc.SetFree? && pc.phase.StoreClear? {
      assert ClaimOk(s, a.t, pc.frame);
      FreeBytesStep(s.bytes, n.bytes, pc.frame, false);
    } else {
      FreeBytesSame(s.bytes, n.bytes);
    }
  }

  /** A step of a thread that is not inside an update leaves the counters and the holder of the lock alone. */
  lemma HolderWaits(s: System, a: Action)
    requires Inv(s) && Enabled(s, a) && !(Point(s, a).SetUsed? || Point(s, a).SetFree?)
    ensures Holder(Next(s, a)) == Holder(s) && Next(s, a).freeMemory == s.freeMemory
    ensures Next(s, a).usedMemory == s.usedMemory
  {
    assert ThreadOk(s, a.t);
  }

  /** A step inside an update: only the holder of the lock takes it, or a thread that gets the lock. */
  lemma HolderSteps(s: System, a: Action)
    requires Inv(s) && Enabled(s, a) && (Point(s, a).SetUsed? || Point(s, a).SetFree?)
    ensures var pc := Point(s, a);
            var f := if pc.SetUsed? then pc.page + pc.k else pc.frame;
            && f / 8 < |s.bytes|
            && (pc.phase == WaitLock ==> Holder(s) == Idle) && (pc.phase != WaitLock ==> Holder(s) == pc)
            && Holder(Next(s, a)) == (if pc.phase == Release then Idle
                                      else pc.(phase := PhaseAfter(s, s.bytes[f / 8], f, pc.SetUsed?, pc.phase)))
  {
    assert ThreadOk(s, a.t);
  }

  /** Every step of every thread keeps the books. */
  lemma StepBooks(s: System, a: Action, slack: int, sum: int)
    requires Inv(s) && Enabled(s, a) && Booked(s, slack, sum)
    ensures Booked(Next(s, a), slack, sum)
  {
    var pc := Point(s, a);
    FreeBytesNext(s, a);
    if pc.SetUsed? || pc.SetFree? {
      HolderSteps(s, a);
      NoSkip(s, a);
    } else {
      HolderWaits(s, a);
    }
  }

  /** An update finds the bit as it expects it. */
  lemma NoSkip(s: System, a: Action)
    requires Inv(s) && Enabled(s, a) && (Point(s, a).SetUsed? || Point(s, a).SetFree?)
    ensures Point(s, a).SetFree? ==> !Point(s, a).phase.LoadSet? && !Point(s, a).phase.StoreSet?
  {
    assert ThreadOk(s, a.t);
  }

  lemma {:induction false} RunBooks(s: System, actions: seq<Action>, n: System, slack: int, sum: int)
    requires Inv(s) && RunsTo(s, actions, n) && Booked(s, slack, sum)
    ensures Booked(n, slack, sum)
    decreases |actions|
  {
    if actions != [] {
      StepKeeps(s, actions[0]);
      StepBooks(s, actions[0], slack, sum);
      RunBooks(Next(s, actions[0]), actions[1..], n, slack, sum);
    }
  }

  /**
   In every interleaving the counters follow the bitmap: whenever no thread is inside an update, the free counter has
   changed by the size of the frames freed less those marked, and free and used memory add up to what they did.
   */
  lemma NoCountLost(s: System, actions: seq<Action>, n: System)
    requires IsInit(s) && RunsTo(s, actions, n) && n.allocatorLock == None
    ensures n.freeMemory - FreeBytes(n.bytes) == s.freeMemory - FreeBytes(s.bytes)
    ensures n.freeMemory + n.usedMemory == s.freeMemory + s.usedMemory
  {
    InitInv(s);
    RunBooks(s, actions, n, s.freeMemory - FreeBytes(s.bytes), s.usedMemory + FreeBytes(s.bytes));
  }
}
