/**
 The kernel's page mapping: table frames come from the page frame allocator.
 */
module KernelPaging {
  import opened PageTables
  import opened FrameAllocator
  import opened PageWalk

  /** Storing a byte into a one-bit field keeps its lowest bit. */
  predicate Bit(x: bv8) {
    x & 1 == 1
  }

  /** What a kernel mapping writes into the last entry; the masked attributes land in one-bit fields. */
  function KernelLeaf(paddr: nat, privilege: bv8, attribs: bv8): Leaf {
    Leaf(paddr / PAGE_SIZE % PFN_LIMIT, Bit(privilege),
         SetTo(Bit(attribs & 0x02), Bit(attribs & 0x01), Bit(attribs & 0x04)))
  }

  // ----------------------------------------------------------------- frames granted to tables

  ghost function Requests(s: Frames, n: nat): (r: Frames)
    requires Valid(s)
    ensures Valid(r) && |r.bits| == |s.bits| && r.total == s.total
  {
    if n == 0 then s else Request(Requests(s, n - 1)).0
  }

  lemma RequestBits(s: Frames)
    requires Valid(s) && Supply(s) != []
    ensures forall k :: 0 <= k < |s.bits| ==> Request(s).0.bits[k] == (s.bits[k] || k == Supply(s)[0])
  {
    RequestPops(s);
  }

  lemma {:induction false} RequestsPop(s: Frames, n: nat)
    requires Valid(s) && n <= |Supply(s)|
    ensures Supply(Requests(s, n)) == Supply(s)[n..]
    ensures forall k :: 0 <= k < |s.bits| ==> Requests(s, n).bits[k] == (s.bits[k] || k in Supply(s)[..n])
  {
    if n > 0 {
      var t := Requests(s, n - 1);
      RequestsPop(s, n - 1);
      RequestPops(t);
      RequestBits(t);
      assert Supply(t)[0] == Supply(s)[n - 1];
      assert Supply(s)[..n] == Supply(s)[..n - 1] + [Supply(s)[n - 1]];
    }
  }

  lemma {:induction false} RequestsFirst(s: Frames, n: nat)
    requires Valid(s)
    ensures Requests(s, n + 1) == Requests(Request(s).0, n)
  {
    if n > 0 { RequestsFirst(s, n - 1); }
  }

  /** Every table lives in a used frame. */
  ghost predicate TablesUsed(T: Tables, s: Frames) {
    forall f :: f in T ==> f < |s.bits| && s.bits[f]
  }

  lemma SupplyFresh(T: Tables, s: Frames)
    requires Valid(s) && s.total <= PFN_LIMIT && TablesUsed(T, s)
    ensures Fresh(T, Supply(s))
  {
    FreeListSound(s.bits, s.hint, s.total);
  }

  // ------------------------------------------------------------------------- mapping a page

  /** Physical memory as far as it holds page tables, and the allocator of its frames. */
  class TableMemory {
    var tables: Tables
    const allocator: PageFrameAllocator

    constructor (allocator: PageFrameAllocator, tables: Tables)
      ensures this.allocator == allocator && this.tables == tables
    {
      this.allocator, this.tables := allocator, tables;
    }

    /** The mapping of `p` below table `f` can go on. */
    ghost predicate Pending(f: nat, p: seq<nat>)
      reads this, allocator, allocator.bitmap, allocator.bitmap.buffer
    {
      && allocator.Ok() && CanWalk(tables, f, p)
      && Fresh(tables, Supply(allocator.State())) && Missing(tables, f, p) <= |Supply(allocator.State())|
    }

    /** The tables and the allocator once the mapping of `p` below `f` is done. */
    ghost function Outcome(f: nat, p: seq<nat>, leaf: Leaf): (Tables, Frames)
      requires Pending(f, p)
      reads this, allocator, allocator.bitmap, allocator.bitmap.buffer
    {
      (Insert(tables, Supply(allocator.State()), f, p, leaf, true), Requests(allocator.State(), Missing(tables, f, p)))
    }

    /** One level of a mapping: the table behind an entry of table `f`, added if it is missing. */
    method NextTable(f: nat, i: nat, ghost p: seq<nat>, ghost leaf: Leaf) returns (g: nat)
      requires |p| > 1 && i == p[0] && Pending(f, p)
      modifies this`tables, allocator, allocator.bitmap.buffer
      ensures Pending(g, p[1..]) && Outcome(g, p[1..], leaf) == old(Outcome(f, p, leaf))
    {
      LevelStep(tables, allocator.State(), f, p, leaf);
      if !tables[f][i].present {
        RequestPops(allocator.State());
        var page := allocator.RequestFreePage();
        g := page.value;
        tables := tables[g := ZeroTable()];
        tables := tables[f := tables[f][i := Link(tables[f][i], g, true)]];
      } else {
        g := tables[f][i].pfn;
      }
    }

    /** Maps one page through the root table. */
    method MapPage(vaddr: nat, paddr: nat, privilege: bv8, attribs: bv8, root: nat)
      requires Pending(root, Path(vaddr))
      modifies this`tables, allocator, allocator.bitmap.buffer
      ensures allocator.Ok()
      ensures tables == Insert(old(tables), old(Supply(allocator.State())), root, Path(vaddr),
                               KernelLeaf(paddr, privilege, attribs), true)
      ensures allocator.State() == Requests(old(allocator.State()), Missing(old(tables), root, Path(vaddr)))
    {
      ghost var leaf, p := KernelLeaf(paddr, privilege, attribs), Path(vaddr);
      var pml4Index, pdptIndex, pdtIndex, ptIndex := Path(vaddr)[0], Path(vaddr)[1], Path(vaddr)[2], Path(vaddr)[3];

      var pdpt := NextTable(root, pml4Index, p, leaf);
      var pdt := NextTable(pdpt, pdptIndex, p[1..], leaf);
      var pt := NextTable(pdt, pdtIndex, p[2..], leaf);

      var pte := tables[pt][ptIndex];
      pte := pte.(present := true, writable := true, user := Bit(privilege));
      pte := pte.(cacheDisabled := Bit(attribs & 0x01));
      pte := pte.(writeThrough := Bit(attribs & 0x02));
      pte := pte.(accessType := Bit(attribs & 0x04));
      pte := pte.(pfn := paddr / PAGE_SIZE % PFN_LIMIT);
      assert Outcome(pt, p[3..], leaf) == (tables[pt := tables[pt][ptIndex := pte]], allocator.State());
      tables := tables[pt := tables[pt][ptIndex := pte]];
    }

    /** Finds the entry that maps an address, as table and index; none if a level is not present. */
    method GetPteForAddr(vaddr: nat, root: nat) returns (r: Option<(nat, nat)>)
      requires CanWalk(tables, root, Path(vaddr))
      ensures r.Some? ==> r.value.0 in tables && r.value.1 < |tables[r.value.0]|
      ensures Lookup(tables, root, Path(vaddr)) == if r.Some? then Some(tables[r.value.0][r.value.1]) else None
    {
      ghost var p := Path(vaddr);
      PathByLevel(vaddr);
      var i4 := vaddr / 0x80_0000_0000 % 0x200;
      if !tables[root][i4].present { return None; }
      var pdpt := tables[root][i4].pfn;
      DownOne(tables, root, p);
      var i3 := vaddr / 0x4000_0000 % 0x200;
      if !tables[pdpt][i3].present { return None; }
      var pdt := tables[pdpt][i3].pfn;
      DownOne(tables, pdpt, p[1..]);
      var i2 := vaddr / 0x20_0000 % 0x200;
      if !tables[pdt][i2].present { return None; }
      var pt := tables[pdt][i2].pfn;
      DownOne(tables, pdt, p[2..]);
      var i1 := vaddr / 0x1000 % 0x200;
      if !tables[pt][i1].present { return None; }
      return Some((pt, i1));
    }

    /** A new root that holds only the kernel's entry 511. */
    method CreateUserspacePml4(kernelRoot: nat) returns (root: nat)
      requires allocator.Ok() && Supply(allocator.State()) != [] && Fresh(tables, Supply(allocator.State()))
      requires kernelRoot in tables && |tables[kernelRoot]| == TABLE_ENTRIES
      modifies this`tables, allocator, allocator.bitmap.buffer
      ensures allocator.Ok() && root == old(Supply(allocator.State()))[0]
      ensures tables == UserRoot(old(tables), kernelRoot, root)
      ensures allocator.State() == Request(old(allocator.State())).0
    {
      RequestPops(allocator.State());
      var page := allocator.RequestFreePage();
      root := page.value;
      tables := tables[root := ZeroTable()];
      tables := tables[root := tables[root][511 := tables[kernelRoot][511]]];
    }
  }

  /** A lookup goes on in the next table. */
  lemma DownOne(T: Tables, f: nat, p: seq<nat>)
    requires CanWalk(T, f, p) && |p| > 1 && T[f][p[0]].present
    ensures CanWalk(T, T[f][p[0]].pfn, p[1..]) && Lookup(T, f, p) == Lookup(T, T[f][p[0]].pfn, p[1..])
    ensures |p| > 2 ==> p[1..][1..] == p[2..]
    ensures |p| == 4 ==> p[2..][1..] == p[3..] && p[1..][1..] == p[2..]
  {
  }

  function UserRoot(T: Tables, kernelRoot: nat, root: nat): Tables
    requires kernelRoot in T && |T[kernelRoot]| == TABLE_ENTRIES
  {
    T[root := ZeroTable()[511 := T[kernelRoot][511]]]
  }

  /** The rest of a mapping after one level: same result, one table and one request fewer if it was missing. */
  lemma LevelStep(T: Tables, s: Frames, f: nat, p: seq<nat>, leaf: Leaf)
    requires |p| > 1 && CanWalk(T, f, p) && Valid(s) && Fresh(T, Supply(s)) && Missing(T, f, p) <= |Supply(s)|
    ensures Missing(T, f, p) >= 1 <== !T[f][p[0]].present
    ensures var absent := !T[f][p[0]].present;
            var g := if absent then Supply(s)[0] else T[f][p[0]].pfn;
            var T1 := if absent then AddTable(T, f, p[0], g, true) else T;
            var s1 := if absent then Request(s).0 else s;
            && CanWalk(T1, g, p[1..]) && Valid(s1) && Fresh(T1, Supply(s1)) && Missing(T1, g, p[1..]) <= |Supply(s1)|
            && Insert(T, Supply(s), f, p, leaf, true) == Insert(T1, Supply(s1), g, p[1..], leaf, true)
            && Requests(s, Missing(T, f, p)) == Requests(s1, Missing(T1, g, p[1..]))
  {
    if !T[f][p[0]].present {
      AddedReady(T, Supply(s), f, p, true);
      RequestPops(s);
      RequestsFirst(s, |p| - 2);
    }
  }

  // ------------------------------------------------------------------------- what a mapping means

  /** The fields that a kernel mapping leaves in the last entry. */
  ghost predicate KernelEntry(old_: Entry, e: Entry, p: nat, privilege: bv8, attribs: bv8) {
    && e.present && e.writable && e.pfn == p / PAGE_SIZE % PFN_LIMIT
    && (p < 0x1_0000_0000_0000 ==> e.pfn == p / PAGE_SIZE)
    && e.user == (privilege & 1 == 1) && e.cacheDisabled == (attribs & 1 == 1)
    && !e.writeThrough && !e.accessType && e.rest == old_.rest
  }

  lemma LeafIsKernelEntry(old_: Entry, p: nat, privilege: bv8, attribs: bv8)
    ensures KernelEntry(old_, KernelLeaf(p, privilege, attribs).On(old_), p, privilege, attribs)
  {
    LostAttributes(attribs);
  }

  /**
   After a mapping, the address translates to the mapped frame with the requested user bit; bit 0 of the
   attributes disables caching, the other two attribute bits are lost; no other page changes.
   */
  lemma MapPageTranslates(T: Tables, N: Nodes, s: Frames, v: nat, p: nat, privilege: bv8, attribs: bv8, root: nat,
                          w: nat)
    requires Forest(T, N) && IsRoot(N, root) && Valid(s) && s.total <= PFN_LIMIT && TablesUsed(T, s)
    requires CanWalk(T, root, Path(v)) && Fresh(T, Supply(s)) && Missing(T, root, Path(v)) <= |Supply(s)|
    ensures var T' := Insert(T, Supply(s), root, Path(v), KernelLeaf(p, privilege, attribs), true);
            && (PageOf(w) == PageOf(v) ==>
                  && Lookup(T', root, Path(w)).Some?
                  && KernelEntry(EntryAt(T, root, Path(w)), Lookup(T', root, Path(w)).value, p, privilege, attribs))
            && (PageOf(w) != PageOf(v) ==> Lookup(T', root, Path(w)) == Lookup(T, root, Path(w)))
            && (forall f :: f in T' && f !in T ==> f < s.total && !s.bits[f])
  {
    var leaf := KernelLeaf(p, privilege, attribs);
    var op := MapOp(root, v, leaf, true, Supply(s));
    var T' := Apply(T, op);
    ApplyEntry(T, N, op, root, w);
    LookupIsEntryAt(T, root, Path(w));
    LookupIsEntryAt(T', root, Path(w));
    LeafIsKernelEntry(EntryAt(T, root, Path(w)), p, privilege, attribs);
    InsertKeys(T, Supply(s), root, Path(v), leaf, true);
    FreeListSound(s.bits, s.hint, s.total);
  }

  /**
   A kernel mapping can be written through all four levels exactly if the entries that were there allow it, and is open
   to user mode exactly if they are and bit 0 of the privilege is set.
   */
  lemma MapPageOpens(T: Tables, N: Nodes, s: Frames, v: nat, p: nat, privilege: bv8, attribs: bv8, root: nat)
    requires Forest(T, N) && IsRoot(N, root) && Valid(s)
    requires CanWalk(T, root, Path(v)) && Fresh(T, Supply(s)) && Missing(T, root, Path(v)) <= |Supply(s)|
    ensures var T' := Insert(T, Supply(s), root, Path(v), KernelLeaf(p, privilege, attribs), true);
            && (Open(T', root, Path(v), ToWrite) <==> OpenAbove(T, root, Path(v), ToWrite))
            && (Open(T', root, Path(v), ForUser) <==> OpenAbove(T, root, Path(v), ForUser) && privilege & 1 == 1)
  {
    var leaf := KernelLeaf(p, privilege, attribs);
    MappingOpens(T, N, Supply(s), root, Path(v), leaf, true, Insert(T, Supply(s), root, Path(v), leaf, true));
  }

  lemma LostAttributes(attribs: bv8)
    ensures !Bit(attribs & 0x02) && !Bit(attribs & 0x04) && Bit(attribs & 0x01) == Bit(attribs)
  {
  }

  // ------------------------------------------------------------------------- runs of the kernel

  /** A mapping through some root, a new user root, or any other call to the frame allocator. */
  datatype KernelOp =
    | Map(root: nat, vaddr: nat, paddr: nat, privilege: bv8, attribs: bv8)
    | NewRoot(kernelRoot: nat)
    | Other(op: FrameOp)

  datatype Kernel = Kernel(tables: Tables, frames: Frames)

  ghost predicate Inv(k: Kernel, N: Nodes) {
    && Forest(k.tables, N) && TablesUsed(k.tables, k.frames)
    && Valid(k.frames) && k.frames.bits[k.frames.total] && k.frames.total <= PFN_LIMIT
  }

  /** Memory does not run out, and nobody frees a table or the frame at the end. */
  ghost predicate Allowed(k: Kernel, N: Nodes, op: KernelOp)
    requires Inv(k, N)
  {
    match op
    case Map(root, v, _, _, _) => IsRoot(N, root) && Missing(k.tables, root, Path(v)) <= |Supply(k.frames)|
    case NewRoot(r) => IsRoot(N, r) && Supply(k.frames) != []
    case Other(o) => InRange(k.frames, o) && KeepsEnd(k.frames, o) && (o.DoFree? ==> o.frame !in k.tables)
  }

  ghost function Step(k: Kernel, N: Nodes, op: KernelOp): (Kernel, Nodes)
    requires Inv(k, N) && Allowed(k, N, op)
  {
    SupplyFresh(k.tables, k.frames);
    match op
    case Map(root, v, p, priv, attribs) =>
      ForestCanWalk(k.tables, N, root, Path(v));
      var leaf := KernelLeaf(p, priv, attribs);
      (Kernel(Insert(k.tables, Supply(k.frames), root, Path(v), leaf, true),
              Requests(k.frames, Missing(k.tables, root, Path(v)))),
       Grow(k.tables, N, Supply(k.frames), root, Path(v), leaf, true))
    case NewRoot(r) =>
      var g := Supply(k.frames)[0];
      (Kernel(UserRoot(k.tables, r, g), Request(k.frames).0), N[g := Node(0, Top)])
    case Other(o) => (k.(frames := Do(k.frames, o).0), N)
  }

  lemma MapKeepsInv(k: Kernel, N: Nodes, op: KernelOp)
    requires Inv(k, N) && Allowed(k, N, op) && op.Map?
    ensures Inv(Step(k, N, op).0, Step(k, N, op).1)
  {
    var p := Path(op.vaddr);
    SupplyFresh(k.tables, k.frames);
    ForestCanWalk(k.tables, N, op.root, p);
    var leaf := KernelLeaf(op.paddr, op.privilege, op.attribs);
    InsertExtends(k.tables, N, Supply(k.frames), op.root, p, leaf, true);
    InsertKeys(k.tables, Supply(k.frames), op.root, p, leaf, true);
    RequestsPop(k.frames, Missing(k.tables, op.root, p));
    FreeListSound(k.frames.bits, k.frames.hint, k.frames.total);
  }

  lemma UserRootForest(T: Tables, N: Nodes, r: nat, g: nat)
    requires Forest(T, N) && IsRoot(N, r) && g !in T
    ensures Forest(UserRoot(T, r, g), N[g := Node(0, Top)])
  {
  }

  lemma RootKeepsInv(k: Kernel, N: Nodes, op: KernelOp)
    requires Inv(k, N) && Allowed(k, N, op) && op.NewRoot?
    ensures Inv(Step(k, N, op).0, Step(k, N, op).1)
  {
    SupplyFresh(k.tables, k.frames);
    UserRootForest(k.tables, N, op.kernelRoot, Supply(k.frames)[0]);
    RequestBits(k.frames);
    FreeListSound(k.frames.bits, k.frames.hint, k.frames.total);
  }

  lemma OtherKeepsInv(k: Kernel, N: Nodes, op: KernelOp)
    requires Inv(k, N) && Allowed(k, N, op) && op.Other?
    ensures Inv(Step(k, N, op).0, Step(k, N, op).1)
  {
    var s, o := k.frames, op.op;
    GrantsWereFree(s, o);
    forall f | 0 <= f < |s.bits| && s.bits[f] && o != DoFree(f) ensures Do(s, o).0.bits[f] {}
  }

  lemma MapKeepsShared(k: Kernel, N: Nodes, op: KernelOp)
    requires Inv(k, N) && Allowed(k, N, op) && op.Map? && SharedUpper(k.tables, N)
    ensures SharedUpper(Step(k, N, op).0.tables, Step(k, N, op).1)
  {
    SupplyFresh(k.tables, k.frames);
    ForestCanWalk(k.tables, N, op.root, Path(op.vaddr));
    ApplyKeeps(k.tables, N,
               MapOp(op.root, op.vaddr, KernelLeaf(op.paddr, op.privilege, op.attribs), true, Supply(k.frames)));
  }

  /** Every step keeps the invariant and a shared upper half. */
  lemma StepKeepsInv(k: Kernel, N: Nodes, op: KernelOp)
    requires Inv(k, N) && Allowed(k, N, op)
    ensures Inv(Step(k, N, op).0, Step(k, N, op).1)
    ensures SharedUpper(k.tables, N) ==> SharedUpper(Step(k, N, op).0.tables, Step(k, N, op).1)
  {
    match op {
      case Map(_, _, _, _, _) =>
        MapKeepsInv(k, N, op);
        if SharedUpper(k.tables, N) { MapKeepsShared(k, N, op); }
      case NewRoot(r) =>
        RootKeepsInv(k, N, op);
        SupplyFresh(k.tables, k.frames);
        if SharedUpper(k.tables, N) { UserRootShares(k.tables, N, r, Supply(k.frames)[0]); }
      case Other(_) => OtherKeepsInv(k, N, op);
    }
  }

  lemma UserRootShares(T: Tables, N: Nodes, r: nat, g: nat)
    requires Forest(T, N) && IsRoot(N, r) && g !in T && SharedUpper(T, N)
    ensures SharedUpper(UserRoot(T, r, g), N[g := Node(0, Top)])
  {
    var T', N' := UserRoot(T, r, g), N[g := Node(0, Top)];
    forall a | IsRoot(N', a) ensures a in T' && |T'[a]| == TABLE_ENTRIES && T'[a][511] == T[r][511] {
      if a != g { assert IsRoot(N, a); }
    }
  }

  ghost predicate RunTo(k: Kernel, N: Nodes, ops: seq<KernelOp>, k': Kernel, N': Nodes)
    requires Inv(k, N)
    decreases |ops|
  {
    if ops == [] then k' == k && N' == N
    else
      && Allowed(k, N, ops[0])
      && (StepKeepsInv(k, N, ops[0]);
          RunTo(Step(k, N, ops[0]).0, Step(k, N, ops[0]).1, ops[1..], k', N'))
  }

  /** Two entries above the last level lead to the same table only if they are one entry, or entry 511 of two roots. */
  ghost predicate TablesHangOnce(T: Tables, N: Nodes)
    requires Forest(T, N)
  {
    forall f, i, e, j ::
      f in T && e in T && 0 <= i < TABLE_ENTRIES && 0 <= j < TABLE_ENTRIES && N[f].depth < 3 && N[e].depth < 3 &&
      T[f][i].present && T[e][j].present && T[f][i].pfn == T[e][j].pfn
      ==> (f == e && i == j) || (IsRoot(N, f) && IsRoot(N, e) && i == j == 511)
  }

  /**
   In every run of mappings, new roots and other allocator calls, the tables stay trees, no frame serves
   in two places, and no later grant hands out a table's frame.
   */
  lemma {:induction false} RunKeepsTrees(k: Kernel, N: Nodes, ops: seq<KernelOp>, k': Kernel, N': Nodes)
    requires Inv(k, N) && RunTo(k, N, ops, k', N')
    ensures Inv(k', N') && TablesHangOnce(k'.tables, N')
    ensures forall o, f :: InRange(k'.frames, o) && f in k'.tables ==> !Do(k'.frames, o).1.Has(f)
    ensures SharedUpper(k.tables, N) ==> SharedUpper(k'.tables, N')
    decreases |ops|
  {
    if ops == [] {
      forall o, f | InRange(k'.frames, o) && f in k'.tables ensures !Do(k'.frames, o).1.Has(f) {
        GrantsWereFree(k'.frames, o);
      }
    } else {
      StepKeepsInv(k, N, ops[0]);
      RunKeepsTrees(Step(k, N, ops[0]).0, Step(k, N, ops[0]).1, ops[1..], k', N');
    }
  }

  // ------------------------------------------------------------------------- mappings last

  /** The call maps page `v` of the space below `root`. */
  predicate HitsPage(op: KernelOp, root: nat, v: nat) {
    op.Map? && PageOf(op.vaddr) == PageOf(v) && (op.root == root || IsUpper(v))
  }

  lemma {:induction false} NewFrameWalk(T: Tables, N: Nodes, f: nat, p: seq<nat>, g: nat, t: Table)
    requires Forest(T, N) && f in T && IsPath(p) && |p| + N[f].depth == 4 && g !in T
    ensures Walk(T[g := t], f, p) == Walk(T, f, p) && EntryAt(T[g := t], f, p) == EntryAt(T, f, p)
    decreases |p|
  {
    if |p| > 1 && T[f][p[0]].present { NewFrameWalk(T, N, T[f][p[0]].pfn, p[1..], g, t); }
  }

  lemma MapKeepsPage(k: Kernel, N: Nodes, op: KernelOp, root: nat, v: nat)
    requires Inv(k, N) && Allowed(k, N, op) && op.Map? && IsRoot(N, root)
    ensures var T' := Step(k, N, op).0.tables;
            && (!HitsPage(op, root, v) ==> EntryAt(T', root, Path(v)) == EntryAt(k.tables, root, Path(v)))
            && (forall r :: OpenAbove(T', root, Path(v), r) <==> OpenAbove(k.tables, root, Path(v), r))
  {
    var p, leaf := Path(op.vaddr), KernelLeaf(op.paddr, op.privilege, op.attribs);
    SupplyFresh(k.tables, k.frames);
    ForestCanWalk(k.tables, N, op.root, p);
    forall r ensures OpenAbove(Step(k, N, op).0.tables, root, Path(v), r) <==> OpenAbove(k.tables, root, Path(v), r) {
      InsertAbove(k.tables, N, Supply(k.frames), op.root, p, leaf, true, root, Path(v), r);
    }
    if !HitsPage(op, root, v) {
      SamePathSamePage(op.vaddr, v);
      InsertElsewhere(k.tables, N, Supply(k.frames), op.root, p, leaf, true, root, Path(v));
    }
  }

  /** Only a mapping of the page changes its entry, and no call changes what the entries above it grant. */
  lemma StepKeepsPage(k: Kernel, N: Nodes, op: KernelOp, root: nat, v: nat)
    requires Inv(k, N) && Allowed(k, N, op) && IsRoot(N, root)
    ensures var (k', N') := Step(k, N, op);
            && IsRoot(N', root)
            && (!HitsPage(op, root, v) ==> EntryAt(k'.tables, root, Path(v)) == EntryAt(k.tables, root, Path(v)))
            && (forall r :: OpenAbove(k'.tables, root, Path(v), r) <==> OpenAbove(k.tables, root, Path(v), r))
  {
    match op {
      case Map(_, _, _, _, _) =>
        MapKeepsPage(k, N, op, root, v);
        SupplyFresh(k.tables, k.frames);
        ForestCanWalk(k.tables, N, op.root, Path(op.vaddr));
        GrowKeepsRoots(k.tables, N, Supply(k.frames), op.root, Path(op.vaddr),
                       KernelLeaf(op.paddr, op.privilege, op.attribs), true);
      case NewRoot(r) =>
        SupplyFresh(k.tables, k.frames);
        NewFrameWalk(k.tables, N, root, Path(v), Supply(k.frames)[0], ZeroTable()[511 := k.tables[r][511]]);
      case Other(_) =>
    }
  }

  lemma {:induction false} RunKeepsPage(k: Kernel, N: Nodes, ops: seq<KernelOp>, k': Kernel, N': Nodes, root: nat,
                                        v: nat)
    requires Inv(k, N) && RunTo(k, N, ops, k', N') && IsRoot(N, root)
    requires forall i :: 0 <= i < |ops| ==> !HitsPage(ops[i], root, v)
    ensures EntryAt(k'.tables, root, Path(v)) == EntryAt(k.tables, root, Path(v))
    ensures forall r :: OpenAbove(k'.tables, root, Path(v), r) <==> OpenAbove(k.tables, root, Path(v), r)
    decreases |ops|
  {
    if ops != [] {
      StepKeepsInv(k, N, ops[0]);
      StepKeepsPage(k, N, ops[0], root, v);
      RunKeepsPage(Step(k, N, ops[0]).0, Step(k, N, ops[0]).1, ops[1..], k', N', root, v);
    }
  }

  /**
   A mapping lasts: after any further mappings of other pages, new roots and allocator calls, the page still translates
   to its frame, can be written if the entries above allowed it when it was mapped, and is open to user mode exactly if
   they were open and bit 0 of its privilege was set.
   */
  lemma MappingLasts(k: Kernel, N: Nodes, op: KernelOp, ops: seq<KernelOp>, k': Kernel, N': Nodes)
    requires Inv(k, N) && op.Map? && RunTo(k, N, [op] + ops, k', N')
    requires forall i :: 0 <= i < |ops| ==> !HitsPage(ops[i], op.root, op.vaddr)
    ensures var T, r, p := k'.tables, op.root, Path(op.vaddr);
            && Lookup(T, r, p).Some? && Lookup(T, r, p).value.pfn == op.paddr / PAGE_SIZE % PFN_LIMIT
            && (Open(T, r, p, ToWrite) <==> OpenAbove(k.tables, r, p, ToWrite))
            && (Open(T, r, p, ForUser) <==> OpenAbove(k.tables, r, p, ForUser) && op.privilege & 1 == 1)
  {
    assert ([op] + ops)[1..] == ops;
    var k1, N1, p := Step(k, N, op).0, Step(k, N, op).1, Path(op.vaddr);
    SupplyFresh(k.tables, k.frames);
    ForestCanWalk(k.tables, N, op.root, p);
    StepKeepsInv(k, N, op);
    MapPageTranslates(k.tables, N, k.frames, op.vaddr, op.paddr, op.privilege, op.attribs, op.root, op.vaddr);
    MapPageOpens(k.tables, N, k.frames, op.vaddr, op.paddr, op.privilege, op.attribs, op.root);
    StepKeepsPage(k, N, op, op.root, op.vaddr);
    RunKeepsPage(k1, N1, ops, k', N', op.root, op.vaddr);
    SamePage(k1.tables, k'.tables, op.root, p);
  }

  /** Pages with the same entry and the same rights above it are alike. */
  lemma SamePage(T: Tables, T': Tables, root: nat, p: seq<nat>)
    requires p != [] && EntryAt(T', root, p) == EntryAt(T, root, p)
    requires forall r :: OpenAbove(T', root, p, r) <==> OpenAbove(T, root, p, r)
    ensures Lookup(T', root, p) == Lookup(T, root, p)
    ensures forall r :: Open(T', root, p, r) <==> Open(T, root, p, r)
  {
    LookupIsEntryAt(T, root, p);
    LookupIsEntryAt(T', root, p);
    forall r ensures Open(T', root, p, r) <==> Open(T, root, p, r) {
      OpenIsEntry(T, root, p, r);
      OpenIsEntry(T', root, p, r);
    }
  }

  // ------------------------------------------------------------------------- user roots

  /** A new user root translates the upper half as the kernel root does, and nothing else. */
  lemma UserRootTranslates(T: Tables, N: Nodes, r: nat, g: nat, v: nat)
    requires Forest(T, N) && IsRoot(N, r) && g !in T
    ensures Lookup(UserRoot(T, r, g), g, Path(v)) == if IsUpper(v) then Lookup(T, r, Path(v)) else None
    ensures Lookup(UserRoot(T, r, g), r, Path(v)) == Lookup(T, r, Path(v))
  {
    var p := Path(v);
    NewFrameSame(T, N, r, p, g, ZeroTable()[511 := T[r][511]]);
    if p[0] == 511 && T[r][511].present {
      NewFrameSame(T, N, T[r][511].pfn, p[1..], g, ZeroTable()[511 := T[r][511]]);
    }
  }

  lemma {:induction false} NewFrameSame(T: Tables, N: Nodes, f: nat, p: seq<nat>, g: nat, t: Table)
    requires Forest(T, N) && f in T && IsPath(p) && |p| + N[f].depth == 4 && g !in T
    ensures Lookup(T[g := t], f, p) == Lookup(T, f, p)
    decreases |p|
  {
    if |p| > 1 && T[f][p[0]].present { NewFrameSame(T, N, T[f][p[0]].pfn, p[1..], g, t); }
  }

  /** If entry 511 was present, kernel and user roots agree on the upper half after every later run. */
  lemma UpperHalfAgreesForever(k: Kernel, N: Nodes, ops: seq<KernelOp>, k': Kernel, N': Nodes, r: nat, s: nat, v: nat)
    requires Inv(k, N) && SharedUpper(k.tables, N) && RunTo(k, N, ops, k', N')
    requires IsRoot(N', r) && IsRoot(N', s) && IsUpper(v)
    ensures Lookup(k'.tables, r, Path(v)) == Lookup(k'.tables, s, Path(v))
  {
    RunKeepsTrees(k, N, ops, k', N');
    UpperAgrees(k'.tables, N', r, s, Path(v));
    LookupIsEntryAt(k'.tables, r, Path(v));
    LookupIsEntryAt(k'.tables, s, Path(v));
  }

  /** If it was absent, the first upper mapping through the kernel root is invisible below the user root. */
  lemma AbsentUpperSeparates(T: Tables, N: Nodes, r: nat, g: nat, v: nat, leaf: Leaf, supply: seq<nat>)
    requires Forest(T, N) && IsRoot(N, r) && g !in T && IsUpper(v) && !T[r][511].present
    requires CanWalk(UserRoot(T, r, g), r, Path(v)) && Fresh(UserRoot(T, r, g), supply) && |supply| >= 3
    ensures var T1 := Insert(UserRoot(T, r, g), supply, r, Path(v), leaf, true);
            Lookup(T1, r, Path(v)).Some? && Lookup(T1, g, Path(v)) == None
  {
    var T0, N0 := UserRoot(T, r, g), N[g := Node(0, Top)];
    UserRootForest(T, N, r, g);
    InsertExtends(T0, N0, supply, r, Path(v), leaf, true);
    InsertHere(T0, N0, supply, r, Path(v), leaf, true);
    LookupIsEntryAt(Insert(T0, supply, r, Path(v), leaf, true), r, Path(v));
  }
}
