/**
 The four-level page table as a radix tree held in physical frames.

 A table is 512 entries stored in the frame that carries its number.  Looking an address up
 and mapping a page are written once, by recursion over the indices of the address; the
 kernel's and the boot loader's unrolled code is proved against these two functions.
 Frames for new tables come from a `supply` of fresh frames, in order.
 */
module PageTables {

  const TABLE_ENTRIES := 512
  const PAGE_SIZE := 4096
  const PFN_LIMIT := 0x10_0000_0000    // the page frame number field has 36 bits

  datatype Option<+T> = None | Some(value: T)

  /** A page table entry; `rest` stands for the bits that no mapping code writes. */
  datatype Entry = Entry(
    present: bool, writable: bool, user: bool,
    writeThrough: bool, cacheDisabled: bool, accessType: bool,
    pfn: nat, rest: nat)

  const ZERO_ENTRY := Entry(false, false, false, false, false, false, 0, 0)

  type Table = seq<Entry>
  type Tables = map<nat, Table>

  function ZeroTable(): (t: Table)
    ensures |t| == TABLE_ENTRIES && forall i :: 0 <= i < |t| ==> t[i] == ZERO_ENTRY
  {
    seq(TABLE_ENTRIES, i => ZERO_ENTRY)
  }

  // ----------------------------------------------------------------- virtual addresses

  /** The indices of an address, outermost first, by the successive shifts of the mapping code. */
  function Path(v: nat): (p: seq<nat>)
    ensures |p| == 4 && forall i :: 0 <= i < 4 ==> p[i] < TABLE_ENTRIES
  {
    var v1 := v / 0x1000;
    var v2 := v1 / 0x200;
    var v3 := v2 / 0x200;
    var v4 := v3 / 0x200;
    [v4 % 0x200, v3 % 0x200, v2 % 0x200, v1 % 0x200]
  }

  /** The virtual page: bits 12 to 47 of the address. */
  function PageOf(v: nat): nat {
    v / 0x1000 % PFN_LIMIT
  }

  /** The lookup code shifts the whole address at each level; both give the same indices. */
  lemma PathByLevel(v: nat)
    ensures Path(v) == [v / 0x80_0000_0000 % 0x200, v / 0x4000_0000 % 0x200,
                        v / 0x20_0000 % 0x200, v / 0x1000 % 0x200]
  {
  }

  /** The page number is the path read as a number in base 512. */
  lemma PageFromPath(v: nat)
    ensures var p := Path(v); PageOf(v) == ((p[0] * 512 + p[1]) * 512 + p[2]) * 512 + p[3]
  {
    var v1 := v / 0x1000;
    var v2 := v1 / 0x200;
    var v3 := v2 / 0x200;
    assert v3 % 0x4_0000 == v3 / 0x200 % 0x200 * 0x200 + v3 % 0x200;
    assert v2 % 0x800_0000 == v3 % 0x4_0000 * 0x200 + v2 % 0x200;
    assert v1 % PFN_LIMIT == v2 % 0x800_0000 * 0x200 + v1 % 0x200;
  }

  lemma DigitsUnique(a: nat, b: nat, c: nat, d: nat)
    requires b < 512 && d < 512 && a * 512 + b == c * 512 + d
    ensures a == c && b == d
  {
  }

  /** Two addresses walk the same entries exactly when they are in the same virtual page. */
  lemma SamePathSamePage(v: nat, w: nat)
    ensures Path(v) == Path(w) <==> PageOf(v) == PageOf(w)
  {
    PageFromPath(v);
    PageFromPath(w);
    if PageOf(v) == PageOf(w) {
      var p, q := Path(v), Path(w);
      DigitsUnique((p[0] * 512 + p[1]) * 512 + p[2], p[3], (q[0] * 512 + q[1]) * 512 + q[2], q[3]);
      DigitsUnique(p[0] * 512 + p[1], p[2], q[0] * 512 + q[1], q[2]);
      DigitsUnique(p[0], p[1], q[0], q[1]);
    }
  }

  // ------------------------------------------------------------------- lookup and insert

  ghost predicate IsPath(p: seq<nat>) {
    forall i :: 0 <= i < |p| ==> p[i] < TABLE_ENTRIES
  }

  /** The entry that maps the page at path `p` below table `f`, if every level is present. */
  function Lookup(T: Tables, f: nat, p: seq<nat>): (r: Option<Entry>)
    decreases |p|
  {
    if p == [] || f !in T || p[0] >= |T[f]| || !T[f][p[0]].present then None
    else if |p| == 1 then Some(T[f][p[0]])
    else Lookup(T, T[f][p[0]].pfn, p[1..])
  }

  /** Memory along the path is a chain of complete tables, as far as it is present. */
  ghost predicate CanWalk(T: Tables, f: nat, p: seq<nat>)
    decreases |p|
  {
    && p != [] && p[0] < TABLE_ENTRIES
    && f in T && |T[f]| == TABLE_ENTRIES
    && (|p| > 1 && T[f][p[0]].present ==> CanWalk(T, T[f][p[0]].pfn, p[1..]))
    && (|p| > 1 && !T[f][p[0]].present ==> IsPath(p))
  }

  /** How many tables a mapping at `p` has to add. */
  function Missing(T: Tables, f: nat, p: seq<nat>): nat
    decreases |p|
  {
    if |p| <= 1 then 0
    else if f in T && p[0] < |T[f]| && T[f][p[0]].present then Missing(T, T[f][p[0]].pfn, p[1..])
    else |p| - 1
  }

  datatype Caching = Keep | SetTo(writeThrough: bool, cacheDisabled: bool, accessType: bool)

  /** What a mapping writes into its last entry. */
  datatype Leaf = Leaf(pfn: nat, user: bool, caching: Caching) {
    function On(e: Entry): Entry {
      var mapped := e.(present := true, writable := true, user := user, pfn := pfn);
      match caching
      case Keep => mapped
      case SetTo(wt, cd, at) => mapped.(writeThrough := wt, cacheDisabled := cd, accessType := at)
    }
  }

  /** An interior entry pointing to table `g`; the frame number is cut to its 36 bits. */
  function Link(e: Entry, g: nat, user: bool): Entry {
    e.(present := true, writable := true, user := user, pfn := g % PFN_LIMIT)
  }

  ghost predicate Fresh(T: Tables, supply: seq<nat>) {
    && (forall i :: 0 <= i < |supply| ==> supply[i] !in T && supply[i] < PFN_LIMIT)
    && (forall i, j :: 0 <= i < j < |supply| ==> supply[i] != supply[j])
  }

  function AddTable(T: Tables, f: nat, i: nat, g: nat, user: bool): Tables
    requires f in T && i < |T[f]|
  {
    T[g := ZeroTable()][f := T[f][i := Link(T[f][i], g, user)]]
  }

  /** Maps the page at `p` below `f`, taking missing tables from the front of the supply. */
  function Insert(T: Tables, supply: seq<nat>, f: nat, p: seq<nat>, leaf: Leaf, user: bool): Tables
    requires CanWalk(T, f, p)
    requires Fresh(T, supply) && |supply| >= Missing(T, f, p)
    decreases |p|
  {
    var e := T[f][p[0]];
    if |p| == 1 then T[f := T[f][p[0] := leaf.On(e)]]
    else if e.present then Insert(T, supply, e.pfn, p[1..], leaf, user)
    else Insert(AddTable(T, f, p[0], supply[0], user), supply[1..], supply[0], p[1..], leaf, user)
  }

  // ---------------------------------------------------------------------- well-formed trees

  /** Where a table hangs: a root, slot 511 of every root, or one slot of one table. */
  datatype Slot = Top | Shared | At(table: nat, index: nat)
  datatype Node = Node(depth: nat, slot: Slot)
  type Nodes = map<nat, Node>

  function SlotOf(n: Node, f: nat, i: nat): Slot {
    if n.depth == 0 && i == 511 then Shared else At(f, i)
  }

  /**
   A forest of table trees in which every interior table hangs in exactly one slot, except that
   all roots may share the subtree below entry 511.
   */
  ghost predicate Forest(T: Tables, N: Nodes) {
    && N.Keys == T.Keys
    && (forall f :: f in T ==> |T[f]| == TABLE_ENTRIES && N[f].depth <= 3)
    && (forall f, i :: f in T && 0 <= i < TABLE_ENTRIES && N[f].depth < 3 && T[f][i].present ==>
          T[f][i].pfn in T && N[T[f][i].pfn] == Node(N[f].depth + 1, SlotOf(N[f], f, i)))
  }

  lemma {:induction false} ForestCanWalk(T: Tables, N: Nodes, f: nat, p: seq<nat>)
    requires Forest(T, N) && f in T && IsPath(p) && |p| + N[f].depth == 4
    ensures CanWalk(T, f, p)
    decreases |p|
  {
    if |p| > 1 && T[f][p[0]].present {
      ForestCanWalk(T, N, T[f][p[0]].pfn, p[1..]);
    }
  }

  /** The places of the tables after an insertion. */
  ghost function Grow(T: Tables, N: Nodes, supply: seq<nat>, f: nat, p: seq<nat>, leaf: Leaf, user: bool): Nodes
    requires CanWalk(T, f, p) && f in N
    requires Fresh(T, supply) && |supply| >= Missing(T, f, p)
    decreases |p|
  {
    var e := T[f][p[0]];
    if |p| == 1 then N
    else if e.present then (if e.pfn in N then Grow(T, N, supply, e.pfn, p[1..], leaf, user) else N)
    else
      Grow(AddTable(T, f, p[0], supply[0], user),
           N[supply[0] := Node(N[f].depth + 1, SlotOf(N[f], f, p[0]))],
           supply[1..], supply[0], p[1..], leaf, user)
  }

  /** Hanging a zeroed fresh table into an empty slot keeps the forest. */
  lemma AddTableForest(T: Tables, N: Nodes, f: nat, i: nat, g: nat, user: bool)
    requires Forest(T, N) && f in T && i < TABLE_ENTRIES && N[f].depth < 3 && !T[f][i].present
    requires g !in T && g < PFN_LIMIT
    ensures Forest(AddTable(T, f, i, g, user), N[g := Node(N[f].depth + 1, SlotOf(N[f], f, i))])
  {
  }

  /**
   What an insertion at `p` below `f` may do: it keeps the forest and the place of every old table;
   among tables not deeper than `f` it writes one slot of `f`; new tables come from the supply.
   */
  ghost predicate Extends(T: Tables, N: Nodes, T': Tables, N': Nodes, f: nat, i: nat) {
    && Forest(T', N') && f in T' && f in T
    && (forall e :: e in T ==> e in N' && e in N && N'[e] == N[e])
    && (forall e :: e in T && e in N && f in N && N[e].depth <= N[f].depth && e != f ==> T'[e] == T[e])
    && |T'[f]| == |T[f]|
    && (forall j :: 0 <= j < |T[f]| && j != i ==> T'[f][j] == T[f][j])
  }

  lemma LeafExtends(T: Tables, N: Nodes, f: nat, i: nat, e: Entry)
    requires Forest(T, N) && f in T && i < TABLE_ENTRIES && N[f].depth == 3
    ensures Extends(T, N, T[f := T[f][i := e]], N, f, i)
  {
  }

  lemma ParentExtends(T: Tables, N: Nodes, T': Tables, N': Nodes, f: nat, i: nat, j: nat)
    requires Forest(T, N) && f in T && i < TABLE_ENTRIES && N[f].depth < 3 && T[f][i].present
    requires Extends(T, N, T', N', T[f][i].pfn, j)
    ensures Extends(T, N, T', N', f, i) && T'[f][i] == T[f][i]
  {
  }

  lemma AddedExtends(T: Tables, N: Nodes, T': Tables, N': Nodes, f: nat, i: nat, g: nat, user: bool)
    requires Forest(T, N) && f in T && i < TABLE_ENTRIES && N[f].depth < 3
    requires g !in T && g < PFN_LIMIT
    requires Extends(AddTable(T, f, i, g, user), AddNode(N, f, i, g), T', N', f, i)
    ensures Extends(T, N, T', N', f, i)
  {
    var T1, N1 := AddTable(T, f, i, g, user), AddNode(N, f, i, g);
    forall e | e in T ensures e in N' && N'[e] == N[e] {
      assert e in T1 && N1[e] == N[e];
    }
    forall e | e in T && N[e].depth <= N[f].depth && e != f ensures T'[e] == T[e] {
      assert e in T1 && N1[e] == N[e] && T1[e] == T[e];
    }
  }

  /** An insertion at `p` below table `f` of a forest can go ahead. */
  ghost predicate Ready(T: Tables, N: Nodes, supply: seq<nat>, f: nat, p: seq<nat>) {
    && Forest(T, N) && f in T && IsPath(p) && |p| + N[f].depth == 4
    && CanWalk(T, f, p)
    && Fresh(T, supply) && |supply| >= Missing(T, f, p)
  }

  ghost function AddNode(N: Nodes, f: nat, i: nat, g: nat): Nodes
    requires f in N
  {
    N[g := Node(N[f].depth + 1, SlotOf(N[f], f, i))]
  }

  lemma AddedReady(T: Tables, supply: seq<nat>, f: nat, p: seq<nat>, user: bool)
    requires CanWalk(T, f, p) && |p| > 1 && !T[f][p[0]].present
    requires Fresh(T, supply) && |supply| >= Missing(T, f, p)
    ensures var T1 := AddTable(T, f, p[0], supply[0], user);
            && CanWalk(T1, supply[0], p[1..]) && Missing(T1, supply[0], p[1..]) == |p| - 2
            && Fresh(T1, supply[1..])
  {
  }

  /** Adding the first missing table is a step on the way: the same insertion goes on from there. */
  lemma StepAdded(T: Tables, N: Nodes, supply: seq<nat>, f: nat, p: seq<nat>, leaf: Leaf, user: bool)
    requires Ready(T, N, supply, f, p) && |p| > 1 && !T[f][p[0]].present
    ensures var T1, N1 := AddTable(T, f, p[0], supply[0], user), AddNode(N, f, p[0], supply[0]);
            && Ready(T1, N1, supply[1..], f, p) && T1[f][p[0]] == Link(T[f][p[0]], supply[0], user)
            && Missing(T1, f, p) == |p| - 2
            && Insert(T, supply, f, p, leaf, user) == Insert(T1, supply[1..], f, p, leaf, user)
            && Grow(T, N, supply, f, p, leaf, user) == Grow(T1, N1, supply[1..], f, p, leaf, user)
  {
    AddedReady(T, supply, f, p, user);
    AddTableForest(T, N, f, p[0], supply[0], user);
  }

  lemma StepDown(T: Tables, N: Nodes, supply: seq<nat>, f: nat, p: seq<nat>)
    requires Ready(T, N, supply, f, p) && |p| > 1 && T[f][p[0]].present
    ensures Ready(T, N, supply, T[f][p[0]].pfn, p[1..])
  {
  }

  lemma {:induction false} InsertExtends(T: Tables, N: Nodes, supply: seq<nat>, f: nat, p: seq<nat>, leaf: Leaf,
                                         user: bool)
    requires Ready(T, N, supply, f, p)
    ensures Extends(T, N, Insert(T, supply, f, p, leaf, user), Grow(T, N, supply, f, p, leaf, user), f, p[0])
    ensures |p| > 1 ==>
              Insert(T, supply, f, p, leaf, user)[f][p[0]] ==
              if T[f][p[0]].present then T[f][p[0]] else Link(T[f][p[0]], supply[0], user)
    decreases |p|, Missing(T, f, p)
  {
    var e := T[f][p[0]];
    if |p| == 1 {
      LeafExtends(T, N, f, p[0], leaf.On(e));
    } else if e.present {
      StepDown(T, N, supply, f, p);
      InsertExtends(T, N, supply, e.pfn, p[1..], leaf, user);
      ParentExtends(T, N, Insert(T, supply, f, p, leaf, user), Grow(T, N, supply, f, p, leaf, user), f, p[0], p[1]);
    } else {
      var T1, N1 := AddTable(T, f, p[0], supply[0], user), AddNode(N, f, p[0], supply[0]);
      StepAdded(T, N, supply, f, p, leaf, user);
      InsertExtends(T1, N1, supply[1..], f, p, leaf, user);
      AddedExtends(T, N, Insert(T, supply, f, p, leaf, user), Grow(T, N, supply, f, p, leaf, user), f, p[0], supply[0],
                   user);
    }
  }

  /** An insertion adds exactly the frames it needed, from the front of the supply. */
  lemma {:induction false} InsertKeys(T: Tables, supply: seq<nat>, f: nat, p: seq<nat>, leaf: Leaf, user: bool)
    requires CanWalk(T, f, p)
    requires Fresh(T, supply) && |supply| >= Missing(T, f, p)
    ensures forall e :: e in Insert(T, supply, f, p, leaf, user) <==> e in T || e in supply[..Missing(T, f, p)]
    decreases |p|
  {
    if |p| > 1 && T[f][p[0]].present {
      InsertKeys(T, supply, T[f][p[0]].pfn, p[1..], leaf, user);
    } else if |p| > 1 {
      AddedReady(T, supply, f, p, user);
      InsertKeys(AddTable(T, f, p[0], supply[0], user), supply[1..], supply[0], p[1..], leaf, user);
      assert supply[..|p| - 1] == [supply[0]] + supply[1..][..|p| - 2];
    }
  }

  // ------------------------------------------------------- a tree behaves like a map of pages

  /** The last entry on a path, present or not; an empty entry where no table holds it. */
  function EntryAt(T: Tables, f: nat, p: seq<nat>): Entry
    decreases |p|
  {
    if p == [] || f !in T || p[0] >= |T[f]| then ZERO_ENTRY
    else if |p| == 1 then T[f][p[0]]
    else if T[f][p[0]].present then EntryAt(T, T[f][p[0]].pfn, p[1..])
    else ZERO_ENTRY
  }

  lemma {:induction false} LookupIsEntryAt(T: Tables, f: nat, p: seq<nat>)
    ensures Lookup(T, f, p) == if EntryAt(T, f, p).present then Some(EntryAt(T, f, p)) else None
    decreases |p|
  {
    if |p| > 1 && f in T && p[0] < |T[f]| && T[f][p[0]].present {
      LookupIsEntryAt(T, T[f][p[0]].pfn, p[1..]);
    }
  }

  /** An insertion updates the entry of its own page. */
  lemma {:induction false} InsertHere(T: Tables, N: Nodes, supply: seq<nat>, f: nat, p: seq<nat>, leaf: Leaf,
                                      user: bool)
    requires Ready(T, N, supply, f, p)
    ensures EntryAt(Insert(T, supply, f, p, leaf, user), f, p) == leaf.On(EntryAt(T, f, p))
    decreases |p|, Missing(T, f, p)
  {
    if |p| == 1 {
    } else if T[f][p[0]].present {
      InsertExtends(T, N, supply, f, p, leaf, user);
      StepDown(T, N, supply, f, p);
      InsertHere(T, N, supply, T[f][p[0]].pfn, p[1..], leaf, user);
    } else {
      var T1, N1 := AddTable(T, f, p[0], supply[0], user), AddNode(N, f, p[0], supply[0]);
      StepAdded(T, N, supply, f, p, leaf, user);
      AddTableSame(T, N, f, p[0], supply[0], user, f, p);
      InsertHere(T1, N1, supply[1..], f, p, leaf, user);
    }
  }

  /** Hanging an empty table into an empty slot changes no page. */
  lemma {:induction false} AddTableSame(T: Tables, N: Nodes, f: nat, i: nat, g: nat, user: bool, e: nat, q: seq<nat>)
    requires Forest(T, N) && f in T && i < TABLE_ENTRIES && N[f].depth < 3 && !T[f][i].present
    requires g !in T && g < PFN_LIMIT
    requires e in T && IsPath(q) && |q| + N[e].depth == 4
    ensures EntryAt(AddTable(T, f, i, g, user), e, q) == EntryAt(T, e, q)
    decreases |q|
  {
    if |q| > 1 {
      if e == f && q[0] == i {
        assert EntryAt(AddTable(T, f, i, g, user), g, q[1..]) == ZERO_ENTRY;
      } else if T[e][q[0]].present {
        AddTableSame(T, N, f, i, g, user, T[e][q[0]].pfn, q[1..]);
      }
    }
  }

  /** `q` below `e` names another page than `p` below `f`. */
  ghost predicate Elsewhere(N: Nodes, f: nat, p: seq<nat>, e: nat, q: seq<nat>) {
    && e in N && f in N && N[e].depth == N[f].depth && |q| == |p| && IsPath(q) && p != []
    && (p != q || (f != e && (N[f].depth == 0 ==> p[0] != 511)))
  }

  lemma ElsewhereDown(T: Tables, N: Nodes, f: nat, p: seq<nat>, e: nat, q: seq<nat>)
    requires Forest(T, N) && f in T && e in T && N[f].depth < 3 && IsPath(p)
    requires Elsewhere(N, f, p, e, q) && |p| > 1 && T[f][p[0]].present && T[e][q[0]].present
    ensures Elsewhere(N, T[f][p[0]].pfn, p[1..], T[e][q[0]].pfn, q[1..])
  {
    assert p == [p[0]] + p[1..] && q == [q[0]] + q[1..];
  }

  /** An insertion leaves every other page alone. */
  lemma {:induction false} InsertElsewhere(
    T: Tables, N: Nodes, supply: seq<nat>, f: nat, p: seq<nat>, leaf: Leaf, user: bool, e: nat, q: seq<nat>)
    requires Ready(T, N, supply, f, p) && Elsewhere(N, f, p, e, q)
    ensures EntryAt(Insert(T, supply, f, p, leaf, user), e, q) == EntryAt(T, e, q)
    decreases |p|, Missing(T, f, p)
  {
    if |p| == 1 {
    } else if !T[f][p[0]].present {
      var T1, N1 := AddTable(T, f, p[0], supply[0], user), AddNode(N, f, p[0], supply[0]);
      StepAdded(T, N, supply, f, p, leaf, user);
      AddTableSame(T, N, f, p[0], supply[0], user, e, q);
      InsertElsewhere(T1, N1, supply[1..], f, p, leaf, user, e, q);
    } else {
      InsertExtends(T, N, supply, f, p, leaf, user);
      if T[e][q[0]].present {
        StepDown(T, N, supply, f, p);
        ElsewhereDown(T, N, f, p, e, q);
        InsertElsewhere(T, N, supply, T[f][p[0]].pfn, p[1..], leaf, user, T[e][q[0]].pfn, q[1..]);
      }
    }
  }

  // --------------------------------------------------------------------- runs of mappings

  /** One mapping through a root, with the fresh frames it may draw on at that moment. */
  datatype MapOp = MapOp(root: nat, vaddr: nat, leaf: Leaf, user: bool, supply: seq<nat>)

  ghost predicate Possible(T: Tables, op: MapOp) {
    && CanWalk(T, op.root, Path(op.vaddr))
    && Fresh(T, op.supply) && |op.supply| >= Missing(T, op.root, Path(op.vaddr))
  }

  function Apply(T: Tables, op: MapOp): Tables
    requires Possible(T, op)
  {
    Insert(T, op.supply, op.root, Path(op.vaddr), op.leaf, op.user)
  }

  /** The mappings `ops`, done in order, lead from memory `T` to memory `T'`. */
  ghost predicate RunsTo(T: Tables, ops: seq<MapOp>, T': Tables)
    decreases |ops|
  {
    if ops == [] then T' == T else Possible(T, ops[0]) && RunsTo(Apply(T, ops[0]), ops[1..], T')
  }

  predicate IsUpper(v: nat) {
    Path(v)[0] == 511
  }

  /** The mapping concerns page `v` of the space below `root`. */
  predicate Hits(op: MapOp, root: nat, v: nat) {
    PageOf(op.vaddr) == PageOf(v) && (op.root == root || IsUpper(v))
  }

  /** The reference: a plain map entry that each mapping of the same page overwrites. */
  function Plain(ops: seq<MapOp>, root: nat, v: nat, e: Entry): Entry
    decreases |ops|
  {
    if ops == [] then e
    else Plain(ops[1..], root, v, if Hits(ops[0], root, v) then ops[0].leaf.On(e) else e)
  }

  ghost predicate IsRoot(N: Nodes, r: nat) {
    r in N && N[r].depth == 0
  }

  /** All roots hold the same, present, entry 511. */
  ghost predicate SharedUpper(T: Tables, N: Nodes) {
    && (forall r :: IsRoot(N, r) ==> r in T && |T[r]| == TABLE_ENTRIES && T[r][511].present)
    && (forall r, s :: IsRoot(N, r) && IsRoot(N, s) && r in T && s in T && |T[r]| == |T[s]| == TABLE_ENTRIES
          ==> T[r][511] == T[s][511])
  }

  /** Every mapping goes through `root`, or the roots share their upper half. */
  ghost predicate Coherent(T: Tables, N: Nodes, ops: seq<MapOp>, root: nat) {
    && (forall i :: 0 <= i < |ops| ==> IsRoot(N, ops[i].root))
    && (SharedUpper(T, N) || forall i :: 0 <= i < |ops| ==> ops[i].root == root)
  }

  ghost function GrowOp(T: Tables, N: Nodes, op: MapOp): Nodes
    requires Possible(T, op) && op.root in N
  {
    Grow(T, N, op.supply, op.root, Path(op.vaddr), op.leaf, op.user)
  }

  lemma {:induction false} GrowKeepsRoots(T: Tables, N: Nodes, supply: seq<nat>, f: nat, p: seq<nat>, leaf: Leaf,
                                          user: bool)
    requires Ready(T, N, supply, f, p)
    ensures forall r :: IsRoot(Grow(T, N, supply, f, p, leaf, user), r) <==> IsRoot(N, r)
    decreases |p|, Missing(T, f, p)
  {
    if |p| > 1 && T[f][p[0]].present {
      StepDown(T, N, supply, f, p);
      GrowKeepsRoots(T, N, supply, T[f][p[0]].pfn, p[1..], leaf, user);
    } else if |p| > 1 {
      StepAdded(T, N, supply, f, p, leaf, user);
      GrowKeepsRoots(AddTable(T, f, p[0], supply[0], user), AddNode(N, f, p[0], supply[0]), supply[1..], f, p, leaf,
                     user);
    }
  }

  /** One mapping keeps the forest, its roots and a shared upper half. */
  lemma ApplyKeeps(T: Tables, N: Nodes, op: MapOp)
    requires Forest(T, N) && IsRoot(N, op.root) && Possible(T, op)
    ensures Forest(Apply(T, op), GrowOp(T, N, op))
    ensures forall r :: IsRoot(GrowOp(T, N, op), r) <==> IsRoot(N, r)
    ensures SharedUpper(T, N) ==> SharedUpper(Apply(T, op), GrowOp(T, N, op))
  {
    InsertExtends(T, N, op.supply, op.root, Path(op.vaddr), op.leaf, op.user);
    GrowKeepsRoots(T, N, op.supply, op.root, Path(op.vaddr), op.leaf, op.user);
  }

  /** With a shared upper half, every root reads the same upper entries. */
  lemma UpperAgrees(T: Tables, N: Nodes, r: nat, s: nat, p: seq<nat>)
    requires Forest(T, N) && SharedUpper(T, N) && IsRoot(N, r) && IsRoot(N, s)
    requires |p| == 4 && p[0] == 511
    ensures EntryAt(T, r, p) == EntryAt(T, s, p)
  {
  }

  /** One mapping acts on the entry of a page as on a plain map. */
  lemma ApplyEntry(T: Tables, N: Nodes, op: MapOp, root: nat, v: nat)
    requires Forest(T, N) && IsRoot(N, root) && IsRoot(N, op.root) && Possible(T, op)
    requires op.root == root || SharedUpper(T, N)
    ensures EntryAt(Apply(T, op), root, Path(v)) ==
            if Hits(op, root, v) then op.leaf.On(EntryAt(T, root, Path(v))) else EntryAt(T, root, Path(v))
  {
    var p := Path(op.vaddr);
    SamePathSamePage(op.vaddr, v);
    if p != Path(v) || (op.root != root && p[0] != 511) {
      InsertElsewhere(T, N, op.supply, op.root, p, op.leaf, op.user, root, Path(v));
    } else {
      InsertHere(T, N, op.supply, op.root, p, op.leaf, op.user);
      if op.root != root {
        ApplyKeeps(T, N, op);
        UpperAgrees(T, N, op.root, root, p);
        UpperAgrees(Apply(T, op), GrowOp(T, N, op), op.root, root, p);
      }
    }
  }

  /** After any run of mappings, the tree holds for every page what the plain map would hold. */
  lemma {:induction false} RunIsPlainMap(T: Tables, N: Nodes, ops: seq<MapOp>, T': Tables, root: nat, v: nat)
    requires Forest(T, N) && IsRoot(N, root) && Coherent(T, N, ops, root)
    requires RunsTo(T, ops, T')
    ensures EntryAt(T', root, Path(v)) == Plain(ops, root, v, EntryAt(T, root, Path(v)))
    decreases |ops|
  {
    if ops != [] {
      ApplyKeeps(T, N, ops[0]);
      ApplyEntry(T, N, ops[0], root, v);
      RunIsPlainMap(Apply(T, ops[0]), GrowOp(T, N, ops[0]), ops[1..], T', root, v);
    }
  }

  /** No frame ever serves in two places: every run leads from a forest to a forest. */
  lemma {:induction false} RunKeepsForest(T: Tables, N: Nodes, ops: seq<MapOp>, T': Tables) returns (N': Nodes)
    requires Forest(T, N) && RunsTo(T, ops, T')
    requires forall i :: 0 <= i < |ops| ==> IsRoot(N, ops[i].root)
    ensures Forest(T', N') && forall r :: IsRoot(N', r) <==> IsRoot(N, r)
    ensures SharedUpper(T, N) ==> SharedUpper(T', N')
    decreases |ops|
  {
    N' := N;
    if ops != [] {
      ApplyKeeps(T, N, ops[0]);
      N' := RunKeepsForest(Apply(T, ops[0]), GrowOp(T, N, ops[0]), ops[1..], T');
    }
  }
}
