/**
 The boot loader's page tables: identity mapping, framebuffer and higher half.
 Pages for new tables are those the firmware hands out, taken as an input.
 */
module BootPaging {
  import opened PageTables
  import opened TableCount
  import opened PageWalk

  const TWO64 := 0x1_0000_0000_0000_0000
  const UPPER := 0xFFFF_FF80_0000_0000        // the addresses of root entry 511
  const LOWER := 0xFF80_0000_0000             // the addresses of root entries 0 to 510

  /** One mapping request. */
  datatype Req = Req(vaddr: nat, paddr: nat, user: bool)

  function BootLeaf(q: Req): Leaf {
    Leaf(q.paddr / PAGE_SIZE % PFN_LIMIT, q.user, Keep)
  }

  /** Entries above the last level are for user mode exactly below root entry 511. */
  predicate InteriorUser(vaddr: nat) {
    Path(vaddr)[0] == 511
  }

  function Pages(bytes: nat): nat {
    (bytes + PAGE_SIZE - 1) / PAGE_SIZE
  }

  // ------------------------------------------------------------------------- sections

  datatype Section = Section(virtualBase: nat, virtualSize: nat, privileged: bool)

  predicate Contains(s: Section, kernelBase: nat, v: nat) {
    s.virtualBase >= kernelBase && s.virtualBase <= v < (s.virtualBase + s.virtualSize) % TWO64
  }

  /** The index of the first section that holds `v`, or -1. */
  method FindElfSectionByVaddr(sections: seq<Section>, kernelBase: nat, v: nat) returns (r: int)
    ensures -1 <= r < |sections|
    ensures r == -1 <==> forall i :: 0 <= i < |sections| ==> !Contains(sections[i], kernelBase, v)
    ensures r >= 0 ==> Contains(sections[r], kernelBase, v)
    ensures forall i :: 0 <= i < r ==> !Contains(sections[i], kernelBase, v)
  {
    for i := 0 to |sections|
      invariant forall j :: 0 <= j < i ==> !Contains(sections[j], kernelBase, v)
    {
      var start, end := sections[i].virtualBase, (sections[i].virtualBase + sections[i].virtualSize) % TWO64;
      if start < kernelBase {
        continue;
      }
      if v >= start && v < end {
        return i;
      }
    }
    return -1;
  }

  /** The first section that holds `v` is privileged. */
  ghost predicate Privileged(sections: seq<Section>, kernelBase: nat, v: nat) {
    exists i :: 0 <= i < |sections| && Contains(sections[i], kernelBase, v) && sections[i].privileged &&
      forall j :: 0 <= j < i ==> !Contains(sections[j], kernelBase, v)
  }

  ghost predicate LeafUser(sections: seq<Section>, kernelBase: nat, v: nat) {
    v >= kernelBase && !Privileged(sections, kernelBase, v)
  }

  /** Kernel pages are for user mode unless their section is privileged. */
  method LeafPrivilegeLevel(sections: seq<Section>, kernelBase: nat, v: nat) returns (level: bool)
    ensures level == LeafUser(sections, kernelBase, v)
  {
    level := false;
    if v >= kernelBase {
      var sectionIdx := FindElfSectionByVaddr(sections, kernelBase, v);
      level := true;
      if sectionIdx != -1 {
        level := !sections[sectionIdx].privileged;
      }
    }
  }

  // ------------------------------------------------------------------------- the requests made

  ghost function IdentityPages(base: nat, n: nat): seq<Req> {
    seq(n, k requires 0 <= k => Req(base + k * PAGE_SIZE, base + k * PAGE_SIZE, false))
  }

  ghost function Identity(base: nat, bytes: nat): seq<Req> {
    IdentityPages(base, Pages(bytes))
  }

  /** Higher-half pages mapped before the virtual address wraps to zero. */
  function HighCount(total: nat, offset: nat): nat {
    var wrap := (TWO64 - offset) % TWO64 / PAGE_SIZE;
    if offset % PAGE_SIZE == 0 && wrap < Pages(total) then wrap else Pages(total)
  }

  ghost function HigherReq(sections: seq<Section>, kernelBase: nat, offset: nat, k: nat): Req {
    var v := (k * PAGE_SIZE + offset) % TWO64;
    Req(v, k * PAGE_SIZE, LeafUser(sections, kernelBase, v))
  }

  ghost function Higher(sections: seq<Section>, kernelBase: nat, offset: nat, n: nat): seq<Req> {
    seq(n, k requires 0 <= k => HigherReq(sections, kernelBase, offset, k))
  }

  /** The last request for a page. */
  ghost function Image(reqs: seq<Req>, page: nat): Option<Req> {
    if reqs == [] then None
    else if PageOf(reqs[|reqs| - 1].vaddr) == page then Some(reqs[|reqs| - 1])
    else Image(reqs[..|reqs| - 1], page)
  }

  lemma {:induction false} ImageIsHit(reqs: seq<Req>, page: nat)
    ensures Image(reqs, page).Some? ==> Image(reqs, page).value in reqs && PageOf(Image(reqs, page).value.vaddr) == page
    ensures Image(reqs, page) == None ==> forall q :: q in reqs ==> PageOf(q.vaddr) != page
  {
    if reqs != [] {
      ImageIsHit(reqs[..|reqs| - 1], page);
      assert reqs == reqs[..|reqs| - 1] + [reqs[|reqs| - 1]];
    }
  }

  /** The tables hold exactly the images of the requests. */
  ghost predicate Holds(T: Tables, root: nat, reqs: seq<Req>) {
    forall v: nat {:trigger EntryAt(T, root, Path(v))} :: EntryAt(T, root, Path(v)) ==
      match Image(reqs, PageOf(v))
      case None => ZERO_ENTRY
      case Some(q) => BootLeaf(q).On(ZERO_ENTRY)
  }

  // ------------------------------------------------------------------------- user access above the leaf

  /** Present entries above the last one on path `q` carry user bit `u`. */
  ghost predicate Uniform(T: Tables, f: nat, q: seq<nat>, u: bool)
    decreases |q|
  {
    |q| > 1 && f in T && q[0] < |T[f]| && T[f][q[0]].present ==>
      T[f][q[0]].user == u && Uniform(T, T[f][q[0]].pfn, q[1..], u)
  }

  lemma {:induction false} AddTableUniform(T: Tables, N: Nodes, f: nat, i: nat, g: nat, user: bool, e: nat, q: seq<nat>,
                                           u: bool)
    requires Forest(T, N) && f in T && i < TABLE_ENTRIES && N[f].depth < 3 && !T[f][i].present
    requires g !in T && g < PFN_LIMIT
    requires e in T && IsPath(q) && |q| + N[e].depth == 4 && Uniform(T, e, q, u)
    requires N[e].depth == N[f].depth && (e == f && q[0] == i ==> u == user)
    ensures Uniform(AddTable(T, f, i, g, user), e, q, u)
  {
    if |q| > 1 && e == f && q[0] == i {
      assert Uniform(AddTable(T, f, i, g, user), g, q[1..], u);
    } else if |q| > 1 && T[e][q[0]].present {
      DeeperUniform(T, N, f, i, g, user, T[e][q[0]].pfn, q[1..], u);
    }
  }

  lemma {:induction false} DeeperUniform(T: Tables, N: Nodes, f: nat, i: nat, g: nat, user: bool, e: nat, q: seq<nat>,
                                         u: bool)
    requires Forest(T, N) && f in T && i < TABLE_ENTRIES && N[f].depth < 3
    requires g !in T && g < PFN_LIMIT
    requires e in T && IsPath(q) && |q| + N[e].depth == 4 && Uniform(T, e, q, u)
    requires N[e].depth > N[f].depth
    ensures Uniform(AddTable(T, f, i, g, user), e, q, u)
    decreases |q|
  {
    if |q| > 1 && T[e][q[0]].present { DeeperUniform(T, N, f, i, g, user, T[e][q[0]].pfn, q[1..], u); }
  }

  lemma {:induction false} InsertUniform(
    T: Tables, N: Nodes, supply: seq<nat>, f: nat, p: seq<nat>, leaf: Leaf, user: bool, e: nat, q: seq<nat>, u: bool)
    requires Ready(T, N, supply, f, p) && e in T && N[e].depth == N[f].depth && |q| == |p| && IsPath(q)
    requires Uniform(T, e, q, u)
    requires u == user || (N[f].depth == 0 && p[0] != q[0]) || (N[f].depth > 0 && e != f)
    ensures Uniform(Insert(T, supply, f, p, leaf, user), e, q, u)
    decreases |p|, Missing(T, f, p)
  {
    if |p| == 1 {
    } else if !T[f][p[0]].present {
      var T1, N1 := AddTable(T, f, p[0], supply[0], user), AddNode(N, f, p[0], supply[0]);
      StepAdded(T, N, supply, f, p, leaf, user);
      AddTableUniform(T, N, f, p[0], supply[0], user, e, q, u);
      InsertUniform(T1, N1, supply[1..], f, p, leaf, user, e, q, u);
    } else {
      InsertExtends(T, N, supply, f, p, leaf, user);
      if T[e][q[0]].present {
        StepDown(T, N, supply, f, p);
        InsertUniform(T, N, supply, T[f][p[0]].pfn, p[1..], leaf, user, T[e][q[0]].pfn, q[1..], u);
      }
    }
  }

  /** Above the leaf, exactly the addresses of root entry 511 are open to user mode. */
  ghost predicate InteriorOk(T: Tables, root: nat) {
    forall v: nat {:trigger Uniform(T, root, Path(v), InteriorUser(v))} :: Uniform(T, root, Path(v), InteriorUser(v))
  }

  /** Entries above the last one can be written through. */
  ghost predicate WritableAbove(T: Tables, root: nat) {
    forall v: nat {:trigger OpenAbove(T, root, Path(v), ToWrite)} :: OpenAbove(T, root, Path(v), ToWrite)
  }

  lemma {:induction false} UniformIsOpen(T: Tables, f: nat, q: seq<nat>)
    ensures Uniform(T, f, q, true) <==> OpenAbove(T, f, q, ForUser)
    decreases |q|
  {
    AboveStep(T, f, q, ForUser);
    if |q| > 1 && f in T && q[0] < |T[f]| && T[f][q[0]].present { UniformIsOpen(T, T[f][q[0]].pfn, q[1..]); }
  }

  // ------------------------------------------------------------------------- building the tables

  function OpFor(q: Req, root: nat, supply: seq<nat>): MapOp {
    MapOp(root, q.vaddr, BootLeaf(q), InteriorUser(q.vaddr), supply)
  }

  lemma SnocHolds(T: Tables, N: Nodes, supply: seq<nat>, root: nat, reqs: seq<Req>, q: Req, T': Tables)
    requires Forest(T, N) && IsRoot(N, root) && Holds(T, root, reqs)
    requires Possible(T, OpFor(q, root, supply))
    requires T' == Apply(T, OpFor(q, root, supply))
    ensures Holds(T', root, reqs + [q])
  {
    forall v: nat
      ensures EntryAt(T', root, Path(v)) ==
              match Image(reqs + [q], PageOf(v))
              case None => ZERO_ENTRY
              case Some(r) => BootLeaf(r).On(ZERO_ENTRY)
    {
      ApplyEntry(T, N, OpFor(q, root, supply), root, v);
      assert (reqs + [q])[..|reqs|] == reqs;
    }
  }

  lemma SnocInterior(T: Tables, N: Nodes, supply: seq<nat>, root: nat, q: Req, T': Tables)
    requires Forest(T, N) && IsRoot(N, root) && InteriorOk(T, root)
    requires Possible(T, OpFor(q, root, supply))
    requires T' == Apply(T, OpFor(q, root, supply))
    ensures InteriorOk(T', root)
  {
    forall v: nat ensures Uniform(T', root, Path(v), InteriorUser(v)) {
      InsertUniform(T, N, supply, root, Path(q.vaddr), BootLeaf(q), InteriorUser(q.vaddr), root, Path(v),
                    InteriorUser(v));
    }
  }

  lemma SnocWritable(T: Tables, N: Nodes, supply: seq<nat>, root: nat, q: Req, T': Tables)
    requires Forest(T, N) && IsRoot(N, root) && WritableAbove(T, root)
    requires Possible(T, OpFor(q, root, supply))
    requires T' == Apply(T, OpFor(q, root, supply))
    ensures WritableAbove(T', root)
  {
    forall v: nat ensures OpenAbove(T', root, Path(v), ToWrite) {
      InsertAbove(T, N, supply, root, Path(q.vaddr), BootLeaf(q), InteriorUser(q.vaddr), root, Path(v), ToWrite);
    }
  }

  // ------------------------------------------------------------------------- counting the tables

  ghost function VAddrs(reqs: seq<Req>): seq<nat> {
    seq(|reqs|, k requires 0 <= k < |reqs| => reqs[k].vaddr)
  }

  /** The tables that requests need below the root. */
  ghost function TablesFor(reqs: seq<Req>): nat {
    |Places(VAddrs(reqs))|
  }

  /** A table hangs exactly at the proper prefixes of the requested paths. */
  ghost predicate Tabled(T: Tables, root: nat, reqs: seq<Req>) {
    forall p {:trigger Present(T, root, p)} :: IsPath(p) && 1 <= |p| <= 3 ==>
      (Present(T, root, p) <==> p in Places(VAddrs(reqs)))
  }

  lemma VAddrsSnoc(reqs: seq<Req>, q: Req)
    ensures VAddrs(reqs + [q]) == VAddrs(reqs) + [q.vaddr]
  {
  }

  lemma TablesGrow(reqs: seq<Req>, more: seq<Req>)
    ensures TablesFor(reqs) <= TablesFor(reqs + more)
  {
    assert VAddrs(reqs + more) == VAddrs(reqs) + VAddrs(more);
    PlacesGrow(VAddrs(reqs), VAddrs(more));
  }

  lemma PrefixIsPlace(p: seq<nat>, v: nat)
    requires 1 <= |p| <= 3
    ensures p <= Path(v) <==> p in PlacesOf(v)
  {
    if p <= Path(v) { assert p == Path(v)[..|p|]; }
  }

  lemma SnocTabled(T: Tables, N: Nodes, supply: seq<nat>, root: nat, reqs: seq<Req>, q: Req, T': Tables)
    requires Forest(T, N) && IsRoot(N, root) && Tabled(T, root, reqs)
    requires Possible(T, OpFor(q, root, supply))
    requires T' == Apply(T, OpFor(q, root, supply))
    ensures Tabled(T', root, reqs + [q])
  {
    VAddrsSnoc(reqs, q);
    PlacesSnoc(VAddrs(reqs), q.vaddr);
    forall p | IsPath(p) && 1 <= |p| <= 3 ensures Present(T', root, p) <==> p in Places(VAddrs(reqs + [q])) {
      InsertPresent(T, N, supply, root, Path(q.vaddr), BootLeaf(q), InteriorUser(q.vaddr), root, p);
      PrefixIsPlace(p, q.vaddr);
    }
  }

  /** The next request needs exactly the tables that its path adds. */
  lemma MissingIsNeed(T: Tables, root: nat, reqs: seq<Req>, q: Req)
    requires Tabled(T, root, reqs)
    ensures TablesFor(reqs + [q]) == TablesFor(reqs) + Missing(T, root, Path(q.vaddr))
  {
    var p := Path(q.vaddr);
    VAddrsSnoc(reqs, q);
    PlacesSnoc(VAddrs(reqs), q.vaddr);
    MissingCounts(T, root, p);
    assert IsPath(p[..1]) && IsPath(p[..2]) && IsPath(p[..3]);
    assert Present(T, root, p[..1]) <==> p[..1] in Places(VAddrs(reqs));
    assert Present(T, root, p[..2]) <==> p[..2] in Places(VAddrs(reqs));
    assert Present(T, root, p[..3]) <==> p[..3] in Places(VAddrs(reqs));
  }

  /** The tables below `root` hold the requests made so far. */
  ghost predicate BuiltAt(T: Tables, N: Nodes, supply: seq<nat>, root: nat, reqs: seq<Req>) {
    && Forest(T, N) && IsRoot(N, root) && Fresh(T, supply)
    && Holds(T, root, reqs) && InteriorOk(T, root) && WritableAbove(T, root) && Tabled(T, root, reqs)
  }

  lemma FreshRest(T: Tables, supply: seq<nat>, f: nat, p: seq<nat>, leaf: Leaf, user: bool)
    requires CanWalk(T, f, p)
    requires Fresh(T, supply) && |supply| >= Missing(T, f, p)
    ensures Fresh(Insert(T, supply, f, p, leaf, user), supply[Missing(T, f, p)..])
  {
    var n, T' := Missing(T, f, p), Insert(T, supply, f, p, leaf, user);
    InsertKeys(T, supply, f, p, leaf, user);
    forall i | 0 <= i < |supply[n..]| ensures supply[n..][i] !in T' && supply[n..][i] < PFN_LIMIT {
      assert supply[n..][i] == supply[n + i];
    }
  }

  lemma BuiltNext(T: Tables, N: Nodes, supply: seq<nat>, root: nat, reqs: seq<Req>, q: Req)
    requires BuiltAt(T, N, supply, root, reqs) && |supply| + TablesFor(reqs) >= TablesFor(reqs + [q])
    ensures Possible(T, OpFor(q, root, supply))
    ensures TablesFor(reqs + [q]) == TablesFor(reqs) + Missing(T, root, Path(q.vaddr))
    ensures BuiltAt(Apply(T, OpFor(q, root, supply)), GrowOp(T, N, OpFor(q, root, supply)),
                    supply[Missing(T, root, Path(q.vaddr))..], root, reqs + [q])
  {
    var op := OpFor(q, root, supply);
    ForestCanWalk(T, N, root, Path(q.vaddr));
    MissingIsNeed(T, root, reqs, q);
    ApplyKeeps(T, N, op);
    SnocHolds(T, N, supply, root, reqs, q, Apply(T, op));
    SnocInterior(T, N, supply, root, q, Apply(T, op));
    SnocWritable(T, N, supply, root, q, Apply(T, op));
    SnocTabled(T, N, supply, root, reqs, q, Apply(T, op));
    FreshRest(T, supply, root, Path(q.vaddr), op.leaf, op.user);
  }

  class BootMemory {
    var tables: Tables
    var firmwarePages: seq<nat>       // the frames the firmware will allocate, in order
    var allocatedPageCount: nat
    ghost var nodes: Nodes
    ghost var others: nat             // pages allocated before the first table

    constructor (firmwarePages: seq<nat>)
      requires Fresh(map[], firmwarePages)
      ensures tables == map[] && nodes == map[] && this.firmwarePages == firmwarePages && allocatedPageCount == 0
    {
      tables, nodes, allocatedPageCount, others := map[], map[], 0, 0;
      this.firmwarePages := firmwarePages;
    }

    /** The tables below `root` hold the requests made so far, and just the pages for them were allocated. */
    ghost predicate Built(root: nat, reqs: seq<Req>)
      reads this
    {
      && BuiltAt(tables, nodes, firmwarePages, root, reqs)
      && allocatedPageCount == others + 1 + TablesFor(reqs)
    }

    /** Pages the firmware gave or still has to give. */
    ghost function AllPages(): nat
      reads this
    {
      |firmwarePages| + allocatedPageCount
    }

    /** A zeroed page for a table. */
    method RequestPage() returns (g: nat)
      requires firmwarePages != []
      modifies this`firmwarePages, this`allocatedPageCount, this`tables
      ensures g == old(firmwarePages)[0] && firmwarePages == old(firmwarePages)[1..]
      ensures tables == old(tables)[g := ZeroTable()] && allocatedPageCount == old(allocatedPageCount) + 1
    {
      g := firmwarePages[0];
      firmwarePages := firmwarePages[1..];
      allocatedPageCount := allocatedPageCount + 1;
      tables := tables[g := ZeroTable()];
    }

    method NextTable(f: nat, i: nat, user: bool, ghost p: seq<nat>, ghost leaf: Leaf) returns (g: nat)
      requires |p| > 1 && i == p[0] && CanWalk(tables, f, p)
      requires Fresh(tables, firmwarePages) && Missing(tables, f, p) <= |firmwarePages|
      modifies this`tables, this`firmwarePages, this`allocatedPageCount
      ensures CanWalk(tables, g, p[1..]) && Fresh(tables, firmwarePages)
      ensures Missing(tables, g, p[1..]) <= |firmwarePages|
      ensures firmwarePages[Missing(tables, g, p[1..])..] == old(firmwarePages[Missing(tables, f, p)..])
      ensures allocatedPageCount + Missing(tables, g, p[1..]) == old(allocatedPageCount + Missing(tables, f, p))
      ensures Insert(tables, firmwarePages, g, p[1..], leaf, user) ==
                old(Insert(tables, firmwarePages, f, p, leaf, user))
    {
      if !tables[f][i].present {
        AddedReady(tables, firmwarePages, f, p, user);
        g := RequestPage();
        tables := tables[f := tables[f][i := Link(tables[f][i], g, user)]];
      } else {
        g := tables[f][i].pfn;
      }
    }

    /** Maps one page below the root. */
    method MapPage(vaddr: nat, paddr: nat, leafPrivilege: bool, root: nat)
      requires CanWalk(tables, root, Path(vaddr))
      requires Fresh(tables, firmwarePages) && Missing(tables, root, Path(vaddr)) <= |firmwarePages|
      modifies this`tables, this`firmwarePages, this`allocatedPageCount
      ensures tables == Insert(old(tables), old(firmwarePages), root, Path(vaddr),
                               BootLeaf(Req(vaddr, paddr, leafPrivilege)), InteriorUser(vaddr))
      ensures firmwarePages == old(firmwarePages[Missing(tables, root, Path(vaddr))..])
      ensures allocatedPageCount == old(allocatedPageCount + Missing(tables, root, Path(vaddr)))
    {
      ghost var leaf, p := BootLeaf(Req(vaddr, paddr, leafPrivilege)), Path(vaddr);
      var l4, l3, l2, l1 := Path(vaddr)[0], Path(vaddr)[1], Path(vaddr)[2], Path(vaddr)[3];
      var privilege := false;
      if l4 == 511 {
        privilege := true;
      }
      var pdl3 := NextTable(root, l4, privilege, p, leaf);
      var pdl2 := NextTable(pdl3, l3, privilege, p[1..], leaf);
      var table := NextTable(pdl2, l2, privilege, p[2..], leaf);
      var pte := tables[table][l1].(present := true, writable := true, user := leafPrivilege,
                                    pfn := paddr / PAGE_SIZE % PFN_LIMIT);
      assert Insert(tables, firmwarePages, table, p[3..], leaf, privilege) == tables[table := tables[table][l1 := pte]];
      tables := tables[table := tables[table][l1 := pte]];
    }

    /** The same, for tables that hold a list of requests. */
    method MapNext(q: Req, root: nat, ghost reqs: seq<Req>)
      requires Built(root, reqs) && |firmwarePages| + TablesFor(reqs) >= TablesFor(reqs + [q])
      modifies this
      ensures Built(root, reqs + [q]) && AllPages() == old(AllPages()) && others == old(others)
    {
      BuiltNext(tables, nodes, firmwarePages, root, reqs, q);
      ghost var grown := GrowOp(tables, nodes, OpFor(q, root, firmwarePages));
      MapPage(q.vaddr, q.paddr, q.user, root);
      nodes := grown;
    }

    /** The same, for a list that is named. */
    method MapInto(q: Req, root: nat, ghost before: seq<Req>, ghost after: seq<Req>)
      requires Built(root, before) && after == before + [q] && |firmwarePages| + TablesFor(before) >= TablesFor(after)
      modifies this
      ensures Built(root, after) && AllPages() == old(AllPages()) && others == old(others)
    {
      MapNext(q, root, before);
    }

    /** Maps page `k` of a range of `n` to itself. */
    method MapSelf(i: nat, root: nat, ghost base: nat, ghost reqs: seq<Req>, ghost k: nat, ghost n: nat)
      requires i == base + k * PAGE_SIZE && k < n && Built(root, reqs + IdentityPages(base, k))
      requires |firmwarePages| + TablesFor(reqs + IdentityPages(base, k)) >= TablesFor(reqs + IdentityPages(base, n))
      modifies this
      ensures Built(root, reqs + IdentityPages(base, k + 1)) && AllPages() == old(AllPages()) && others == old(others)
    {
      ghost var before, after := reqs + IdentityPages(base, k), reqs + IdentityPages(base, k + 1);
      IdentityNext(reqs, base, k, n);
      MapInto(Req(i, i, false), root, before, after);
    }

    /** Maps every page of a range to itself. */
    method MapIdentity(base: nat, bytes: nat, root: nat, ghost reqs: seq<Req>)
      requires Built(root, reqs) && |firmwarePages| + TablesFor(reqs) >= TablesFor(reqs + Identity(base, bytes))
      modifies this
      ensures Built(root, reqs + Identity(base, bytes)) && AllPages() == old(AllPages()) && others == old(others)
    {
      ghost var k := 0;
      var i := base;
      assert reqs + IdentityPages(base, 0) == reqs;
      while i < base + bytes
        invariant i == base + k * PAGE_SIZE && 0 <= k <= Pages(bytes)
        invariant Built(root, reqs + IdentityPages(base, k)) && AllPages() == old(AllPages()) && others == old(others)
        decreases base + bytes - i
      {
        PagesLeft(k, bytes);
        MapSelf(i, root, base, reqs, k, Pages(bytes));
        i, k := i + PAGE_SIZE, k + 1;
      }
      PagesLeft(k, bytes);
    }

    method CreateIdentityMappedPageTable(total: nat, framebufferBase: nat, framebufferSize: nat) returns (root: nat)
      requires tables == map[] && Fresh(map[], firmwarePages)
      requires |firmwarePages| >= 1 + TablesFor(Identity(0, total) + Identity(framebufferBase, framebufferSize))
      modifies this
      ensures Built(root, Identity(0, total) + Identity(framebufferBase, framebufferSize))
      ensures AllPages() == old(AllPages()) && others == old(allocatedPageCount)
    {
      others := allocatedPageCount;
      root := RequestPage();
      nodes := map[root := Node(0, Top)];
      EmptyRoot(tables, nodes, firmwarePages, root);
      assert [] + Identity(0, total) == Identity(0, total);
      TablesGrow(Identity(0, total), Identity(framebufferBase, framebufferSize));
      MapIdentity(0, total, root, []);
      MapIdentity(framebufferBase, framebufferSize, root, Identity(0, total));
    }

    /** Page `k` of the higher half; stops at the page where the virtual address wraps to zero. */
    method MapHigher(root: nat, i: nat, offset: nat, virtualBase: nat, sections: seq<Section>, total: nat,
                     ghost reqs: seq<Req>, ghost k: nat)
      returns (stop: bool)
      requires i == k * PAGE_SIZE && k < Pages(total) && k <= HighCount(total, offset) && total < TWO64
      requires offset < TWO64
      requires Built(root, reqs + Higher(sections, virtualBase, offset, k))
      requires k < HighCount(total, offset) ==>
                 |firmwarePages| + TablesFor(reqs + Higher(sections, virtualBase, offset, k)) >=
                 TablesFor(reqs + Higher(sections, virtualBase, offset, k + 1))
      modifies this
      ensures stop == (k == HighCount(total, offset)) && AllPages() == old(AllPages()) && others == old(others)
      ensures stop ==> Built(root, reqs + Higher(sections, virtualBase, offset, k))
      ensures !stop ==> Built(root, reqs + Higher(sections, virtualBase, offset, k + 1))
    {
      WrapsAt(k, offset, total);
      var vaddr := (i + offset) % TWO64;
      var leafPrivilege := LeafPrivilegeLevel(sections, virtualBase, vaddr);
      if vaddr == 0 {
        return true;
      }
      HigherSnoc(reqs, sections, virtualBase, offset, k);
      MapInto(Req(vaddr, i, leafPrivilege), root, reqs + Higher(sections, virtualBase, offset, k),
              reqs + Higher(sections, virtualBase, offset, k + 1));
      return false;
    }

    /** Maps physical memory at an offset, up to the page where the virtual address wraps to zero. */
    method CreateHigherHalfMapping(
      root: nat, physicalBase: nat, virtualBase: nat, sections: seq<Section>, total: nat, ghost reqs: seq<Req>)
      requires Built(root, reqs)
      requires total < TWO64 && physicalBase < TWO64 && virtualBase < TWO64
      requires var offset := (virtualBase - physicalBase) % TWO64;
               |firmwarePages| + TablesFor(reqs) >=
                 TablesFor(reqs + Higher(sections, virtualBase, offset, HighCount(total, offset)))
      modifies this
      ensures var offset := (virtualBase - physicalBase) % TWO64;
              Built(root, reqs + Higher(sections, virtualBase, offset, HighCount(total, offset)))
      ensures AllPages() == old(AllPages()) && others == old(others)
    {
      var offset: nat := (virtualBase - physicalBase) % TWO64;
      MapAtOffset(root, offset, virtualBase, sections, total, reqs);
    }

    /** The mapping loop of the higher half. */
    method MapAtOffset(root: nat, offset: nat, virtualBase: nat, sections: seq<Section>, total: nat,
                       ghost reqs: seq<Req>)
      requires Built(root, reqs) && total < TWO64 && offset < TWO64
      requires |firmwarePages| + TablesFor(reqs) >=
               TablesFor(reqs + Higher(sections, virtualBase, offset, HighCount(total, offset)))
      modifies this
      ensures Built(root, reqs + Higher(sections, virtualBase, offset, HighCount(total, offset)))
      ensures AllPages() == old(AllPages()) && others == old(others)
    {
      ghost var k := 0;
      var i, stop := 0, false;
      assert reqs + Higher(sections, virtualBase, offset, 0) == reqs;
      while i < total && !stop
        invariant i == k * PAGE_SIZE && 0 <= k <= HighCount(total, offset) && (stop ==> k == HighCount(total, offset))
        invariant Built(root, reqs + Higher(sections, virtualBase, offset, k))
        invariant AllPages() == old(AllPages()) && others == old(others)
        decreases total - i, !stop
      {
        PagesLeft(k, total);
        if k < HighCount(total, offset) {
          HigherPart(reqs, sections, virtualBase, offset, k + 1, HighCount(total, offset));
        }
        stop := MapHigher(root, i, offset, virtualBase, sections, total, reqs, k);
        if !stop {
          i, k := i + PAGE_SIZE, k + 1;
        }
      }
      PagesLeft(k, total);
    }
  }

  /** A zeroed root holds no requests. */
  lemma EmptyRoot(T: Tables, N: Nodes, supply: seq<nat>, root: nat)
    requires T == map[root := ZeroTable()] && N == map[root := Node(0, Top)] && Fresh(T, supply)
    ensures BuiltAt(T, N, supply, root, []) && TablesFor([]) == 0
  {
    assert VAddrs([]) == [];
  }

  /** The next request of the identity loop, and that it needs no more than all of them. */
  lemma IdentityNext(reqs: seq<Req>, base: nat, k: nat, n: nat)
    requires k < n
    ensures reqs + IdentityPages(base, k + 1) ==
            reqs + IdentityPages(base, k) + [Req(base + k * PAGE_SIZE, base + k * PAGE_SIZE, false)]
    ensures TablesFor(reqs + IdentityPages(base, k + 1)) <= TablesFor(reqs + IdentityPages(base, n))
  {
    var part, all := IdentityPages(base, k + 1), IdentityPages(base, n);
    assert reqs + all == reqs + part + all[k + 1..];
    TablesGrow(reqs + part, all[k + 1..]);
  }

  lemma HigherPart(reqs: seq<Req>, sections: seq<Section>, kernelBase: nat, offset: nat, k: nat, n: nat)
    requires k <= n
    ensures TablesFor(reqs + Higher(sections, kernelBase, offset, k)) <=
            TablesFor(reqs + Higher(sections, kernelBase, offset, n))
  {
    var part, all := Higher(sections, kernelBase, offset, k), Higher(sections, kernelBase, offset, n);
    assert reqs + all == reqs + part + all[k..];
    TablesGrow(reqs + part, all[k..]);
  }

  lemma PagesLeft(k: nat, total: nat)
    ensures k * PAGE_SIZE < total <==> k < Pages(total)
  {
  }

  lemma HigherSnoc(reqs: seq<Req>, sections: seq<Section>, kernelBase: nat, offset: nat, k: nat)
    ensures reqs + Higher(sections, kernelBase, offset, k + 1) ==
            reqs + Higher(sections, kernelBase, offset, k) + [HigherReq(sections, kernelBase, offset, k)]
  {
  }

  lemma WrapsAt(k: nat, offset: nat, total: nat)
    requires k < Pages(total) && k <= HighCount(total, offset) && total < TWO64 && offset < TWO64
    ensures (k * PAGE_SIZE + offset) % TWO64 == 0 <==> k == HighCount(total, offset)
  {
  }

  // ------------------------------------------------------------------------- what the tables mean

  /** All requests of the two boot mapping functions. */
  ghost function BootRequests(
    total: nat, fbBase: nat, fbSize: nat, sections: seq<Section>, kernelBase: nat, offset: nat): seq<Req>
  {
    Identity(0, total) + Identity(fbBase, fbSize) + Higher(sections, kernelBase, offset, HighCount(total, offset))
  }

  /** Memory and framebuffer fit below root entry 511, and the offset leads into that entry. */
  ghost predicate BootLayout(total: nat, fbBase: nat, fbSize: nat, offset: nat) {
    total <= LOWER && fbBase + fbSize <= LOWER && UPPER <= offset < TWO64
  }

  /**
   No page of memory is mapped behind the wrap of the virtual address: the loop stops there, or does not get there.
   */
  predicate NoWrap(total: nat, offset: nat) {
    offset % PAGE_SIZE == 0 || Pages(total) == 0 || (Pages(total) - 1) * PAGE_SIZE + offset < TWO64
  }

  lemma MappedTo(T: Tables, root: nat, reqs: seq<Req>, v: nat, q: Req)
    requires Holds(T, root, reqs) && Image(reqs, PageOf(v)) == Some(q) && WritableAbove(T, root)
    ensures Lookup(T, root, Path(v)).Some? && Open(T, root, Path(v), ToWrite)
    ensures Lookup(T, root, Path(v)).value.pfn == q.paddr / PAGE_SIZE % PFN_LIMIT
    ensures Open(T, root, Path(v), ForUser) <==> q.user && OpenAbove(T, root, Path(v), ForUser)
  {
    LookupIsEntryAt(T, root, Path(v));
    OpenIsEntry(T, root, Path(v), ToWrite);
    OpenIsEntry(T, root, Path(v), ForUser);
  }

  lemma FrameFits(p: nat)
    requires p < LOWER
    ensures p / PAGE_SIZE % PFN_LIMIT == p / PAGE_SIZE
  {
  }

  lemma IdentityMember(base: nat, bytes: nat, q: Req)
    requires q in Identity(base, bytes)
    ensures q.vaddr == q.paddr && !q.user && base <= q.vaddr < base + bytes
  {
  }

  lemma SamePage(v: nat, w: nat)
    requires v < LOWER && w < LOWER && PageOf(v) == PageOf(w)
    ensures v / PAGE_SIZE == w / PAGE_SIZE
  {
  }

  lemma UpperPage(v: nat)
    requires UPPER <= v < TWO64
    ensures PageOf(v) == v / PAGE_SIZE - 0xF_FFF0_0000_0000 && PageOf(v) >= LOWER / PAGE_SIZE && Path(v)[0] == 511
  {
  }

  lemma HigherMember(sections: seq<Section>, kernelBase: nat, total: nat, offset: nat, q: Req) returns (k: nat)
    requires q in Higher(sections, kernelBase, offset, HighCount(total, offset))
    ensures k < HighCount(total, offset) && q == HigherReq(sections, kernelBase, offset, k)
  {
    var high := Higher(sections, kernelBase, offset, HighCount(total, offset));
    k :| k < |high| && high[k] == q;
  }

  /** The virtual address of page `k` is above root entry 511 or has wrapped into low memory, which takes a wrap. */
  lemma HigherAddress(k: nat, total: nat, offset: nat)
    requires total <= LOWER && UPPER <= offset < TWO64 && k < HighCount(total, offset)
    ensures var v := (k * PAGE_SIZE + offset) % TWO64;
            if k * PAGE_SIZE + offset < TWO64 then v == k * PAGE_SIZE + offset
            else v == k * PAGE_SIZE + offset - TWO64 < LOWER && !NoWrap(total, offset)
    ensures k * PAGE_SIZE < LOWER && k < Pages(total)
  {
    PagesLeft(k, total);
    if offset % PAGE_SIZE == 0 { StopsAtWrap(k, total, offset); }
  }

  lemma StopsAtWrap(k: nat, total: nat, offset: nat)
    requires UPPER <= offset < TWO64 && offset % PAGE_SIZE == 0 && k < HighCount(total, offset) && total <= LOWER
    ensures k * PAGE_SIZE + offset < TWO64
  {
    var w := (TWO64 - offset) / PAGE_SIZE;
    assert TWO64 - offset == w * PAGE_SIZE;
    PagesLeft(w, total);
  }

  /** An address below root entry 511 is mapped only by an identity request, hence to itself. */
  lemma LowRequest(total: nat, fbBase: nat, fbSize: nat, sections: seq<Section>, kernelBase: nat, offset: nat, q: Req,
                   v: nat)
    requires BootLayout(total, fbBase, fbSize, offset) && NoWrap(total, offset) && v < LOWER
    requires q in BootRequests(total, fbBase, fbSize, sections, kernelBase, offset) && PageOf(q.vaddr) == PageOf(v)
    ensures q.paddr / PAGE_SIZE == v / PAGE_SIZE && !q.user
  {
    if q in Identity(0, total) {
      IdentityMember(0, total, q);
      SamePage(q.vaddr, v);
    } else if q in Identity(fbBase, fbSize) {
      IdentityMember(fbBase, fbSize, q);
      SamePage(q.vaddr, v);
    } else {
      var k := HigherMember(sections, kernelBase, total, offset, q);
      HigherAddress(k, total, offset);
      UpperPage(q.vaddr);
    }
  }

  /** An identity request concerns no page of root entry 511. */
  lemma IdentityNotUpper(base: nat, bytes: nat, q: Req, v: nat)
    requires base + bytes <= LOWER && q in Identity(base, bytes) && UPPER <= v < TWO64
    ensures PageOf(q.vaddr) != PageOf(v)
  {
    IdentityMember(base, bytes, q);
    UpperPage(v);
  }

  lemma SameUpperPage(v: nat, w: nat)
    requires UPPER <= v < TWO64 && UPPER <= w < TWO64 && PageOf(v) == PageOf(w)
    requires v % PAGE_SIZE == w % PAGE_SIZE
    ensures v == w
  {
    UpperPage(v);
    UpperPage(w);
  }

  lemma HigherIs(sections: seq<Section>, kernelBase: nat, total: nat, offset: nat, q: Req, p: nat)
    requires total <= LOWER && UPPER <= offset < TWO64 && p % PAGE_SIZE == 0 && p + offset < TWO64
    requires q in Higher(sections, kernelBase, offset, HighCount(total, offset))
    requires PageOf(q.vaddr) == PageOf(p + offset)
    ensures q.paddr == p && q.user == LeafUser(sections, kernelBase, p + offset)
  {
    var k := HigherMember(sections, kernelBase, total, offset, q);
    HigherAddress(k, total, offset);
    NotLowPage(q.vaddr, p + offset);
    SameResidue(k * PAGE_SIZE, p, offset);
    SameUpperPage(q.vaddr, p + offset);
  }

  lemma NotLowPage(v: nat, w: nat)
    requires UPPER <= w < TWO64 && PageOf(v) == PageOf(w)
    ensures v >= LOWER
  {
    UpperPage(w);
    if v < LOWER { LowPage(v); }
  }

  lemma LowPage(v: nat)
    requires v < LOWER
    ensures PageOf(v) < LOWER / PAGE_SIZE
  {
  }

  lemma SameResidue(a: nat, b: nat, offset: nat)
    requires a % PAGE_SIZE == 0 && b % PAGE_SIZE == 0
    ensures (a + offset) % PAGE_SIZE == (b + offset) % PAGE_SIZE
  {
  }

  /** The higher-half request of a page that does not wrap. */
  lemma HigherAt(sections: seq<Section>, kernelBase: nat, total: nat, offset: nat, p: nat)
    requires UPPER <= offset < TWO64 && p < total && p % PAGE_SIZE == 0 && p + offset < TWO64
    ensures p / PAGE_SIZE < HighCount(total, offset)
    ensures HigherReq(sections, kernelBase, offset, p / PAGE_SIZE).vaddr == p + offset
  {
    var k := p / PAGE_SIZE;
    PagesLeft(k, total);
    assert p == k * PAGE_SIZE;
    if offset % PAGE_SIZE == 0 {
      var w := (TWO64 - offset) / PAGE_SIZE;
      assert TWO64 - offset == w * PAGE_SIZE;
      assert k < w && HighCount(total, offset) == if w < Pages(total) then w else Pages(total);
    }
  }

  /** A request for a page of root entry 511 is the higher-half request of that page. */
  lemma HighRequest(
    total: nat, fbBase: nat, fbSize: nat, sections: seq<Section>, kernelBase: nat, offset: nat, q: Req, p: nat)
    requires BootLayout(total, fbBase, fbSize, offset) && p % PAGE_SIZE == 0 && p + offset < TWO64
    requires q in BootRequests(total, fbBase, fbSize, sections, kernelBase, offset)
    requires PageOf(q.vaddr) == PageOf(p + offset)
    ensures q.paddr == p && q.user == LeafUser(sections, kernelBase, p + offset)
  {
    if q in Identity(0, total) {
      IdentityNotUpper(0, total, q, p + offset);
      assert false;
    } else if q in Identity(fbBase, fbSize) {
      IdentityNotUpper(fbBase, fbSize, q, p + offset);
      assert false;
    } else {
      HigherIs(sections, kernelBase, total, offset, q, p);
    }
  }

  /** An address of the framebuffer: any, if that starts at a page, and else those at which the mapping loop stops. */
  predicate InFramebuffer(fbBase: nat, fbSize: nat, v: nat) {
    fbBase <= v < fbBase + fbSize && (fbBase % PAGE_SIZE == 0 || (v - fbBase) % PAGE_SIZE == 0)
  }

  /** The mapping loop stops at an address of the same page. */
  lemma SteppedPage(base: nat, v: nat)
    requires base <= v && (base % PAGE_SIZE == 0 || (v - base) % PAGE_SIZE == 0)
    ensures PageOf(base + (v - base) / PAGE_SIZE * PAGE_SIZE) == PageOf(v)
  {
    assert (base + (v - base) / PAGE_SIZE * PAGE_SIZE) / PAGE_SIZE == v / PAGE_SIZE;
  }

  lemma LowImage(total: nat, fbBase: nat, fbSize: nat, sections: seq<Section>, kernelBase: nat, offset: nat, v: nat)
    requires BootLayout(total, fbBase, fbSize, offset) && NoWrap(total, offset)
    requires v < total || InFramebuffer(fbBase, fbSize, v)
    ensures var r := Image(BootRequests(total, fbBase, fbSize, sections, kernelBase, offset), PageOf(v));
            r.Some? && r.value.paddr / PAGE_SIZE == v / PAGE_SIZE && !r.value.user
  {
    var reqs := BootRequests(total, fbBase, fbSize, sections, kernelBase, offset);
    ImageIsHit(reqs, PageOf(v));
    if v < total {
      var q := Identity(0, total)[v / PAGE_SIZE];
      assert q in reqs && PageOf(q.vaddr) == PageOf(v);
    } else {
      var q := Identity(fbBase, fbSize)[(v - fbBase) / PAGE_SIZE];
      SteppedPage(fbBase, v);
      assert q in reqs;
    }
    LowRequest(total, fbBase, fbSize, sections, kernelBase, offset, Image(reqs, PageOf(v)).value, v);
  }

  lemma HighImage(total: nat, fbBase: nat, fbSize: nat, sections: seq<Section>, kernelBase: nat, offset: nat, p: nat)
    requires BootLayout(total, fbBase, fbSize, offset)
    requires p < total && p % PAGE_SIZE == 0 && p + offset < TWO64
    ensures var r := Image(BootRequests(total, fbBase, fbSize, sections, kernelBase, offset), PageOf(p + offset));
            r.Some? && r.value.paddr == p && r.value.user == LeafUser(sections, kernelBase, p + offset)
  {
    var reqs := BootRequests(total, fbBase, fbSize, sections, kernelBase, offset);
    ImageIsHit(reqs, PageOf(p + offset));
    HigherAt(sections, kernelBase, total, offset, p);
    var high := Higher(sections, kernelBase, offset, HighCount(total, offset));
    assert high[p / PAGE_SIZE] in high;
    assert high[p / PAGE_SIZE] in reqs;
    HighRequest(total, fbBase, fbSize, sections, kernelBase, offset, Image(reqs, PageOf(p + offset)).value, p);
  }

  /** The tables left by both boot mapping functions. */
  ghost predicate Booted(
    T: Tables, root: nat, total: nat, fbBase: nat, fbSize: nat, sections: seq<Section>, kernelBase: nat, offset: nat)
  {
    && BootLayout(total, fbBase, fbSize, offset) && InteriorOk(T, root) && WritableAbove(T, root)
    && Holds(T, root, BootRequests(total, fbBase, fbSize, sections, kernelBase, offset))
  }

  /**
   The boot loader calls one after the other.  The firmware has to give one page for the root and one for every table
   that the requests need, and just those are taken.
   */
  method BuildBootTables(
    memory: BootMemory, total: nat, fbBase: nat, fbSize: nat, physicalBase: nat, virtualBase: nat,
    sections: seq<Section>)
    returns (root: nat)
    requires memory.tables == map[] && Fresh(map[], memory.firmwarePages)
    requires physicalBase < TWO64 && virtualBase < TWO64
    requires var offset := (virtualBase - physicalBase) % TWO64;
             && BootLayout(total, fbBase, fbSize, offset)
             && |memory.firmwarePages| >=
                1 + TablesFor(BootRequests(total, fbBase, fbSize, sections, virtualBase, offset))
    modifies memory
    ensures var offset := (virtualBase - physicalBase) % TWO64;
            && Booted(memory.tables, root, total, fbBase, fbSize, sections, virtualBase, offset)
            && memory.allocatedPageCount ==
               old(memory.allocatedPageCount) + 1 +
               TablesFor(BootRequests(total, fbBase, fbSize, sections, virtualBase, offset))
  {
    ghost var low, offset := Identity(0, total) + Identity(fbBase, fbSize), (virtualBase - physicalBase) % TWO64;
    TablesGrow(low, Higher(sections, virtualBase, offset, HighCount(total, offset)));
    root := memory.CreateIdentityMappedPageTable(total, fbBase, fbSize);
    memory.CreateHigherHalfMapping(root, physicalBase, virtualBase, sections, total, low);
  }

  lemma IdentityConsecutive(base: nat, bytes: nat)
    ensures Consecutive(VAddrs(Identity(base, bytes)), base / PAGE_SIZE)
  {
  }

  lemma HigherConsecutive(sections: seq<Section>, kernelBase: nat, offset: nat, n: nat)
    ensures Consecutive(VAddrs(Higher(sections, kernelBase, offset, n)), offset / PAGE_SIZE)
  {
    forall k: nat ensures PageOf((k * PAGE_SIZE + offset) % TWO64) == (offset / PAGE_SIZE + k) % PFN_LIMIT {
      WrappedPage(k, offset);
    }
  }

  lemma WrappedPage(k: nat, offset: nat)
    ensures PageOf((k * PAGE_SIZE + offset) % TWO64) == (offset / PAGE_SIZE + k) % PFN_LIMIT
  {
    var x := k * PAGE_SIZE + offset;
    var y, c := x / PAGE_SIZE, x / TWO64;
    assert y == offset / PAGE_SIZE + k;
    assert x % TWO64 == x - c * TWO64;
    DividedByPage(x, c);
    WholeLaps(y, c);
  }

  lemma DividedByPage(x: nat, c: nat)
    requires x >= c * TWO64
    ensures (x - c * TWO64) / PAGE_SIZE == x / PAGE_SIZE - c * 0x10_0000_0000_0000
  {
  }

  lemma WholeLaps(y: nat, c: nat)
    requires y >= c * 0x10_0000_0000_0000
    ensures (y - c * 0x10_0000_0000_0000) % PFN_LIMIT == y % PFN_LIMIT
  {
    var d, r := y / PFN_LIMIT, y % PFN_LIMIT;
    assert y - c * 0x10_0000_0000_0000 == (d - c * 0x1_0000) * PFN_LIMIT + r;
  }

  /** That is few: three tables for every block of 512 pages that memory, framebuffer and higher half touch. */
  lemma BootTablesAreFew(total: nat, fbBase: nat, fbSize: nat, sections: seq<Section>, kernelBase: nat, offset: nat)
    ensures TablesFor(BootRequests(total, fbBase, fbSize, sections, kernelBase, offset)) <=
            3 * (Blocks(0, Pages(total)) + Blocks(fbBase / PAGE_SIZE, Pages(fbSize)) +
                 Blocks(offset / PAGE_SIZE, HighCount(total, offset)))
  {
    var n := HighCount(total, offset);
    var a, b, c := Identity(0, total), Identity(fbBase, fbSize), Higher(sections, kernelBase, offset, n);
    assert VAddrs(a + b + c) == VAddrs(a) + VAddrs(b) + VAddrs(c);
    PlacesConcat(VAddrs(a), VAddrs(b));
    PlacesConcat(VAddrs(a) + VAddrs(b), VAddrs(c));
    IdentityConsecutive(0, total);
    IdentityConsecutive(fbBase, fbSize);
    HigherConsecutive(sections, kernelBase, offset, n);
    FewPlaces(VAddrs(a), 0);
    FewPlaces(VAddrs(b), fbBase / PAGE_SIZE);
    FewPlaces(VAddrs(c), offset / PAGE_SIZE);
    UnionSize(Places(VAddrs(a)), Places(VAddrs(b)));
    UnionSize(Places(VAddrs(a)) + Places(VAddrs(b)), Places(VAddrs(c)));
  }

  lemma UnionSize<T>(s: set<T>, t: set<T>)
    ensures |s + t| <= |s| + |t|
  {
    assert s + t == s + (t - s) && s !! t - s;
    SubsetSize(t - s, t);
  }

  /** Every address of memory and of the framebuffer translates to itself, to be written, and for the kernel only. */
  lemma LowTranslates(
    T: Tables, root: nat, total: nat, fbBase: nat, fbSize: nat, sections: seq<Section>, kernelBase: nat, offset: nat,
    v: nat)
    requires Booted(T, root, total, fbBase, fbSize, sections, kernelBase, offset) && NoWrap(total, offset)
    requires v < total || InFramebuffer(fbBase, fbSize, v)
    ensures Lookup(T, root, Path(v)).Some? && Lookup(T, root, Path(v)).value.pfn == v / PAGE_SIZE
    ensures Open(T, root, Path(v), ToWrite) && !Open(T, root, Path(v), ForUser)
  {
    var reqs := BootRequests(total, fbBase, fbSize, sections, kernelBase, offset);
    LowImage(total, fbBase, fbSize, sections, kernelBase, offset, v);
    MappedTo(T, root, reqs, v, Image(reqs, PageOf(v)).value);
    FrameFits(v);
  }

  /**
   Every page of memory also translates at its offset, unless that wraps; all four levels let it be written, and
   open it to user mode exactly when it lies at or above the kernel base and its first section is not privileged.
   */
  lemma HighTranslates(
    T: Tables, root: nat, total: nat, fbBase: nat, fbSize: nat, sections: seq<Section>, kernelBase: nat, offset: nat,
    p: nat)
    requires Booted(T, root, total, fbBase, fbSize, sections, kernelBase, offset)
    requires p < total && p % PAGE_SIZE == 0 && p + offset < TWO64
    ensures var v := p + offset;
            && Lookup(T, root, Path(v)).Some? && Lookup(T, root, Path(v)).value.pfn == p / PAGE_SIZE
            && Open(T, root, Path(v), ToWrite)
            && (Open(T, root, Path(v), ForUser) <==> v >= kernelBase && !Privileged(sections, kernelBase, v))
  {
    var reqs := BootRequests(total, fbBase, fbSize, sections, kernelBase, offset);
    HighImage(total, fbBase, fbSize, sections, kernelBase, offset, p);
    MappedTo(T, root, reqs, p + offset, Image(reqs, PageOf(p + offset)).value);
    FrameFits(p);
    UpperPage(p + offset);
    assert Uniform(T, root, Path(p + offset), InteriorUser(p + offset));
    UniformIsOpen(T, root, Path(p + offset));
  }

  ghost predicate TranslatesToItself(T: Tables, root: nat, v: nat) {
    Lookup(T, root, Path(v)).Some? && Lookup(T, root, Path(v)).value.pfn == v / PAGE_SIZE
  }

  lemma {:induction false} ImageConcat(a: seq<Req>, b: seq<Req>, page: nat)
    ensures Image(a + b, page) == if Image(b, page).Some? then Image(b, page) else Image(a, page)
    decreases |b|
  {
    if b == [] {
      assert a + b == a;
    } else {
      assert (a + b)[..|a + b| - 1] == a + b[..|b| - 1];
      ImageConcat(a, b[..|b| - 1], page);
    }
  }

  /** The first page behind the wrap is mapped at page 0. */
  lemma FirstWrapped(sections: seq<Section>, kernelBase: nat, total: nat, offset: nat) returns (q: Req)
    requires total <= LOWER && UPPER <= offset < TWO64 && !NoWrap(total, offset)
    ensures q in Higher(sections, kernelBase, offset, HighCount(total, offset)) && PageOf(q.vaddr) == 0
  {
    var k := (TWO64 - offset) / PAGE_SIZE + 1;
    assert TWO64 <= k * PAGE_SIZE + offset < TWO64 + PAGE_SIZE;
    var high := Higher(sections, kernelBase, offset, HighCount(total, offset));
    assert k < |high|;
    q := high[k];
    assert q in high;
  }

  /** The last request for page 0 then is for another frame. */
  lemma ZeroImage(total: nat, fbBase: nat, fbSize: nat, sections: seq<Section>, kernelBase: nat, offset: nat)
    requires BootLayout(total, fbBase, fbSize, offset) && !NoWrap(total, offset)
    ensures var r := Image(BootRequests(total, fbBase, fbSize, sections, kernelBase, offset), 0);
            r.Some? && r.value.paddr < LOWER && r.value.paddr / PAGE_SIZE > 0
  {
    var low := Identity(0, total) + Identity(fbBase, fbSize);
    var high := Higher(sections, kernelBase, offset, HighCount(total, offset));
    var first := FirstWrapped(sections, kernelBase, total, offset);
    ImageIsHit(high, 0);
    ImageConcat(low, high, 0);
    WrappedFrame(sections, kernelBase, total, offset, Image(high, 0).value);
  }

  lemma WrappedFrame(sections: seq<Section>, kernelBase: nat, total: nat, offset: nat, q: Req)
    requires total <= LOWER && UPPER <= offset < TWO64
    requires q in Higher(sections, kernelBase, offset, HighCount(total, offset)) && PageOf(q.vaddr) == 0
    ensures q.paddr < LOWER && q.paddr / PAGE_SIZE > 0
  {
    var k := HigherMember(sections, kernelBase, total, offset, q);
    HigherAddress(k, total, offset);
    if k * PAGE_SIZE + offset < TWO64 { UpperPage(q.vaddr); }
  }

  lemma ZeroOverwritten(T: Tables, root: nat, total: nat, fbBase: nat, fbSize: nat, sections: seq<Section>,
                        kernelBase: nat, offset: nat)
    requires Booted(T, root, total, fbBase, fbSize, sections, kernelBase, offset) && !NoWrap(total, offset)
    ensures !TranslatesToItself(T, root, 0)
  {
    var reqs := BootRequests(total, fbBase, fbSize, sections, kernelBase, offset);
    ZeroImage(total, fbBase, fbSize, sections, kernelBase, offset);
    MappedTo(T, root, reqs, 0, Image(reqs, 0).value);
    FrameFits(Image(reqs, 0).value.paddr);
  }

  /**
   The check for virtual address 0 keeps low memory intact exactly if the offset is page aligned or nothing wraps:
   otherwise some address of memory, and address 0 first, no longer translates to itself.
   */
  lemma WrapOverwritesLow(T: Tables, root: nat, total: nat, fbBase: nat, fbSize: nat, sections: seq<Section>,
                          kernelBase: nat, offset: nat)
    requires Booted(T, root, total, fbBase, fbSize, sections, kernelBase, offset)
    ensures (exists v: nat :: v < total && !TranslatesToItself(T, root, v)) <==> !NoWrap(total, offset)
  {
    if NoWrap(total, offset) {
      forall v: nat | v < total ensures TranslatesToItself(T, root, v) {
        LowTranslates(T, root, total, fbBase, fbSize, sections, kernelBase, offset, v);
      }
    } else {
      ZeroOverwritten(T, root, total, fbBase, fbSize, sections, kernelBase, offset);
      assert 0 < total && !TranslatesToItself(T, root, 0);
    }
  }
}
