/**
 Walking the page table: the entries on the path of an address, and what a mapping makes of each of them.

 The processor lets a page be written, or be used in user mode, only if the entries at all four levels say so.
 */
module PageWalk {
  import opened PageTables

  // ------------------------------------------------------------------------- the entries on a path

  /** The entries on a path below table `f`, down to the last one or to the first that is not present. */
  function Walk(T: Tables, f: nat, p: seq<nat>): (w: seq<Entry>)
    ensures |w| <= |p|
    decreases |p|
  {
    if p == [] || f !in T || p[0] >= |T[f]| then []
    else if |p| > 1 && T[f][p[0]].present then [T[f][p[0]]] + Walk(T, T[f][p[0]].pfn, p[1..])
    else [T[f][p[0]]]
  }

  /** The entry at level `i` of a walk; nothing is there if a level above was missing. */
  function Level(w: seq<Entry>, i: nat): Entry {
    if i < |w| then w[i] else ZERO_ENTRY
  }

  /** Two entries agree in the bits that no mapping of a table writes. */
  predicate SameOther(a: Entry, b: Entry) {
    && a.writeThrough == b.writeThrough && a.cacheDisabled == b.cacheDisabled && a.accessType == b.accessType
    && a.rest == b.rest
  }

  /** What a mapping leaves in an entry above the last one: an entry that was there, or one for a new table `g`. */
  predicate InteriorNow(old_: Entry, now: Entry, g: nat, user: bool) {
    if old_.present then now == old_
    else now.present && now.writable && now.user == user && now.pfn == g && SameOther(old_, now)
  }

  /** What a mapping leaves in the last entry. */
  predicate LastNow(old_: Entry, now: Entry, leaf: Leaf) {
    && now.present && now.writable && now.user == leaf.user && now.pfn == leaf.pfn && now.rest == old_.rest
    && match leaf.caching
       case Keep =>
         && now.writeThrough == old_.writeThrough && now.cacheDisabled == old_.cacheDisabled
         && now.accessType == old_.accessType
       case SetTo(wt, cd, at) => now.writeThrough == wt && now.cacheDisabled == cd && now.accessType == at
  }

  /** Entry `i` above the last one after a mapping; `m` entries were present before. */
  ghost predicate MappedAt(w: seq<Entry>, w': seq<Entry>, m: nat, supply: seq<nat>, user: bool, i: nat) {
    && i < |w'| && (i < m || i - m < |supply|) && (Level(w, i).present <==> i < m)
    && InteriorNow(Level(w, i), w'[i], if i < m then w'[i].pfn else supply[i - m], user)
  }

  /** The walk after a mapping, entry by entry; `m` levels above the last were present before. */
  ghost predicate Mapped(w: seq<Entry>, w': seq<Entry>, m: nat, supply: seq<nat>, leaf: Leaf, user: bool) {
    && m < |w'|
    && (forall i {:trigger MappedAt(w, w', m, supply, user, i)} :: 0 <= i < |w'| - 1 ==>
          MappedAt(w, w', m, supply, user, i))
    && LastNow(Level(w, |w'| - 1), w'[|w'| - 1], leaf)
  }

  lemma LevelCons(e: Entry, w: seq<Entry>, i: nat)
    ensures Level([e] + w, i) == if i == 0 then e else Level(w, i - 1)
  {
  }

  lemma MappedCons(e: Entry, w: seq<Entry>, w': seq<Entry>, m: nat, v: seq<Entry>, v': seq<Entry>, n: nat,
                   supply: seq<nat>, leaf: Leaf, user: bool)
    requires Mapped(w, w', m, supply, leaf, user) && e.present && v == [e] + w && v' == [e] + w' && n == m + 1
    ensures Mapped(v, v', n, supply, leaf, user)
  {
    forall i | 0 <= i < |w'| ensures MappedAt(v, v', n, supply, user, i) {
      LevelCons(e, w, i);
      if i > 0 { assert MappedAt(w, w', m, supply, user, i - 1); }
    }
    LevelCons(e, w, |w'|);
  }

  lemma MappedAdded(old_: Entry, now: Entry, w': seq<Entry>, supply: seq<nat>, leaf: Leaf, user: bool)
    requires supply != [] && !old_.present && InteriorNow(old_, now, supply[0], user)
    requires Mapped([ZERO_ENTRY], w', 0, supply[1..], leaf, user)
    ensures Mapped([old_], [now] + w', 0, supply, leaf, user)
  {
    var w := [now] + w';
    forall i | 0 <= i < |w| - 1 ensures MappedAt([old_], w, 0, supply, user, i) {
      if i > 0 { assert MappedAt([ZERO_ENTRY], w', 0, supply[1..], user, i - 1); }
    }
  }

  /** How many entries above the last one are present, from the top. */
  function PresentLevels(T: Tables, f: nat, p: seq<nat>): nat
    decreases |p|
  {
    if |p| > 1 && f in T && p[0] < |T[f]| && T[f][p[0]].present then 1 + PresentLevels(T, T[f][p[0]].pfn, p[1..]) else 0
  }

  lemma WalkCons(T: Tables, f: nat, p: seq<nat>)
    requires |p| > 1 && f in T && p[0] < |T[f]| && T[f][p[0]].present
    ensures Walk(T, f, p) == [T[f][p[0]]] + Walk(T, T[f][p[0]].pfn, p[1..])
    ensures PresentLevels(T, f, p) == PresentLevels(T, T[f][p[0]].pfn, p[1..]) + 1
  {
  }

  lemma WalkAdded(T: Tables, T1: Tables, T': Tables, f: nat, p: seq<nat>, supply: seq<nat>, leaf: Leaf, user: bool)
    requires |p| > 1 && f in T && p[0] < |T[f]| && !T[f][p[0]].present && supply != []
    requires f in T' && p[0] < |T'[f]| && InteriorNow(T[f][p[0]], T'[f][p[0]], supply[0], user)
    requires var g, rest := supply[0], p[1..];
             && g in T1 && T1[g] == ZeroTable() && p[1] < TABLE_ENTRIES && |Walk(T', g, rest)| == |rest|
             && Mapped(Walk(T1, g, rest), Walk(T', g, rest), PresentLevels(T1, g, rest), supply[1..], leaf, user)
    ensures |Walk(T', f, p)| == |p|
    ensures Mapped(Walk(T, f, p), Walk(T', f, p), PresentLevels(T, f, p), supply, leaf, user)
  {
    assert Walk(T1, supply[0], p[1..]) == [ZERO_ENTRY];
    MappedAdded(T[f][p[0]], T'[f][p[0]], Walk(T', supply[0], p[1..]), supply, leaf, user);
  }

  /** A mapping through an entry that is present goes on below it. */
  lemma InsertDown(T: Tables, N: Nodes, supply: seq<nat>, f: nat, p: seq<nat>, leaf: Leaf, user: bool, T': Tables)
    requires Ready(T, N, supply, f, p) && |p| > 1 && T[f][p[0]].present && T' == Insert(T, supply, f, p, leaf, user)
    ensures Ready(T, N, supply, T[f][p[0]].pfn, p[1..])
    ensures T' == Insert(T, supply, T[f][p[0]].pfn, p[1..], leaf, user)
    ensures f in T' && p[0] < |T'[f]| && T'[f][p[0]] == T[f][p[0]]
  {
    InsertExtends(T, N, supply, f, p, leaf, user);
    StepDown(T, N, supply, f, p);
  }

  /** A mapping through a missing entry hangs a zeroed table in and goes on below it. */
  lemma InsertAdds(T: Tables, N: Nodes, supply: seq<nat>, f: nat, p: seq<nat>, leaf: Leaf, user: bool, T': Tables)
      returns (T1: Tables, N1: Nodes)
    requires Ready(T, N, supply, f, p) && |p| > 1 && !T[f][p[0]].present && T' == Insert(T, supply, f, p, leaf, user)
    ensures supply != [] && Ready(T1, N1, supply[1..], supply[0], p[1..]) && T1[supply[0]] == ZeroTable()
    ensures T' == Insert(T1, supply[1..], supply[0], p[1..], leaf, user)
    ensures f in T' && p[0] < |T'[f]| && InteriorNow(T[f][p[0]], T'[f][p[0]], supply[0], user)
  {
    T1, N1 := AddTable(T, f, p[0], supply[0], user), AddNode(N, f, p[0], supply[0]);
    InsertExtends(T, N, supply, f, p, leaf, user);
    StepAdded(T, N, supply, f, p, leaf, user);
    StepDown(T1, N1, supply[1..], f, p);
  }

  /** A mapping leaves a complete walk: old entries as they were, new ones present, writable, with the user bit. */
  lemma {:induction false} InsertWalk(T: Tables, N: Nodes, supply: seq<nat>, f: nat, p: seq<nat>, leaf: Leaf,
                                      user: bool, T': Tables)
    requires Ready(T, N, supply, f, p) && T' == Insert(T, supply, f, p, leaf, user)
    ensures |Walk(T', f, p)| == |p|
    ensures Mapped(Walk(T, f, p), Walk(T', f, p), PresentLevels(T, f, p), supply, leaf, user)
    decreases |p|
  {
    if |p| == 1 {
    } else if T[f][p[0]].present {
      InsertDown(T, N, supply, f, p, leaf, user, T');
      var g, rest := T[f][p[0]].pfn, p[1..];
      InsertWalk(T, N, supply, g, rest, leaf, user, T');
      WalkCons(T, f, p);
      WalkCons(T', f, p);
      MappedCons(T[f][p[0]], Walk(T, g, rest), Walk(T', g, rest), PresentLevels(T, g, rest),
                 Walk(T, f, p), Walk(T', f, p), PresentLevels(T, f, p), supply, leaf, user);
    } else {
      var T1, N1 := InsertAdds(T, N, supply, f, p, leaf, user, T');
      InsertWalk(T1, N1, supply[1..], supply[0], p[1..], leaf, user, T');
      WalkAdded(T, T1, T', f, p, supply, leaf, user);
    }
  }

  // ------------------------------------------------------------------------- access at all levels

  datatype Right = ToWrite | ForUser

  predicate Grants(e: Entry, r: Right) {
    match r
    case ToWrite => e.writable
    case ForUser => e.user
  }

  /** All entries on the path are present and grant the right. */
  ghost predicate Open(T: Tables, f: nat, p: seq<nat>, r: Right) {
    var w := Walk(T, f, p);
    p != [] && |w| == |p| && forall i :: 0 <= i < |w| ==> w[i].present && Grants(w[i], r)
  }

  /** The entries above the last one, as far as they are present, grant the right. */
  ghost predicate OpenAbove(T: Tables, f: nat, p: seq<nat>, r: Right) {
    var w := Walk(T, f, p);
    forall i :: 0 <= i < |w| && i < |p| - 1 && w[i].present ==> Grants(w[i], r)
  }

  /**
   After a mapping the page can be written exactly if the entries that were there allow it, and is open to user mode
   exactly if they are, the mapping asks for it, and no table was missing or new tables are hung in for user mode.
   */
  lemma MappingOpens(T: Tables, N: Nodes, supply: seq<nat>, f: nat, p: seq<nat>, leaf: Leaf, user: bool, T': Tables)
    requires Ready(T, N, supply, f, p) && T' == Insert(T, supply, f, p, leaf, user)
    ensures Open(T', f, p, ToWrite) <==> OpenAbove(T, f, p, ToWrite)
    ensures Open(T', f, p, ForUser) <==>
            OpenAbove(T, f, p, ForUser) && leaf.user && (user || PresentLevels(T, f, p) + 1 == |p|)
  {
    InsertWalk(T, N, supply, f, p, leaf, user, T');
    var w, w', m := Walk(T, f, p), Walk(T', f, p), PresentLevels(T, f, p);
    MappedOpens(w, w', m, supply, leaf, user, ToWrite);
    MappedOpens(w, w', m, supply, leaf, user, ForUser);
  }

  lemma MappedOpens(w: seq<Entry>, w': seq<Entry>, m: nat, supply: seq<nat>, leaf: Leaf, user: bool, r: Right)
    requires Mapped(w, w', m, supply, leaf, user) && |w| <= |w'|
    ensures (forall i :: 0 <= i < |w'| ==> w'[i].present && Grants(w'[i], r)) <==>
            && (forall i :: 0 <= i < |w| && i < |w'| - 1 && w[i].present ==> Grants(w[i], r))
            && (r == ForUser ==> leaf.user && (user || m + 1 == |w'|))
  {
    if forall i :: 0 <= i < |w'| ==> w'[i].present && Grants(w'[i], r) {
      forall i | 0 <= i < |w| && i < |w'| - 1 && w[i].present ensures Grants(w[i], r) {
        assert MappedAt(w, w', m, supply, user, i);
      }
      if m + 1 < |w'| { assert MappedAt(w, w', m, supply, user, m); }
    } else {
      var i :| 0 <= i < |w'| && !(w'[i].present && Grants(w'[i], r));
      if i < |w'| - 1 { assert MappedAt(w, w', m, supply, user, i); }
    }
  }

  /** The entry of a page is the last of a complete walk. */
  lemma {:induction false} WalkEnd(T: Tables, f: nat, p: seq<nat>)
    requires p != []
    ensures |Walk(T, f, p)| == |p| ==> EntryAt(T, f, p) == Walk(T, f, p)[|p| - 1]
    ensures |Walk(T, f, p)| < |p| ==> !EntryAt(T, f, p).present
    ensures forall i :: 0 <= i < |Walk(T, f, p)| - 1 ==> Walk(T, f, p)[i].present
    decreases |p|
  {
    if |p| > 1 && f in T && p[0] < |T[f]| && T[f][p[0]].present {
      WalkEnd(T, T[f][p[0]].pfn, p[1..]);
    }
  }

  /** A page is open exactly if its entry and the entries above are. */
  lemma OpenIsEntry(T: Tables, f: nat, p: seq<nat>, r: Right)
    requires p != []
    ensures Open(T, f, p, r) <==> EntryAt(T, f, p).present && Grants(EntryAt(T, f, p), r) && OpenAbove(T, f, p, r)
  {
    WalkEnd(T, f, p);
  }

  /** The first entry of a path and the rest. */
  lemma AboveStep(T: Tables, f: nat, p: seq<nat>, r: Right)
    ensures OpenAbove(T, f, p, r) <==>
            (|p| > 1 && f in T && p[0] < |T[f]| && T[f][p[0]].present ==>
               Grants(T[f][p[0]], r) && OpenAbove(T, T[f][p[0]].pfn, p[1..], r))
  {
    if |p| > 1 && f in T && p[0] < |T[f]| && T[f][p[0]].present {
      var w, rest := Walk(T, f, p), Walk(T, T[f][p[0]].pfn, p[1..]);
      assert w == [T[f][p[0]]] + rest;
      if Grants(T[f][p[0]], r) && OpenAbove(T, T[f][p[0]].pfn, p[1..], r) {
        forall i | 0 <= i < |w| && i < |p| - 1 && w[i].present ensures Grants(w[i], r) {
          if i > 0 { assert w[i] == rest[i - 1]; }
        }
      } else if OpenAbove(T, f, p, r) {
        assert w[0] == T[f][p[0]];
        forall i | 0 <= i < |rest| && i < |p| - 2 && rest[i].present ensures Grants(rest[i], r) {
          assert w[i + 1] == rest[i];
        }
      }
    }
  }

  // ------------------------------------------------------------------------- other pages, and runs

  /** Hanging a table in with the right changes nothing above other pages. */
  lemma {:induction false} AddTableAbove(T: Tables, N: Nodes, f: nat, i: nat, g: nat, user: bool, e: nat, q: seq<nat>,
                                         r: Right)
    requires Forest(T, N) && f in T && i < TABLE_ENTRIES && N[f].depth < 3 && !T[f][i].present
    requires g !in T && g < PFN_LIMIT && (r == ForUser ==> user)
    requires e in T && IsPath(q) && |q| + N[e].depth == 4
    ensures OpenAbove(AddTable(T, f, i, g, user), e, q, r) <==> OpenAbove(T, e, q, r)
    decreases |q|
  {
    var T1 := AddTable(T, f, i, g, user);
    AboveStep(T, e, q, r);
    AboveStep(T1, e, q, r);
    if |q| > 1 {
      if e == f && q[0] == i {
        AboveStep(T1, g, q[1..], r);
      } else if T[e][q[0]].present {
        AddTableAbove(T, N, f, i, g, user, T[e][q[0]].pfn, q[1..], r);
      }
    }
  }

  /** A mapping that goes on below a present entry changes no entry at this depth. */
  lemma SameDepth(T: Tables, N: Nodes, supply: seq<nat>, f: nat, p: seq<nat>, leaf: Leaf, user: bool, e: nat, j: nat)
    requires Ready(T, N, supply, f, p) && |p| > 1 && T[f][p[0]].present
    requires e in T && N[e].depth == N[f].depth && j < TABLE_ENTRIES
    ensures var T' := Insert(T, supply, f, p, leaf, user); e in T' && j < |T'[e]| && T'[e][j] == T[e][j] && j < |T[e]|
  {
    InsertExtends(T, N, supply, f, p, leaf, user);
  }

  lemma {:induction false} InsertAbove(T: Tables, N: Nodes, supply: seq<nat>, f: nat, p: seq<nat>, leaf: Leaf,
                                       user: bool, e: nat, q: seq<nat>, r: Right)
    requires Ready(T, N, supply, f, p) && e in T && N[e].depth == N[f].depth && |q| == |p| && IsPath(q)
    requires r == ForUser ==> user
    ensures OpenAbove(Insert(T, supply, f, p, leaf, user), e, q, r) <==> OpenAbove(T, e, q, r)
    decreases |p|, Missing(T, f, p)
  {
    if |p| > 1 && !T[f][p[0]].present {
      var T1, N1 := AddTable(T, f, p[0], supply[0], user), AddNode(N, f, p[0], supply[0]);
      StepAdded(T, N, supply, f, p, leaf, user);
      AddTableAbove(T, N, f, p[0], supply[0], user, e, q, r);
      InsertAbove(T1, N1, supply[1..], f, p, leaf, user, e, q, r);
    } else {
      AboveStep(T, e, q, r);
      AboveStep(Insert(T, supply, f, p, leaf, user), e, q, r);
      if |p| > 1 {
        SameDepth(T, N, supply, f, p, leaf, user, e, q[0]);
        if T[e][q[0]].present {
          StepDown(T, N, supply, f, p);
          InsertAbove(T, N, supply, T[f][p[0]].pfn, p[1..], leaf, user, T[e][q[0]].pfn, q[1..], r);
        }
      }
    }
  }

  /** Over runs whose new tables grant the right, the entries above a page grant it exactly if they did before. */
  lemma {:induction false} RunAbove(T: Tables, N: Nodes, ops: seq<MapOp>, T': Tables, root: nat, v: nat, r: Right)
    requires Forest(T, N) && IsRoot(N, root) && RunsTo(T, ops, T')
    requires forall i :: 0 <= i < |ops| ==> IsRoot(N, ops[i].root) && (r == ForUser ==> ops[i].user)
    ensures OpenAbove(T', root, Path(v), r) <==> OpenAbove(T, root, Path(v), r)
    decreases |ops|
  {
    if ops != [] {
      ApplyKeeps(T, N, ops[0]);
      InsertAbove(T, N, ops[0].supply, ops[0].root, Path(ops[0].vaddr), ops[0].leaf, ops[0].user, root, Path(v), r);
      RunAbove(Apply(T, ops[0]), GrowOp(T, N, ops[0]), ops[1..], T', root, v, r);
    }
  }

  /** The last mapping of a page is what the plain map holds. */
  lemma {:induction false} PlainLast(before: seq<MapOp>, op: MapOp, after: seq<MapOp>, root: nat, v: nat, e: Entry)
    requires Hits(op, root, v) && forall i :: 0 <= i < |after| ==> !Hits(after[i], root, v)
    ensures var now := Plain(before + [op] + after, root, v, e);
            now.present && now.writable && now.user == op.leaf.user && now.pfn == op.leaf.pfn
    decreases |before|
  {
    var ops := before + [op] + after;
    if before == [] {
      assert ops[1..] == after;
      PlainMissed(after, root, v, op.leaf.On(e));
    } else {
      assert ops[1..] == before[1..] + [op] + after;
      PlainLast(before[1..], op, after, root, v, if Hits(ops[0], root, v) then ops[0].leaf.On(e) else e);
    }
  }

  lemma {:induction false} PlainMissed(ops: seq<MapOp>, root: nat, v: nat, e: Entry)
    requires forall i :: 0 <= i < |ops| ==> !Hits(ops[i], root, v)
    ensures Plain(ops, root, v, e) == e
    decreases |ops|
  {
    if ops != [] { PlainMissed(ops[1..], root, v, e); }
  }

  /**
   After any run of mappings whose new tables are for user mode, the last mapping of a page decides: the page is mapped
   to its frame, can be written if the entries above allowed it at the start, and is open to user mode exactly if that
   mapping asks for it and the entries above were open at the start.
   */
  lemma LastMappingDecides(T: Tables, N: Nodes, before: seq<MapOp>, op: MapOp, after: seq<MapOp>, T': Tables, root: nat,
                           v: nat)
    requires Forest(T, N) && IsRoot(N, root)
    requires Coherent(T, N, before + [op] + after, root) && RunsTo(T, before + [op] + after, T')
    requires Hits(op, root, v) && forall i :: 0 <= i < |after| ==> !Hits(after[i], root, v)
    requires forall i :: 0 <= i < |before + [op] + after| ==> (before + [op] + after)[i].user
    ensures EntryAt(T', root, Path(v)).present && EntryAt(T', root, Path(v)).pfn == op.leaf.pfn
    ensures Open(T', root, Path(v), ToWrite) <==> OpenAbove(T, root, Path(v), ToWrite)
    ensures Open(T', root, Path(v), ForUser) <==> op.leaf.user && OpenAbove(T, root, Path(v), ForUser)
  {
    var ops := before + [op] + after;
    RunIsPlainMap(T, N, ops, T', root, v);
    PlainLast(before, op, after, root, v, EntryAt(T, root, Path(v)));
    RunAbove(T, N, ops, T', root, v, ToWrite);
    RunAbove(T, N, ops, T', root, v, ForUser);
    OpenIsEntry(T', root, Path(v), ToWrite);
    OpenIsEntry(T', root, Path(v), ForUser);
  }
}
