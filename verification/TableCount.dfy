/**
 How many tables a tree needs: one for every proper prefix of a mapped path.
 */
module TableCount {
  import opened PageTables

  /** Every entry on the path is present, so a table hangs at its end. */
  predicate Present(T: Tables, f: nat, q: seq<nat>)
    decreases |q|
  {
    q == [] || (f in T && q[0] < |T[f]| && T[f][q[0]].present && Present(T, T[f][q[0]].pfn, q[1..]))
  }

  lemma {:induction false} DeeperPresent(T: Tables, N: Nodes, f: nat, i: nat, g: nat, user: bool, e: nat, q: seq<nat>)
    requires Forest(T, N) && f in T && i < TABLE_ENTRIES && N[f].depth < 3 && g !in T && g < PFN_LIMIT
    requires e in T && IsPath(q) && |q| + N[e].depth < 4 && N[e].depth > N[f].depth
    ensures Present(AddTable(T, f, i, g, user), e, q) == Present(T, e, q)
    decreases |q|
  {
    if q != [] && T[e][q[0]].present { DeeperPresent(T, N, f, i, g, user, T[e][q[0]].pfn, q[1..]); }
  }

  /** Hanging a new table into a slot makes present just the path that ends there. */
  lemma {:induction false} AddTablePresent(T: Tables, N: Nodes, f: nat, i: nat, g: nat, user: bool, e: nat, q: seq<nat>)
    requires Forest(T, N) && f in T && i < TABLE_ENTRIES && N[f].depth < 3 && !T[f][i].present && g !in T
    requires g < PFN_LIMIT
    requires e in T && IsPath(q) && |q| + N[e].depth < 4 && N[e].depth == N[f].depth
    ensures Present(AddTable(T, f, i, g, user), e, q) == (Present(T, e, q) || (e == f && q == [i]))
  {
    if q != [] && e == f && q[0] == i {
      assert q == [i] + q[1..];
      assert Present(AddTable(T, f, i, g, user), g, q[1..]) <==> q[1..] == [];
    } else if q != [] && T[e][q[0]].present {
      DeeperPresent(T, N, f, i, g, user, T[e][q[0]].pfn, q[1..]);
    }
  }

  /** An insertion makes present exactly the proper prefixes of its own path. */
  lemma {:induction false} InsertPresent(
    T: Tables, N: Nodes, supply: seq<nat>, f: nat, p: seq<nat>, leaf: Leaf, user: bool, e: nat, q: seq<nat>)
    requires Ready(T, N, supply, f, p) && e in T && N[e].depth == N[f].depth && |q| < |p| && IsPath(q)
    requires e == f || N[f].depth > 0
    ensures Present(Insert(T, supply, f, p, leaf, user), e, q) == (Present(T, e, q) || (e == f && q <= p))
    decreases |p|, Missing(T, f, p)
  {
    if q == [] {
    } else if !T[f][p[0]].present {
      var T1, N1 := AddTable(T, f, p[0], supply[0], user), AddNode(N, f, p[0], supply[0]);
      StepAdded(T, N, supply, f, p, leaf, user);
      AddTablePresent(T, N, f, p[0], supply[0], user, e, q);
      InsertPresent(T1, N1, supply[1..], f, p, leaf, user, e, q);
    } else {
      InsertExtends(T, N, supply, f, p, leaf, user);
      PrefixDown(q, p);
      if T[e][q[0]].present {
        StepDown(T, N, supply, f, p);
        InsertPresent(T, N, supply, T[f][p[0]].pfn, p[1..], leaf, user, T[e][q[0]].pfn, q[1..]);
      }
    }
  }

  lemma PrefixDown(q: seq<nat>, p: seq<nat>)
    requires q != [] && p != []
    ensures q <= p <==> q[0] == p[0] && q[1..] <= p[1..]
  {
    assert q == [q[0]] + q[1..] && p == [p[0]] + p[1..];
  }

  /** 1 if no table hangs at the end of the path. */
  function Lack(T: Tables, f: nat, q: seq<nat>): nat {
    if Present(T, f, q) then 0 else 1
  }

  /** One level of a walk: what is missing or present goes on below the entry, or is missing altogether. */
  lemma LevelPresent(T: Tables, f: nat, p: seq<nat>, n: nat)
    requires 1 <= n < |p|
    ensures var here := f in T && p[0] < |T[f]| && T[f][p[0]].present;
            && Missing(T, f, p) == (if here then Missing(T, T[f][p[0]].pfn, p[1..]) else |p| - 1)
            && Present(T, f, p[..n]) == (here && Present(T, T[f][p[0]].pfn, p[1..][..n - 1]))
  {
    assert p[..n][1..] == p[1..][..n - 1];
  }

  /** The tables missing on a path of four indices are its absent proper prefixes. */
  lemma MissingCounts(T: Tables, root: nat, p: seq<nat>)
    requires |p| == 4
    ensures Missing(T, root, p) == Lack(T, root, p[..1]) + Lack(T, root, p[..2]) + Lack(T, root, p[..3])
  {
    LevelPresent(T, root, p, 1);
    LevelPresent(T, root, p, 2);
    LevelPresent(T, root, p, 3);
    if root in T && p[0] < |T[root]| && T[root][p[0]].present {
      MissingBelow(T, T[root][p[0]].pfn, p[1..]);
    }
  }

  lemma MissingBelow(T: Tables, f: nat, p: seq<nat>)
    requires |p| == 3
    ensures Missing(T, f, p) == Lack(T, f, p[..1]) + Lack(T, f, p[..2])
  {
    LevelPresent(T, f, p, 1);
    LevelPresent(T, f, p, 2);
    if f in T && p[0] < |T[f]| && T[f][p[0]].present {
      LevelPresent(T, T[f][p[0]].pfn, p[1..], 1);
    }
  }

  /** The proper prefixes of the paths of addresses: the places of the tables below the root. */
  ghost function Places(vaddrs: seq<nat>): set<seq<nat>> {
    if vaddrs == [] then {} else Places(vaddrs[..|vaddrs| - 1]) + PlacesOf(vaddrs[|vaddrs| - 1])
  }

  function PlacesOf(v: nat): set<seq<nat>> {
    {Path(v)[..1], Path(v)[..2], Path(v)[..3]}
  }

  lemma PlacesSnoc(vaddrs: seq<nat>, v: nat)
    ensures Places(vaddrs + [v]) == Places(vaddrs) + PlacesOf(v)
    ensures |Places(vaddrs + [v])| == |Places(vaddrs)| + Outside(Path(v)[..1], Places(vaddrs)) +
                                      Outside(Path(v)[..2], Places(vaddrs)) + Outside(Path(v)[..3], Places(vaddrs))
  {
    assert (vaddrs + [v])[..|vaddrs|] == vaddrs;
    var s, p := Places(vaddrs), Path(v);
    AddOne(s, p[..1]);
    AddOne(s + {p[..1]}, p[..2]);
    AddOne(s + {p[..1]} + {p[..2]}, p[..3]);
    assert s + {p[..1]} + {p[..2]} + {p[..3]} == s + PlacesOf(v);
    assert |p[..1]| == 1 && |p[..2]| == 2 && |p[..3]| == 3;
  }

  /** 1 if the element is not in the set. */
  function Outside<T(==)>(x: T, s: set<T>): nat {
    if x in s then 0 else 1
  }

  lemma AddOne<T>(s: set<T>, x: T)
    ensures |s + {x}| == |s| + Outside(x, s)
  {
    if x in s { assert s + {x} == s; }
  }

  lemma {:induction false} PlacesConcat(a: seq<nat>, b: seq<nat>)
    ensures Places(a + b) == Places(a) + Places(b)
    decreases |b|
  {
    if b == [] {
      assert a + b == a;
    } else {
      var init, v := b[..|b| - 1], b[|b| - 1];
      PlacesConcat(a, init);
      assert a + b == a + init + [v] && b == init + [v];
      PlacesSnoc(a + init, v);
      PlacesSnoc(init, v);
    }
  }

  lemma SubsetSize<T>(s: set<T>, t: set<T>)
    requires s <= t
    ensures |s| <= |t|
  {
    var rest := t - s;
    assert t == s + rest && s !! rest;
  }

  /** A run of mappings needs no fewer places than a part of it. */
  lemma PlacesGrow(a: seq<nat>, b: seq<nat>)
    ensures |Places(a)| <= |Places(a + b)|
  {
    PlacesConcat(a, b);
    SubsetSize(Places(a), Places(a + b));
  }

  // ------------------------------------------------------------------------- consecutive pages

  /** The last table is shared by 512 consecutive pages. */
  lemma SameTable(v: nat, w: nat)
    requires PageOf(v) / 512 == PageOf(w) / 512
    ensures PlacesOf(v) == PlacesOf(w)
  {
    PageFromPath(v);
    PageFromPath(w);
    var p, q := Path(v), Path(w);
    DigitsUnique((p[0] * 512 + p[1]) * 512 + p[2], 0, (q[0] * 512 + q[1]) * 512 + q[2], 0);
    DigitsUnique(p[0] * 512 + p[1], p[2], q[0] * 512 + q[1], q[2]);
    DigitsUnique(p[0], p[1], q[0], q[1]);
    assert p[..1] == q[..1] && p[..2] == q[..2] && p[..3] == q[..3];
  }

  /** The addresses are in consecutive pages from page `first` on, around the end of the 48-bit space. */
  ghost predicate Consecutive(vaddrs: seq<nat>, first: nat) {
    forall k :: 0 <= k < |vaddrs| ==> PageOf(vaddrs[k]) == (first + k) % PFN_LIMIT
  }

  lemma NextPage(x: nat)
    requires x % 512 != 0 && x > 0
    ensures x % PFN_LIMIT / 512 == (x - 1) % PFN_LIMIT / 512
  {
    var c, r := x / PFN_LIMIT, x % PFN_LIMIT;
    assert x == c * PFN_LIMIT + r;
    assert r % 512 == x % 512;
    assert x - 1 == c * PFN_LIMIT + (r - 1);
    assert (x - 1) % PFN_LIMIT == r - 1;
  }

  /** The blocks of 512 pages that `n` consecutive pages from page `first` on touch. */
  function Blocks(first: nat, n: nat): nat {
    if n == 0 then 0 else (first + n - 1) / 512 - first / 512 + 1
  }

  lemma BlocksNext(first: nat, n: nat)
    ensures Blocks(first, n + 1) == Blocks(first, n) + if n > 0 && (first + n) % 512 != 0 then 0 else 1
  {
  }

  /** Consecutive pages need at most three tables for every block of 512 that they touch. */
  lemma {:induction false} FewPlaces(vaddrs: seq<nat>, first: nat)
    requires Consecutive(vaddrs, first)
    ensures |Places(vaddrs)| <= 3 * Blocks(first, |vaddrs|)
    decreases |vaddrs|
  {
    if vaddrs != [] {
      var n := |vaddrs| - 1;
      var init, v := vaddrs[..n], vaddrs[n];
      FewPlaces(init, first);
      assert vaddrs == init + [v];
      PlacesSnoc(init, v);
      BlocksNext(first, n);
      if n > 0 && (first + n) % 512 != 0 {
        NextPage(first + n);
        SameTable(v, init[n - 1]);
        LastPlaces(init);
      }
    }
  }

  lemma LastPlaces(vaddrs: seq<nat>)
    requires vaddrs != []
    ensures var p := Path(vaddrs[|vaddrs| - 1]);
            p[..1] in Places(vaddrs) && p[..2] in Places(vaddrs) && p[..3] in Places(vaddrs)
    ensures PlacesOf(vaddrs[|vaddrs| - 1]) <= Places(vaddrs)
  {
  }
}
