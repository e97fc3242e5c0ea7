// deleteVertex of graph.h as functions on the vertex records: step 1, the
// nested loop that calls deleteEdge for every entry targeting the victim, and
// step 2, the compaction of the vertex array.

module Removal {
  import opened Records
  import opened Adjacency
  import opened Edges

  /** What step 1 of deleteVertex needs to run without reading an unset index
      or one slot past an array, from position (i, j) of its nested loop on:
      every deleteEdge call it makes, in the order it makes them, finds the
      entries it removes and shifts no full array. */
  ghost predicate PurgeDefined<T>(vs: seq<Vertex<T>>, v: int, sym: bool, i: int, j: int)
    decreases |vs| - i, Capacity - j
  {
    AllWellFormed(vs) && 0 <= i <= |vs| && 0 <= j <= Capacity &&
    (i == |vs| ||
     if j >= vs[i].countAdj then PurgeDefined(vs, v, sym, i + 1, 0)
     else if vs[i].edge[j].connIndex == v then
       CanDeleteEdge(vs, i, v, sym) && PurgeDefined(DeletedEdge(vs, i, v, sym), v, sym, i, j + 1)
     else PurgeDefined(vs, v, sym, i, j + 1))
  }

  /** A condition on the records alone that makes step 1 defined for victim
      `v`: in undirected mode the lists are symmetric (so the entry back to
      the current vertex is there), and no full adjacency array holds an
      entry that step 1 would shift out. */
  ghost predicate PurgeSafe<T>(vs: seq<Vertex<T>>, v: int, sym: bool)
  {
    0 <= v < |vs| && AllWellFormed(vs) && (sym ==> Symmetric(vs)) &&
    (forall i :: 0 <= i < |vs| && vs[i].countAdj == Capacity ==> CountTo(Adj(vs[i]), v) == 0) &&
    (sym && vs[v].countAdj == Capacity ==> forall k :: 0 <= k < |vs| ==> CountTo(Adj(vs[k]), v) == 0)
  }

  /** One deleteEdge call of step 1 is defined and keeps step 1 safe. */
  lemma PurgeStepSafe<T>(vs: seq<Vertex<T>>, v: int, sym: bool, i: int, j: int)
    requires PurgeSafe(vs, v, sym) && 0 <= i < |vs| && 0 <= j < vs[i].countAdj
    requires vs[i].edge[j].connIndex == v
    ensures CanDeleteEdge(vs, i, v, sym)
    ensures PurgeSafe(DeletedEdge(vs, i, v, sym), v, sym)
  {
    assert Adj(vs[i])[j].connIndex == v;
    CountToPositive(Adj(vs[i]), v);
    if sym {
      if i != v {
        assert Arcs(vs, i, v) == Arcs(vs, v, i);
        CountToPositive(Adj(vs[v]), i);
      } else {
        assert Arcs(vs, v, v) % 2 == 0;
        CountToPositive(Adj(vs[v]), v);
      }
    }
    var r := DeletedEdge(vs, i, v, sym);
    forall k | 0 <= k < |r| ensures CountTo(Adj(r[k]), v) <= CountTo(Adj(vs[k]), v) {
      DeletedEdgeCounts(vs, i, v, sym, k, v);
    }
    if sym {
      DeletedEdgeKeepsSymmetric(vs, i, v);
    }
  }

  /** The safe records are ones on which step 1 is defined. */
  lemma {:induction false} PurgeSafeDefined<T>(vs: seq<Vertex<T>>, v: int, sym: bool, i: int, j: int)
    requires PurgeSafe(vs, v, sym) && 0 <= i <= |vs| && 0 <= j <= Capacity
    ensures PurgeDefined(vs, v, sym, i, j)
    decreases |vs| - i, Capacity - j
  {
    if i == |vs| {
    } else if j >= vs[i].countAdj {
      PurgeSafeDefined(vs, v, sym, i + 1, 0);
    } else if vs[i].edge[j].connIndex == v {
      PurgeStepSafe(vs, v, sym, i, j);
      PurgeSafeDefined(DeletedEdge(vs, i, v, sym), v, sym, i, j + 1);
    } else {
      PurgeSafeDefined(vs, v, sym, i, j + 1);
    }
  }

  /** Symmetry is not needed: the lists of an undirected graph that an earlier
      deleteVertex left pointing past the live records (here vertex 0 still
      targets position 2) are not symmetric, and step 1 for a victim that no
      entry targets makes no deleteEdge call at all. */
  lemma PurgeWithoutSymmetry<T>(x0: T, x1: T, e0: seq<Conn>, e1: seq<Conn>)
    requires |e0| == Capacity && |e1| == Capacity && e0[0].connIndex == 2 && e1[0].connIndex == 0
    ensures var vs := [Vertex(x0, 0, 1, e0), Vertex(x1, 1, 1, e1)];
      !Symmetric(vs) && PurgeDefined(vs, 1, true, 0, 0) &&
      Purge(vs, 1, true, 0, 0).0 == vs && Purge(vs, 1, true, 0, 0).1 == 0
  {
    var vs := [Vertex(x0, 0, 1, e0), Vertex(x1, 1, 1, e1)];
    assert Adj(vs[0]) == [e0[0]] && Adj(vs[1]) == [e1[0]];
    assert Arcs(vs, 0, 1) == 0 by {
      assert [e0[0]][..0] == [];
    }
    assert Arcs(vs, 1, 0) == 1 by {
      assert [e1[0]][..0] == [];
    }
    assert PurgeDefined(vs, 1, true, 2, 0);
    assert PurgeDefined(vs, 1, true, 1, 1);
    assert PurgeDefined(vs, 1, true, 1, 0);
    assert PurgeDefined(vs, 1, true, 0, 1);
    assert Purge(vs, 1, true, 2, 0).0 == vs && Purge(vs, 1, true, 2, 0).1 == 0;
    assert Purge(vs, 1, true, 1, 1).0 == vs && Purge(vs, 1, true, 1, 1).1 == 0;
    assert Purge(vs, 1, true, 1, 0).0 == vs && Purge(vs, 1, true, 1, 0).1 == 0;
    assert Purge(vs, 1, true, 0, 1).0 == vs && Purge(vs, 1, true, 0, 1).1 == 0;
  }

  /** Step 1 of deleteVertex from position (i, j) of its nested loop on: the
      records afterwards and how many times deleteEdge was called. Exactly as
      the loop does it, the entry slot advances after a deletion too, so an
      entry shifted into the current slot is not looked at. */
  ghost function Purge<T>(vs: seq<Vertex<T>>, v: int, sym: bool, i: int, j: int): (r: (seq<Vertex<T>>, nat))
    requires PurgeDefined(vs, v, sym, i, j)
    ensures |r.0| == |vs| && AllWellFormed(r.0)
    ensures forall k :: 0 <= k < |vs| ==>
              r.0[k].info == vs[k].info && r.0[k].vertexIndex == vs[k].vertexIndex
    decreases |vs| - i, Capacity - j
  {
    if i == |vs| then (vs, 0)
    else if j >= vs[i].countAdj then Purge(vs, v, sym, i + 1, 0)
    else if vs[i].edge[j].connIndex == v then
      var r := Purge(DeletedEdge(vs, i, v, sym), v, sym, i, j + 1);
      (r.0, r.1 + 1)
    else Purge(vs, v, sym, i, j + 1)
  }

  /** One step of step 1 when slot j of list i targets the victim: deleteEdge
      is called once and the scan goes on at slot j + 1 of the changed lists. */
  lemma PurgeMatch<T>(vs: seq<Vertex<T>>, v: int, sym: bool, i: int, j: int)
    requires PurgeDefined(vs, v, sym, i, j) && 0 <= i < |vs| && 0 <= j < vs[i].countAdj
    requires vs[i].edge[j].connIndex == v
    ensures CanDeleteEdge(vs, i, v, sym) && PurgeDefined(DeletedEdge(vs, i, v, sym), v, sym, i, j + 1)
    ensures var rest := Purge(DeletedEdge(vs, i, v, sym), v, sym, i, j + 1);
      Purge(vs, v, sym, i, j).0 == rest.0 && Purge(vs, v, sym, i, j).1 == rest.1 + 1
  {
  }

  /** Number of live adjacency entries over all vertices. */
  function TotalEntries<T>(vs: seq<Vertex<T>>): int
  {
    if vs == [] then 0 else TotalEntries(vs[..|vs| - 1]) + vs[|vs| - 1].countAdj
  }

  lemma {:induction false} TotalEntriesUpdate<T>(vs: seq<Vertex<T>>, i: int, x: Vertex<T>)
    requires 0 <= i < |vs|
    ensures TotalEntries(vs[i := x]) == TotalEntries(vs) - vs[i].countAdj + x.countAdj
  {
    var n := |vs| - 1;
    if i < n {
      assert vs[i := x][..n] == vs[..n][i := x];
      TotalEntriesUpdate(vs[..n], i, x);
    } else {
      assert vs[i := x][..n] == vs[..n];
    }
  }

  /** A deleteEdge call removes one live entry, two in undirected mode. */
  lemma DeletedEdgeTotal<T>(vs: seq<Vertex<T>>, f: int, t: int, sym: bool)
    requires CanDeleteEdge(vs, f, t, sym)
    ensures TotalEntries(DeletedEdge(vs, f, t, sym)) == TotalEntries(vs) - (if sym then 2 else 1)
  {
    if sym {
      var r1 := vs[t := RemoveFirstTo(vs[t], f)];
      SecondRemovalDefined(vs, f, t);
      TotalEntriesUpdate(vs, t, RemoveFirstTo(vs[t], f));
      TotalEntriesUpdate(r1, f, RemoveFirstTo(r1[f], t));
    } else {
      TotalEntriesUpdate(vs, f, RemoveFirstTo(vs[f], t));
    }
  }

  /** Each deleteEdge call of step 1 (each of which lowers edgeCountNum by
      one) removes one live entry in directed mode and two in undirected mode. */
  lemma {:induction false} PurgeEntryAccounting<T>(vs: seq<Vertex<T>>, v: int, sym: bool, i: int, j: int)
    requires PurgeDefined(vs, v, sym, i, j)
    ensures var r := Purge(vs, v, sym, i, j);
      TotalEntries(vs) - TotalEntries(r.0) == (if sym then 2 * r.1 else r.1)
    decreases |vs| - i, Capacity - j, 1
  {
    if i == |vs| {
    } else if j >= vs[i].countAdj {
      PurgeEntryAccounting(vs, v, sym, i + 1, 0);
    } else if vs[i].edge[j].connIndex == v {
      MatchAccounting(vs, v, sym, i, j);
    } else {
      PurgeEntryAccounting(vs, v, sym, i, j + 1);
    }
  }

  /** The step of PurgeEntryAccounting at a slot targeting the victim. */
  lemma {:induction false} MatchAccounting<T>(vs: seq<Vertex<T>>, v: int, sym: bool, i: int, j: int)
    requires PurgeDefined(vs, v, sym, i, j) && 0 <= i < |vs| && 0 <= j < vs[i].countAdj
    requires vs[i].edge[j].connIndex == v
    ensures var r := Purge(vs, v, sym, i, j);
      TotalEntries(vs) - TotalEntries(r.0) == (if sym then 2 * r.1 else r.1)
    decreases |vs| - i, Capacity - j, 0
  {
    PurgeMatch(vs, v, sym, i, j);
    var d := DeletedEdge(vs, i, v, sym);
    DeletedEdgeTotal(vs, i, v, sym);
    PurgeEntryAccounting(d, v, sym, i, j + 1);
  }

  /** A deleteEdge call from `i` to the victim keeps, in every list except the
      victim's own in undirected mode, the entries not targeting the victim. */
  lemma DeletedEdgeWithout<T>(vs: seq<Vertex<T>>, i: int, v: int, sym: bool, k: int)
    requires CanDeleteEdge(vs, i, v, sym) && 0 <= k < |vs| && (!sym || k != v)
    ensures Without(Adj(DeletedEdge(vs, i, v, sym)[k]), v) == Without(Adj(vs[k]), v)
  {
    if sym {
      var r1 := vs[v := RemoveFirstTo(vs[v], i)];
      SecondRemovalDefined(vs, i, v);
      if k == i {
        assert r1[i] == vs[i];
        RemoveFirstToWithout(vs[i], v);
      }
    } else if k == i {
      RemoveFirstToWithout(vs[i], v);
    }
  }

  /** Step 1 removes only entries that target the victim: every list keeps
      its other entries in order (in undirected mode the victim's own list,
      whose entries back to its neighbours go, is the exception). */
  lemma {:induction false} PurgeKeepsOtherEntries<T>(vs: seq<Vertex<T>>, v: int, sym: bool, i: int, j: int, k: int)
    requires PurgeDefined(vs, v, sym, i, j)
    requires 0 <= k < |vs| && (!sym || k != v)
    ensures Without(Adj(Purge(vs, v, sym, i, j).0[k]), v) == Without(Adj(vs[k]), v)
    decreases |vs| - i, Capacity - j, 1
  {
    if i == |vs| {
    } else if j >= vs[i].countAdj {
      PurgeKeepsOtherEntries(vs, v, sym, i + 1, 0, k);
    } else if vs[i].edge[j].connIndex == v {
      MatchKeepsOtherEntries(vs, v, sym, i, j, k);
    } else {
      PurgeKeepsOtherEntries(vs, v, sym, i, j + 1, k);
    }
  }

  /** The step of PurgeKeepsOtherEntries at a slot targeting the victim. */
  lemma {:induction false} MatchKeepsOtherEntries<T>(vs: seq<Vertex<T>>, v: int, sym: bool, i: int, j: int, k: int)
    requires PurgeDefined(vs, v, sym, i, j) && 0 <= i < |vs| && 0 <= j < vs[i].countAdj
    requires vs[i].edge[j].connIndex == v
    requires 0 <= k < |vs| && (!sym || k != v)
    ensures Without(Adj(Purge(vs, v, sym, i, j).0[k]), v) == Without(Adj(vs[k]), v)
    decreases |vs| - i, Capacity - j, 0
  {
    PurgeMatch(vs, v, sym, i, j);
    DeletedEdgeWithout(vs, i, v, sym, k);
    PurgeKeepsOtherEntries(DeletedEdge(vs, i, v, sym), v, sym, i, j + 1, k);
  }

  /** No list holds two neighbouring live entries that both target `v`. */
  ghost predicate NoRepeatsTo<T>(vs: seq<Vertex<T>>, v: int)
    requires AllWellFormed(vs)
  {
    forall k, m :: 0 <= k < |vs| && 0 <= m && m + 1 < vs[k].countAdj ==>
      vs[k].edge[m].connIndex != v || vs[k].edge[m + 1].connIndex != v
  }

  /** The deleteEdge call at slot j of list i, in directed mode, when no
      earlier slot of that list targets the victim: it removes slot j itself,
      the slot that takes its place does not target the victim either, and no
      two neighbouring entries targeting the victim appear. */
  lemma PurgeStepClean<T>(vs: seq<Vertex<T>>, v: int, i: int, j: int)
    requires CanDeleteEdge(vs, i, v, false) && 0 <= j < vs[i].countAdj
    requires vs[i].edge[j].connIndex == v && NoRepeatsTo(vs, v)
    requires forall m :: 0 <= m < j ==> vs[i].edge[m].connIndex != v
    ensures var d := DeletedEdge(vs, i, v, false);
      NoRepeatsTo(d, v) && (forall k :: 0 <= k < |vs| && k != i ==> d[k] == vs[k]) &&
      forall m :: 0 <= m <= j && m < d[i].countAdj ==> d[i].edge[m].connIndex != v
  {
    var a := Adj(vs[i]);
    assert a[j].connIndex == v;
    assert FirstTo(a, v) == j by {
      var k := FirstTo(a, v);
      assert a[k] == vs[i].edge[k];
    }
    var n := vs[i].countAdj;
    var d := DeletedEdge(vs, i, v, false);
    assert d[i].edge == ShiftLeft(vs[i].edge, j, n);
    forall m | 0 <= m && m + 1 < d[i].countAdj
      ensures d[i].edge[m].connIndex != v || d[i].edge[m + 1].connIndex != v
    {
      if m + 1 == j {
        assert d[i].edge[m] == vs[i].edge[m];
      } else if m >= j {
        assert d[i].edge[m] == vs[i].edge[m + 1] && d[i].edge[m + 1] == vs[i].edge[m + 2];
      }
    }
  }

  /** In directed mode, step 1 leaves no entry targeting the victim, as long
      as no list holds two such entries side by side. Started at (i, j), it
      needs the lists before i and the first j slots of list i to be clean. */
  lemma {:induction false} PurgeClearsVictim<T>(vs: seq<Vertex<T>>, v: int, i: int, j: int)
    requires PurgeDefined(vs, v, false, i, j)
    requires NoRepeatsTo(vs, v)
    requires forall k :: 0 <= k < i ==> !HasEntry(Adj(vs[k]), v)
    requires i < |vs| ==> forall m :: 0 <= m < j && m < vs[i].countAdj ==> vs[i].edge[m].connIndex != v
    ensures forall k :: 0 <= k < |vs| ==> !HasEntry(Adj(Purge(vs, v, false, i, j).0[k]), v)
    decreases |vs| - i, Capacity - j, 1
  {
    if i == |vs| {
    } else if j >= vs[i].countAdj {
      assert !HasEntry(Adj(vs[i]), v) by {
        assert forall m :: 0 <= m < vs[i].countAdj ==> Adj(vs[i])[m] == vs[i].edge[m];
      }
      PurgeClearsVictim(vs, v, i + 1, 0);
    } else if vs[i].edge[j].connIndex == v {
      MatchClearsVictim(vs, v, i, j);
    } else {
      PurgeClearsVictim(vs, v, i, j + 1);
    }
  }

  /** The step of PurgeClearsVictim at a slot targeting the victim. */
  lemma {:induction false} MatchClearsVictim<T>(vs: seq<Vertex<T>>, v: int, i: int, j: int)
    requires PurgeDefined(vs, v, false, i, j) && 0 <= i < |vs| && 0 <= j < vs[i].countAdj
    requires vs[i].edge[j].connIndex == v && NoRepeatsTo(vs, v)
    requires forall k :: 0 <= k < i ==> !HasEntry(Adj(vs[k]), v)
    requires forall m :: 0 <= m < j ==> vs[i].edge[m].connIndex != v
    ensures forall k :: 0 <= k < |vs| ==> !HasEntry(Adj(Purge(vs, v, false, i, j).0[k]), v)
    decreases |vs| - i, Capacity - j, 0
  {
    PurgeMatch(vs, v, false, i, j);
    PurgeStepClean(vs, v, i, j);
    var d := DeletedEdge(vs, i, v, false);
    PurgeClearsVictim(d, v, i, j + 1);
  }

  /** Step 1 as written misses an entry that slides into the slot just
      examined: vertex 0 with two entries targeting vertex 1 keeps one of
      them after a single deleteEdge call. */
  lemma PurgeSkipsShiftedEntry<T>(x0: T, x1: T, e: seq<Conn>)
    requires |e| == Capacity && e[0].connIndex == 1 && e[1].connIndex == 1
    ensures var vs := [Vertex(x0, 0, 2, e), Vertex(x1, 1, 0, e)];
      PurgeSafe(vs, 1, false) && PurgeDefined(vs, 1, false, 0, 0) &&
      Purge(vs, 1, false, 0, 0).1 == 1 && HasEntry(Adj(Purge(vs, 1, false, 0, 0).0[0]), 1)
  {
    var vs := [Vertex(x0, 0, 2, e), Vertex(x1, 1, 0, e)];
    assert PurgeSafe(vs, 1, false);
    PurgeSafeDefined(vs, 1, false, 0, 0);
    PurgeMatch(vs, 1, false, 0, 0);
    assert FirstTo(Adj(vs[0]), 1) == 0 by {
      assert Adj(vs[0])[0] == e[0];
    }
    var d := DeletedEdge(vs, 0, 1, false);
    assert d[0].countAdj == 1 && d[0].edge[0] == e[1];
    assert Adj(d[0])[0] == e[1];
    var end := Purge(d, 1, false, 2, 0);
    assert end.0 == d && end.1 == 0;
    assert Purge(d, 1, false, 1, 0).0 == d && Purge(d, 1, false, 1, 0).1 == 0;
    assert Purge(d, 1, false, 0, 1).0 == d && Purge(d, 1, false, 0, 1).1 == 0;
  }

  /** Step 2 of deleteVertex on the whole vertex array `a` with `n` live
      records and victim `v`: each slot from v up to n - 1 takes the record
      one slot further on, which then gets that slot as its vertexIndex. The
      adjacency arrays move unchanged: no entry is renumbered. */
  function Compacted<T>(a: seq<Vertex<T>>, v: int, n: int): (r: seq<Vertex<T>>)
    requires 0 <= v <= n < |a|
    ensures |r| == |a|
  {
    seq(|a|, m requires 0 <= m < |a| => if v <= m < n then a[m + 1].(vertexIndex := m) else a[m])
  }

  /** After step 2 the n - 1 live records are the old ones without the
      victim, in order, each at its own position, with its adjacency list as
      it was; the slots from n on are untouched. */
  lemma CompactedRemovesVertex<T>(a: seq<Vertex<T>>, v: int, n: int)
    requires 0 <= v < n < |a| && AllWellFormed(a) && Consistent(a[..n])
    ensures var r := Compacted(a, v, n);
      AllWellFormed(r) && Consistent(r[..n - 1]) &&
      Labels(r[..n - 1]) == Labels(a[..v]) + Labels(a[v + 1..n]) &&
      !HasLabel(r[..n - 1], a[v].info) &&
      (forall m :: 0 <= m < n - 1 ==> Adj(r[m]) == Adj(a[if m < v then m else m + 1])) &&
      r[n..] == a[n..]
  {
    CompactedLabels(a, v, n);
    CompactedDropsVictim(a, v, n);
    CompactedDistinct(a, v, n);
  }

  /** No live record left by step 2 carries the victim's label. */
  lemma CompactedDropsVictim<T>(a: seq<Vertex<T>>, v: int, n: int)
    requires 0 <= v < n < |a| && Consistent(a[..n])
    ensures !HasLabel(Compacted(a, v, n)[..n - 1], a[v].info)
  {
    var live := Compacted(a, v, n)[..n - 1];
    forall m | 0 <= m < n - 1 ensures live[m].info != a[v].info {
      var src := if m < v then m else m + 1;
      assert live[m].info == a[..n][src].info;
      assert if src < v then !SameLabel(a[..n], src, v) else !SameLabel(a[..n], v, src);
    }
  }

  /** One more iteration of the compaction loop overwrites slot n. */
  lemma CompactedStep<T>(a: seq<Vertex<T>>, v: int, n: int)
    requires 0 <= v <= n && n + 1 < |a|
    ensures Compacted(a, v, n)[n + 1] == a[n + 1]
    ensures Compacted(a, v, n + 1) == Compacted(a, v, n)[n := a[n + 1].(vertexIndex := n)]
  {
  }

  lemma CompactedDistinct<T>(a: seq<Vertex<T>>, v: int, n: int)
    requires 0 <= v < n < |a| && DistinctLabels(a[..n])
    ensures DistinctLabels(Compacted(a, v, n)[..n - 1])
  {
    var live := Compacted(a, v, n)[..n - 1];
    forall m, q | 0 <= m < q < n - 1 ensures !SameLabel(live, m, q) {
      var sm, sq := if m < v then m else m + 1, if q < v then q else q + 1;
      assert live[m].info == a[..n][sm].info && live[q].info == a[..n][sq].info;
      assert !SameLabel(a[..n], sm, sq);
    }
  }

  lemma CompactedLabels<T>(a: seq<Vertex<T>>, v: int, n: int)
    requires 0 <= v < n < |a|
    ensures Labels(Compacted(a, v, n)[..n - 1]) == Labels(a[..v]) + Labels(a[v + 1..n])
  {
    var live := Compacted(a, v, n)[..n - 1];
    var want := Labels(a[..v]) + Labels(a[v + 1..n]);
    forall m | 0 <= m < n - 1 ensures Labels(live)[m] == want[m] {
      if m < v {
        assert want[m] == a[..v][m].info;
      } else {
        assert want[m] == Labels(a[v + 1..n])[m - v] == a[m + 1].info;
      }
    }
  }

  /** Because no entry is renumbered, an entry of a surviving vertex that
      targeted the old last position now targets no live vertex. */
  lemma CompactedLeavesStaleTarget<T>(a: seq<Vertex<T>>, v: int, n: int, k: int)
    requires 0 <= v < n < |a| && AllWellFormed(a) && Consistent(a[..n])
    requires 0 <= k < n && k != v && HasEntry(Adj(a[k]), n - 1)
    ensures !InRange(Compacted(a, v, n)[..n - 1])
  {
    var r := Compacted(a, v, n);
    CompactedRemovesVertex(a, v, n);
    var pos := if k < v then k else k - 1;
    assert Adj(r[pos]) == Adj(a[k]);
    assert r[..n - 1][pos] == r[pos];
  }
}
