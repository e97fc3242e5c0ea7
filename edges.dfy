// insertEdge and deleteEdge of graph.h as functions on the live vertex
// records, and what they do to adjacency, weights and the symmetry that an
// undirected graph relies on.

module Edges {
  import opened Records
  import opened Adjacency

  /** insertEdge writes at the fill point of `f` (and, undirected, of `t`):
      each written array must have a free slot. */
  predicate EdgeFits<T>(vs: seq<Vertex<T>>, f: int, t: int, sym: bool)
  {
    0 <= f < |vs| && 0 <= t < |vs| && AllWellFormed(vs) &&
    vs[f].countAdj < Capacity &&
    (sym ==> if f == t then vs[f].countAdj + 1 < Capacity else vs[t].countAdj < Capacity)
  }

  /** insertEdge from index f to index t with stored weight w; `sym` is the
      undirected mode, which also writes the symmetric entry on t. */
  function InsertedEdge<T>(vs: seq<Vertex<T>>, f: int, t: int, w: int, sym: bool): (r: seq<Vertex<T>>)
    requires EdgeFits(vs, f, t, sym)
    ensures |r| == |vs| && AllWellFormed(r)
    ensures forall k :: 0 <= k < |r| ==> r[k].info == vs[k].info && r[k].vertexIndex == vs[k].vertexIndex
  {
    var r1 := vs[f := AppendEntry(vs[f], Conn(t, w))];
    if sym then r1[t := AppendEntry(r1[t], Conn(f, w))] else r1
  }

  /** insertEdge on the whole array of records, of which the first n are
      live and consistent: restricted to the live records it is insertEdge on
      them, they stay consistent, and the other records are untouched. */
  lemma InsertedEdgePrefix<T>(full: seq<Vertex<T>>, n: int, f: int, t: int, w: int, sym: bool)
    requires 0 <= n <= |full| && AllWellFormed(full) && Consistent(full[..n])
    requires EdgeFits(full[..n], f, t, sym)
    ensures EdgeFits(full, f, t, sym)
    ensures InsertedEdge(full, f, t, w, sym)[..n] == InsertedEdge(full[..n], f, t, w, sym)
    ensures InsertedEdge(full, f, t, w, sym)[n..] == full[n..]
    ensures Consistent(InsertedEdge(full, f, t, w, sym)[..n])
  {
    ConsistentKept(full[..n], InsertedEdge(full[..n], f, t, w, sym));
  }

  /** The lists insertEdge changes and how: one entry on `f` targeting `t`,
      in undirected mode one more on `t` targeting `f` (both on `f` for a
      self-loop), every other list untouched. */
  lemma InsertedEdgeLists<T>(vs: seq<Vertex<T>>, f: int, t: int, w: int, sym: bool)
    requires EdgeFits(vs, f, t, sym)
    ensures var r := InsertedEdge(vs, f, t, w, sym);
      (!sym ==> Adj(r[f]) == Adj(vs[f]) + [Conn(t, w)]) &&
      (sym && f != t ==> Adj(r[f]) == Adj(vs[f]) + [Conn(t, w)] && Adj(r[t]) == Adj(vs[t]) + [Conn(f, w)]) &&
      (sym && f == t ==> Adj(r[f]) == Adj(vs[f]) + [Conn(f, w), Conn(f, w)]) &&
      forall k :: 0 <= k < |vs| && k != f && (!sym || k != t) ==> r[k] == vs[k]
  {
  }

  /** After insertEdge the source's adjacency test holds from `f` to `t`, and
      in undirected mode from `t` to `f`; when no earlier entry targets the
      other end, edgeWeight reports the stored weight. */
  lemma InsertedEdgeAdjacent<T>(vs: seq<Vertex<T>>, f: int, t: int, w: int, sym: bool)
    requires EdgeFits(vs, f, t, sym)
    ensures var r := InsertedEdge(vs, f, t, w, sym);
      HasEntry(Adj(r[f]), t) && (sym ==> HasEntry(Adj(r[t]), f)) &&
      (!HasEntry(Adj(vs[f]), t) ==> WeightTo(Adj(r[f]), t) == w) &&
      (sym && !HasEntry(Adj(vs[t]), f) ==> WeightTo(Adj(r[t]), f) == w)
  {
    var r := InsertedEdge(vs, f, t, w, sym);
    InsertedEdgeLists(vs, f, t, w, sym);
    var a, b := Adj(vs[f]), Adj(vs[t]);
    var extra := if sym && f == t then [Conn(f, w), Conn(f, w)] else [Conn(t, w)];
    assert Adj(r[f]) == a + extra;
    assert Adj(r[f])[|a|] == Conn(t, w);
    if !HasEntry(a, t) {
      FirstToAfter(a, extra, t);
    }
    if sym {
      var extra' := if f == t then extra else [Conn(f, w)];
      assert Adj(r[t]) == b + extra';
      assert Adj(r[t])[|b|] == Conn(f, w);
      if !HasEntry(b, f) {
        FirstToAfter(b, extra', f);
      }
    }
  }

  /** insertEdge adds one to the count of entries from `f` to `t` and, in
      undirected mode, one to the count from `t` to `f`; no other count moves. */
  lemma InsertedEdgeCounts<T>(vs: seq<Vertex<T>>, f: int, t: int, w: int, sym: bool, k: int, u: int)
    requires EdgeFits(vs, f, t, sym) && 0 <= k < |vs|
    ensures CountTo(Adj(InsertedEdge(vs, f, t, w, sym)[k]), u) ==
              CountTo(Adj(vs[k]), u) + (if k == f && u == t then 1 else 0)
                                     + (if sym && k == t && u == f then 1 else 0)
  {
    InsertedEdgeLists(vs, f, t, w, sym);
    if k == f && sym && f == t {
      var a := Adj(vs[f]);
      assert a + [Conn(f, w), Conn(f, w)] == (a + [Conn(f, w)]) + [Conn(f, w)];
      CountToSnoc(a, Conn(f, w), u);
      CountToSnoc(a + [Conn(f, w)], Conn(f, w), u);
    } else if k == f {
      CountToSnoc(Adj(vs[f]), Conn(t, w), u);
    } else if sym && k == t {
      CountToSnoc(Adj(vs[t]), Conn(f, w), u);
    }
  }

  /** In an undirected graph every logical edge is stored twice: the number
      of entries from i to k equals the number from k to i, and self-loop
      entries come in pairs. */
  ghost predicate Symmetric<T>(vs: seq<Vertex<T>>)
  {
    AllWellFormed(vs) &&
    (forall i, k :: 0 <= i < |vs| && 0 <= k < |vs| && i != k ==> Arcs(vs, i, k) == Arcs(vs, k, i)) &&
    (forall i :: 0 <= i < |vs| ==> Arcs(vs, i, i) % 2 == 0)
  }

  /** The number of entries of record i targeting k. Symmetry is stated on
      it, so a proof names the pairs of records it compares. */
  ghost function Arcs<T>(vs: seq<Vertex<T>>, i: int, k: int): (n: nat)
    requires 0 <= i < |vs| && WellFormed(vs[i])
  {
    CountTo(Adj(vs[i]), k)
  }

  lemma StaysEven(x: int, y: int)
    requires x % 2 == 0 && (y == x || y == x + 2 || y == x - 2)
    ensures y % 2 == 0
  {
  }

  /** Every live entry targets a live vertex. */
  ghost predicate InRange<T>(vs: seq<Vertex<T>>)
  {
    AllWellFormed(vs) && forall i :: 0 <= i < |vs| ==> TargetsBelow(Adj(vs[i]), |vs|)
  }

  lemma InsertedEdgeKeepsSymmetric<T>(vs: seq<Vertex<T>>, f: int, t: int, w: int)
    requires EdgeFits(vs, f, t, true) && Symmetric(vs)
    ensures Symmetric(InsertedEdge(vs, f, t, w, true))
  {
    var r := InsertedEdge(vs, f, t, w, true);
    forall i, k | 0 <= i < |r| && 0 <= k < |r| && i != k
      ensures Arcs(r, i, k) == Arcs(r, k, i)
    {
      InsertedEdgeCounts(vs, f, t, w, true, i, k);
      InsertedEdgeCounts(vs, f, t, w, true, k, i);
      assert Arcs(vs, i, k) == Arcs(vs, k, i);
    }
    forall i | 0 <= i < |r| ensures Arcs(r, i, i) % 2 == 0 {
      InsertedEdgeCounts(vs, f, t, w, true, i, i);
      StaysEven(Arcs(vs, i, i), Arcs(r, i, i));
    }
  }

  lemma InsertedEdgeKeepsInRange<T>(vs: seq<Vertex<T>>, f: int, t: int, w: int, sym: bool)
    requires EdgeFits(vs, f, t, sym) && InRange(vs)
    ensures InRange(InsertedEdge(vs, f, t, w, sym))
  {
    var r := InsertedEdge(vs, f, t, w, sym);
    InsertedEdgeLists(vs, f, t, w, sym);
    forall i | 0 <= i < |r| ensures TargetsBelow(Adj(r[i]), |r|) {
      assert TargetsBelow(Adj(vs[i]), |vs|);
    }
  }

  /** insertVertex appends a record with an empty list: when every entry
      targets a live vertex, that stays so, and so does symmetry (no entry
      targets the new position). */
  lemma AddedVertexKeepsInvariants<T>(vs: seq<Vertex<T>>, nv: Vertex<T>)
    requires InRange(vs) && WellFormed(nv) && nv.countAdj == 0
    ensures InRange(vs + [nv])
    ensures Symmetric(vs) ==> Symmetric(vs + [nv])
  {
    var r := vs + [nv];
    var n := |vs|;
    assert Adj(nv) == [];
    forall i | 0 <= i < n ensures Adj(r[i]) == Adj(vs[i]) && TargetsBelow(Adj(r[i]), n + 1) {
      assert r[i] == vs[i];
    }
    if Symmetric(vs) {
      forall i | 0 <= i < n ensures CountTo(Adj(r[i]), n) == 0 {
        CountToBelow(Adj(vs[i]), n);
      }
      assert CountTo(Adj(r[n]), n) == 0;
      forall i, k | 0 <= i < n + 1 && 0 <= k < n + 1 && i != k
        ensures Arcs(r, i, k) == Arcs(r, k, i)
      {
        if i < n && k < n {
          assert Arcs(vs, i, k) == Arcs(vs, k, i);
        }
      }
      forall i | 0 <= i < n + 1 ensures Arcs(r, i, i) % 2 == 0 {
        if i < n {
          assert Arcs(vs, i, i) % 2 == 0;
        }
      }
    }
  }

  /** What deleteEdge needs to run to completion without reading an
      unset index or one slot past an array: the entry it removes exists and
      the array it shifts is not full; undirected, the entry of `t` targeting
      `f` exists as well (two entries for a self-loop). */
  predicate CanDeleteEdge<T>(vs: seq<Vertex<T>>, f: int, t: int, sym: bool)
  {
    0 <= f < |vs| && 0 <= t < |vs| && AllWellFormed(vs) &&
    HasEntry(Adj(vs[f]), t) && vs[f].countAdj < Capacity &&
    (sym ==> HasEntry(Adj(vs[t]), f) && vs[t].countAdj < Capacity &&
             (f == t ==> CountTo(Adj(vs[f]), f) >= 2))
  }

  /** deleteEdge from index f to index t: the first entry of `f` targeting `t`
      is removed; undirected, first the first entry of `t` targeting `f`. */
  function DeletedEdge<T>(vs: seq<Vertex<T>>, f: int, t: int, sym: bool): (r: seq<Vertex<T>>)
    requires CanDeleteEdge(vs, f, t, sym)
    ensures |r| == |vs| && AllWellFormed(r)
    ensures forall k :: 0 <= k < |r| ==>
              r[k].info == vs[k].info && r[k].vertexIndex == vs[k].vertexIndex && r[k].countAdj <= vs[k].countAdj
  {
    if sym then
      var r1 := vs[t := RemoveFirstTo(vs[t], f)];
      SecondRemovalDefined(vs, f, t);
      r1[f := RemoveFirstTo(r1[f], t)]
    else
      vs[f := RemoveFirstTo(vs[f], t)]
  }

  /** deleteEdge on the whole array of records, of which the first n are
      live and consistent: restricted to the live records it is deleteEdge on
      them, they stay consistent, and the other records are untouched. */
  lemma DeletedEdgePrefix<T>(full: seq<Vertex<T>>, n: int, f: int, t: int, sym: bool)
    requires 0 <= n <= |full| && AllWellFormed(full) && Consistent(full[..n])
    requires CanDeleteEdge(full[..n], f, t, sym)
    ensures CanDeleteEdge(full, f, t, sym)
    ensures DeletedEdge(full, f, t, sym)[..n] == DeletedEdge(full[..n], f, t, sym)
    ensures DeletedEdge(full, f, t, sym)[n..] == full[n..]
    ensures Consistent(DeletedEdge(full, f, t, sym)[..n])
  {
    assert full[..n][f] == full[f] && full[..n][t] == full[t];
    ConsistentKept(full[..n], DeletedEdge(full[..n], f, t, sym));
  }

  /** In undirected mode, once the entry of `t` targeting `f` is gone, the
      entry of `f` targeting `t` is still there to be removed. */
  lemma SecondRemovalDefined<T>(vs: seq<Vertex<T>>, f: int, t: int)
    requires CanDeleteEdge(vs, f, t, true)
    ensures var r1 := vs[t := RemoveFirstTo(vs[t], f)];
      WellFormed(r1[f]) && HasEntry(Adj(r1[f]), t) && r1[f].countAdj < Capacity
  {
    var r1 := vs[t := RemoveFirstTo(vs[t], f)];
    if f == t {
      RemoveFirstToCounts(vs[t], f, t);
      CountToPositive(Adj(r1[f]), t);
      CountToPositive(Adj(vs[f]), f);
    } else {
      assert r1[f] == vs[f];
    }
  }

  /** deleteEdge lowers the count of entries from `f` to `t` by one and, in
      undirected mode, the count from `t` to `f` by one; no other count moves. */
  lemma DeletedEdgeCounts<T>(vs: seq<Vertex<T>>, f: int, t: int, sym: bool, k: int, u: int)
    requires CanDeleteEdge(vs, f, t, sym) && 0 <= k < |vs|
    ensures CountTo(Adj(DeletedEdge(vs, f, t, sym)[k]), u) ==
              CountTo(Adj(vs[k]), u) - (if k == f && u == t then 1 else 0)
                                     - (if sym && k == t && u == f then 1 else 0)
  {
    if sym {
      var r1 := vs[t := RemoveFirstTo(vs[t], f)];
      SecondRemovalDefined(vs, f, t);
      if k == t { RemoveFirstToCounts(vs[t], f, u); }
      if k == f { RemoveFirstToCounts(r1[f], t, u); }
    } else if k == f {
      RemoveFirstToCounts(vs[f], t, u);
    }
  }

  /** deleteEdge changes only the lists of `f` and (undirected) `t`. */
  lemma DeletedEdgeOthers<T>(vs: seq<Vertex<T>>, f: int, t: int, sym: bool)
    requires CanDeleteEdge(vs, f, t, sym)
    ensures forall k :: 0 <= k < |vs| && k != f && (!sym || k != t) ==>
              DeletedEdge(vs, f, t, sym)[k] == vs[k]
  {
  }

  lemma DeletedEdgeKeepsSymmetric<T>(vs: seq<Vertex<T>>, f: int, t: int)
    requires CanDeleteEdge(vs, f, t, true) && Symmetric(vs)
    ensures Symmetric(DeletedEdge(vs, f, t, true))
  {
    DeletedEdgeKeepsPairs(vs, f, t);
    DeletedEdgeKeepsLoops(vs, f, t);
  }

  lemma DeletedEdgeKeepsPairs<T>(vs: seq<Vertex<T>>, f: int, t: int)
    requires CanDeleteEdge(vs, f, t, true) && Symmetric(vs)
    ensures var r := DeletedEdge(vs, f, t, true);
      forall i, k :: 0 <= i < |r| && 0 <= k < |r| && i != k ==> Arcs(r, i, k) == Arcs(r, k, i)
  {
    var r := DeletedEdge(vs, f, t, true);
    forall i, k | 0 <= i < |r| && 0 <= k < |r| && i != k
      ensures Arcs(r, i, k) == Arcs(r, k, i)
    {
      DeletedEdgeCounts(vs, f, t, true, i, k);
      DeletedEdgeCounts(vs, f, t, true, k, i);
      assert Arcs(vs, i, k) == Arcs(vs, k, i);
    }
  }

  lemma DeletedEdgeKeepsLoops<T>(vs: seq<Vertex<T>>, f: int, t: int)
    requires CanDeleteEdge(vs, f, t, true) && Symmetric(vs)
    ensures var r := DeletedEdge(vs, f, t, true);
      forall i :: 0 <= i < |r| ==> Arcs(r, i, i) % 2 == 0
  {
    var r := DeletedEdge(vs, f, t, true);
    forall i | 0 <= i < |r| ensures Arcs(r, i, i) % 2 == 0 {
      DeletedEdgeCounts(vs, f, t, true, i, i);
      StaysEven(Arcs(vs, i, i), Arcs(r, i, i));
    }
  }

  lemma DeletedEdgeKeepsInRange<T>(vs: seq<Vertex<T>>, f: int, t: int, sym: bool)
    requires CanDeleteEdge(vs, f, t, sym) && InRange(vs)
    ensures InRange(DeletedEdge(vs, f, t, sym))
  {
    var n := |vs|;
    if sym {
      var r1 := vs[t := RemoveFirstTo(vs[t], f)];
      SecondRemovalDefined(vs, f, t);
      RemoveFirstToBelow(vs[t], f, n);
      assert forall i :: 0 <= i < n ==> TargetsBelow(Adj(r1[i]), n);
      RemoveFirstToBelow(r1[f], t, n);
    } else {
      RemoveFirstToBelow(vs[f], t, n);
    }
  }

  /** insertEdge followed by deleteEdge of the same pair gives every vertex
      back its adjacency list, provided no earlier entry joined the pair
      (otherwise the earlier, first-found entry is the one removed). */
  lemma InsertThenDelete<T>(vs: seq<Vertex<T>>, f: int, t: int, w: int, sym: bool)
    requires EdgeFits(vs, f, t, sym) && vs[f].countAdj + 1 < Capacity
    requires sym ==> if f == t then vs[f].countAdj + 2 < Capacity else vs[t].countAdj + 1 < Capacity
    requires !HasEntry(Adj(vs[f]), t) && (sym ==> !HasEntry(Adj(vs[t]), f))
    ensures CanDeleteEdge(InsertedEdge(vs, f, t, w, sym), f, t, sym)
    ensures var d := DeletedEdge(InsertedEdge(vs, f, t, w, sym), f, t, sym);
      Labels(d) == Labels(vs) && forall k :: 0 <= k < |vs| ==> Adj(d[k]) == Adj(vs[k])
  {
    InsertedEdgeLists(vs, f, t, w, sym);
    InsertedEdgeAdjacent(vs, f, t, w, sym);
    if sym && f == t {
      InsertThenDeleteLoop(vs, f, w);
    } else if sym {
      InsertThenDeletePair(vs, f, t, w);
    } else {
      InsertThenDeleteArc(vs, f, t, w);
    }
  }

  lemma InsertThenDeleteArc<T>(vs: seq<Vertex<T>>, f: int, t: int, w: int)
    requires EdgeFits(vs, f, t, false) && vs[f].countAdj + 1 < Capacity
    requires !HasEntry(Adj(vs[f]), t)
    ensures CanDeleteEdge(InsertedEdge(vs, f, t, w, false), f, t, false)
    ensures var d := DeletedEdge(InsertedEdge(vs, f, t, w, false), f, t, false);
      Labels(d) == Labels(vs) && forall k :: 0 <= k < |vs| ==> Adj(d[k]) == Adj(vs[k])
  {
    InsertedEdgeLists(vs, f, t, w, false);
    var r := InsertedEdge(vs, f, t, w, false);
    RemoveFirstToAfter(r[f], Adj(vs[f]), [Conn(t, w)], t);
    LabelsKept(DeletedEdge(r, f, t, false), vs);
  }

  lemma InsertThenDeletePair<T>(vs: seq<Vertex<T>>, f: int, t: int, w: int)
    requires EdgeFits(vs, f, t, true) && f != t
    requires vs[f].countAdj + 1 < Capacity && vs[t].countAdj + 1 < Capacity
    requires !HasEntry(Adj(vs[f]), t) && !HasEntry(Adj(vs[t]), f)
    ensures CanDeleteEdge(InsertedEdge(vs, f, t, w, true), f, t, true)
    ensures var d := DeletedEdge(InsertedEdge(vs, f, t, w, true), f, t, true);
      Labels(d) == Labels(vs) && forall k :: 0 <= k < |vs| ==> Adj(d[k]) == Adj(vs[k])
  {
    InsertedEdgeLists(vs, f, t, w, true);
    var r := InsertedEdge(vs, f, t, w, true);
    RemoveFirstToAfter(r[t], Adj(vs[t]), [Conn(f, w)], f);
    RemoveFirstToAfter(r[f], Adj(vs[f]), [Conn(t, w)], t);
    LabelsKept(DeletedEdge(r, f, t, true), vs);
  }

  lemma InsertThenDeleteLoop<T>(vs: seq<Vertex<T>>, f: int, w: int)
    requires EdgeFits(vs, f, f, true) && vs[f].countAdj + 2 < Capacity
    requires !HasEntry(Adj(vs[f]), f)
    ensures CanDeleteEdge(InsertedEdge(vs, f, f, w, true), f, f, true)
    ensures var d := DeletedEdge(InsertedEdge(vs, f, f, w, true), f, f, true);
      Labels(d) == Labels(vs) && forall k :: 0 <= k < |vs| ==> Adj(d[k]) == Adj(vs[k])
  {
    var g := AppendEntry(AppendEntry(vs[f], Conn(f, w)), Conn(f, w));
    InsertedLoop(vs, f, w);
    LoopRoundTrip(vs[f], f, w);
    DeletedLoop(vs[f := g], f);
    var x := RemoveFirstTo(RemoveFirstTo(g, f), f);
    UpdatedTwice(vs, f, g, x);
    ListRestored(vs, f, x);
  }

  lemma UpdatedTwice<T>(vs: seq<Vertex<T>>, f: int, g: Vertex<T>, x: Vertex<T>)
    requires 0 <= f < |vs|
    ensures vs[f := g][f] == g && vs[f := g][f := x] == vs[f := x]
  {
  }

  /** Replacing one record by one with the same label and the same live list
      keeps the labels and every live list. */
  lemma ListRestored<T>(vs: seq<Vertex<T>>, f: int, x: Vertex<T>)
    requires 0 <= f < |vs| && AllWellFormed(vs) && WellFormed(x)
    requires x.info == vs[f].info && Adj(x) == Adj(vs[f])
    ensures Labels(vs[f := x]) == Labels(vs)
    ensures forall k :: 0 <= k < |vs| ==> WellFormed(vs[f := x][k]) && Adj(vs[f := x][k]) == Adj(vs[k])
  {
    LabelsKept(vs[f := x], vs);
  }

  /** insertEdge of a self-loop in undirected mode appends the same entry
      twice to f's list and changes nothing else. */
  lemma InsertedLoop<T>(vs: seq<Vertex<T>>, f: int, w: int)
    requires EdgeFits(vs, f, f, true)
    ensures InsertedEdge(vs, f, f, w, true) == vs[f := AppendEntry(AppendEntry(vs[f], Conn(f, w)), Conn(f, w))]
  {
  }

  /** On one list: the two self-loop entries appended to a list that had
      none are both found, and two removals of the first one give the list
      back. */
  lemma LoopRoundTrip<T>(v: Vertex<T>, f: int, w: int)
    requires WellFormed(v) && v.countAdj + 2 < Capacity && !HasEntry(Adj(v), f)
    ensures var g := AppendEntry(AppendEntry(v, Conn(f, w)), Conn(f, w));
      CountTo(Adj(g), f) >= 2 && HasEntry(Adj(g), f) && HasEntry(Adj(RemoveFirstTo(g, f)), f) &&
      Adj(RemoveFirstTo(RemoveFirstTo(g, f), f)) == Adj(v)
  {
    var c := Conn(f, w);
    var once := AppendEntry(v, c);
    var g := AppendEntry(once, c);
    assert Adj(g) == Adj(v) + [c, c];
    LoopEntriesRemoved(g, Adj(v), f, w);
    CountToSnoc(Adj(v), c, f);
    CountToSnoc(Adj(once), c, f);
  }

  /** Undirected deleteEdge of a self-loop removes the first entry targeting
      f from f's list twice and changes nothing else. */
  lemma DeletedLoop<T>(vs: seq<Vertex<T>>, f: int)
    requires CanDeleteEdge(vs, f, f, true)
    ensures HasEntry(Adj(RemoveFirstTo(vs[f], f)), f)
    ensures DeletedEdge(vs, f, f, true) == vs[f := RemoveFirstTo(RemoveFirstTo(vs[f], f), f)]
  {
    SecondRemovalDefined(vs, f, f);
  }

  /** The two entries of a self-loop at the end of a list go with two
      removals of the first entry targeting it. */
  lemma LoopEntriesRemoved<T>(v: Vertex<T>, a: seq<Conn>, f: int, w: int)
    requires WellFormed(v) && v.countAdj < Capacity
    requires Adj(v) == a + [Conn(f, w), Conn(f, w)] && !HasEntry(a, f)
    ensures HasEntry(Adj(v), f)
    ensures var once := RemoveFirstTo(v, f);
      HasEntry(Adj(once), f) && Adj(RemoveFirstTo(once, f)) == a
  {
    var c := Conn(f, w);
    RemoveFirstToAfter(v, a, [c, c], f);
    var once := RemoveFirstTo(v, f);
    assert [c, c][1..] == [c];
    RemoveFirstToAfter(once, a, [c], f);
    assert a + [c][1..] == a;
  }
}
