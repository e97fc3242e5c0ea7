// One vertex's adjacency array: the entry scans of graph.h and the two ways
// it is changed, appending at the fill point and the shift-left removal.

module Adjacency {
  import opened Records

  predicate HasEntry(s: seq<Conn>, t: int)
  {
    exists k :: 0 <= k < |s| && s[k].connIndex == t
  }

  /** How many entries of `s` target vertex index `t`. */
  function CountTo(s: seq<Conn>, t: int): (n: nat)
    ensures n <= |s|
  {
    if s == [] then 0
    else CountTo(s[..|s| - 1], t) + (if s[|s| - 1].connIndex == t then 1 else 0)
  }

  /** An entry targeting `t` exists exactly when the count is positive. */
  lemma {:induction false} CountToPositive(s: seq<Conn>, t: int)
    ensures CountTo(s, t) > 0 <==> HasEntry(s, t)
  {
    if s != [] {
      var p := s[..|s| - 1];
      CountToPositive(p, t);
      assert forall k :: 0 <= k < |p| ==> p[k] == s[k];
      if HasEntry(s, t) && s[|s| - 1].connIndex != t {
        var k :| 0 <= k < |s| && s[k].connIndex == t;
        assert p[k].connIndex == t;
      }
    }
  }

  lemma {:induction false} CountToConcat(a: seq<Conn>, b: seq<Conn>, t: int)
    ensures CountTo(a + b, t) == CountTo(a, t) + CountTo(b, t)
  {
    if b == [] {
      assert a + b == a;
    } else {
      var b' := b[..|b| - 1];
      assert (a + b)[..|a + b| - 1] == a + b';
      CountToConcat(a, b', t);
    }
  }

  /** Appending one entry adds one to its target's count. */
  lemma CountToSnoc(s: seq<Conn>, c: Conn, u: int)
    ensures CountTo(s + [c], u) == CountTo(s, u) + (if c.connIndex == u then 1 else 0)
  {
    assert (s + [c])[..|s|] == s;
  }

  /** Every entry of `s` targets an index in [0, n). */
  predicate TargetsBelow(s: seq<Conn>, n: int)
  {
    forall m :: 0 <= m < |s| ==> 0 <= s[m].connIndex < n
  }

  /** No entry targets the bound itself. */
  lemma CountToBelow(s: seq<Conn>, n: int)
    requires TargetsBelow(s, n)
    ensures CountTo(s, n) == 0
  {
    CountToPositive(s, n);
  }

  /** The entry scan of isAdjacentTo, edgeWeight and deleteEdge: the first
      slot of `s` targeting `t`, or -1 when there is none. */
  function FirstTo(s: seq<Conn>, t: int): (k: int)
    ensures -1 <= k < |s|
    ensures k >= 0 <==> HasEntry(s, t)
    ensures k >= 0 ==> s[k].connIndex == t && forall m :: 0 <= m < k ==> s[m].connIndex != t
  {
    if s == [] then -1
    else if s[0].connIndex == t then 0
    else
      var k := FirstTo(s[1..], t);
      assert forall m :: 1 <= m < |s| ==> s[m] == s[1..][m - 1];
      if k < 0 then -1 else k + 1
  }

  /** A target that first appears right after `s` is found there. */
  lemma FirstToAfter(s: seq<Conn>, extra: seq<Conn>, t: int)
    requires !HasEntry(s, t) && extra != [] && extra[0].connIndex == t
    ensures FirstTo(s + extra, t) == |s|
  {
    var u := s + extra;
    assert u[|s|].connIndex == t;
    assert forall m :: 0 <= m < |s| ==> u[m] == s[m];
  }

  /** The weight edgeWeight reports for target `t`: that of the first entry
      targeting it, or -1 when there is none. */
  function WeightTo(s: seq<Conn>, t: int): (w: int)
    ensures !HasEntry(s, t) ==> w == -1
    ensures HasEntry(s, t) ==>
      exists k :: 0 <= k < |s| && s[k].connIndex == t && s[k].edgeWeight == w &&
                  forall m :: 0 <= m < k ==> s[m].connIndex != t
  {
    var k := FirstTo(s, t);
    if k < 0 then -1 else s[k].edgeWeight
  }

  /** The adjacency array while the shift loop of deleteEdge runs: every slot m
      with k <= m < n holds what slot m + 1 held, all other slots are as they
      were. With n the fill point, slot n is read although it is not live. */
  function ShiftLeft(s: seq<Conn>, k: int, n: int): (r: seq<Conn>)
    requires 0 <= k <= n < |s|
    ensures |r| == |s|
  {
    seq(|s|, m requires 0 <= m < |s| => if k <= m < n then s[m + 1] else s[m])
  }

  /** After the shift, the first n - 1 slots are the first n slots without
      slot k, in the same order; the slots from n on are untouched. */
  lemma ShiftLeftRemovesSlot(s: seq<Conn>, k: int, n: int)
    requires 0 <= k < n < |s|
    ensures ShiftLeft(s, k, n)[..n - 1] == s[..n][..k] + s[..n][k + 1..]
    ensures ShiftLeft(s, k, n)[n..] == s[n..]
  {
    var r := ShiftLeft(s, k, n);
    var want := s[..n][..k] + s[..n][k + 1..];
    assert |r[..n - 1]| == |want|;
    forall m | 0 <= m < n - 1 ensures r[..n - 1][m] == want[m] {
      if m < k {
        assert want[m] == s[m];
      } else {
        assert want[m] == s[..n][k + 1..][m - k] == s[m + 1];
      }
    }
  }

  /** Writing an entry at the fill point and bumping the fill counter
      (graph.h, insertEdge). */
  function AppendEntry<T>(v: Vertex<T>, c: Conn): (r: Vertex<T>)
    requires WellFormed(v) && v.countAdj < Capacity
    ensures WellFormed(r) && r.info == v.info && r.vertexIndex == v.vertexIndex
    ensures Adj(r) == Adj(v) + [c]
  {
    var r := v.(edge := v.edge[v.countAdj := c], countAdj := v.countAdj + 1);
    assert Adj(r) == Adj(v) + [c];
    r
  }

  /** Shifting slot k out of the live entries and decrementing the fill
      counter (graph.h, deleteEdge). */
  function RemoveEntry<T>(v: Vertex<T>, k: int): (r: Vertex<T>)
    requires WellFormed(v) && 0 <= k < v.countAdj < Capacity
    ensures WellFormed(r) && r.info == v.info && r.vertexIndex == v.vertexIndex
    ensures r.countAdj == v.countAdj - 1
    ensures Adj(r) == Adj(v)[..k] + Adj(v)[k + 1..]
  {
    ShiftLeftRemovesSlot(v.edge, k, v.countAdj);
    v.(edge := ShiftLeft(v.edge, k, v.countAdj), countAdj := v.countAdj - 1)
  }

  /** Removing the first entry that targets `t`. */
  function RemoveFirstTo<T>(v: Vertex<T>, t: int): (r: Vertex<T>)
    requires WellFormed(v) && HasEntry(Adj(v), t) && v.countAdj < Capacity
    ensures WellFormed(r) && r.info == v.info && r.vertexIndex == v.vertexIndex
    ensures r.countAdj == v.countAdj - 1
  {
    RemoveEntry(v, FirstTo(Adj(v), t))
  }

  /** Removing the first entry targeting `t` lowers the count of entries
      targeting `t` by one and leaves every other target's count alone. */
  lemma RemoveFirstToCounts<T>(v: Vertex<T>, t: int, u: int)
    requires WellFormed(v) && HasEntry(Adj(v), t) && v.countAdj < Capacity
    ensures CountTo(Adj(RemoveFirstTo(v, t)), u) == CountTo(Adj(v), u) - (if u == t then 1 else 0)
  {
    var a := Adj(v);
    var k := FirstTo(a, t);
    assert a == a[..k] + [a[k]] + a[k + 1..];
    CountToConcat(a[..k] + [a[k]], a[k + 1..], u);
    CountToConcat(a[..k], [a[k]], u);
    CountToConcat(a[..k], a[k + 1..], u);
    assert CountTo([a[k]], u) == if u == t then 1 else 0 by {
      assert [a[k]][..0] == [];
    }
  }

  /** Every live entry after a removal was a live entry before it. */
  lemma RemoveFirstToEntries<T>(v: Vertex<T>, t: int)
    requires WellFormed(v) && HasEntry(Adj(v), t) && v.countAdj < Capacity
    ensures forall m :: 0 <= m < |Adj(RemoveFirstTo(v, t))| ==>
              exists p :: 0 <= p < |Adj(v)| && Adj(RemoveFirstTo(v, t))[m] == Adj(v)[p]
  {
    var a := Adj(v);
    var k := FirstTo(a, t);
    var b := Adj(RemoveFirstTo(v, t));
    forall m | 0 <= m < |b| ensures exists p :: 0 <= p < |a| && b[m] == a[p] {
      if m < k { assert b[m] == a[m]; } else { assert b[m] == a[m + 1]; }
    }
  }

  /** When the first entry targeting `t` sits right after `p`, removing it
      leaves `p` followed by the rest. */
  lemma RemoveFirstToAfter<T>(v: Vertex<T>, p: seq<Conn>, extra: seq<Conn>, t: int)
    requires WellFormed(v) && v.countAdj < Capacity && Adj(v) == p + extra
    requires !HasEntry(p, t) && extra != [] && extra[0].connIndex == t
    ensures HasEntry(Adj(v), t)
    ensures Adj(RemoveFirstTo(v, t)) == p + extra[1..]
  {
    FirstToAfter(p, extra, t);
    assert Adj(v)[|p|] == extra[0];
    var a := Adj(v);
    assert a[..|p|] == p;
    assert a[|p| + 1..] == extra[1..];
  }

  /** A removal keeps every remaining target below the bound. */
  lemma RemoveFirstToBelow<T>(v: Vertex<T>, t: int, n: int)
    requires WellFormed(v) && HasEntry(Adj(v), t) && v.countAdj < Capacity
    requires TargetsBelow(Adj(v), n)
    ensures TargetsBelow(Adj(RemoveFirstTo(v, t)), n)
  {
    RemoveFirstToEntries(v, t);
  }

  /** The entries of `s` that do not target `t`, in order. */
  function Without(s: seq<Conn>, t: int): (r: seq<Conn>)
    ensures |r| <= |s|
  {
    if s == [] then []
    else Without(s[..|s| - 1], t) + (if s[|s| - 1].connIndex == t then [] else [s[|s| - 1]])
  }

  lemma {:induction false} WithoutConcat(a: seq<Conn>, b: seq<Conn>, t: int)
    ensures Without(a + b, t) == Without(a, t) + Without(b, t)
  {
    if b == [] {
      assert a + b == a;
    } else {
      var b' := b[..|b| - 1];
      assert (a + b)[..|a + b| - 1] == a + b';
      WithoutConcat(a, b', t);
    }
  }

  /** Removing an entry that targets `t` keeps every entry that does not,
      in the same order. */
  lemma RemoveFirstToWithout<T>(v: Vertex<T>, t: int)
    requires WellFormed(v) && HasEntry(Adj(v), t) && v.countAdj < Capacity
    ensures Without(Adj(RemoveFirstTo(v, t)), t) == Without(Adj(v), t)
  {
    var a := Adj(v);
    var k := FirstTo(a, t);
    var p, q := a[..k], a[k + 1..];
    assert Adj(RemoveFirstTo(v, t)) == p + q;
    assert a == (p + [a[k]]) + q;
    assert Without([a[k]], t) == [] by {
      assert [a[k]][..0] == [];
    }
    calc {
      Without(a, t);
      { WithoutConcat(p + [a[k]], q, t); }
      Without(p + [a[k]], t) + Without(q, t);
      { WithoutConcat(p, [a[k]], t); }
      Without(p, t) + Without(q, t);
      { WithoutConcat(p, q, t); }
      Without(p + q, t);
    }
  }
}
