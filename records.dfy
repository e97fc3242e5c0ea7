// Records kept by the fixed-capacity graph container (graph.h) and the
// first-match label lookup that every one of its operations starts with.

module Records {

  /** Capacity of the vertex array and of every vertex's adjacency array. */
  const Capacity: int := 100

  /** enum Weight and enum Direction; the two flags form the graph's mode. */
  datatype Weight = Weighted | Unweighted
  datatype Direction = Directed | Undirected

  /** struct ConnectedVertices: the index of the vertex at the other end and
      the stored weight. */
  datatype Conn = Conn(connIndex: int, edgeWeight: int)

  /** struct Vertex. `edge` is the whole fixed array (stale slots included);
      only its first `countAdj` slots are live. The struct is copied by value,
      so it is a datatype here. */
  datatype Vertex<T> = Vertex(info: T, vertexIndex: int, countAdj: int, edge: seq<Conn>)

  /** What a mutating operation reports; the source logs these conditions to
      the error stream (or, for a full graph, lets the exception escape). */
  datatype Status = Ok | Full | Duplicate | VertexNotFound | EdgeNotFound

  /** The weight written into an adjacency entry: the caller's weight in a
      weighted graph, 0 in an unweighted one. */
  function StoredWeight(w: Weight, weight: int): int
  {
    if w == Weighted then weight else 0
  }

  predicate WellFormed<T>(v: Vertex<T>)
  {
    |v.edge| == Capacity && 0 <= v.countAdj <= Capacity
  }

  predicate AllWellFormed<T>(vs: seq<Vertex<T>>)
  {
    forall i :: 0 <= i < |vs| ==> WellFormed(vs[i])
  }

  /** The live adjacency list of a vertex. */
  function Adj<T>(v: Vertex<T>): seq<Conn>
    requires WellFormed(v)
  {
    v.edge[..v.countAdj]
  }

  /** The labels of the vertices, in array order. */
  function Labels<T>(vs: seq<Vertex<T>>): (ls: seq<T>)
    ensures |ls| == |vs| && forall i :: 0 <= i < |vs| ==> ls[i] == vs[i].info
  {
    seq(|vs|, i requires 0 <= i < |vs| => vs[i].info)
  }

  /** Records i and j carry the same label. */
  predicate SameLabel<T(==)>(vs: seq<Vertex<T>>, i: int, j: int)
    requires 0 <= i < |vs| && 0 <= j < |vs|
  {
    vs[i].info == vs[j].info
  }

  /** Records that agree on their labels, position by position, have the
      same label sequence. */
  lemma LabelsKept<T>(a: seq<Vertex<T>>, b: seq<Vertex<T>>)
    requires |a| == |b| && forall k :: 0 <= k < |a| ==> a[k].info == b[k].info
    ensures Labels(a) == Labels(b)
  {
  }

  /** No two records carry the same label. The pairs are reached through
      SameLabel, so a proof names the pair it needs. */
  predicate DistinctLabels<T(==)>(vs: seq<Vertex<T>>)
  {
    forall i, j :: 0 <= i < j < |vs| ==> !SameLabel(vs, i, j)
  }

  /** What holds of the live vertex records of a graph: well-formed records,
      each knowing its own position, with pairwise distinct labels. */
  predicate Consistent<T(==)>(vs: seq<Vertex<T>>)
  {
    AllWellFormed(vs) && DistinctLabels(vs) &&
    forall i :: 0 <= i < |vs| ==> vs[i].vertexIndex == i
  }

  /** Records that keep their labels and positions stay consistent. */
  lemma ConsistentKept<T>(vs: seq<Vertex<T>>, r: seq<Vertex<T>>)
    requires Consistent(vs) && |r| == |vs| && AllWellFormed(r)
    requires forall k :: 0 <= k < |r| ==> r[k].info == vs[k].info && r[k].vertexIndex == vs[k].vertexIndex
    ensures Consistent(r)
  {
    forall i, j | 0 <= i < j < |r| ensures !SameLabel(r, i, j) {
      assert !SameLabel(vs, i, j);
    }
  }

  /** A new record at the end, at its own position and with a new label,
      keeps the records consistent. */
  lemma ConsistentAppend<T>(vs: seq<Vertex<T>>, nv: Vertex<T>)
    requires Consistent(vs) && WellFormed(nv) && nv.vertexIndex == |vs|
    requires forall k :: 0 <= k < |vs| ==> vs[k].info != nv.info
    ensures Consistent(vs + [nv])
  {
    var r := vs + [nv];
    assert forall k :: 0 <= k < |vs| ==> r[k] == vs[k];
    forall i, j | 0 <= i < j < |r| ensures !SameLabel(r, i, j) {
      if j < |vs| {
        assert !SameLabel(vs, i, j);
      }
    }
  }

  predicate HasLabel<T(==)>(vs: seq<Vertex<T>>, x: T)
  {
    exists k :: 0 <= k < |vs| && vs[k].info == x
  }

  /** The label scan shared by every operation: the first position holding
      `x`, or -1 when no vertex holds it. */
  function FindIndex<T(==)>(vs: seq<Vertex<T>>, x: T): (r: int)
    ensures -1 <= r < |vs|
    ensures r >= 0 <==> HasLabel(vs, x)
    ensures r >= 0 ==> vs[r].info == x && forall k :: 0 <= k < r ==> vs[k].info != x
  {
    if |vs| == 0 then -1
    else if vs[0].info == x then 0
    else
      var r := FindIndex(vs[1..], x);
      assert forall k :: 1 <= k < |vs| ==> vs[k] == vs[1..][k - 1];
      if r < 0 then -1 else r + 1
  }

  /** With distinct labels, looking up a vertex's own label finds it. */
  lemma FindIndexOfMember<T>(vs: seq<Vertex<T>>, i: int)
    requires DistinctLabels(vs) && 0 <= i < |vs|
    ensures FindIndex(vs, vs[i].info) == i
  {
    var x := vs[i].info;
    assert HasLabel(vs, x);
    assert forall k :: 0 <= k < i ==> !SameLabel(vs, k, i) && vs[k].info != x;
  }

  /** Appending a vertex does not move an existing label, and a new label is
      found at the end. */
  lemma {:induction false} FindIndexAppend<T>(vs: seq<Vertex<T>>, nv: Vertex<T>, x: T)
    ensures FindIndex(vs + [nv], x) ==
              if HasLabel(vs, x) then FindIndex(vs, x)
              else if nv.info == x then |vs| else -1
  {
    var s := vs + [nv];
    var r := FindIndex(s, x);
    assert forall k :: 0 <= k < |vs| ==> s[k] == vs[k];
    if HasLabel(vs, x) {
      var f := FindIndex(vs, x);
      assert s[f].info == x;
      assert r <= f;
    } else if nv.info == x {
      assert s[|vs|].info == x;
      assert r >= 0;
    } else {
      assert !HasLabel(s, x) by {
        forall k | 0 <= k < |s| ensures s[k].info != x {
          if k < |vs| { assert vs[k].info != x; }
        }
      }
    }
  }
}
