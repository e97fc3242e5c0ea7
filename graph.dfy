// The Graph<Type> container of graph.h: a fixed array of 100 vertex records
// of which the first `count` are live, an edge counter and the graph's mode.

module Graphs {
  import opened Records
  import opened Adjacency
  import opened Edges
  import opened Removal

  /** `new Vertex<Type>[100]`: a fresh array of blank records. The source
      leaves the integer fields of these records unset; here they are 0. */
  method NewNodes<T(0)>() returns (a: array<Vertex<T>>)
    ensures fresh(a) && a.Length == Capacity && AllWellFormed(a[..])
  {
    var blank: T := *;
    a := new Vertex<T>[Capacity](_ => Vertex(blank, 0, 0, seq(Capacity, _ => Conn(0, 0))));
  }

  class Graph<T(==,0)> {
    var weigh: Weight
    var direction: Direction
    var edgeCountNum: int
    var count: int
    var node: array<Vertex<T>>

    /** The array has its fixed capacity, every record in it (stale ones
        included) has a full-size adjacency array, and the live records are
        consistent: distinct labels, each at the position it records. */
    ghost predicate Valid()
      reads this`count, this`node, node
    {
      node.Length == Capacity && 0 <= count <= Capacity &&
      AllWellFormed(node[..]) && Consistent(node[..count])
    }

    /** The live vertex records. */
    ghost function Vertices(): seq<Vertex<T>>
      requires 0 <= count <= node.Length
      reads this`count, this`node, node
    {
      node[..count]
    }

    /** The frame every step of deleteVertex's step 1 keeps: the same array,
        the same number of live records, the same mode and the same records
        beyond the live ones. */
    ghost predicate Unmoved(n0: array<Vertex<T>>, c0: int, w0: Weight, d0: Direction, tail: seq<Vertex<T>>)
      reads this, node
    {
      Valid() && node == n0 && count == c0 && weigh == w0 && direction == d0 && node[count..] == tail
    }

    /** Where the label scan finds `x`, -1 when it is absent. */
    ghost function IndexOf(x: T): int
      requires 0 <= count <= node.Length
      reads this`count, this`node, node
    {
      FindIndex(Vertices(), x)
    }

    /** Graph(): unweighted and undirected. */
    constructor ()
      ensures Valid() && fresh(node) && Vertices() == []
      ensures weigh == Unweighted && direction == Undirected && count == 0 && edgeCountNum == 0
    {
      var blank := NewNodes();
      weigh := Unweighted;
      direction := Undirected;
      node := blank;
      count := 0;
      edgeCountNum := 0;
    }

    /** Graph(Direction, Weight). */
    constructor OfDirectionWeight(dir: Direction, weight: Weight)
      ensures Valid() && fresh(node) && Vertices() == []
      ensures weigh == weight && direction == dir && count == 0 && edgeCountNum == 0
    {
      var blank := NewNodes();
      weigh := weight;
      direction := dir;
      node := blank;
      count := 0;
      edgeCountNum := 0;
    }

    /** Graph(Weight, Direction). */
    constructor OfWeightDirection(weight: Weight, dir: Direction)
      ensures Valid() && fresh(node) && Vertices() == []
      ensures weigh == weight && direction == dir && count == 0 && edgeCountNum == 0
    {
      var blank := NewNodes();
      weigh := weight;
      direction := dir;
      node := blank;
      count := 0;
      edgeCountNum := 0;
    }

    /** Graph(Direction): unweighted. */
    constructor OfDirection(dir: Direction)
      ensures Valid() && fresh(node) && Vertices() == []
      ensures weigh == Unweighted && direction == dir && count == 0 && edgeCountNum == 0
    {
      var blank := NewNodes();
      weigh := Unweighted;
      direction := dir;
      node := blank;
      count := 0;
      edgeCountNum := 0;
    }

    /** Graph(Weight): undirected. */
    constructor OfWeight(weight: Weight)
      ensures Valid() && fresh(node) && Vertices() == []
      ensures weigh == weight && direction == Undirected && count == 0 && edgeCountNum == 0
    {
      var blank := NewNodes();
      weigh := weight;
      direction := Undirected;
      node := blank;
      count := 0;
      edgeCountNum := 0;
    }

    /** The copy constructor: a fresh array holding copies of the live
        records, and the same mode and counters. */
    constructor Copy(other: Graph<T>)
      requires other.Valid()
      ensures Valid() && fresh(node)
      ensures weigh == other.weigh && direction == other.direction
      ensures count == other.count && edgeCountNum == other.edgeCountNum
      ensures Vertices() == other.Vertices()
    {
      var copy := NewNodes();
      for i := 0 to other.count
        invariant copy[..i] == other.node[..i] && AllWellFormed(copy[..])
      {
        copy[i] := other.node[i];
      }
      weigh := other.weigh;
      direction := other.direction;
      count := other.count;
      edgeCountNum := other.edgeCountNum;
      node := copy;
    }

    /** operator=: the same copy into a fresh array, for another graph. */
    method Assign(other: Graph<T>)
      requires other.Valid() && other != this
      modifies this
      ensures Valid() && fresh(node)
      ensures weigh == other.weigh && direction == other.direction
      ensures count == other.count && edgeCountNum == other.edgeCountNum
      ensures Vertices() == other.Vertices()
    {
      var copy := NewNodes();
      for i := 0 to other.count
        invariant copy[..i] == other.node[..i] && AllWellFormed(copy[..])
      {
        copy[i] := other.node[i];
      }
      node := copy;
      weigh := other.weigh;
      direction := other.direction;
      count := other.count;
      edgeCountNum := other.edgeCountNum;
    }

    /** destroy(): a fresh empty array and both counters reset; the mode stays. */
    method Destroy()
      modifies this
      ensures Valid() && fresh(node) && Vertices() == []
      ensures count == 0 && edgeCountNum == 0
      ensures weigh == old(weigh) && direction == old(direction)
    {
      node := NewNodes();
      count := 0;
      edgeCountNum := 0;
    }

    function IsEmpty(): (r: bool)
      requires Valid()
      reads this`count, this`node, node
      ensures r <==> Vertices() == []
    {
      count == 0
    }

    function IsFull(): (r: bool)
      requires Valid()
      reads this`count, this`node, node
      ensures r <==> |Vertices()| == Capacity
    {
      count == Capacity
    }

    function VertexCount(): (r: int)
      requires Valid()
      reads this`count, this`node, node
      ensures r == |Vertices()|
    {
      count
    }

    /** The edge counter. It counts insertEdge calls minus deleteEdge calls,
        not stored entries: deleteEdge lowers it even when it deletes nothing. */
    function EdgeCount(): (r: int)
      reads this
      ensures r == edgeCountNum
    {
      edgeCountNum
    }

    /** findVertex: the label scan with its `exists` flag. */
    method FindVertex(x: T) returns (r: int)
      requires Valid()
      ensures r == IndexOf(x)
    {
      r := -1;
      var found := false;
      for i := 0 to count
        invariant r == FindIndex(node[..i], x) && (found <==> r >= 0)
      {
        assert node[..i + 1] == node[..i] + [node[i]];
        FindIndexAppend(node[..i], node[i], x);
        if !found {
          if node[i].info == x {
            found := true;
            r := i;
          }
        }
      }
    }

    /** The two-label scan every edge operation starts with. */
    method Locate(a: T, b: T) returns (indexFrom: int, indexTo: int)
      requires Valid()
      ensures indexFrom == IndexOf(a) && indexTo == IndexOf(b)
    {
      indexFrom, indexTo := -1, -1;
      var fromExists, toExists := false, false;
      for i := 0 to count
        invariant indexFrom == FindIndex(node[..i], a) && (fromExists <==> indexFrom >= 0)
        invariant indexTo == FindIndex(node[..i], b) && (toExists <==> indexTo >= 0)
      {
        assert node[..i + 1] == node[..i] + [node[i]];
        FindIndexAppend(node[..i], node[i], a);
        FindIndexAppend(node[..i], node[i], b);
        if !fromExists {
          if node[i].info == a {
            fromExists := true;
            indexFrom := i;
          }
        }
        if !toExists {
          if node[i].info == b {
            toExists := true;
            indexTo := i;
          }
        }
      }
    }

    /** The entry scan with `break`: the first live slot of record i that
        targets `target`, -1 when there is none. */
    method Scan(i: int, target: int) returns (k: int)
      requires node.Length == Capacity && 0 <= i < Capacity && WellFormed(node[i])
      ensures k == FirstTo(Adj(node[i]), target)
    {
      k := -1;
      var m := 0;
      while m < node[i].countAdj
        invariant 0 <= m <= node[i].countAdj
        invariant forall q :: 0 <= q < m ==> node[i].edge[q].connIndex != target
      {
        if node[i].edge[m].connIndex == target {
          k := m;
          break;
        }
        m := m + 1;
      }
      ghost var s := Adj(node[i]);
      assert forall q :: 0 <= q < m ==> s[q] == node[i].edge[q];
      if k >= 0 {
        assert s[k].connIndex == target;
      }
    }

    /** insertVertex. A full graph raises range_error, which none of the
        handlers catches: the call ends without a change and reports Full. */
    method InsertVertex(x: T) returns (s: Status)
      requires Valid()
      modifies this, node
      ensures Valid() && node == old(node)
      ensures weigh == old(weigh) && direction == old(direction) && edgeCountNum == old(edgeCountNum)
      ensures s == Full <==> old(count) == Capacity
      ensures s == Duplicate <==> old(count) < Capacity && HasLabel(old(Vertices()), x)
      ensures s == Ok <==> old(count) < Capacity && !HasLabel(old(Vertices()), x)
      ensures s != Ok ==> count == old(count) && node[..] == old(node[..])
      ensures s == Ok ==> count == old(count) + 1
      ensures s == Ok ==> node[..] == old(node[..])[old(count) := Vertex(x, old(count), 0, old(node[count].edge))]
      ensures s == Ok ==> IndexOf(x) == old(count)
      ensures s == Ok && old(InRange(Vertices())) ==> InRange(Vertices())
      ensures s == Ok && old(InRange(Vertices()) && Symmetric(Vertices())) ==> Symmetric(Vertices())
    {
      if IsFull() {
        return Full;
      }
      var found := FindVertex(x);
      if found >= 0 {
        return Duplicate;
      }
      ghost var before := Vertices();
      ghost var full := node[..];
      var nv := node[count].(info := x, vertexIndex := count, countAdj := 0);
      node[count] := nv;
      count := count + 1;
      assert node[..] == full[count - 1 := nv];
      assert AllWellFormed(node[..]);
      assert Vertices() == before + [nv];
      ConsistentAppend(before, nv);
      FindIndexAppend(before, node[count - 1], x);
      if InRange(before) {
        AddedVertexKeepsInvariants(before, node[count - 1]);
      }
      s := Ok;
    }

    /** Writing an entry at the fill point of record i. */
    method Append(i: int, c: Conn)
      requires node.Length == Capacity && 0 <= i < Capacity
      requires WellFormed(node[i]) && node[i].countAdj < Capacity
      modifies node
      ensures node[..] == old(node[..])[i := AppendEntry(old(node[i]), c)]
    {
      node[i] := node[i].(edge := node[i].edge[node[i].countAdj := c], countAdj := node[i].countAdj + 1);
    }

    /** The body of a directed branch of insertEdge. */
    method AppendArc(f: int, t: int, w: int)
      requires node.Length == Capacity && EdgeFits(node[..], f, t, false)
      modifies node
      ensures node[..] == InsertedEdge(old(node[..]), f, t, w, false)
    {
      Append(f, Conn(t, w));
    }

    /** The body of an undirected branch of insertEdge. */
    method AppendPair(f: int, t: int, w: int)
      requires node.Length == Capacity && EdgeFits(node[..], f, t, true)
      modifies node
      ensures node[..] == InsertedEdge(old(node[..]), f, t, w, true)
    {
      Append(f, Conn(t, w));
      Append(t, Conn(f, w));
    }

    /** One branch of insertEdge on the live records: the arc f -> t, and in
        undirected mode its mirror, stored with weight w. */
    method Connect(f: int, t: int, w: int, sym: bool)
      requires Valid() && EdgeFits(Vertices(), f, t, sym)
      modifies node
      ensures Valid()
      ensures Vertices() == InsertedEdge(old(Vertices()), f, t, w, sym)
      ensures node[count..] == old(node[count..])
    {
      ghost var full := node[..];
      InsertedEdgePrefix(full, count, f, t, w, sym);
      if sym {
        AppendPair(f, t, w);
      } else {
        AppendArc(f, t, w);
      }
    }

    /** insertEdge. Each of the source's four mode branches repeats the label
        scan and differs only in the stored weight (the argument or 0) and in
        whether the mirror entry is written; here the branches pick those two
        and share one Connect. The source checks neither that the labels
        exist nor that the arrays have room, so both are demanded of the
        caller. */
    method InsertEdge(a: T, b: T, weight: int := 1)
      requires Valid()
      requires EdgeFits(Vertices(), IndexOf(a), IndexOf(b), direction == Undirected)
      modifies this, node
      ensures Valid() && node == old(node) && count == old(count)
      ensures weigh == old(weigh) && direction == old(direction)
      ensures edgeCountNum == old(edgeCountNum) + 1
      ensures Vertices() == InsertedEdge(old(Vertices()), old(IndexOf(a)), old(IndexOf(b)),
                                         StoredWeight(weigh, weight), direction == Undirected)
      ensures node[count..] == old(node[count..])
    {
      var indexFrom, indexTo := Locate(a, b);
      var w, sym;
      if weigh == Weighted && direction == Directed {
        w, sym := weight, false;
      } else if weigh == Unweighted && direction == Undirected {
        w, sym := 0, true;
      } else if weigh == Unweighted && direction == Directed {
        w, sym := 0, false;
      } else {
        w, sym := weight, true;
      }
      Connect(indexFrom, indexTo, w, sym);
      edgeCountNum := edgeCountNum + 1;
    }

    /** isAdjacentTo: false when either label is missing (the source logs it). */
    method IsAdjacentTo(a: T, b: T) returns (r: bool)
      requires Valid()
      ensures r <==> HasLabel(Vertices(), a) && HasLabel(Vertices(), b) &&
                     HasEntry(Adj(Vertices()[IndexOf(a)]), IndexOf(b))
    {
      var indexFrom, indexTo := Locate(a, b);
      r := false;
      if indexFrom >= 0 && indexTo >= 0 {
        var k := Scan(indexFrom, indexTo);
        r := k >= 0;
      }
    }

    /** edgeWeight: the weight of the first entry from `a` to `b`, -1 when
        there is none. The source reads unset indices when a label is missing,
        so both must exist. */
    method EdgeWeight(a: T, b: T) returns (w: int)
      requires Valid() && HasLabel(Vertices(), a) && HasLabel(Vertices(), b)
      ensures w == WeightTo(Adj(Vertices()[IndexOf(a)]), IndexOf(b))
    {
      var indexFrom, indexTo := Locate(a, b);
      var k := Scan(indexFrom, indexTo);
      w := -1;
      if k >= 0 {
        w := node[indexFrom].edge[k].edgeWeight;
      }
    }

    /** The two loops of deleteEdge that remove slot k of record i: a counting
        loop up to k, then the shift, which copies slot j + 1 into slot j up
        to the fill point (so it reads one slot past the live entries). */
    method ShiftOut(i: int, k: int)
      requires node.Length == Capacity && 0 <= i < Capacity
      requires WellFormed(node[i]) && 0 <= k < node[i].countAdj < Capacity
      modifies node
      ensures node[..] == old(node[..])[i := RemoveEntry(old(node[i]), k)]
    {
      var j := 0;
      while j != k
        invariant 0 <= j <= k
      {
        j := j + 1;
      }
      ghost var v0 := node[i];
      assert ShiftLeft(v0.edge, k, k) == v0.edge;
      while j < node[i].countAdj
        invariant k <= j <= v0.countAdj
        invariant node[i] == v0.(edge := ShiftLeft(v0.edge, k, j))
        invariant forall q :: 0 <= q < node.Length && q != i ==> node[q] == old(node[q])
      {
        assert ShiftLeft(v0.edge, k, j)[j := v0.edge[j + 1]] == ShiftLeft(v0.edge, k, j + 1);
        node[i] := node[i].(edge := node[i].edge[j := node[i].edge[j + 1]]);
        j := j + 1;
      }
      node[i] := node[i].(countAdj := node[i].countAdj - 1);
      assert node[..] == old(node[..])[i := RemoveEntry(v0, k)];
    }
  
    /** The directed deletion: the shift that removes the first entry of f
        targeting t. */
    method RemoveArc(f: int, t: int)
      requires node.Length == Capacity && CanDeleteEdge(node[..], f, t, false)
      modifies node
      ensures node[..] == DeletedEdge(old(node[..]), f, t, false)
    {
      var deleteIndex := Scan(f, t);
      ShiftOut(f, deleteIndex);
    }

    /** The undirected deletion: first the entry of t targeting f, then the
        entry of f targeting t. */
    method RemovePair(f: int, t: int)
      requires node.Length == Capacity && CanDeleteEdge(node[..], f, t, true)
      modifies node
      ensures node[..] == DeletedEdge(old(node[..]), f, t, true)
    {
      ghost var full := node[..];
      SecondRemovalDefined(full, f, t);
      var deleteIndex := Scan(t, f);
      ShiftOut(t, deleteIndex);
      assert node[..] == full[t := RemoveFirstTo(full[t], f)];
      deleteIndex := Scan(f, t);
      ShiftOut(f, deleteIndex);
    }

    /** deleteEdge. A missing label or, in directed mode, a missing entry is
        logged and changes nothing; in every case the edge counter goes down
        by one. Undirected, the entry of `b` targeting `a` goes first, then
        the entry of `a` targeting `b`; the source does not check that either
        search succeeded, so both entries must exist. */
    method DeleteEdge(a: T, b: T) returns (s: Status)
      requires Valid()
      requires HasLabel(Vertices(), a) && HasLabel(Vertices(), b) && direction == Undirected ==>
                 CanDeleteEdge(Vertices(), IndexOf(a), IndexOf(b), true)
      requires HasLabel(Vertices(), a) && HasLabel(Vertices(), b) && direction == Directed &&
               HasEntry(Adj(Vertices()[IndexOf(a)]), IndexOf(b)) ==>
                 Vertices()[IndexOf(a)].countAdj < Capacity
      modifies this, node
      ensures Valid() && node == old(node) && count == old(count)
      ensures weigh == old(weigh) && direction == old(direction)
      ensures edgeCountNum == old(edgeCountNum) - 1
      ensures s == Ok <==>
                old(HasLabel(Vertices(), a) && HasLabel(Vertices(), b) &&
                    (direction == Undirected || HasEntry(Adj(Vertices()[IndexOf(a)]), IndexOf(b))))
      ensures s == VertexNotFound <==> old(!HasLabel(Vertices(), a) || !HasLabel(Vertices(), b))
      ensures s == EdgeNotFound <==>
                direction == Directed &&
                old(HasLabel(Vertices(), a) && HasLabel(Vertices(), b) &&
                    !HasEntry(Adj(Vertices()[IndexOf(a)]), IndexOf(b)))
      ensures s == Ok ==>
                Vertices() == old(DeletedEdge(Vertices(), IndexOf(a), IndexOf(b), direction == Undirected))
      ensures s != Ok ==> Vertices() == old(Vertices())
      ensures node[count..] == old(node[count..])
    {
      ghost var full := node[..];
      var indexFrom, indexTo := Locate(a, b);
      if indexFrom < 0 || indexTo < 0 {
        s := VertexNotFound;
      } else if direction == Directed {
        var deleteIndex := Scan(indexFrom, indexTo);
        if deleteIndex < 0 {
          s := EdgeNotFound;
        } else {
          DeletedEdgePrefix(full, count, indexFrom, indexTo, false);
          RemoveArc(indexFrom, indexTo);
          s := Ok;
        }
      } else {
        DeletedEdgePrefix(full, count, indexFrom, indexTo, true);
        RemovePair(indexFrom, indexTo);
        s := Ok;
      }
      edgeCountNum := edgeCountNum - 1;
    }
  
    /** deleteVertex. A missing label is logged and changes nothing. Step 1
        calls deleteEdge from every vertex to the victim for each entry
        targeting it, advancing to the next slot after each call; step 2 moves
        the records after the victim down one slot, resetting vertexIndex but
        leaving every adjacency entry as it was. The requirements are what
        keeps each internal deleteEdge call defined and the array access of
        step 2 (which reads slot `count`) in bounds. */
    method DeleteVertex(x: T) returns (s: Status)
      requires Valid()
      requires HasLabel(Vertices(), x) ==>
                 count < Capacity && PurgeDefined(Vertices(), IndexOf(x), direction == Undirected, 0, 0)
      modifies this, node
      ensures Valid() && node == old(node) && weigh == old(weigh) && direction == old(direction)
      ensures s == Ok <==> old(HasLabel(Vertices(), x))
      ensures s == VertexNotFound <==> old(!HasLabel(Vertices(), x))
      ensures s == VertexNotFound ==>
                count == old(count) && edgeCountNum == old(edgeCountNum) && node[..] == old(node[..])
      ensures s == Ok ==> count == old(count) - 1
      ensures s == Ok ==>
                var p := old(Purge(Vertices(), IndexOf(x), direction == Undirected, 0, 0));
                edgeCountNum == old(edgeCountNum) - p.1 &&
                node[..] == Compacted(p.0 + old(node[count..]), old(IndexOf(x)), old(count))
    {
      var v := FindVertex(x);
      if v < 0 {
        return VertexNotFound;
      }
      ghost var full := node[..];
      PurgeVictim(v);
      assert node[..] == Purge(old(Vertices()), v, direction == Undirected, 0, 0).0 + full[count..];
      Compact(v);
      s := Ok;
    }

    /** Step 1 of deleteVertex: the outer loop over the live records. */
    method PurgeVictim(v: int)
      requires Valid() && PurgeDefined(Vertices(), v, direction == Undirected, 0, 0)
      modifies this, node
      ensures Unmoved(old(node), old(count), old(weigh), old(direction), old(node[count..]))
      ensures var p := old(Purge(Vertices(), v, direction == Undirected, 0, 0));
        Vertices() == p.0 && edgeCountNum == old(edgeCountNum) - p.1
    {
      ghost var sym := direction == Undirected;
      ghost var p := Purge(Vertices(), v, sym, 0, 0);
      ghost var e0 := edgeCountNum;
      ghost var n0, c0, tail := node, count, node[count..];
      for i := 0 to count
        invariant Unmoved(n0, c0, old(weigh), old(direction), tail) && PurgeDefined(Vertices(), v, sym, i, 0)
        invariant Purge(Vertices(), v, sym, i, 0).0 == p.0
        invariant edgeCountNum == e0 - p.1 + Purge(Vertices(), v, sym, i, 0).1
      {
        PurgeList(v, i);
      }
      ghost var vs := Vertices();
      assert Purge(vs, v, sym, |vs|, 0).0 == vs && Purge(vs, v, sym, |vs|, 0).1 == 0;
    }

    /** The inner loop of step 1 of deleteVertex, over the entries of record
        i, which calls deleteEdge(i, victim) for each entry it finds targeting
        the victim and then moves to the next slot. */
    method PurgeList(v: int, i: int)
      requires Valid() && 0 <= i < count && PurgeDefined(Vertices(), v, direction == Undirected, i, 0)
      modifies this, node
      ensures Unmoved(old(node), old(count), old(weigh), old(direction), old(node[count..]))
      ensures PurgeDefined(Vertices(), v, direction == Undirected, i + 1, 0)
      ensures var q := old(Purge(Vertices(), v, direction == Undirected, i, 0));
        var q' := Purge(Vertices(), v, direction == Undirected, i + 1, 0);
        q'.0 == q.0 && edgeCountNum == old(edgeCountNum) - q.1 + q'.1
    {
      ghost var sym := direction == Undirected;
      ghost var q := Purge(Vertices(), v, sym, i, 0);
      ghost var e0 := edgeCountNum;
      var j := 0;
      while j < node[i].countAdj
        invariant 0 <= j <= Capacity && count == old(count) && Valid() && node == old(node)
        invariant weigh == old(weigh) && direction == old(direction)
        invariant node[count..] == old(node[count..]) && PurgeDefined(Vertices(), v, sym, i, j)
        invariant Purge(Vertices(), v, sym, i, j).0 == q.0
        invariant edgeCountNum == e0 - q.1 + Purge(Vertices(), v, sym, i, j).1
      {
        PurgeSlot(v, i, j);
        j := j + 1;
      }
    }

    /** One slot of the inner loop of step 1: when slot j of record i
        targets the victim, deleteEdge from vertex i to the victim. */
    method PurgeSlot(v: int, i: int, j: int)
      requires Valid() && 0 <= i < count && 0 <= j < node[i].countAdj
      requires PurgeDefined(Vertices(), v, direction == Undirected, i, j)
      modifies this, node
      ensures Unmoved(old(node), old(count), old(weigh), old(direction), old(node[count..]))
      ensures PurgeDefined(Vertices(), v, direction == Undirected, i, j + 1)
      ensures node[i].countAdj <= old(node[i].countAdj)
      ensures var q := old(Purge(Vertices(), v, direction == Undirected, i, j));
        var q' := Purge(Vertices(), v, direction == Undirected, i, j + 1);
        q'.0 == q.0 && edgeCountNum == old(edgeCountNum) - q.1 + q'.1
    {
      if node[i].edge[j].connIndex == v {
        ghost var vs := Vertices();
        PurgeMatch(vs, v, direction == Undirected, i, j);
        DeleteFrom(v, i);
      }
    }

    /** deleteEdge(node[i].info, node[v].info), which by the distinct labels
        is deleteEdge from index i to index v. */
    method DeleteFrom(v: int, i: int)
      requires Valid() && 0 <= i < count && 0 <= v < count
      requires CanDeleteEdge(Vertices(), i, v, direction == Undirected)
      modifies this, node
      ensures Unmoved(old(node), old(count), old(weigh), old(direction), old(node[count..]))
      ensures edgeCountNum == old(edgeCountNum) - 1
      ensures Vertices() == old(DeletedEdge(Vertices(), i, v, direction == Undirected))
    {
      ghost var vs := Vertices();
      FindIndexOfMember(vs, i);
      FindIndexOfMember(vs, v);
      assert IndexOf(node[i].info) == i && IndexOf(node[v].info) == v;
      var deleted := DeleteEdge(node[i].info, node[v].info);
    }

    /** Step 2 of deleteVertex: the counting loop up to the victim, then each
        slot from there up to count - 1 takes the next record, whose
        vertexIndex is set to its new slot; then count goes down. */
    method Compact(v: int)
      requires Valid() && 0 <= v < count < Capacity
      modifies this, node
      ensures Valid() && node == old(node) && count == old(count) - 1
      ensures weigh == old(weigh) && direction == old(direction) && edgeCountNum == old(edgeCountNum)
      ensures node[..] == Compacted(old(node[..]), v, old(count))
    {
      ghost var a := node[..];
      CompactedRemovesVertex(a, v, count);
      var j := 0;
      while j != v
        invariant 0 <= j <= v
      {
        j := j + 1;
      }
      while j < count
        modifies node
        invariant v <= j <= count && node[..] == Compacted(a, v, j)
      {
        CompactedStep(a, v, j);
        ghost var before := node[..];
        node[j] := node[j + 1];
        node[j] := node[j].(vertexIndex := j);
        assert node[..] == before[j := a[j + 1].(vertexIndex := j)];
        j := j + 1;
      }
      count := count - 1;
      assert node[..count] == Compacted(a, v, count + 1)[..count];
    }
  }
}
