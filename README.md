# Graph<Type>: a fixed-capacity adjacency-list graph

This project models `GraphNameSpace::Graph<Type>` from `graph.h` and proves
properties of the model. The container holds up to 100 labelled vertices in a
fixed array of `Vertex` records. The first `count` records are live. Each
record holds its label (`info`), its own position (`vertexIndex`), a fixed
array of 100 adjacency entries (`ConnectedVertices`: the index of the other
end and a weight) and the fill counter `countAdj` of that array. The graph
also keeps an edge counter `edgeCountNum` and a mode: `weigh` (weighted or
unweighted) and `direction` (directed or undirected), both fixed when the
graph is built.

Layout:

- `records.dfy` (module `Records`): the enums, the two structs (`Vertex` is a
  datatype because the source copies it by value), the status values that
  replace logged exceptions, and the first-match label scan `FindIndex`.
- `adjacency.dfy` (module `Adjacency`): one adjacency array. It holds the
  entry scan, the append at the fill point and the shift-left removal.
- `edges.dfy` (module `Edges`): insertEdge and deleteEdge as functions on the
  live records. It also has the symmetry that an undirected graph keeps
  (`Symmetric`) and the fact that every entry targets a live vertex
  (`InRange`).
- `removal.dfy` (module `Removal`): deleteVertex as functions. Step 1
  (`Purge`) is the nested loop that calls deleteEdge for every entry
  targeting the victim. Step 2 (`Compacted`) moves the later records down one
  slot.
- `graph.dfy` (module `Graphs`): the class `Graph<T>`. Its fields are the
  source's: `weigh`, `direction`, `edgeCountNum`, `count` and
  `node: array<Vertex<T>>` of length 100. Every operation is a method with the
  source's loops. Each method is proved against the functions above.

The label type needs equality and a default value (`T(==,0)`), since
`new Vertex<Type>[100]` default-constructs the labels. Where the source
logs a `logic_error` and returns, the model returns a `Status`
(`VertexNotFound`, `EdgeNotFound`, `Duplicate`) and changes nothing, except
what the source still does on that path. In particular, deleteEdge lowers
`edgeCountNum` on every path.

## Model

| member | source | states |
|---|---|---|
| Graphs.Graph.constructor | graph.h:260-268 | Graph() yields an empty graph with both counters 0, unweighted and undirected, over a fresh 100-slot array |
| Graphs.Graph.OfDirectionWeight | graph.h:270-278 | Graph(Direction, Weight) yields an empty graph with both counters 0 and exactly the given mode |
| Graphs.Graph.OfWeightDirection | graph.h:280-288 | Graph(Weight, Direction) yields an empty graph with both counters 0 and exactly the given mode |
| Graphs.Graph.OfDirection | graph.h:290-298 | Graph(Direction) yields an empty graph with the given direction; the weight defaults to unweighted |
| Graphs.Graph.OfWeight | graph.h:300-308 | Graph(Weight) yields an empty graph with the given weight; the direction defaults to undirected |
| Graphs.Graph.IsEmpty | graph.h:310-321 | true exactly when there are no live vertices; reads the state without changing it |
| Graphs.Graph.IsFull | graph.h:323-334 | true exactly when all 100 slots are live; reads the state without changing it |
| Graphs.Graph.VertexCount | graph.h:602-606 | the number of live vertex records |
| Graphs.Graph.EdgeCount | graph.h:608-612 | returns edgeCountNum, the counter that InsertEdge raises by 1 and DeleteEdge lowers by 1 on every call |
| Graphs.NewNodes | graph.h:265 | `new Vertex<Type>[100]`: a fresh array of 100 records, each with a full-size adjacency array |
| Records.FindIndex | graph.h:872-889 | the label scan returns the smallest position holding the label, and -1 exactly when no live record holds it |
| Records.FindIndexAppend | graph.h:351-361 | appending a record does not move an existing label; a new label is found at the new last position |
| Records.FindIndexOfMember | graph.h:844 | with distinct labels, looking up a record's own label finds that record |
| Graphs.Graph.FindVertex | graph.h:872-889 | the flag-guarded loop returns what the label scan specifies: the first position or -1 |
| Graphs.Graph.Locate | graph.h:684-702 | the two-label loop that every edge operation starts with finds each label's first position, or -1 |
| Graphs.Graph.InsertVertex | graph.h:337-378 | on a full graph reports Full; on a present label reports Duplicate; in both cases nothing changes. Otherwise it writes the label at slot count with vertexIndex == count and countAdj == 0, raises count by 1 and leaves every other slot untouched; the label is then found there, and InRange and Symmetric are kept |
| Records.ConsistentAppend | graph.h:365-368 | a new record at its own position with a new label keeps the labels distinct and every vertexIndex equal to its position |
| Records.ConsistentKept | graph.h:410-412 | records that keep their labels and positions stay consistent (used for every adjacency change) |
| Adjacency.AppendEntry | graph.h:410-412 | writing at the fill point and bumping countAdj appends exactly that entry to the live list; label and position stay |
| Adjacency.CountToPositive | graph.h:586-593 | an entry targeting t exists exactly when the number of entries targeting t is positive |
| Adjacency.FirstTo | graph.h:711-719 | the entry scan with `break` finds the first live slot targeting t, and -1 exactly when none does |
| Graphs.Graph.Scan | graph.h:711-719 | the loop over a record's entries returns what FirstTo specifies |
| Adjacency.WeightTo | graph.h:650-660 | the reported weight is that of the first entry targeting t, or -1 when no entry does |
| Edges.InsertedEdge | graph.h:381-516 | insertEdge on the live records: the record count, every label and every vertexIndex are kept, and the records stay well formed |
| Edges.InsertedEdgeLists | graph.h:381-516 | directed: exactly one entry (t, w) is appended to f's list. Undirected: also (f, w) to t's list, and both go on f's list for a self-loop. Every other list is untouched |
| Edges.InsertedEdgeAdjacent | graph.h:441-447 | after insertEdge, f is adjacent to t, and in undirected mode t is adjacent to f. When no earlier entry joined them, edgeWeight reports the stored weight |
| Edges.InsertedEdgeCounts | graph.h:381-516 | insertEdge raises the count of entries from f to t by one, and in undirected mode the count from t to f by one; no other count moves |
| Edges.InsertedEdgePrefix | graph.h:410-412 | insertEdge on the whole 100-slot array equals insertEdge on the live records followed by the untouched rest, and the live records stay consistent |
| Edges.InsertedEdgeKeepsSymmetric | graph.h:414-514 | an undirected insertEdge keeps every pair's entry counts equal in both directions and self-loop entries paired |
| Edges.InsertedEdgeKeepsInRange | graph.h:381-516 | insertEdge between live vertices keeps every entry targeting a live vertex |
| Edges.AddedVertexKeepsInvariants | graph.h:365-368 | appending a vertex with an empty list keeps every entry targeting a live vertex, and keeps symmetry |
| Graphs.Graph.Append | graph.h:410-412 | writing an entry at the fill point of record i and bumping its countAdj is AppendEntry on that record; no other record changes |
| Graphs.Graph.AppendArc | graph.h:410-412 | the write of a directed branch is InsertedEdge without the mirror entry, on the whole array |
| Graphs.Graph.AppendPair | graph.h:507-513 | the two writes of an undirected branch (first on f, then on t) are InsertedEdge with the mirror entry, on the whole array |
| Graphs.Graph.Connect | graph.h:410-412 | writing the arc and, undirected, its mirror into the array is InsertedEdge on the live records; the slots beyond count and the invariant are kept |
| Graphs.Graph.InsertEdge | graph.h:381-516 | in all four modes the live records become InsertedEdge of the two labels' positions. The stored weight is the argument when weighted and 0 when unweighted; the mirror entry is written when undirected. edgeCountNum rises by exactly 1, and count and the mode do not change |
| Graphs.Graph.IsAdjacentTo | graph.h:551-600 | true exactly when both labels are present and a live entry of the first vertex targets the second's position; false when a label is absent; no state change |
| Graphs.Graph.EdgeWeight | graph.h:615-667 | the weight of the first entry from the first vertex to the second, -1 when there is none |
| Adjacency.ShiftLeftRemovesSlot | graph.h:732-737 | after the shift loop, the first countAdj - 1 slots are the old live list without slot k, in order; the slots past the fill point are unchanged |
| Adjacency.RemoveEntry | graph.h:726-737 | shifting slot k out and decrementing countAdj removes exactly entry k from the live list; label and position stay |
| Graphs.Graph.ShiftOut | graph.h:726-737 | the counting loop and the shift loop together compute RemoveEntry in place; no other record changes |
| Adjacency.RemoveFirstTo | graph.h:711-737 | removing the first entry targeting t lowers countAdj by one and keeps label and position |
| Adjacency.RemoveFirstToCounts | graph.h:711-737 | that removal lowers the count of entries targeting t by one and leaves every other target's count alone |
| Adjacency.RemoveFirstToWithout | graph.h:711-737 | that removal keeps every entry not targeting t, in the same order |
| Adjacency.RemoveFirstToAfter | graph.h:711-737 | when the first entry targeting t directly follows a prefix p, the removal leaves p followed by the rest |
| Adjacency.RemoveFirstToBelow | graph.h:711-737 | that removal keeps every remaining target below a bound |
| Edges.DeletedEdge | graph.h:670-809 | deleteEdge on the live records: the record count, labels and vertexIndex are kept and no list grows |
| Edges.SecondRemovalDefined | graph.h:780-801 | undirected, after the entry of t targeting f is gone, the entry of f targeting t is still there (for a self-loop, the second of the pair) |
| Edges.DeletedEdgeCounts | graph.h:670-809 | deleteEdge lowers the count of entries from f to t by one, and in undirected mode the count from t to f by one; no other count moves |
| Edges.DeletedEdgeOthers | graph.h:670-809 | deleteEdge changes only the lists of f and, undirected, of t |
| Edges.DeletedEdgePrefix | graph.h:732-737 | deleteEdge on the whole array equals deleteEdge on the live records followed by the untouched rest, and the live records stay consistent |
| Edges.DeletedEdgeKeepsSymmetric | graph.h:749-807 | an undirected deleteEdge keeps every pair's entry counts equal in both directions and self-loop entries paired |
| Edges.DeletedEdgeKeepsPairs | graph.h:749-807 | the pair half of that: the counts from i to k and from k to i stay equal |
| Edges.DeletedEdgeKeepsLoops | graph.h:749-807 | the self-loop half of that: every self-loop count stays even |
| Edges.DeletedEdgeKeepsInRange | graph.h:670-809 | deleteEdge keeps every entry targeting a live vertex |
| Edges.InsertThenDelete | graph.h:381-516 | insertEdge then deleteEdge of a pair not yet joined gives every vertex back its adjacency list and keeps the labels, in all modes, whenever the arrays have room for the delete's read one slot past the fill point |
| Edges.InsertThenDeleteArc | graph.h:703-743 | the directed case of that round trip |
| Edges.InsertThenDeletePair | graph.h:749-807 | the undirected case between two different vertices |
| Edges.InsertThenDeleteLoop | graph.h:749-807 | the undirected self-loop case: the two appended entries go with the two removals |
| Edges.InsertedLoop | graph.h:507-513 | an undirected insertEdge from a vertex to itself appends the same entry twice to its list and changes no other record |
| Edges.LoopRoundTrip | graph.h:773-801 | on one list, the two appended self-loop entries are both found, and two first-match removals give the list back |
| Edges.DeletedLoop | graph.h:756-801 | an undirected deleteEdge from a vertex to itself removes the first entry targeting it twice from its own list and changes no other record |
| Edges.LoopEntriesRemoved | graph.h:773-801 | two removals of a self-loop's first entry take both of its trailing entries off the list |
| Graphs.Graph.RemoveArc | graph.h:711-737 | the directed branch's search and shift compute DeletedEdge in directed mode |
| Graphs.Graph.RemovePair | graph.h:756-801 | the undirected branch removes t's entry for f, then f's entry for t, computing DeletedEdge in undirected mode |
| Graphs.Graph.DeleteEdge | graph.h:670-809 | reports Ok, VertexNotFound or (directed only) EdgeNotFound, each exactly in its case. On Ok the live records become DeletedEdge; otherwise they are unchanged. edgeCountNum drops by 1 on every path |
| Removal.Purge | graph.h:838-848 | step 1 of deleteVertex, defined exactly when every deleteEdge call it makes (in its own order) finds its entries and shifts no full array; it keeps the record count, the labels and vertexIndex |
| Removal.PurgeStepSafe | graph.h:842-844 | on symmetric lists with no full array holding a victim entry, every deleteEdge call of step 1 finds what it removes and leaves the lists so |
| Removal.PurgeSafeDefined | graph.h:838-848 | symmetric lists with no full array holding a victim entry are enough for step 1 to be defined |
| Removal.PurgeWithoutSymmetry | graph.h:838-848 | symmetry is not needed: lists left pointing past the live records by an earlier deleteVertex are not symmetric, yet step 1 for a victim no entry targets is defined and makes no call |
| Removal.PurgeMatch | graph.h:842-844 | at a slot targeting the victim, step 1 makes one deleteEdge call and goes on at the next slot of the changed list |
| Removal.DeletedEdgeTotal | graph.h:670-809 | a deleteEdge call removes one live entry in directed mode and two in undirected mode |
| Removal.PurgeEntryAccounting | graph.h:838-848 | the live entries step 1 removes number exactly its deleteEdge calls (so its drop in edgeCountNum) in directed mode, and twice that in undirected mode |
| Removal.MatchAccounting | graph.h:842-844 | the same accounting, from a slot targeting the victim |
| Removal.DeletedEdgeWithout | graph.h:844 | one step-1 deleteEdge call keeps, in every list except the victim's own when undirected, the entries not targeting the victim |
| Removal.PurgeKeepsOtherEntries | graph.h:838-848 | step 1 removes only entries targeting the victim: every other list keeps its other entries in order (undirected, the victim's own list is the exception) |
| Removal.MatchKeepsOtherEntries | graph.h:842-844 | the same, from a slot targeting the victim |
| Removal.PurgeStepClean | graph.h:840-845 | in directed mode, a step-1 call at the first victim entry of a list removes that slot; the slot that takes its place does not target the victim, and no two neighbouring victim entries appear |
| Removal.PurgeClearsVictim | graph.h:838-848 | in directed mode, when no list holds two victim entries side by side, step 1 leaves no entry targeting the victim |
| Removal.MatchClearsVictim | graph.h:842-844 | the same, from a slot targeting the victim |
| Removal.PurgeSkipsShiftedEntry | graph.h:840-845 | because the slot index advances after each deletion, a list with two neighbouring entries targeting the victim keeps one of them after step 1 |
| Removal.Compacted | graph.h:851-862 | step 2 on the whole array keeps its length |
| Removal.CompactedStep | graph.h:857-862 | one iteration of the shift loop writes the next record, with its new vertexIndex, into slot n |
| Removal.CompactedRemovesVertex | graph.h:851-863 | after step 2 the live records are the old ones without the victim, in order. Each is at its own position with its adjacency list as it was, the labels stay distinct, the victim's label is gone, and the slots past the old count are untouched |
| Removal.CompactedDistinct | graph.h:857-862 | step 2 keeps the surviving labels distinct |
| Removal.CompactedLabels | graph.h:857-862 | the surviving labels are the labels before the victim followed by those after it |
| Removal.CompactedLeavesStaleTarget | graph.h:851-862 | because no entry is renumbered, an entry of a survivor that targeted the old last position now targets no live vertex, so InRange is not kept |
| Graphs.Graph.DeleteVertex | graph.h:812-869 | reports VertexNotFound and changes nothing exactly when the label is absent. Otherwise count drops by 1, edgeCountNum drops by the number of step-1 deleteEdge calls, and the array is step 2 applied to step 1's records |
| Graphs.Graph.PurgeVictim | graph.h:838-848 | the outer loop of step 1 computes Purge in place; edgeCountNum drops by its number of calls; mode, count and the slots beyond count are kept |
| Graphs.Graph.PurgeList | graph.h:840-847 | the inner loop over one list takes Purge from (i, 0) to (i + 1, 0) |
| Graphs.Graph.PurgeSlot | graph.h:842-846 | one slot of the inner loop takes Purge from (i, j) to (i, j + 1) |
| Graphs.Graph.DeleteFrom | graph.h:844 | the call deleteEdge(node[i].info, node[v].info) is deleteEdge from index i to index v, and lowers edgeCountNum by 1 |
| Graphs.Graph.Compact | graph.h:851-863 | the counting loop, the shift loop and the decrement compute Compacted in place; the invariant holds after it |
| Graphs.Graph.Destroy | graph.h:892-898 | a fresh empty array, both counters 0, the mode kept |
| Graphs.Graph.Copy | graph.h:925-939 | the copy constructor: a fresh array with the same live records, and the same mode and counters |
| Graphs.Graph.Assign | graph.h:907-922 | operator= from another graph: a fresh array with the same live records, and the same mode and counters |

## Left out

- dump() (graph.h:518-548) writes a table to the console. It is output only and changes nothing.
- The `cerr` messages in the catch blocks. They are replaced by the returned `Status`; the message text is not modelled.
- Memory management: `delete[]` in destroy, the destructor (graph.h:900-904) and the leak of the old array in operator=. Arrays are garbage-collected values here.
- Graphs.Graph.Assign: self-assignment is excluded (`other != this`). The source would first replace its own array with a blank one and then copy the blank records over themselves. That leaves `count` live slots of default records, which breaks the record invariant.
- Graphs.Graph.InsertVertex: a full graph throws `range_error`, which neither handler catches, so the exception leaves the call. The model reports `Full` and changes nothing; the escape itself is not modelled.
- Graphs.Graph.InsertEdge requires both labels to be present and the written arrays to have a free slot. The source checks neither; with a missing label it writes through an unset index.
- Graphs.Graph.InsertEdge: the source's four branches each repeat the label scan and the append. The model computes the stored weight and the mirror flag in the four branches and shares one append step (Connect).
- Graphs.Graph.EdgeWeight requires both labels to be present. The source reads an unset index otherwise.
- Graphs.Graph.EdgeWeight: an edge stored with weight -1 cannot be told apart from a missing one. The model keeps that ambiguity.
- Graphs.Graph.DeleteEdge requires, in undirected mode, both entries (t to f and f to t) when both labels are present. The source ignores a failed search there and reuses a stale or unset `deleteIndex`. It also requires room for the shift's read one slot past the fill point when an array is full.
- Graphs.Graph.DeleteVertex requires, when the label is present, `count < 100` (step 2 reads slot `count`) and `PurgeDefined`: each deleteEdge call that step 1 makes, in the order it makes them, finds the entries it removes and shifts no full array. Nothing more is demanded; in particular the lists need not be symmetric (Removal.PurgeWithoutSymmetry), though symmetric lists suffice (Removal.PurgeSafeDefined).
- Removal.PurgeClearsVictim is proved for directed mode only, and only when no list holds two neighbouring entries to the victim. Removal.PurgeSkipsShiftedEntry shows that the source's step 1 can leave an entry otherwise.
- Graphs.Graph.EdgeCount: the counter counts insertEdge calls minus deleteEdge calls (including the calls step 1 of deleteVertex makes); it is not a count of stored edges, and no lemma relates it to the stored entries of a whole graph.
- `int` is unbounded here: overflow of `edgeCountNum` (it can go negative through deleteEdge) and of stored weights is not modelled.
- Blank records' integer fields are 0 in the model. In the source they are unset until insertVertex writes them.
- The `throw (...)` exception specifications on the declarations are not modelled.
