# Road-network routing core

This project models the routing core of a map application in Dafny. The core
is C++: a directed road graph over geographic nodes, a 2-D KD-tree for
nearest-point lookup, a binary save/load format, and a ranked fuzzy search over
place names. It also covers three shortest-path searches: A*, a simple
bidirectional A*, and a balanced bidirectional A* with average potentials. The
last piece is the loader that turns GeoJSON LineStrings into nodes, edges and
tree points.

The model, module by module:

- `Nodes`: a `Node` is a (longitude, latitude) pair of doubles, modelled as
  reals, with its `std::tie` order, its `operator==` and its 16-byte binary form.
  The accessors `getLng`/`getLat` are the datatype's `GetLng`/`GetLat`. The
  distance function is a parameter, `Metric`.
- `Stream`: the binary stream is a sequence of items. Each item is what one
  `write` call puts on the stream: a `bool` flag, a `double`, a `size_t`, or one
  byte of a name. The readers answer `None` where the source would read past the
  end or read an item of another kind.
- `Ordering`: the key order in which a `std::map` or `std::set` iterates, defined
  as the sorted enumeration of a finite set under a strict total order.
- `Queues`: `std::priority_queue` with `std::greater` is a multiset of
  (priority, node) pairs, and `Pop` takes a least pair.
- `KDTrees`: the tree is a value (`Null` or `Cell`). The copies that `search`
  and `nearest` return share child links with the tree, but nothing writes
  through a shared link. Insertion, exact search, the branch-and-bound nearest-neighbour
  descent and the pre-order dump are functions on that value. The `KDNode` and
  `KDTree` classes hold the fields the source mutates.
- `Graphs`: the `Graph<Node>` class holds its forward and reverse adjacency, its
  edge weights, its name table and its tree. It has the mutators, the lookups,
  the queries, and the loops of `serialize`/`deserialize`. All along, the
  *transpose invariant* (`Valid`) holds: forward adjacency, reverse adjacency and
  weight table agree on every edge.
- `GraphCodec`: the file layout as functions, and the round trip. The weights,
  the names and the tree come back exactly. Each adjacency keeps only its entries
  that have at least one neighbour, because `deserialize` creates an entry only
  by inserting a neighbour into it. So a node with no out-neighbours is no longer
  a node after a save and load (`SinkNodeIsLost`).
- `Fuzzy`: `fuzzySearch`, a bounded top-K ranking kept in a multimap. The two
  rapidfuzz similarities are parameters that score in 0..100.
- `Ingest`: the per-LineString loop of `load_geojson`, on the graph object.
- `Paths`, `Search`, `Routing`, `Balanced`:
  - the back-pointer walks `reconstructPath` and `constructPath`;
  - one direction of a search (a `Side`), its relaxation loop, and its invariant;
  - the three searches.

  A ghost key (the tentative distance, and the time of the last relaxation)
  strictly decreases along every back-pointer. That is why the path walks end,
  and why every route a search answers follows weighted arcs of the graph from
  its start to its goal.

The source loops on `while (!openSet.empty())`; the model runs the searches
under a fuel bound instead. The neighbours of a popped node may be visited in any
order.

The balanced search answers `constructPath` on its two popped nodes. Its stop
test does not require those two nodes to be joined by an arc. So its answer is
only known to be a walk forward from the start, spliced to a walk back from the
destination.

The nearest-neighbour descent decides whether to visit the far side by comparing
`nn_dis` with `|cur.data[axis] - nn.data[axis]|`. That is a distance to the best
point so far, not to the query. The model keeps that test as written and proves
what it guarantees:
- the answer is a stored point;
- it is at least as close as every node on the query's own descent;
- it is `None` exactly for an empty tree.

## Model

| member | source | states |
|---|---|---|
| Nodes.FromPair | src/Node.h:14 | the node built from a pair has `first` as its longitude and `second` as its latitude |
| Nodes.Less | src/Node.h:25-28 | `operator<` as the `std::tie` comparison of (lng, lat); no contract of its own, `Nodes.LessIsLexicographic` and `Nodes.LessStrictTotal` state what it means |
| Nodes.Eq | src/Node.cpp:28-30 | `operator==`: both coordinates equal; no contract of its own, `Nodes.EqIsIncomparable` and `Nodes.EqReflexiveSymmetric` state its properties |
| Nodes.LessIsLexicographic | src/Node.h:25-28 | `a < b` exactly when a's longitude is smaller, or the longitudes are equal and a's latitude is smaller |
| Nodes.LessStrictTotal | src/Node.h:25-28 | `operator<` is irreflexive, transitive and total on distinct nodes, so it is a valid `std::map`/`std::set` key order |
| Nodes.EqIsIncomparable | src/Node.cpp:28-30 | `operator==` holds exactly when neither node is less than the other, and exactly when both coordinates are equal |
| Nodes.EqReflexiveSymmetric | src/Node.cpp:28-30 | `operator==` is reflexive and symmetric |
| Nodes.Distance | src/Node.cpp:24-26 | the node distance is the scalar metric applied to (lng1, lat1, lng2, lat2), and is non-negative |
| Nodes.Serialize | src/Node.cpp:32-36 | a node is written as two items |
| Nodes.SerializeBytes | src/Node.cpp:32-36 | a node takes 16 bytes on the stream |
| Nodes.Deserialize | src/Node.cpp:38-42 | a successful read consumes exactly the two items in front |
| Nodes.DeserializeSerialize | src/Node.cpp:38-42 | reading back a written node gives the same node and leaves the rest of the stream |
| Nodes.SerializeAll | src/Graph.h:102-104 | a neighbour list of n nodes is written as 2n items |
| Nodes.SerializeAllAppend | src/Graph.h:102-104 | writing one more neighbour appends exactly its encoding |
| Nodes.SortedSpec | src/Graph.h:102 | the `std::set<Node>` iteration visits every element once, in strictly increasing order |
| Nodes.SortedUnfold | src/Graph.h:102 | the iteration visits the least element first, then iterates the rest |
| Nodes.LeastNode | src/Graph.h:102 | the next node an iteration visits is in the set and comes first in its iteration order |
| Base.BelowOrder | src/Graph.cpp:255 | `<` on doubles that start at `+infinity` is a strict total order with infinity on top, and `std::min` answers one of its arguments that is below neither |
| Base.Lookup | src/Graph.cpp:254 | `m[k]` reads the stored value of a present key and the value-initialised `0.0` of an absent one |
| Stream.Width | src/Graph.h:95 | every item occupies 1 or 8 bytes |
| Stream.ReadF64 | src/Node.cpp:40 | reading a `double` succeeds exactly when a `double` item is in front, answers it and consumes one item |
| Stream.ReadU64 | src/Graph.h:156 | reading a `size_t` succeeds exactly when a count item is in front, answers it and consumes one item |
| Stream.ReadFlag | src/KDTree.cpp:172 | reading a `bool` succeeds exactly when a flag item is in front, answers it and consumes one item |
| Stream.ReadWritten | src/Graph.h:156 | each reader answers the value of the item of its kind that was written in front |
| Stream.ReadBytes | src/Graph.h:205-206 | a name read of n bytes answers n characters and leaves the stream n items shorter |
| Stream.ReadBytesSpec | src/Graph.h:205-206 | a successful name read took its characters from the first n items, all bytes, and leaves what follows them |
| Stream.WriteBytes | src/Graph.h:136 | writing a name puts one item per character |
| Stream.WriteBytesSpec | src/Graph.h:136 | the i-th item written is the byte of the i-th character |
| Stream.ReadWriteBytes | src/Graph.h:206 | a name written byte by byte reads back unchanged, leaving the rest |
| Ordering.LeastExists | src/Graph.h:96 | a non-empty key set under a strict total order has a least key |
| Ordering.LeastUnique | src/Graph.h:96 | the least key is unique |
| Ordering.EnumerateSpec | src/Graph.h:96 | the map iteration order lists every key exactly once, in strictly increasing order |
| Ordering.SortedDistinct | src/Graph.h:96 | distinct positions of that order hold distinct keys |
| Ordering.EnumerateUnfold | src/Graph.h:96 | the iteration is its least key followed by the iteration of the other keys |
| Ordering.Least | src/Graph.h:96 | the key an iteration visits next is the least unvisited key, and the rest of the iteration follows it |
| Queues.EntryLessStrictTotal | src/Graph.cpp:207-208 | the `std::pair<double, Node>` order used by the queues is a strict total order |
| Queues.Pop | src/Graph.cpp:237-238 | `top()` is a queue entry that no entry is less than, and `pop()` removes one copy of it |
| Paths.Reverse | src/Graph.cpp:295 | `std::reverse` keeps the length and puts element i at position n-1-i |
| Paths.ChainReverse | src/process.cpp:90 | reversing the walk back to the root gives a walk from the root along the back-pointers |
| Paths.ChainToUnique | src/process.cpp:82-92 | at most one walk runs from a root along the back-pointers to a given node, so the back-pointers determine the path |
| Paths.LinkedAppend | src/process.cpp:86-87 | stepping to the predecessor extends a linked walk |
| Paths.StepDown | src/process.cpp:85-88 | when keys decrease along back-pointers, a step never revisits a node, and the set of unvisited pointer keys shrinks |
| Paths.WalkBack | src/process.cpp:85-89 | the loop ends, and its vector runs from `current` along the back-pointers to a node without one |
| Paths.ReconstructPath | src/process.cpp:82-92 | the result runs from a root along the back-pointers, ending at `current` |
| Paths.ConstructPath | src/process.cpp:140-154 | the result is the forward walk from the start-side root to `cur_start`, followed by the walk from `cur_goal` to the goal-side root; both reference arguments end at those roots |
| KDTrees.ContainsPoints | src/KDTree.h:17-19 | a point is held by some node exactly when it is in the tree's multiset of points |
| KDTrees.ContainsAllPoints | src/KDTree.h:17-19 | the same, for all points at once |
| KDTrees.InsertAt | src/KDTree.cpp:42-58 | insertion answers a node, adds exactly one copy of the point, and grows the size by one |
| KDTrees.GrowKeepsKDRule | src/KDTree.cpp:52-57 | adding a point to the child that the comparison picks keeps the splitting rule at that node |
| KDTrees.InsertKeepsKDRule | src/KDTree.cpp:42-58 | insertion keeps the KD splitting rule: left strictly below, right at or above, on the depth's axis |
| KDTrees.InsertFillsNullSlot | src/KDTree.cpp:44-46 | the slot insertion writes to was null, and afterwards holds a childless node with the point |
| KDTrees.InsertKeepsNodes | src/KDTree.cpp:42-58 | every node that existed before the insertion keeps its data and its position |
| KDTrees.PlantAt | src/KDTree.cpp:42-58 | inserting a whole `KDNode` answers a node and grows the size by one plus the size of its children |
| KDTrees.PlantPoints | src/KDTree.cpp:42-58 | inserting a whole `KDNode` adds exactly its point and every point below it |
| KDTrees.PlantFillsNullSlot | src/KDTree.cpp:44-46 | the copy lands in the null slot that inserting its point fills, child links included |
| KDTrees.PlantLeafIsInsert | src/KDTree.cpp:42-58 | inserting a node with no children is inserting its point |
| KDTrees.SearchAt | src/KDTree.cpp:60-79 | a hit equals the query and is a stored point |
| KDTrees.SearchComplete | src/KDTree.cpp:60-79 | in a tree that keeps the KD rule, the search finds every stored point |
| KDTrees.Dist | src/KDTree.cpp:3-5 | the distance between two tree points is non-negative |
| KDTrees.NearestAt | src/KDTree.cpp:81-115 | the branch-and-bound descent with its `nn`/`nn_dis` accumulator; no contract of its own, `KDTrees.NearestImproves`, `KDTrees.NearestIsStored` and `KDTrees.NearestBeatsDescent` state what it answers |
| KDTrees.NearestImproves | src/KDTree.cpp:81-115 | the accumulated `nn_dis` never increases, and a non-empty subtree always sets `nn` |
| KDTrees.NearestIsStored | src/KDTree.cpp:104-108 | the accumulator ends as it started, or holds a stored point at its true distance from the query |
| KDTrees.NearestBeatsDescent | src/KDTree.cpp:93-102 | the answer is at least as close to the query as every node on the query's descent |
| KDTrees.SerializeTree | src/KDTree.cpp:141-160 | the pre-order dump; no contract of its own, the `KDTrees.SerializeTree*` lemmas state its size and contents and `KDTrees.DeserializeSerializeTree` reads it back |
| KDTrees.SerializeTreeLength | src/KDTree.cpp:141-160 | an n-node tree is written as 4n+1 items |
| KDTrees.SerializeTreeFlags | src/KDTree.cpp:142-151 | the dump holds n `false` flags and n+1 `true` flags |
| KDTrees.SerializeTreeWords | src/KDTree.cpp:154-155 | the dump holds 2n doubles |
| KDTrees.SerializeTreeBytes | src/KDTree.cpp:141-160 | the dump is 18n+1 bytes |
| KDTrees.DeserializeTree | src/KDTree.cpp:169-190 | a successful read consumes at least one item |
| KDTrees.DeserializeSerializeTree | src/KDTree.cpp:169-190 | reading back a dump rebuilds the same tree and leaves what follows |
| KDTrees.KDNode.constructor | src/KDTree.h:21 | the default node has both children null |
| KDTrees.KDNode.FromArray | src/KDTree.h:22 | the node holds the given data and no children |
| KDTrees.KDNode.FromNode | src/KDTree.h:23-26 | `data[0]` is the node's longitude, `data[1]` its latitude, and there are no children |
| KDTrees.KDNode.Swap | src/KDTree.h:27-31 | the two nodes exchange data, left link and right link |
| KDTrees.SwapTwice | src/KDTree.h:27-31 | swapping twice restores both nodes |
| KDTrees.KDTree.constructor | src/KDTree.h:49 | a new tree is empty |
| KDTrees.KDTree.Insert | src/KDTree.cpp:117-119 | the root becomes the root with a copy of the whole node inserted, starting at depth 0 |
| KDTrees.KDTree.NearestNeighbor | src/KDTree.cpp:126-132 | the default node only for an empty tree; otherwise a stored point at least as close as every node on the query's descent |
| KDTrees.KDTree.Deserialize | src/KDTree.cpp:162-167 | the root becomes the tree read from the stream, and the rest of the stream is answered |
| Graphs.WithNode | src/Graph.h:19 | `m[n]` adds `n` as a key with an empty set when absent, and changes no existing entry |
| Graphs.WithArc | src/Graph.h:28 | `m[u].insert(v)` adds `u` as a key; its set becomes the old set plus `v`, and no other entry changes |
| Graphs.WithWeight | src/Graph.h:30 | `insert` adds the key; an existing key keeps its weight, and a new key gets `w` |
| Graphs.WithNodeEdges | src/Graph.h:18-21 | adding a node adds and removes no edge |
| Graphs.WithArcEdges | src/Graph.h:27-31 | inserting an arc adds exactly that edge |
| Graphs.AddNodeIdempotent | src/Graph.h:18-21 | adding a node twice is adding it once, and adding a present node changes nothing |
| Graphs.EmptyTransposed | src/Graph.h:76-86 | the empty graph satisfies the transpose invariant |
| Graphs.AddNodeTransposed | src/Graph.h:18-21 | `addNode` keeps the transpose invariant |
| Graphs.AddEdgeTransposed | src/Graph.h:27-31 | `addDirectedEdge` keeps the transpose invariant, even for an edge that already had a weight |
| Graphs.NonEmptyTransposed | src/Graph.h:146-216 | dropping the empty adjacency entries, as the load does, keeps the transpose invariant |
| Graphs.Graph.constructor | src/Graph.h:76-86 | a new graph has empty maps and an empty tree, and is valid |
| Graphs.Graph.AddNode | src/Graph.h:18-21 | both adjacencies gain an empty entry for an absent node; the weights and names are unchanged; validity is kept |
| Graphs.Graph.AddNode2KDTree | src/Graph.h:23-25 | the tree gains a copy of the node, its child links included |
| Graphs.Graph.AddDirectedEdge | src/Graph.h:27-31 | `dest` joins the forward set of `src` and `src` the reverse set of `dest`; the weight is recorded only for a new edge; the names are unchanged; validity is kept |
| Graphs.Graph.AddNamePoint | src/Graph.h:72-74 | the name maps to the coordinates, and nothing else changes |
| Graphs.Graph.GetNeighbors | src/Graph.h:33-39 | the error exactly for a node with no forward entry; otherwise exactly its out-neighbours |
| Graphs.Graph.RevGetNeighbors | src/Graph.h:41-47 | the error exactly for a node with no reverse entry; otherwise exactly its in-neighbours |
| Graphs.Graph.ContainsNode | src/Graph.h:49-51 | true exactly when `getNeighbors` would succeed, because only the forward adjacency is consulted |
| Graphs.Graph.QueryByArbitrary | src/Graph.h:65-70 | the default node exactly for an empty tree; otherwise a stored point at least as close as every node on the coordinate's descent |
| Graphs.Graph.QueryByName | src/Graph.h:57-63 | the `at` error exactly for an unknown name; otherwise the arbitrary query at the name's coordinates |
| Graphs.Graph.Serialize | src/Graph.h:91-144 | the output is the file layout of the graph's four tables and its tree |
| Graphs.Graph.Deserialize | src/Graph.h:146-216 | succeeds exactly when the stream decodes, and then the tables and the tree are the decoded ones |
| Graphs.LookupsAgree | src/Graph.h:33-47 | in a valid graph, v is a forward neighbour of u exactly when u is a reverse neighbour of v, and exactly when (u, v) has a weight |
| Graphs.WriteNodes | src/Graph.h:102-104 | the loop writes the neighbours in set order |
| Graphs.WriteEntry | src/Graph.h:97-104 | the node, its neighbour count, then its neighbours |
| Graphs.WriteAdjacency | src/Graph.h:93-105 | the count, then every entry in key order |
| Graphs.WriteWeights | src/Graph.h:121-128 | the count, then source, target and weight of every edge in key order |
| Graphs.WriteLocations | src/Graph.h:130-140 | the count, then length, bytes, longitude and latitude of every name in key order |
| Graphs.ReadNeighbours | src/Graph.h:163-167 | the inner read loop computes the neighbour decoder |
| Graphs.ReadAdjacency | src/Graph.h:154-168 | the section read loop computes the adjacency decoder |
| Graphs.ReadWeights | src/Graph.h:186-196 | the read loop computes the weight decoder |
| Graphs.ReadLocations | src/Graph.h:198-213 | the read loop computes the name decoder |
| GraphCodec.EdgeLessStrictTotal | src/Graph.h:81 | the `std::pair<Node, Node>` key order is a strict total order |
| GraphCodec.StrLessIrreflexive | src/Graph.h:84 | no string is less than itself |
| GraphCodec.StrLessTransitive | src/Graph.h:84 | the string order is transitive |
| GraphCodec.StrLessConnected | src/Graph.h:84 | of two distinct strings, one is less |
| GraphCodec.StrLessStrictTotal | src/Graph.h:84 | the `std::string` key order is a strict total order |
| GraphCodec.SortedEdgesSpec | src/Graph.h:124 | the weight-table iteration lists every edge once |
| GraphCodec.SortedNamesSpec | src/Graph.h:133 | the name-table iteration lists every name once |
| GraphCodec.LeastEdge | src/Graph.h:124 | the next edge visited is in the table, and the rest of the iteration follows it |
| GraphCodec.LeastName | src/Graph.h:133 | the next name visited is in the table, and the rest of the iteration follows it |
| GraphCodec.Neighbours | src/Graph.h:28 | `adjList[n]` reads the stored set, or the empty set for an absent key |
| GraphCodec.EncodeEntry | src/Graph.h:111-118 | one entry as written: the node, the neighbour count, the neighbours in set order; no contract of its own, `GraphCodec.DecodeEncodedEntry` reads it back |
| GraphCodec.EncodeEntries | src/Graph.h:110-119 | the entries in key order; no contract of its own, `GraphCodec.EncodeEntriesAppend` and `GraphCodec.DecodeEncodedEntries` state it |
| GraphCodec.EncodeAdjacency | src/Graph.h:108-119 | the count, then every entry in key order; no contract of its own, `GraphCodec.DecodeEncodedAdjacency` reads it back |
| GraphCodec.EncodeWeight | src/Graph.h:125-127 | one weight as written: source, target, weight; no contract of its own, `GraphCodec.DecodeEncodedWeight` reads it back |
| GraphCodec.EncodeWeightEntries | src/Graph.h:124-128 | the weights in edge order; no contract of its own, `GraphCodec.EncodeWeightEntriesAppend` and `GraphCodec.DecodeEncodedWeightEntries` state it |
| GraphCodec.EncodeWeights | src/Graph.h:122-128 | the count, then every weight; no contract of its own, `GraphCodec.DecodeEncodedWeights` reads it back |
| GraphCodec.EncodeLocation | src/Graph.h:134-139 | one name as written: length, bytes, longitude, latitude; no contract of its own, `GraphCodec.DecodeEncodedLocation` reads it back |
| GraphCodec.EncodeLocationEntries | src/Graph.h:133-140 | the names in string order; no contract of its own, `GraphCodec.EncodeLocationEntriesAppend` and `GraphCodec.DecodeEncodedLocationEntries` state it |
| GraphCodec.EncodeLocations | src/Graph.h:131-140 | the count, then every name; no contract of its own, `GraphCodec.DecodeEncodedLocations` reads it back |
| GraphCodec.EncodeGraph | src/Graph.h:92-144 | the whole file: reverse adjacency, adjacency, weights, names, tree; no contract of its own, `GraphCodec.DecodeEncodedGraph` reads it back |
| GraphCodec.DecodeNeighbours | src/Graph.h:163-167 | the inner read loop, `None` on a short or mistyped stream; no contract of its own, `GraphCodec.DecodeSerializedNeighbours` states it |
| GraphCodec.DecodeEntries | src/Graph.h:173-184 | the outer read loop of an adjacency; no contract of its own, `GraphCodec.DecodeEncodedEntries` states it |
| GraphCodec.DecodeAdjacency | src/Graph.h:170-184 | the count, then the entries; no contract of its own, `GraphCodec.DecodeEncodedAdjacency` states it |
| GraphCodec.DecodeWeightEntries | src/Graph.h:189-196 | the weight read loop; no contract of its own, `GraphCodec.DecodeEncodedWeightEntries` states it |
| GraphCodec.DecodeWeights | src/Graph.h:186-196 | the count, then the weights; no contract of its own, `GraphCodec.DecodeEncodedWeights` states it |
| GraphCodec.DecodeLocationEntries | src/Graph.h:201-213 | the name read loop; no contract of its own, `GraphCodec.DecodeEncodedLocationEntries` states it |
| GraphCodec.DecodeLocations | src/Graph.h:198-213 | the count, then the names; no contract of its own, `GraphCodec.DecodeEncodedLocations` states it |
| GraphCodec.DecodeGraph | src/Graph.h:146-216 | the four sections, then the tree; no contract of its own, `GraphCodec.DecodeEncodedGraph` and `GraphCodec.SinkNodeIsLost` state what a load gives back |
| GraphCodec.EncodeEntriesAppend | src/Graph.h:110-119 | writing one more adjacency entry appends exactly its encoding |
| GraphCodec.EncodeWeightEntriesAppend | src/Graph.h:124-128 | writing one more weight entry appends exactly its encoding |
| GraphCodec.EncodeLocationEntriesAppend | src/Graph.h:133-140 | writing one more name entry appends exactly its encoding |
| GraphCodec.DecodeSerializedNeighbours | src/Graph.h:163-167 | reading a written neighbour list inserts exactly its nodes, and creates the entry only when the list is non-empty |
| GraphCodec.DecodeEncodedEntry | src/Graph.h:157-168 | reading one written entry merges its neighbours into the table and continues with one entry fewer |
| GraphCodec.MergeKeys | src/Graph.h:173-184 | after the entries are read, a key is present exactly when it was before or some entry brought it neighbours |
| GraphCodec.MergeAt | src/Graph.h:173-184 | a present key holds the union of its old neighbours and the neighbours read for it |
| GraphCodec.MergeStep | src/Graph.h:173-184 | reading the first entry, then merging the rest, is merging them all |
| GraphCodec.AddEntriesMerge | src/Graph.h:173-184 | reading entry by entry merges the neighbour sets key by key |
| GraphCodec.DecodeEncodedEntries | src/Graph.h:173-184 | reading the written entries of some keys gives their entry-by-entry merge and leaves the rest |
| GraphCodec.MergeAll | src/Graph.h:170-184 | merging every entry of a table into an empty one gives its non-empty entries |
| GraphCodec.DecodeEncodedAdjacency | src/Graph.h:154-168 | a written adjacency reads back as exactly its entries with neighbours |
| GraphCodec.DecodeEncodedWeight | src/Graph.h:189-196 | reading one written weight overwrites that edge's weight and continues with one entry fewer |
| GraphCodec.DecodeEncodedWeightEntries | src/Graph.h:189-196 | reading the written weights of some keys adds exactly those entries |
| GraphCodec.DecodeEncodedWeights | src/Graph.h:186-196 | the weight table reads back exactly as written |
| GraphCodec.DecodeEncodedLocation | src/Graph.h:201-213 | reading one written name overwrites its coordinates and continues with one entry fewer |
| GraphCodec.DecodeEncodedLocationEntries | src/Graph.h:201-213 | reading the written names of some keys adds exactly those entries |
| GraphCodec.DecodeEncodedLocations | src/Graph.h:198-213 | the name table reads back exactly as written |
| GraphCodec.DecodeEncodedGraph | src/Graph.h:146-216 | loading a saved graph gives back the weights, names and tree exactly, and each adjacency without its empty entries; what follows the file is never read |
| GraphCodec.SinkNodeIsLost | src/Graph.h:163-167 | a node with no neighbours, once saved and loaded, is no longer a key of the forward adjacency |
| Fuzzy.Score | src/Graph.cpp:143-150 | 200 exactly for the query itself; otherwise the full ratio, or the partial ratio when the query is no longer than the name and scores higher, so between the ratio and 100 |
| Fuzzy.Slot | src/Graph.cpp:152 | the insertion position comes after every entry with a score not greater than the new one, and before the first entry with a greater score |
| Fuzzy.Insert | src/Graph.cpp:152 | `insert` adds exactly the entry, so the size grows by one |
| Fuzzy.InsertSlot | src/Graph.cpp:152 | the entry goes in at the insertion position, and the rest keeps its order |
| Fuzzy.InsertAscending | src/Graph.cpp:152 | insertion keeps the multimap in ascending score order |
| Fuzzy.InsertFirst | src/Graph.cpp:152-154 | after an insertion, `begin()` is the new entry if it scores below all others, otherwise the old `begin()` |
| Fuzzy.InsertLast | src/Graph.cpp:152 | after an insertion, the last entry is the new one if no entry scores higher, otherwise the old last |
| Fuzzy.Offer | src/Graph.cpp:151-156 | one turn of the loop, `None` for reading `begin()` of an empty multimap; no contract of its own, `Fuzzy.OfferSize`, `Fuzzy.OfferSound`, `Fuzzy.OfferRoom`, `Fuzzy.KeptOrEvicted`, `Fuzzy.MinRises`, `Fuzzy.OfferKeepsTop` and `Fuzzy.OfferTakesTop` state it |
| Fuzzy.Ranking | src/Graph.cpp:142-157 | the multimap after the first loop; no contract of its own, `Fuzzy.RankingStep`, `Fuzzy.RankingSize`, `Fuzzy.RankingSound`, `Fuzzy.RankingAll`, `Fuzzy.RankingDropped` and `Fuzzy.RankingExactLast` state it |
| Fuzzy.Descending | src/Graph.cpp:159-161 | the reverse copy lists the names from the last entry to the first |
| Fuzzy.RankingStep | src/Graph.cpp:142-157 | visiting one more name is one more turn of the loop |
| Fuzzy.FuzzySearch | src/Graph.cpp:139-163 | `None` exactly when the ranking reads `begin()` of an empty multimap; otherwise the names of the final multimap, highest score first, after every name of the table has been offered in key order |
| Fuzzy.Rank | src/Graph.cpp:142-157 | the first loop offers every name of the table in key order |
| Fuzzy.Turn | src/Graph.cpp:151-156 | the loop body: insert while below `max_size`; else replace `begin()` when the score reaches the threshold and beats it |
| Fuzzy.Emit | src/Graph.cpp:158-161 | the second loop copies the names from `rbegin()` to `rend()` |
| Fuzzy.RankingStuck | src/Graph.cpp:153-154 | once a turn has read `begin()` of an empty multimap, no later turn recovers |
| Fuzzy.OfferSize | src/Graph.cpp:151-156 | with `max_size >= 1`, a turn grows the multimap by one until it holds `max_size` entries |
| Fuzzy.RankingSize | src/Graph.cpp:142-157 | with `max_size >= 1`, the multimap ends with min(names, max_size) entries |
| Fuzzy.RankingZero | src/Graph.cpp:151-154 | with `max_size == 0`, the multimap stays empty, and `begin()` of it is read exactly when some name scores at least the threshold |
| Fuzzy.OfferSound | src/Graph.cpp:151-156 | a turn keeps ascending order and adds no entry but the offered one |
| Fuzzy.RankingSound | src/Graph.cpp:142-157 | every entry is a visited name with its own score, in ascending order |
| Fuzzy.OfferRoom | src/Graph.cpp:151-152 | below `max_size`, a turn keeps every entry and takes the offered one |
| Fuzzy.RankingAll | src/Graph.cpp:142-157 | with no more names than `max_size`, every name is in the result |
| Fuzzy.KeptOrEvicted | src/Graph.cpp:153-155 | on a full multimap, an entry other than `begin()` survives the turn |
| Fuzzy.MinRises | src/Graph.cpp:153-155 | on a full multimap, the lowest kept score never falls; a rejected entry scores below the threshold or no higher than the new lowest |
| Fuzzy.RankingDropped | src/Graph.cpp:142-157 | a visited name missing from the result means the multimap is full, and the name scored below the threshold or no higher than the lowest score kept |
| Fuzzy.OfferKeepsTop | src/Graph.cpp:151-156 | an entry scoring below the highest leaves the highest in place |
| Fuzzy.OfferTakesTop | src/Graph.cpp:151-156 | an entry scoring above all others and reaching the threshold becomes the highest |
| Fuzzy.RankingExactLast | src/Graph.cpp:148-150 | among distinct names, the query itself ends as the highest entry, with score 200, provided `max_size >= 1` and the threshold is at most 200 |
| Fuzzy.ExactArrives | src/Graph.cpp:148-156 | offering the query after other names puts it on top |
| Fuzzy.ExactStays | src/Graph.cpp:151-156 | offering another name keeps the query on top |
| Fuzzy.ExactNameFirst | src/Graph.cpp:139-163 | a table name equal to the query comes first in the result |
| Fuzzy.ResultSize | src/Graph.cpp:139-163 | with `max_size >= 1`, the result holds min(table size, max_size) names |
| Fuzzy.ResultOrder | src/Graph.cpp:158-161 | the result lists names in non-increasing score order |
| Ingest.Coord | src/process.cpp:55-58 | `coordinates[i]` as a node, or (0, 0) past the end of the array |
| Ingest.Steps | src/process.cpp:53 | `coordinates.size() - 1` on the 32-bit unsigned index, wrapping for an empty array |
| Ingest.Segment | src/process.cpp:62-71 | the tables after one turn: both adjacencies gain exactly the two nodes as keys; `Ingest.SegmentEdges`, `Ingest.SegmentWeights` and `Ingest.SegmentTransposed` state its edges, weights and transposition |
| Ingest.Ingested | src/process.cpp:53-72 | the tables after the first k turns; no contract of its own, `Ingest.IngestedEdges`, `Ingest.IngestedKeys`, `Ingest.IngestedNodes`, `Ingest.IngestedWeights` and `Ingest.IngestedTransposed` state it |
| Ingest.Planted | src/process.cpp:62-65 | the tree after the first k turns; no contract of its own, `Ingest.PlantedPoints` and `Ingest.PlantedStep` state it |
| Ingest.AddLineString | src/process.cpp:53-72 | the loop leaves the tables and the tree of the first `size() - 1` turns; the names are unchanged; validity is kept |
| Ingest.AddSegment | src/process.cpp:55-71 | one turn: both nodes into the tables and the tree, then the arc |
| Ingest.AddEnd | src/process.cpp:62-63 | `addNode` then `addNode2KDTree` for one end, keeping validity |
| Ingest.AddLink | src/process.cpp:67-71 | the arc and its weight are added exactly when `n2` was not yet a neighbour of `n1`; validity is kept |
| Ingest.SegmentEdges | src/process.cpp:62-71 | a turn adds the arc n1 -> n2 and no other edge |
| Ingest.IngestedEdges | src/process.cpp:53-72 | after the loop, the edges are the old ones plus the consecutive coordinate pairs |
| Ingest.SegmentNodes | src/process.cpp:62-65 | a turn adds both its nodes as keys of both adjacencies |
| Ingest.IngestedKeys | src/process.cpp:53-72 | a node is a key after the loop exactly when it was one before or is an endpoint of a pair |
| Ingest.IngestedNodes | src/process.cpp:53-72 | both adjacencies gain exactly the pair endpoints as keys |
| Ingest.SegmentWeights | src/process.cpp:67-71 | a turn keeps every weight and adds at most its own pair's weight |
| Ingest.IngestedWeights | src/process.cpp:53-72 | old weights are kept, and every new weight is on a consecutive pair and equals its distance |
| Ingest.SegmentTransposed | src/process.cpp:62-71 | a turn keeps the transpose invariant and leaves its pair weighted |
| Ingest.IngestedTransposed | src/process.cpp:53-72 | the loop keeps the transpose invariant |
| Ingest.IngestedWeighsPairs | src/process.cpp:53-72 | from a valid graph, the weight keys become the old keys plus exactly the consecutive pairs |
| Ingest.PlantedPoints | src/process.cpp:62-65 | the tree gains exactly both ends of every pair, with multiplicity |
| Ingest.PlantedStep | src/process.cpp:62-65 | one turn adds its two points to the tree |
| Ingest.InteriorTwice | src/process.cpp:53-65 | every interior coordinate of a LineString is inserted into the tree at least twice |
| Search.RelaxRanked | src/Graph.cpp:255-256 | repointing a node at a predecessor with a smaller key keeps keys decreasing along back-pointers |
| Search.Relax | src/Graph.cpp:254-259 | one relaxation: a lower tentative distance repoints the neighbour and pushes it; no contract of its own, `Search.RelaxKeeps`, `Search.RelaxedKeeps` and `Search.RelaxFrame` state it |
| Search.RelaxKeeps | src/Graph.cpp:254-260 | a relaxation along a weighted arc keeps the search invariant |
| Search.RelaxedKeeps | src/Graph.cpp:255-259 | a relaxation that lowers the score keeps the search invariant with the new key |
| Search.SettledArcs | src/Graph.cpp:254 | every relaxed neighbour had a weight |
| Search.SettledStep | src/Graph.cpp:254-260 | after the relaxation, every relaxed neighbour scores at most the popped score plus its weight |
| Search.LoweredStep | src/Graph.cpp:255-257 | a changed score belongs to a relaxed neighbour now pointing at the popped node, and equals its new tentative distance |
| Search.RepointedStep | src/Graph.cpp:255-256 | a changed back-pointer belongs to a node whose score changed |
| Search.MinStep | src/Graph.cpp:261-263 | `min_length` is the least of its old value and the candidates through neighbours the other side has visited |
| Search.BoundedLower | src/Graph.cpp:261-263 | after `std::min`, no candidate seen so far is below `min_length` |
| Search.BoundedAt | src/Graph.cpp:262 | `std::min` keeps a candidate that was not below the bound not below it |
| Search.AttainedLower | src/Graph.cpp:261-263 | `min_length` stays its old value or one of the candidates |
| Search.BoundedSkip | src/Graph.cpp:261 | a neighbour the other side has not visited leaves the bound unchanged |
| Search.AttainedSkip | src/Graph.cpp:261 | the same, for the attained half |
| Search.RelaxFrame | src/Graph.cpp:255-259 | a relaxation changes no score key and no visited set, loses no queue entry or back-pointer, and leaves the popped node as it was |
| Search.ExpandStep | src/Graph.cpp:253-264 | one turn of the neighbour loop keeps the loop invariant |
| Search.FramedStep | src/Graph.cpp:254-260 | one turn keeps the part of the invariant that does not depend on the visited neighbours |
| Search.ProgressedStep | src/Graph.cpp:254-263 | one turn keeps the part of the invariant about the visited neighbours |
| Search.ExpandOne | src/Graph.cpp:254-263 | the loop body for one neighbour keeps the loop invariant |
| Search.Expand | src/Graph.cpp:253-264 | the neighbour error exactly for a node without an entry; the weight error exactly when some arc has no weight; otherwise the invariant, every neighbour settled, only neighbours changed, and `min_length` the least candidate |
| Search.RelaxAll | src/Graph.cpp:253-264 | the loop stops at a missing weight exactly when some arc has none; otherwise every neighbour has been relaxed |
| Search.InitScores | src/Graph.cpp:217-220 | every key of the adjacency scores infinity |
| Search.StartSide | src/process.cpp:103-115 | the opening side: infinity everywhere but the origin at 0, one queue entry, no back-pointers |
| Search.Turn | src/process.cpp:118-133 | pops an entry no queued entry is less than; stops exactly on the other node; otherwise the node's expansion |
| Search.StartInv | src/process.cpp:103-115 | the opening side satisfies the search invariant |
| Search.PopInv | src/process.cpp:118-119 | removing queue entries keeps the invariant |
| Search.ChainIsRoute | src/process.cpp:82-92 | a walk from a root to a reached node starts at the origin and follows weighted arcs |
| Search.WalkIsRoute | src/process.cpp:148-152 | the walk back from a reached node ends at the origin, each step along a weighted arc |
| Search.Arrive | src/process.cpp:121-123 | the path answered when the goal is popped leads from the start to it over weighted arcs, and is `[current]` while no back-pointer is set |
| Search.ValidWeighted | src/process.cpp:126 | in a valid graph, `distances.at` never throws during a search |
| Search.JoinedWalks | src/process.cpp:148-152 | in a valid graph, the reverse half of a joined path follows forward arcs |
| Search.Meet | src/process.cpp:140-154 | the path of a meeting runs forward from the start to `cur_start`, then from `cur_goal` back to the goal |
| Routing.AStar | src/process.cpp:94-138 | throws exactly for a missing endpoint; a route starts at `start`, ends at `goal` and follows weighted arcs; a weight error means some arc has none; `start == goal` gives `[start]` |
| Routing.ForwardHalf | src/process.cpp:194-209 | the forward half meets with a joined route, fails only on a missing weight, or moves with the invariant kept |
| Routing.ReverseHalf | src/process.cpp:211-226 | the reverse half meets with a joined route, fails only on a missing weight or on a goal without a reverse entry, or moves with the invariant kept |
| Routing.PlayRound | src/process.cpp:193-227 | a round ends with a meeting route or one of those failures, or keeps both invariants; `start == goal` meets at once |
| Routing.Rounds | src/process.cpp:193-230 | never a missing-endpoint error; a route is a meeting route; a weight error means some arc has none; a neighbour error means the goal has no reverse entry; `start == goal` meets at once |
| Routing.BiAStar | src/process.cpp:156-231 | throws exactly for a missing endpoint; a route is a forward walk from `start` and a backward walk to `goal` meeting at a repeated node; `start == goal` gives `[start, start]` |
| Balanced.PredictReverse | src/Graph.cpp:193-195 | the forward and reverse predictions add up to `dis_s_t` at every node |
| Balanced.PredictSwap | src/Graph.cpp:189-195 | the reverse prediction is the forward prediction with the endpoints exchanged |
| Balanced.Intersects | src/Graph.cpp:243-245 | `isIntersect`: the popped nodes coincide, or each was visited by the other direction; no contract of its own, `Balanced.Round` states when it ends the search |
| Balanced.Reached | src/Graph.cpp:247 | `top_f.first + top_r.first >= min_length + dis_s_t`, false while `min_length` is infinite; no contract of its own, `Balanced.Round` states when it ends the search |
| Balanced.Stale | src/Graph.cpp:251 | the negation of `top.first <= f[top.second]`; no contract of its own, `Balanced.Settle` states that a stale entry changes nothing |
| Balanced.Settle | src/Graph.cpp:251-265 | a stale entry changes nothing; otherwise the neighbour and weight errors exactly when they occur, or the node is visited, the invariant kept, and `min_length` lowered to the least candidate |
| Balanced.SettleBoth | src/Graph.cpp:251-281 | settling both popped entries fails only on a missing weight or on a goal without a reverse entry, keeps both invariants, and never raises `min_length` |
| Balanced.Round | src/Graph.cpp:236-282 | both tops are least entries; the round answers a route exactly when the popped nodes intersect and the bound is reached, joining the two popped nodes; otherwise as `SettleBoth` |
| Balanced.MeetTick | src/Graph.cpp:247-249 | the answer of a meeting is the forward walk to the forward node, then the reverse walk from the reverse node |
| Balanced.Rounds | src/Graph.cpp:236-283 | never a missing-endpoint error; a route is a spliced walk; a weight error means some arc has none; a neighbour error means the goal has no reverse entry |
| Balanced.BiAStar | src/Graph.cpp:197-284 | throws exactly for a missing endpoint; a route is a forward walk from `start` spliced to a reverse walk to `dst`; the failures are as for `Rounds` |

## Left out

- `calculate_distance(lng1, lat1, lng2, lat2)` (haversine with rounding, src/Node.cpp:7-22) is not modelled, because it is floating-point trigonometry. It is any non-negative function, the `Metric` parameter.
- `rapidfuzz::fuzz::ratio` and `partial_ratio` are foreign library calls. They are parameters scoring in 0..100.
- The bulk constructor `KDTree(std::vector<node_t>, int)` (src/KDTree.cpp:11-40) is not modelled, because nothing in the core calls it.
- Reading the GeoJSON document, the `Point`-feature branch of `load_geojson`, `saveGraph`/`loadGraph`, the export and by-name drivers and `main` are file and JSON plumbing. Only the LineString loop is modelled.
- The `is_open` checks of `KDTree::serialize`/`deserialize` are not modelled, because streams are values here.
- Doubles are reals. Rounding, NaN and the byte layout (endianness, bit patterns) are not modelled; a `double` is one opaque 8-byte item. `+infinity` appears only as the initial score (`Ext.Inf`).
- `size_t` counts are unbounded naturals. Only the 32-bit `Json::ArrayIndex` wrap of `coordinates.size() - 1` is modelled.
- The source never checks its reads. Malformed or truncated input reads indeterminate values, which the model reports as `None` / `ok == false` instead.
- The second copies of `serialize` and `deserialize` in src/Graph.cpp:14-137 do the same as those in src/Graph.h, and are modelled once.
- `constructPath` (src/Graph.cpp:165-179), `reconstructPath` (src/Graph.cpp:287-297) and `Graph::AStar` (src/Graph.cpp:299-343) are the same code as their counterparts in src/process.cpp. `Paths.ConstructPath`, `Paths.ReconstructPath` and `Routing.AStar` model both copies.
- Weights are required to be non-negative (`NonNegative`). The searches terminate through a `fuel` bound on the rounds, and running out of it is the model-only outcome `OutOfFuel`.
- Routing.AStar: proves that a route is a weighted walk from `start` to `goal`, not that it is shortest. The same holds for the bidirectional searches. Equal lengths of the A* and bidirectional answers are not proved.
- Routing.AStar: an exhausted queue (`NoRoute`) is not proved to mean that no route exists.
- Routing.BiAStar: the simple search meets where one side pops the node the other side popped last. Its route repeats that node, and nothing is proved about its length.
- Balanced.BiAStar: its answer joins the two popped nodes with no arc required between them, so only a spliced walk is stated.
- KDTrees.KDTree.NearestNeighbor: the far-side test compares `nn_dis` with the best point's coordinate instead of the query's. The contract claims closeness only against the query's descent, not against every stored point.
- KDTrees.KDTree.Search: has no contract of its own; `KDTrees.SearchAt` and `KDTrees.SearchComplete` carry it.
- KDTrees.KDTree.Serialize: has no contract of its own; `KDTrees.SerializeTree*` and `KDTrees.DeserializeSerializeTree` carry it.
- Balanced.PredictForward: has no contract of its own; it is the half-difference of the two potentials, and `Balanced.PredictReverse` relates the two.
- Nodes.GetLng and Nodes.GetLat are the datatype's fields and carry no contract.
- The neighbours of a popped node are visited in any order, not necessarily `std::set` order. A node's expansion touches each neighbour once, so the result is the same.
- `fuzzySearch` with `max_size == 0` reads `res.begin()` of an empty multimap, which is undefined behaviour. It is modelled as the outcome `None`.
- Reading a missing key of `disStart`/`gScore` through `operator[]` creates a `0.0` entry, for example a sink node that a load dropped. The model reads `0.0` without inserting the entry, which gives the same value on every later read.
- Exceptions are not modelled as control flow. The `std::runtime_error` and `std::out_of_range` throws become result values (`Outcome`, `Query`, `Option`).
- `Node` (src/Node.h:35) holds only `lng` and `lat`; no road-class weight is modelled.
- A name is a Dafny `string` that stands for the bytes of the `std::string`, one `char` per byte. So `nameLength` (src/Graph.h:134-136) and `query.size()` (src/Graph.cpp:144) are the byte counts the source writes and compares. No character encoding is modelled.
- Inserting a `KDNode` that has children shares those child links between the caller's node and the tree. The model copies them as values, so a later insertion below them is not seen through the caller's node. The only callers (src/process.cpp:63, 65) pass a node built from a `Node`, which has no children.
