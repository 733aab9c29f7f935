/** The graph store `Graph<T>` of src/Graph.h, instantiated at `Node`: a
    forward and a reverse adjacency, the edge weights, the name table and one
    KD-tree, with the mutators that build it and the loops that save and load
    it. */
module Graphs {
  import opened Base
  import opened Stream
  import opened Ordering
  import opened Nodes
  import opened GraphCodec
  import KDTrees

  /** `v` is in the neighbour set stored for `u`. */
  predicate HasEdge(m: Adjacency, u: Node, v: Node) {
    u in m && v in m[u]
  }

  /** The edge-level transpose invariant: `v` is a neighbour of `u` forward
      exactly when `u` is a neighbour of `v` backward, exactly when `(u, v)`
      has a weight. */
  ghost predicate Transposed(adj: Adjacency, rev: Adjacency, dist: Weights) {
    && (forall u, v :: HasEdge(adj, u, v) <==> HasEdge(rev, v, u))
    && (forall u, v :: HasEdge(adj, u, v) <==> (u, v) in dist)
  }

  /** `m[n];` through `operator[]`: creates an empty entry when `n` is absent. */
  function WithNode(m: Adjacency, n: Node): (r: Adjacency)
    ensures r.Keys == m.Keys + {n}
    ensures forall k | k in m :: r[k] == m[k]
    ensures n !in m ==> r[n] == {}
  {
    m[n := Neighbours(m, n)]
  }

  /** `m[u].insert(v)`: creates the entry of `u` when absent, then adds `v`. */
  function WithArc(m: Adjacency, u: Node, v: Node): (r: Adjacency)
    ensures r.Keys == m.Keys + {u}
    ensures forall k | k in m && k != u :: r[k] == m[k]
    ensures r[u] == Neighbours(m, u) + {v}
  {
    m[u := Neighbours(m, u) + {v}]
  }

  /** `distances.insert({e, w})`: a key that is already present keeps its weight. */
  function WithWeight(d: Weights, e: (Node, Node), w: real): (r: Weights)
    ensures r.Keys == d.Keys + {e}
    ensures forall k | k in d :: r[k] == d[k]
    ensures e !in d ==> r[e] == w
  {
    if e in d then d else d[e := w]
  }

  /** Adding a node adds no edge and removes none. */
  lemma WithNodeEdges(m: Adjacency, n: Node)
    ensures forall u, v :: HasEdge(WithNode(m, n), u, v) <==> HasEdge(m, u, v)
  {
    forall u, v ensures HasEdge(WithNode(m, n), u, v) <==> HasEdge(m, u, v) {
      if u == n && n !in m {
        assert WithNode(m, n)[u] == {};
      }
    }
  }

  /** Inserting an arc adds exactly that edge. */
  lemma WithArcEdges(m: Adjacency, a: Node, b: Node)
    ensures forall u, v :: HasEdge(WithArc(m, a, b), u, v) <==> HasEdge(m, u, v) || (u == a && v == b)
  {
    forall u, v ensures HasEdge(WithArc(m, a, b), u, v) <==> HasEdge(m, u, v) || (u == a && v == b) {
      if u == a {
        assert WithArc(m, a, b)[u] == Neighbours(m, a) + {b};
      }
    }
  }

  /** `addNode` twice is `addNode` once, and it never touches an existing entry. */
  lemma AddNodeIdempotent(m: Adjacency, n: Node)
    ensures WithNode(WithNode(m, n), n) == WithNode(m, n)
    ensures n in m ==> WithNode(m, n) == m
  {
  }

  /** The transpose invariant holds for the empty graph. */
  lemma EmptyTransposed()
    ensures Transposed(map[], map[], map[])
  {
  }

  /** `addNode` keeps the transpose invariant. */
  lemma AddNodeTransposed(adj: Adjacency, rev: Adjacency, dist: Weights, n: Node)
    requires Transposed(adj, rev, dist)
    ensures Transposed(WithNode(adj, n), WithNode(rev, n), dist)
  {
    WithNodeEdges(adj, n);
    WithNodeEdges(rev, n);
  }

  /** `addDirectedEdge` keeps the transpose invariant, whatever weight the
      edge already had. */
  lemma AddEdgeTransposed(adj: Adjacency, rev: Adjacency, dist: Weights, src: Node, dest: Node, w: real)
    requires Transposed(adj, rev, dist)
    ensures Transposed(WithArc(adj, src, dest), WithArc(rev, dest, src), WithWeight(dist, (src, dest), w))
  {
    WithArcEdges(adj, src, dest);
    WithArcEdges(rev, dest, src);
  }

  /** A loaded graph keeps the transpose invariant of the saved one: dropping
      the empty adjacency entries removes no edge. */
  lemma NonEmptyTransposed(adj: Adjacency, rev: Adjacency, dist: Weights)
    requires Transposed(adj, rev, dist)
    ensures Transposed(NonEmpty(adj), NonEmpty(rev), dist)
  {
    forall m: Adjacency, u: Node, v: Node ensures HasEdge(NonEmpty(m), u, v) <==> HasEdge(m, u, v) {
      if HasEdge(m, u, v) {
        assert m[u] != {};
      }
    }
  }

  /** What `queryByName` and `queryByArbitrary` answer. `DefaultNode` is the
      coordinates of a default-constructed `KDNode`, which `nearest_neighbor`
      returns for an empty tree; `UnknownName` is the `std::out_of_range` that
      `location_map.at(name)` throws. */
  datatype Query = UnknownName | DefaultNode | Located(lng: real, lat: real)

  class Graph {
    var adjList: Adjacency
    var revAdjList: Adjacency
    var distances: Weights
    var locationMap: Locations
    const kdtree: KDTrees.KDTree

    ghost predicate Valid()
      reads this
    {
      Transposed(adjList, revAdjList, distances)
    }

    /** The implicit default constructor: empty maps and an empty tree. */
    constructor ()
      ensures adjList == map[] && revAdjList == map[] && distances == map[] && locationMap == map[]
      ensures fresh(kdtree) && kdtree.root == KDTrees.Null
      ensures Valid()
    {
      adjList, revAdjList, distances, locationMap := map[], map[], map[], map[];
      kdtree := new KDTrees.KDTree();
    }

    /** The four tables and the tree, as `serialize` writes them. */
    function Snap(): Snapshot
      reads this, kdtree
    {
      Snapshot(revAdjList, adjList, distances, locationMap, kdtree.root)
    }

    /** `addNode`: `rev_adjList[node]`, then `adjList[node]`. */
    method AddNode(node: Node)
      modifies this
      ensures revAdjList == WithNode(old(revAdjList), node)
      ensures adjList == WithNode(old(adjList), node)
      ensures distances == old(distances) && locationMap == old(locationMap)
      ensures old(Valid()) ==> Valid()
    {
      if Valid() {
        AddNodeTransposed(adjList, revAdjList, distances, node);
      }
      revAdjList := WithNode(revAdjList, node);
      adjList := WithNode(adjList, node);
    }

    /** `addNode2KDTree`: `kdtree.insert(node)` stores a copy of the node,
        its child links included. */
    method AddNode2KDTree(node: KDTrees.KDNode)
      modifies kdtree
      ensures kdtree.root == KDTrees.PlantAt(old(kdtree.root), node.data, node.left, node.right, 0)
    {
      kdtree.Insert(node);
    }

    /** `addDirectedEdge`: both adjacencies gain the edge; the weight is
        recorded only for an edge that had none. */
    method AddDirectedEdge(src: Node, dest: Node, dist: real)
      modifies this
      ensures revAdjList == WithArc(old(revAdjList), dest, src)
      ensures adjList == WithArc(old(adjList), src, dest)
      ensures distances == WithWeight(old(distances), (src, dest), dist)
      ensures locationMap == old(locationMap)
      ensures old(Valid()) ==> Valid()
    {
      if Valid() {
        AddEdgeTransposed(adjList, revAdjList, distances, src, dest, dist);
      }
      revAdjList := WithArc(revAdjList, dest, src);
      adjList := WithArc(adjList, src, dest);
      distances := WithWeight(distances, (src, dest), dist);
    }

    /** `addNamePoint`: `location_map[name] = coord`. */
    method AddNamePoint(name: string, coord: (real, real))
      modifies this
      ensures locationMap == old(locationMap)[name := coord]
      ensures adjList == old(adjList) && revAdjList == old(revAdjList) && distances == old(distances)
      ensures old(Valid()) ==> Valid()
    {
      locationMap := locationMap[name := coord];
    }

    /** `getNeighbors`: `None` is the "Node not found in adjList." error. */
    function GetNeighbors(node: Node): (r: Option<set<Node>>)
      reads this
      ensures r.Some? <==> node in adjList
      ensures forall v :: r.Some? && v in r.value <==> HasEdge(adjList, node, v)
    {
      if node in adjList then Some(adjList[node]) else None
    }

    /** `rev_getNeighbors`: `None` is the "Node not found in rev_adjList." error. */
    function RevGetNeighbors(node: Node): (r: Option<set<Node>>)
      reads this
      ensures r.Some? <==> node in revAdjList
      ensures forall v :: r.Some? && v in r.value <==> HasEdge(revAdjList, node, v)
    {
      if node in revAdjList then Some(revAdjList[node]) else None
    }

    /** `containsNode` consults the forward adjacency only. */
    function ContainsNode(node: Node): (b: bool)
      reads this
      ensures b <==> GetNeighbors(node).Some?
    {
      node in adjList
    }

    /** `queryByArbitrary`: the stored point nearest to `coord` as the search
        finds it, or the default node on an empty tree. */
    function QueryByArbitrary(metric: Metric, coord: (real, real)): (r: Query)
      reads kdtree
      ensures r != UnknownName
      ensures r == DefaultNode <==> kdtree.root == KDTrees.Null
      ensures r.Located? ==> KDTrees.Point(r.lng, r.lat) in KDTrees.Points(kdtree.root)
      ensures r.Located? ==> forall p :: p in KDTrees.Descent(kdtree.root, KDTrees.Point(coord.0, coord.1), 0) ==>
        KDTrees.Dist(metric, KDTrees.Point(coord.0, coord.1), KDTrees.Point(r.lng, r.lat))
          <= KDTrees.Dist(metric, KDTrees.Point(coord.0, coord.1), p)
    {
      match kdtree.NearestNeighbor(metric, KDTrees.Point(coord.0, coord.1))
      case None => DefaultNode
      case Some(p) => Located(p.lng, p.lat)
    }

    /** `queryByName`: fails for an unknown name, otherwise queries the tree
        at the name's coordinates. */
    function QueryByName(metric: Metric, name: string): (r: Query)
      reads this, kdtree
      ensures r == UnknownName <==> name !in locationMap
      ensures name in locationMap ==> r == QueryByArbitrary(metric, locationMap[name])
    {
      if name in locationMap then QueryByArbitrary(metric, locationMap[name]) else UnknownName
    }

    /** `serialize`: the two adjacencies, the weights, the names, the tree. */
    method Serialize() returns (out: seq<Item>)
      ensures out == EncodeGraph(Snap())
    {
      var rev := WriteAdjacency(revAdjList);
      var adj := WriteAdjacency(adjList);
      var dist := WriteWeights(distances);
      var loc := WriteLocations(locationMap);
      out := rev + adj + dist + loc + kdtree.Serialize();
    }

    /** `deserialize`: clears the four maps, then reads each section in
        turn. `ok` is false where the model cannot read the stream; the
        source does not detect that case. */
    method Deserialize(s: seq<Item>) returns (ok: bool)
      modifies this, kdtree
      ensures ok <==> DecodeGraph(s).Some?
      ensures ok ==> Snap() == DecodeGraph(s).value
    {
      revAdjList, adjList, distances, locationMap := map[], map[], map[], map[];
      var r1 := ReadAdjacency(s);
      if r1.None? { return false; }
      revAdjList := r1.value.0;
      var r2 := ReadAdjacency(r1.value.1);
      if r2.None? { return false; }
      adjList := r2.value.0;
      var r3 := ReadWeights(r2.value.1);
      if r3.None? { return false; }
      distances := r3.value.0;
      var r4 := ReadLocations(r3.value.1);
      if r4.None? { return false; }
      locationMap := r4.value.0;
      var next := kdtree.Deserialize(r4.value.1);
      ok := next.Some?;
    }
  }

  /** Through the transpose invariant, the forward lookup, the reverse lookup
      and the weight table agree on every edge. */
  lemma LookupsAgree(g: Graph, u: Node, v: Node)
    requires g.Valid()
    ensures (g.GetNeighbors(u).Some? && v in g.GetNeighbors(u).value)
        <==> (g.RevGetNeighbors(v).Some? && u in g.RevGetNeighbors(v).value)
    ensures (g.GetNeighbors(u).Some? && v in g.GetNeighbors(u).value) <==> (u, v) in g.distances
  {
  }

  // ------------------------------------------------------------ the save loops

  /** `for (const auto& neighbor : neighbors) neighbor.serialize(out);` */
  method WriteNodes(ns: set<Node>) returns (out: seq<Item>)
    ensures out == SerializeAll(Sorted(ns))
  {
    out := [];
    var todo := ns;
    ghost var done: seq<Node> := [];
    while todo != {}
      invariant done + Sorted(todo) == Sorted(ns)
      invariant out == SerializeAll(done)
      decreases |todo|
    {
      var k := LeastNode(todo);
      out := out + Serialize(k);
      SerializeAllAppend(done, k);
      done := done + [k];
      todo := todo - {k};
    }
    assert Sorted(todo) == [];
    assert done == Sorted(ns);
  }

  /** One adjacency entry: the node, the neighbour count, the neighbours. */
  method WriteEntry(k: Node, ns: set<Node>) returns (out: seq<Item>)
    ensures out == EncodeEntry(k, ns)
  {
    var nbs := WriteNodes(ns);
    out := Serialize(k) + [U64(|ns|)] + nbs;
  }

  /** One adjacency section: the entry count, then each entry in key order. */
  method WriteAdjacency(m: Adjacency) returns (out: seq<Item>)
    ensures out == EncodeAdjacency(m)
  {
    out := [U64(|m|)];
    var todo := m.Keys;
    ghost var done: seq<Node> := [];
    while todo != {}
      invariant todo <= m.Keys
      invariant forall k | k in done :: k in m
      invariant done + Sorted(todo) == Sorted(m.Keys)
      invariant out == [U64(|m|)] + EncodeEntries(m, done)
      decreases |todo|
    {
      var k := LeastNode(todo);
      var e := WriteEntry(k, m[k]);
      assert out + e == [U64(|m|)] + EncodeEntries(m, done + [k]) by {
        EncodeEntriesAppend(m, done, k);
      }
      out := out + e;
      assert (done + [k]) + Sorted(todo - {k}) == Sorted(m.Keys);
      done := done + [k];
      todo := todo - {k};
    }
    assert Sorted(todo) == [];
    assert done == Sorted(m.Keys);
  }

  /** The weight section: the count, then source, target and weight per edge. */
  method WriteWeights(d: Weights) returns (out: seq<Item>)
    ensures out == EncodeWeights(d)
  {
    out := [U64(|d|)];
    var todo := d.Keys;
    ghost var done: seq<(Node, Node)> := [];
    while todo != {}
      invariant todo <= d.Keys
      invariant forall k | k in done :: k in d
      invariant done + SortedEdges(todo) == SortedEdges(d.Keys)
      invariant out == [U64(|d|)] + EncodeWeightEntries(d, done)
      decreases |todo|
    {
      var k := LeastEdge(todo);
      var e := EncodeWeight(k, d[k]);
      assert out + e == [U64(|d|)] + EncodeWeightEntries(d, done + [k]) by {
        EncodeWeightEntriesAppend(d, done, k);
      }
      out := out + e;
      assert (done + [k]) + SortedEdges(todo - {k}) == SortedEdges(d.Keys);
      done := done + [k];
      todo := todo - {k};
    }
    assert SortedEdges(todo) == [];
    assert done == SortedEdges(d.Keys);
  }

  /** The name section: the count, then length, bytes and coordinates per name. */
  method WriteLocations(l: Locations) returns (out: seq<Item>)
    ensures out == EncodeLocations(l)
  {
    out := [U64(|l|)];
    var todo := l.Keys;
    ghost var done: seq<string> := [];
    while todo != {}
      invariant todo <= l.Keys
      invariant forall k | k in done :: k in l
      invariant done + SortedNames(todo) == SortedNames(l.Keys)
      invariant out == [U64(|l|)] + EncodeLocationEntries(l, done)
      decreases |todo|
    {
      var k := LeastName(todo);
      var e := EncodeLocation(k, l[k]);
      assert out + e == [U64(|l|)] + EncodeLocationEntries(l, done + [k]) by {
        EncodeLocationEntriesAppend(l, done, k);
      }
      out := out + e;
      assert (done + [k]) + SortedNames(todo - {k}) == SortedNames(l.Keys);
      done := done + [k];
      todo := todo - {k};
    }
    assert SortedNames(todo) == [];
    assert done == SortedNames(l.Keys);
  }

  // ------------------------------------------------------------ the load loops

  /** The inner loop of an adjacency section: `m[node].insert(neighbor)`,
      `count` times. */
  method ReadNeighbours(s: seq<Item>, count: nat, node: Node, acc: Adjacency) returns (r: Option<(Adjacency, seq<Item>)>)
    ensures r == DecodeNeighbours(s, count, node, acc)
  {
    var m := acc;
    var rest := s;
    var j := 0;
    while j < count
      invariant j <= count
      invariant DecodeNeighbours(rest, count - j, node, m) == DecodeNeighbours(s, count, node, acc)
      decreases count - j
    {
      var nb := Deserialize(rest);
      if nb.None? { return None; }
      m := m[node := Neighbours(m, node) + {nb.value.0}];
      rest := nb.value.1;
      j := j + 1;
    }
    return Some((m, rest));
  }

  /** One adjacency section: the count, then `count` entries. */
  method ReadAdjacency(s: seq<Item>) returns (r: Option<(Adjacency, seq<Item>)>)
    ensures r == DecodeAdjacency(s)
  {
    var c := ReadU64(s);
    if c.None? { return None; }
    var count := c.value.0;
    var m: Adjacency := map[];
    var rest := c.value.1;
    var i := 0;
    while i < count
      invariant i <= count
      invariant DecodeEntries(rest, count - i, m) == DecodeAdjacency(s)
      decreases count - i
    {
      var nd := Deserialize(rest);
      if nd.None? { return None; }
      var nc := ReadU64(nd.value.1);
      if nc.None? { return None; }
      var entry := ReadNeighbours(nc.value.1, nc.value.0, nd.value.0, m);
      if entry.None? { return None; }
      m, rest := entry.value.0, entry.value.1;
      i := i + 1;
    }
    return Some((m, rest));
  }

  /** The weight section: `distances[{src, dest}] = dist`, `count` times. */
  method ReadWeights(s: seq<Item>) returns (r: Option<(Weights, seq<Item>)>)
    ensures r == DecodeWeights(s)
  {
    var c := ReadU64(s);
    if c.None? { return None; }
    var count := c.value.0;
    var d: Weights := map[];
    var rest := c.value.1;
    var i := 0;
    while i < count
      invariant i <= count
      invariant DecodeWeightEntries(rest, count - i, d) == DecodeWeights(s)
      decreases count - i
    {
      var src := Deserialize(rest);
      if src.None? { return None; }
      var dest := Deserialize(src.value.1);
      if dest.None? { return None; }
      var w := ReadF64(dest.value.1);
      if w.None? { return None; }
      d := d[(src.value.0, dest.value.0) := w.value.0];
      rest := w.value.1;
      i := i + 1;
    }
    return Some((d, rest));
  }

  /** The name section: `location_map[name] = {lng, lat}`, `count` times. */
  method ReadLocations(s: seq<Item>) returns (r: Option<(Locations, seq<Item>)>)
    ensures r == DecodeLocations(s)
  {
    var c := ReadU64(s);
    if c.None? { return None; }
    var count := c.value.0;
    var l: Locations := map[];
    var rest := c.value.1;
    var i := 0;
    while i < count
      invariant i <= count
      invariant DecodeLocationEntries(rest, count - i, l) == DecodeLocations(s)
      decreases count - i
    {
      var len := ReadU64(rest);
      if len.None? { return None; }
      var name := ReadBytes(len.value.1, len.value.0);
      if name.None? { return None; }
      var lng := ReadF64(name.value.1);
      if lng.None? { return None; }
      var lat := ReadF64(lng.value.1);
      if lat.None? { return None; }
      l := l[name.value.0 := (lng.value.0, lat.value.0)];
      rest := lat.value.1;
      i := i + 1;
    }
    return Some((l, rest));
  }
}
