/** The per-LineString loop of `load_geojson` (src/process.cpp). For each
    pair of consecutive coordinates it adds both nodes to the graph and to
    the KD-tree, and adds the directed edge between them, weighted by their
    distance, unless the second node is already a neighbour of the first.
    Reading the JSON document is not modelled: a LineString is its sequence
    of `(lng, lat)` coordinates. */
module Ingest {
  import opened Nodes
  import opened GraphCodec
  import opened Graphs
  import KDTrees

  /** `coordinates[i]` as a node. Past the end of the array jsoncpp answers
      its null value, whose `asDouble()` is `0.0`. */
  function Coord(coords: seq<(real, real)>, i: nat): (n: Node)
    ensures i < |coords| ==> n == Node(coords[i].0, coords[i].1)
    ensures i >= |coords| ==> n == Node(0.0, 0.0)
  {
    if i < |coords| then Node(coords[i].0, coords[i].1) else Node(0.0, 0.0)
  }

  /** `coordinates.size() - 1` on the unsigned 32-bit `Json::ArrayIndex`: an
      empty array wraps around to the largest index. */
  function Steps(n: nat): (k: nat)
    requires n < 0x1_0000_0000
    ensures k < 0x1_0000_0000
    ensures (k + 1) % 0x1_0000_0000 == n
  {
    if n == 0 then 0xFFFF_FFFF else n - 1
  }

  /** The three graph tables the loop changes. */
  datatype Tables = Tables(adj: Adjacency, rev: Adjacency, dist: Weights)

  /** One turn of the loop on the tables: `addNode(n1)`, `addNode(n2)`, then
      `addDirectedEdge(n1, n2, w)` unless `n2` is already a neighbour. */
  function Segment(t: Tables, n1: Node, n2: Node, w: real): (r: Tables)
    ensures r.adj.Keys == t.adj.Keys + {n1, n2}
    ensures r.rev.Keys == t.rev.Keys + {n1, n2}
  {
    var adj := WithNode(WithNode(t.adj, n1), n2);
    var rev := WithNode(WithNode(t.rev, n1), n2);
    if n2 in adj[n1] then Tables(adj, rev, t.dist)
    else Tables(WithArc(adj, n1, n2), WithArc(rev, n2, n1), WithWeight(t.dist, (n1, n2), w))
  }

  /** The tables after the first `k` turns. */
  function Ingested(t: Tables, metric: Metric, coords: seq<(real, real)>, k: nat): Tables {
    if k == 0 then t
    else Segment(Ingested(t, metric, coords, k - 1), Coord(coords, k - 1), Coord(coords, k),
                 Distance(metric, Coord(coords, k - 1), Coord(coords, k)))
  }

  /** The KD point of a node, as `KDNode(const Node &)` builds it. */
  function PointOf(n: Node): KDTrees.Point {
    KDTrees.Point(n.lng, n.lat)
  }

  /** The tree after the first `k` turns: each turn inserts `n1`, then `n2`. */
  function Planted(root: KDTrees.Tree, coords: seq<(real, real)>, k: nat): KDTrees.Tree {
    if k == 0 then root
    else
      var r := Planted(root, coords, k - 1);
      KDTrees.InsertAt(KDTrees.InsertAt(r, PointOf(Coord(coords, k - 1)), 0), PointOf(Coord(coords, k)), 0)
  }

  /** The pairs the first `k` turns connect. */
  function Pairs(coords: seq<(real, real)>, k: nat): set<(Node, Node)> {
    if k == 0 then {} else Pairs(coords, k - 1) + {(Coord(coords, k - 1), Coord(coords, k))}
  }

  /** The nodes the first `k` turns add. */
  function Ends(coords: seq<(real, real)>, k: nat): set<Node> {
    if k == 0 then {} else Ends(coords, k - 1) + {Coord(coords, k - 1), Coord(coords, k)}
  }

  /** The points the first `k` turns insert, with their multiplicities. */
  function Visits(coords: seq<(real, real)>, k: nat): multiset<KDTrees.Point> {
    if k == 0 then multiset{}
    else Visits(coords, k - 1) + multiset{PointOf(Coord(coords, k - 1)), PointOf(Coord(coords, k))}
  }

  /** The load loop over one LineString. */
  method AddLineString(graph: Graph, metric: Metric, coords: seq<(real, real)>)
    requires |coords| < 0x1_0000_0000
    modifies graph, graph.kdtree
    ensures Tables(graph.adjList, graph.revAdjList, graph.distances)
            == Ingested(old(Tables(graph.adjList, graph.revAdjList, graph.distances)), metric, coords, Steps(|coords|))
    ensures graph.kdtree.root == Planted(old(graph.kdtree.root), coords, Steps(|coords|))
    ensures graph.locationMap == old(graph.locationMap)
    ensures old(graph.Valid()) ==> graph.Valid()
  {
    ghost var t0 := Tables(graph.adjList, graph.revAdjList, graph.distances);
    ghost var root0 := graph.kdtree.root;
    var count := Steps(|coords|);
    var i: nat := 0;
    while i < count
      invariant i <= count
      invariant Tables(graph.adjList, graph.revAdjList, graph.distances) == Ingested(t0, metric, coords, i)
      invariant graph.kdtree.root == Planted(root0, coords, i)
      invariant graph.locationMap == old(graph.locationMap)
      invariant old(graph.Valid()) ==> graph.Valid()
    {
      AddSegment(graph, metric, Coord(coords, i), Coord(coords, i + 1));
      i := i + 1;
    }
  }

  /** One turn of the load loop: both ends, then the arc. */
  method AddSegment(graph: Graph, metric: Metric, n1: Node, n2: Node)
    modifies graph, graph.kdtree
    ensures Tables(graph.adjList, graph.revAdjList, graph.distances)
            == Segment(old(Tables(graph.adjList, graph.revAdjList, graph.distances)), n1, n2, Distance(metric, n1, n2))
    ensures graph.kdtree.root == KDTrees.InsertAt(KDTrees.InsertAt(old(graph.kdtree.root), PointOf(n1), 0), PointOf(n2), 0)
    ensures graph.locationMap == old(graph.locationMap)
    ensures old(graph.Valid()) ==> graph.Valid()
  {
    AddEnd(graph, n1);
    AddEnd(graph, n2);
    AddLink(graph, n1, n2, Distance(metric, n1, n2));
  }

  /** Adding one end of a segment: the node to both adjacencies, then its
      point to the tree. */
  method AddEnd(graph: Graph, n: Node)
    modifies graph, graph.kdtree
    ensures graph.adjList == WithNode(old(graph.adjList), n)
    ensures graph.revAdjList == WithNode(old(graph.revAdjList), n)
    ensures graph.distances == old(graph.distances)
    ensures graph.kdtree.root == KDTrees.InsertAt(old(graph.kdtree.root), PointOf(n), 0)
    ensures graph.locationMap == old(graph.locationMap)
    ensures old(graph.Valid()) ==> graph.Valid()
  {
    graph.AddNode(n);
    var k := new KDTrees.KDNode.FromNode(n);
    assert k.data == PointOf(n);
    ghost var r0 := graph.kdtree.root;
    graph.AddNode2KDTree(k);
    KDTrees.PlantLeafIsInsert(r0, PointOf(n), 0);
  }

  /** The second half of a turn: `addDirectedEdge(n1, n2, w)` unless `n2`
      already is a neighbour of `n1`, which has an entry. */
  method AddLink(graph: Graph, n1: Node, n2: Node, w: real)
    requires n1 in graph.adjList
    modifies graph
    ensures n2 in old(graph.adjList[n1]) ==>
      graph.adjList == old(graph.adjList) && graph.revAdjList == old(graph.revAdjList) && graph.distances == old(graph.distances)
    ensures n2 !in old(graph.adjList[n1]) ==>
      && graph.adjList == WithArc(old(graph.adjList), n1, n2)
      && graph.revAdjList == WithArc(old(graph.revAdjList), n2, n1)
      && graph.distances == WithWeight(old(graph.distances), (n1, n2), w)
    ensures graph.locationMap == old(graph.locationMap)
    ensures old(graph.Valid()) ==> graph.Valid()
  {
    var nbrs := graph.GetNeighbors(n1);
    if n2 !in nbrs.value {
      graph.AddDirectedEdge(n1, n2, w);
    }
  }

  /** One turn adds the arc `n1 -> n2` to the adjacency and no other edge. */
  lemma SegmentEdges(p: Tables, n1: Node, n2: Node, w: real)
    ensures forall u, v :: HasEdge(Segment(p, n1, n2, w).adj, u, v) <==> HasEdge(p.adj, u, v) || (u == n1 && v == n2)
  {
    WithNodeEdges(p.adj, n1);
    WithNodeEdges(WithNode(p.adj, n1), n2);
    WithNodeEdges(p.rev, n1);
    WithNodeEdges(WithNode(p.rev, n1), n2);
    var adj := WithNode(WithNode(p.adj, n1), n2);
    var rev := WithNode(WithNode(p.rev, n1), n2);
    WithArcEdges(adj, n1, n2);
    WithArcEdges(rev, n2, n1);
  }

  /** The edges after the loop are the old edges and the consecutive pairs
      (the reverse adjacency follows through `IngestedTransposed`). */
  lemma IngestedEdges(t: Tables, metric: Metric, coords: seq<(real, real)>, k: nat)
    ensures forall u, v :: HasEdge(Ingested(t, metric, coords, k).adj, u, v) <==> HasEdge(t.adj, u, v) || (u, v) in Pairs(coords, k)
  {
    var i := 0;
    while i < k
      invariant i <= k
      invariant forall u, v :: HasEdge(Ingested(t, metric, coords, i).adj, u, v) <==> HasEdge(t.adj, u, v) || (u, v) in Pairs(coords, i)
    {
      var n1, n2 := Coord(coords, i), Coord(coords, i + 1);
      SegmentEdges(Ingested(t, metric, coords, i), n1, n2, Distance(metric, n1, n2));
      i := i + 1;
    }
  }

  /** One turn adds both its nodes as keys of both adjacencies. */
  lemma SegmentNodes(p: Tables, n1: Node, n2: Node, w: real)
    ensures forall n :: n in Segment(p, n1, n2, w).adj <==> n in p.adj || n == n1 || n == n2
    ensures forall n :: n in Segment(p, n1, n2, w).rev <==> n in p.rev || n == n1 || n == n2
  {
  }

  /** A node is a key of either adjacency after the loop exactly when it was
      one before or is an endpoint of a pair. */
  lemma IngestedKeys(t: Tables, metric: Metric, coords: seq<(real, real)>, k: nat)
    ensures forall n :: n in Ingested(t, metric, coords, k).adj <==> n in t.adj || n in Ends(coords, k)
    ensures forall n :: n in Ingested(t, metric, coords, k).rev <==> n in t.rev || n in Ends(coords, k)
  {
    var i := 0;
    while i < k
      invariant i <= k
      invariant forall n :: n in Ingested(t, metric, coords, i).adj <==> n in t.adj || n in Ends(coords, i)
      invariant forall n :: n in Ingested(t, metric, coords, i).rev <==> n in t.rev || n in Ends(coords, i)
    {
      var n1, n2 := Coord(coords, i), Coord(coords, i + 1);
      SegmentNodes(Ingested(t, metric, coords, i), n1, n2, Distance(metric, n1, n2));
      i := i + 1;
    }
  }

  /** Both adjacencies gain exactly the endpoints of the pairs as keys. */
  lemma IngestedNodes(t: Tables, metric: Metric, coords: seq<(real, real)>, k: nat)
    ensures Ingested(t, metric, coords, k).adj.Keys == t.adj.Keys + Ends(coords, k)
    ensures Ingested(t, metric, coords, k).rev.Keys == t.rev.Keys + Ends(coords, k)
  {
    IngestedKeys(t, metric, coords, k);
  }

  /** One turn keeps every weight and adds at most the weight of its own
      pair. */
  lemma SegmentWeights(p: Tables, n1: Node, n2: Node, w: real)
    ensures p.dist.Keys <= Segment(p, n1, n2, w).dist.Keys
    ensures forall e | e in p.dist :: Segment(p, n1, n2, w).dist[e] == p.dist[e]
    ensures forall e | e in Segment(p, n1, n2, w).dist && e !in p.dist :: e == (n1, n2) && Segment(p, n1, n2, w).dist[e] == w
  {
  }

  /** A weight already present is kept, and every new weight belongs to a
      consecutive pair and is the distance between its nodes. */
  lemma IngestedWeights(t: Tables, metric: Metric, coords: seq<(real, real)>, k: nat)
    ensures t.dist.Keys <= Ingested(t, metric, coords, k).dist.Keys
    ensures forall e | e in t.dist :: Ingested(t, metric, coords, k).dist[e] == t.dist[e]
    ensures forall e | e in Ingested(t, metric, coords, k).dist && e !in t.dist ::
              e in Pairs(coords, k) && Ingested(t, metric, coords, k).dist[e] == Distance(metric, e.0, e.1)
  {
    var i := 0;
    while i < k
      invariant i <= k
      invariant t.dist.Keys <= Ingested(t, metric, coords, i).dist.Keys
      invariant forall e | e in t.dist :: Ingested(t, metric, coords, i).dist[e] == t.dist[e]
      invariant forall e | e in Ingested(t, metric, coords, i).dist && e !in t.dist ::
                  e in Pairs(coords, i) && Ingested(t, metric, coords, i).dist[e] == Distance(metric, e.0, e.1)
    {
      var n1, n2 := Coord(coords, i), Coord(coords, i + 1);
      SegmentWeights(Ingested(t, metric, coords, i), n1, n2, Distance(metric, n1, n2));
      i := i + 1;
    }
  }

  /** One turn keeps the transpose invariant and leaves its own pair
      weighted. */
  lemma SegmentTransposed(p: Tables, n1: Node, n2: Node, w: real)
    requires Transposed(p.adj, p.rev, p.dist)
    ensures Transposed(Segment(p, n1, n2, w).adj, Segment(p, n1, n2, w).rev, Segment(p, n1, n2, w).dist)
    ensures Segment(p, n1, n2, w).dist.Keys == p.dist.Keys + {(n1, n2)}
  {
    AddNodeTransposed(p.adj, p.rev, p.dist, n1);
    AddNodeTransposed(WithNode(p.adj, n1), WithNode(p.rev, n1), p.dist, n2);
    var adj := WithNode(WithNode(p.adj, n1), n2);
    var rev := WithNode(WithNode(p.rev, n1), n2);
    if n2 in adj[n1] {
      assert HasEdge(adj, n1, n2);
    } else {
      AddEdgeTransposed(adj, rev, p.dist, n1, n2, w);
    }
  }

  /** Every turn keeps the transpose invariant. */
  lemma IngestedTransposed(t: Tables, metric: Metric, coords: seq<(real, real)>, k: nat)
    requires Transposed(t.adj, t.rev, t.dist)
    ensures Transposed(Ingested(t, metric, coords, k).adj, Ingested(t, metric, coords, k).rev, Ingested(t, metric, coords, k).dist)
  {
    var i := 0;
    while i < k
      invariant i <= k
      invariant Transposed(Ingested(t, metric, coords, i).adj, Ingested(t, metric, coords, i).rev, Ingested(t, metric, coords, i).dist)
    {
      var n1, n2 := Coord(coords, i), Coord(coords, i + 1);
      SegmentTransposed(Ingested(t, metric, coords, i), n1, n2, Distance(metric, n1, n2));
      i := i + 1;
    }
  }

  /** Starting from tables with the transpose invariant, every consecutive
      pair ends up with a weight, and no other key gains one. */
  lemma IngestedWeighsPairs(t: Tables, metric: Metric, coords: seq<(real, real)>, k: nat)
    requires Transposed(t.adj, t.rev, t.dist)
    ensures Ingested(t, metric, coords, k).dist.Keys == t.dist.Keys + Pairs(coords, k)
  {
    var i := 0;
    while i < k
      invariant i <= k
      invariant Ingested(t, metric, coords, i).dist.Keys == t.dist.Keys + Pairs(coords, i)
    {
      var n1, n2 := Coord(coords, i), Coord(coords, i + 1);
      IngestedTransposed(t, metric, coords, i);
      SegmentTransposed(Ingested(t, metric, coords, i), n1, n2, Distance(metric, n1, n2));
      UnionStep(Ingested(t, metric, coords, i).dist.Keys, t.dist.Keys, Pairs(coords, i), (n1, n2));
      i := i + 1;
    }
  }

  /** Adding one element to both sides of `a == b + p`. */
  lemma UnionStep<T>(a: set<T>, b: set<T>, p: set<T>, x: T)
    requires a == b + p
    ensures a + {x} == b + (p + {x})
  {
  }

  /** The tree gains exactly the points of both ends of every pair, so every
      interior coordinate of the LineString is stored twice. */
  lemma PlantedPoints(root: KDTrees.Tree, coords: seq<(real, real)>, k: nat)
    ensures KDTrees.Points(Planted(root, coords, k)) == KDTrees.Points(root) + Visits(coords, k)
  {
    var i := 0;
    while i < k
      invariant i <= k
      invariant KDTrees.Points(Planted(root, coords, i)) == KDTrees.Points(root) + Visits(coords, i)
    {
      i := i + 1;
      PlantedStep(root, coords, i);
    }
  }

  /** One turn of the loop adds its two points to the tree. */
  lemma PlantedStep(root: KDTrees.Tree, coords: seq<(real, real)>, k: nat)
    requires k > 0
    ensures KDTrees.Points(Planted(root, coords, k))
            == KDTrees.Points(Planted(root, coords, k - 1)) + multiset{PointOf(Coord(coords, k - 1)), PointOf(Coord(coords, k))}
  {
  }

  /** An interior coordinate is visited by the turn that ends there and by
      the turn that starts there. */
  lemma {:induction false} InteriorTwice(coords: seq<(real, real)>, k: nat, i: nat)
    requires 0 < i < k
    ensures Visits(coords, k)[PointOf(Coord(coords, i))] >= 2
  {
    if i + 1 < k {
      InteriorTwice(coords, k - 1, i);
    } else {
      assert i == k - 1;
      var p := PointOf(Coord(coords, i));
      assert Visits(coords, k - 1)[p] >= 1 by {
        assert Visits(coords, k - 1) == Visits(coords, k - 2) + multiset{PointOf(Coord(coords, k - 2)), p};
      }
    }
  }
}
