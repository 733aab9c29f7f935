/** The 2-D KD-tree over (lng, lat) of src/KDTree.h and src/KDTree.cpp.

    The copies that `search` and `nearest` return share their `shared_ptr`
    child links with the tree, but nothing writes through them, and `insert`
    writes only into the null slot it reaches from the root. So a pointer and
    the nodes it reaches are modelled as one `Tree` value: `Null` is `nullptr`,
    `Cell(data, left, right)` a node. */
module KDTrees {
  import opened Base
  import opened Stream
  import Nodes

  /** `std::array<double, 2>`: `data[0]` is the longitude, `data[1]` the latitude. */
  datatype Point = Point(lng: real, lat: real) {
    function At(axis: nat): real
      requires axis < 2
    {
      if axis == 0 then lng else lat
    }
  }

  datatype Tree = Null | Cell(data: Point, left: Tree, right: Tree)

  function Points(t: Tree): multiset<Point> {
    match t
    case Null => multiset{}
    case Cell(d, l, r) => multiset{d} + Points(l) + Points(r)
  }

  /** `p` is the data of some node of `t`. */
  predicate Contains(t: Tree, p: Point) {
    t.Cell? && (t.data == p || Contains(t.left, p) || Contains(t.right, p))
  }

  lemma {:induction false} ContainsPoints(t: Tree, p: Point)
    ensures Contains(t, p) <==> p in Points(t)
  {
    if t.Cell? {
      ContainsPoints(t.left, p);
      ContainsPoints(t.right, p);
    }
  }

  lemma ContainsAllPoints(t: Tree)
    ensures forall p :: Contains(t, p) <==> p in Points(t)
  {
    forall p ensures Contains(t, p) <==> p in Points(t) {
      ContainsPoints(t, p);
    }
  }

  function Size(t: Tree): nat {
    match t
    case Null => 0
    case Cell(_, l, r) => 1 + Size(l) + Size(r)
  }

  /** The KD rule at depth `depth`, axis `depth % 2`: every point of a left
      subtree is strictly below its parent on that axis, every point of a right
      subtree at or above it. */
  ghost predicate KDRule(t: Tree, depth: nat) {
    match t
    case Null => true
    case Cell(d, l, r) =>
      var axis := depth % 2;
      && (forall p :: p in Points(l) ==> p.At(axis) < d.At(axis))
      && (forall p :: p in Points(r) ==> p.At(axis) >= d.At(axis))
      && KDRule(l, depth + 1)
      && KDRule(r, depth + 1)
  }

  /** The comparison lambda `cmp(node, *cur)` of every recursive routine. */
  predicate GoesLeft(q: Point, d: Point, depth: nat) {
    q.At(depth % 2) < d.At(depth % 2)
  }

  /** `insert_recursive`: descend until a null slot, store the point there. */
  function InsertAt(t: Tree, p: Point, depth: nat): (r: Tree)
    ensures r.Cell?
    ensures Points(r) == Points(t) + multiset{p}
    ensures Size(r) == Size(t) + 1
  {
    match t
    case Null => Cell(p, Null, Null)
    case Cell(d, l, rt) =>
      if GoesLeft(p, d, depth) then Cell(d, InsertAt(l, p, depth + 1), rt)
      else Cell(d, l, InsertAt(rt, p, depth + 1))
  }

  /** Adding a point on the correct side of a bound keeps every point there. */
  lemma AddKeepsBound(ps: multiset<Point>, p: Point, axis: nat, c: real, below: bool)
    requires axis < 2
    requires forall x :: x in ps ==> (if below then x.At(axis) < c else x.At(axis) >= c)
    requires if below then p.At(axis) < c else p.At(axis) >= c
    ensures forall x :: x in ps + multiset{p} ==> (if below then x.At(axis) < c else x.At(axis) >= c)
  {
    forall x | x in ps + multiset{p} ensures if below then x.At(axis) < c else x.At(axis) >= c {
      if x != p { assert x in ps; }
    }
  }

  /** A cell keeps the KD rule when a point is added below it on the correct side. */
  lemma GrowKeepsKDRule(d: Point, l: Tree, r: Tree, l': Tree, r': Tree, p: Point, depth: nat)
    requires KDRule(Cell(d, l, r), depth)
    requires if GoesLeft(p, d, depth) then r' == r && Points(l') == Points(l) + multiset{p} && KDRule(l', depth + 1)
             else l' == l && Points(r') == Points(r) + multiset{p} && KDRule(r', depth + 1)
    ensures KDRule(Cell(d, l', r'), depth)
  {
    var axis := depth % 2;
    if GoesLeft(p, d, depth) {
      AddKeepsBound(Points(l), p, axis, d.At(axis), true);
    } else {
      AddKeepsBound(Points(r), p, axis, d.At(axis), false);
    }
  }

  lemma {:induction false} InsertKeepsKDRule(t: Tree, p: Point, depth: nat)
    requires KDRule(t, depth)
    ensures KDRule(InsertAt(t, p, depth), depth)
  {
    match t
    case Null =>
    case Cell(d, l, r) =>
      if GoesLeft(p, d, depth) {
        InsertKeepsKDRule(l, p, depth + 1);
        GrowKeepsKDRule(d, l, r, InsertAt(l, p, depth + 1), r, p, depth);
      } else {
        InsertKeepsKDRule(r, p, depth + 1);
        GrowKeepsKDRule(d, l, r, l, InsertAt(r, p, depth + 1), p, depth);
      }
  }

  /** The subtree reached from the root by following `path` (`false` = left). */
  function Subtree(t: Tree, path: seq<bool>): Tree
    decreases |path|
  {
    if path == [] || t.Null? then t
    else Subtree(if path[0] then t.right else t.left, path[1..])
  }

  /** The slot `insert` writes to. */
  function InsertPath(t: Tree, p: Point, depth: nat): seq<bool> {
    match t
    case Null => []
    case Cell(d, l, r) =>
      if GoesLeft(p, d, depth) then [false] + InsertPath(l, p, depth + 1)
      else [true] + InsertPath(r, p, depth + 1)
  }

  /** `insert` writes into a slot that was null, and puts a childless node there. */
  lemma {:induction false} InsertFillsNullSlot(t: Tree, p: Point, depth: nat)
    ensures Subtree(t, InsertPath(t, p, depth)) == Null
    ensures Subtree(InsertAt(t, p, depth), InsertPath(t, p, depth)) == Cell(p, Null, Null)
  {
    match t
    case Null =>
    case Cell(d, l, r) =>
      var path := InsertPath(t, p, depth);
      if GoesLeft(p, d, depth) {
        InsertFillsNullSlot(l, p, depth + 1);
        assert path[1..] == InsertPath(l, p, depth + 1);
      } else {
        InsertFillsNullSlot(r, p, depth + 1);
        assert path[1..] == InsertPath(r, p, depth + 1);
      }
  }

  /** `insert_recursive` with the whole `KDNode` (`data`, `left`, `right`): the
      descent follows the node's point, and the null slot receives a copy of the
      node, child links included. */
  function PlantAt(t: Tree, d: Point, l: Tree, r: Tree, depth: nat): (res: Tree)
    ensures res.Cell?
    ensures Size(res) == Size(t) + 1 + Size(l) + Size(r)
  {
    match t
    case Null => Cell(d, l, r)
    case Cell(e, tl, tr) =>
      if GoesLeft(d, e, depth) then Cell(e, PlantAt(tl, d, l, r, depth + 1), tr)
      else Cell(e, tl, PlantAt(tr, d, l, r, depth + 1))
  }

  /** The tree gains the planted node's point and every point below it. */
  lemma {:induction false} PlantPoints(t: Tree, d: Point, l: Tree, r: Tree, depth: nat)
    ensures Points(PlantAt(t, d, l, r, depth)) == Points(t) + Points(Cell(d, l, r))
  {
    match t
    case Null =>
    case Cell(e, tl, tr) =>
      var c := Points(Cell(d, l, r));
      if GoesLeft(d, e, depth) {
        PlantPoints(tl, d, l, r, depth + 1);
        RegroupPoints(multiset{e}, Points(tl), Points(tr), c);
      } else {
        PlantPoints(tr, d, l, r, depth + 1);
      }
  }

  /** Moving one summand of a multiset sum to the end. */
  lemma RegroupPoints(a: multiset<Point>, b: multiset<Point>, c: multiset<Point>, x: multiset<Point>)
    ensures a + (b + x) + c == a + b + c + x
  {
  }

  /** The slot the node is planted in is the one `insert` of its point fills,
      and it then holds the node with its own children. */
  lemma {:induction false} PlantFillsNullSlot(t: Tree, d: Point, l: Tree, r: Tree, depth: nat)
    ensures Subtree(PlantAt(t, d, l, r, depth), InsertPath(t, d, depth)) == Cell(d, l, r)
  {
    match t
    case Null =>
    case Cell(e, tl, tr) =>
      var path := InsertPath(t, d, depth);
      if GoesLeft(d, e, depth) {
        PlantFillsNullSlot(tl, d, l, r, depth + 1);
        assert path[1..] == InsertPath(tl, d, depth + 1);
      } else {
        PlantFillsNullSlot(tr, d, l, r, depth + 1);
        assert path[1..] == InsertPath(tr, d, depth + 1);
      }
  }

  /** Planting a childless node is inserting its point. */
  lemma {:induction false} PlantLeafIsInsert(t: Tree, p: Point, depth: nat)
    ensures PlantAt(t, p, Null, Null, depth) == InsertAt(t, p, depth)
  {
    match t
    case Null =>
    case Cell(e, tl, tr) =>
      if GoesLeft(p, e, depth) {
        PlantLeafIsInsert(tl, p, depth + 1);
      } else {
        PlantLeafIsInsert(tr, p, depth + 1);
      }
  }

  /** Every node that existed before `insert` keeps its data and its position. */
  lemma {:induction false} InsertKeepsNodes(t: Tree, p: Point, depth: nat, path: seq<bool>)
    requires Subtree(t, path).Cell?
    ensures Subtree(InsertAt(t, p, depth), path).Cell?
    ensures Subtree(InsertAt(t, p, depth), path).data == Subtree(t, path).data
    decreases |path|
  {
    if path != [] {
      var ins := InsertAt(t, p, depth);
      if path[0] {
        InsertKeepsNodes(t.right, p, depth + 1, path[1..]);
        if GoesLeft(p, t.data, depth) {
          assert ins.right == t.right;
        }
      } else {
        InsertKeepsNodes(t.left, p, depth + 1, path[1..]);
        if !GoesLeft(p, t.data, depth) {
          assert ins.left == t.left;
        }
      }
    }
  }

  /** `search_recursive`: `None` stands for the default-constructed `KDNode`
      the source returns when it reaches a null slot; a hit is a copy of the
      stored node, whose data equals the query (`KDNode::operator==` compares
      `data` only). */
  function SearchAt(t: Tree, q: Point, depth: nat): (r: Option<Point>)
    ensures r.Some? ==> r.value == q && q in Points(t)
  {
    match t
    case Null => None
    case Cell(d, l, rt) =>
      if d == q then Some(d)
      else if GoesLeft(q, d, depth) then SearchAt(l, q, depth + 1)
      else SearchAt(rt, q, depth + 1)
  }

  /** In a tree that keeps the KD rule, `search` finds every stored point. */
  lemma {:induction false} SearchComplete(t: Tree, q: Point, depth: nat)
    requires KDRule(t, depth)
    requires q in Points(t)
    ensures SearchAt(t, q, depth) == Some(q)
  {
    match t
    case Cell(d, l, r) =>
      if d != q {
        if GoesLeft(q, d, depth) {
          assert q !in Points(r);
          SearchComplete(l, q, depth + 1);
        } else {
          assert q !in Points(l);
          SearchComplete(r, q, depth + 1);
        }
      }
  }

  /** `distance(const KDNode &, const KDNode &)`. */
  function Dist(metric: Nodes.Metric, a: Point, b: Point): (r: real)
    ensures r >= 0.0
  {
    metric(a.lng, a.lat, b.lng, b.lat)
  }

  function Abs(x: real): (r: real)
    ensures r >= 0.0 && (r == x || r == -x)
  {
    if x < 0.0 then -x else x
  }

  /** The by-reference accumulators `nn` and `nn_dis` of
      `nearest_neighbor_recursive`; `Unset` is the default `KDNode` with
      `nn_dis` still at `+infinity`. */
  datatype Best = Unset | Best(nn: Point, dis: real)

  /** `nearest_neighbor_recursive`: the near side first, then the node
      itself, then the far side if `nn_dis > |cur.data[axis] - nn.data[axis]|`. */
  function NearestAt(metric: Nodes.Metric, t: Tree, q: Point, depth: nat, best: Best): Best {
    match t
    case Null => best
    case Cell(d, l, r) =>
      var axis := depth % 2;
      var next := if GoesLeft(q, d, depth) then l else r;
      var other := if GoesLeft(q, d, depth) then r else l;
      var b1 := NearestAt(metric, next, q, depth + 1, best);
      var tDis := Dist(metric, q, d);
      var b2 := if b1.Unset? || tDis < b1.dis then Best(d, tDis) else b1;
      if b2.dis > Abs(d.At(axis) - b2.nn.At(axis)) then NearestAt(metric, other, q, depth + 1, b2)
      else b2
  }

  /** The nodes whose side the query point falls on, root to leaf. */
  function Descent(t: Tree, q: Point, depth: nat): seq<Point> {
    match t
    case Null => []
    case Cell(d, l, r) =>
      [d] + Descent(if GoesLeft(q, d, depth) then l else r, q, depth + 1)
  }

  /** The accumulator only improves, and a non-empty subtree always sets it. */
  lemma {:induction false} NearestImproves(metric: Nodes.Metric, t: Tree, q: Point, depth: nat, best: Best)
    ensures best.Best? ==> NearestAt(metric, t, q, depth, best).Best?
    ensures best.Best? ==> NearestAt(metric, t, q, depth, best).dis <= best.dis
    ensures t.Cell? ==> NearestAt(metric, t, q, depth, best).Best?
  {
    match t
    case Null =>
    case Cell(d, l, rt) =>
      var next := if GoesLeft(q, d, depth) then l else rt;
      var other := if GoesLeft(q, d, depth) then rt else l;
      NearestImproves(metric, next, q, depth + 1, best);
      var b1 := NearestAt(metric, next, q, depth + 1, best);
      var tDis := Dist(metric, q, d);
      var b2 := if b1.Unset? || tDis < b1.dis then Best(d, tDis) else b1;
      NearestImproves(metric, other, q, depth + 1, b2);
  }

  /** What the accumulator ends with is what it started with, or a stored point
      at its true distance from the query. */
  lemma {:induction false} NearestIsStored(metric: Nodes.Metric, t: Tree, q: Point, depth: nat, best: Best)
    ensures var r := NearestAt(metric, t, q, depth, best);
      r == best || (r.Best? && Contains(t, r.nn) && r.dis == Dist(metric, q, r.nn))
  {
    match t
    case Null =>
    case Cell(d, l, rt) =>
      var next := if GoesLeft(q, d, depth) then l else rt;
      var other := if GoesLeft(q, d, depth) then rt else l;
      NearestIsStored(metric, next, q, depth + 1, best);
      var b1 := NearestAt(metric, next, q, depth + 1, best);
      var tDis := Dist(metric, q, d);
      var b2 := if b1.Unset? || tDis < b1.dis then Best(d, tDis) else b1;
      NearestIsStored(metric, other, q, depth + 1, b2);
  }

  /** The answer is at least as close as every node on the query's descent,
      all of which are visited. */
  lemma {:induction false} NearestBeatsDescent(metric: Nodes.Metric, t: Tree, q: Point, depth: nat, best: Best, p: Point)
    requires p in Descent(t, q, depth)
    ensures NearestAt(metric, t, q, depth, best).Best?
    ensures NearestAt(metric, t, q, depth, best).dis <= Dist(metric, q, p)
  {
    match t
    case Cell(d, l, rt) =>
      var next := if GoesLeft(q, d, depth) then l else rt;
      var other := if GoesLeft(q, d, depth) then rt else l;
      var b1 := NearestAt(metric, next, q, depth + 1, best);
      var tDis := Dist(metric, q, d);
      var b2 := if b1.Unset? || tDis < b1.dis then Best(d, tDis) else b1;
      NearestImproves(metric, other, q, depth + 1, b2);
      assert Descent(t, q, depth) == [d] + Descent(next, q, depth + 1);
      if p != d {
        NearestBeatsDescent(metric, next, q, depth + 1, best, p);
      }
  }

  /** `serialize_recursive`: pre-order, a null flag per slot, then the two
      coordinates of a node. */
  function SerializeTree(t: Tree): (s: seq<Item>)
  {
    match t
    case Null => [Flag(true)]
    case Cell(d, l, r) => [Flag(false), F64(d.lng), F64(d.lat)] + SerializeTree(l) + SerializeTree(r)
  }

  /** An n-node tree takes 4n + 1 items: three per node, one per null slot. */
  lemma {:induction false} SerializeTreeLength(t: Tree)
    ensures |SerializeTree(t)| == 4 * Size(t) + 1
  {
    match t
    case Null =>
    case Cell(_, l, r) =>
      SerializeTreeLength(l);
      SerializeTreeLength(r);
  }

  /** Number of `double`s in a stream. */
  function Words(s: seq<Item>): nat {
    if s == [] then 0 else (if s[0].F64? then 1 else 0) + Words(s[1..])
  }

  lemma {:induction false} WordsAppend(a: seq<Item>, b: seq<Item>)
    ensures Words(a + b) == Words(a) + Words(b)
  {
    if a == [] {
      assert a + b == b;
    } else {
      assert (a + b)[1..] == a[1..] + b;
      WordsAppend(a[1..], b);
    }
  }

  /** An n-node tree is written with n `false` flags and n + 1 `true` flags. */
  lemma {:induction false} SerializeTreeFlags(t: Tree)
    ensures multiset(SerializeTree(t))[Flag(false)] == Size(t)
    ensures multiset(SerializeTree(t))[Flag(true)] == Size(t) + 1
  {
    match t
    case Null =>
    case Cell(d, l, r) =>
      SerializeTreeFlags(l);
      SerializeTreeFlags(r);
      var head := [Flag(false), F64(d.lng), F64(d.lat)];
      assert SerializeTree(t) == head + SerializeTree(l) + SerializeTree(r);
      assert multiset(SerializeTree(t)) == multiset(head) + multiset(SerializeTree(l)) + multiset(SerializeTree(r));
      assert multiset(head) == multiset{Flag(false), F64(d.lng), F64(d.lat)};
      assert multiset(head)[Flag(false)] == 1 && multiset(head)[Flag(true)] == 0;
  }

  /** ... and 2n doubles. */
  lemma {:induction false} SerializeTreeWords(t: Tree)
    ensures Words(SerializeTree(t)) == 2 * Size(t)
  {
    match t
    case Null =>
      assert Words([Flag(true)]) == 0 by { assert [Flag(true)][1..] == []; }
    case Cell(d, l, r) =>
      SerializeTreeWords(l);
      SerializeTreeWords(r);
      var head := [Flag(false), F64(d.lng), F64(d.lat)];
      assert Words(head) == 2 by {
        assert head[1..] == [F64(d.lng), F64(d.lat)] && head[1..][1..] == [F64(d.lat)];
        assert Words([F64(d.lat)]) == 1 by { assert [F64(d.lat)][1..] == []; }
      }
      assert SerializeTree(t) == head + SerializeTree(l) + SerializeTree(r);
      WordsAppend(head, SerializeTree(l));
      WordsAppend(head + SerializeTree(l), SerializeTree(r));
  }

  /** ... which is 18n + 1 bytes on the stream. */
  lemma {:induction false} SerializeTreeBytes(t: Tree)
    ensures ByteSize(SerializeTree(t)) == 18 * Size(t) + 1
  {
    match t
    case Null =>
      assert ByteSize([Flag(true)]) == 1 by { assert [Flag(true)][1..] == []; }
    case Cell(d, l, r) =>
      SerializeTreeBytes(l);
      SerializeTreeBytes(r);
      var head := [Flag(false), F64(d.lng), F64(d.lat)];
      assert ByteSize(head) == 17 by {
        assert head[1..] == [F64(d.lng), F64(d.lat)] && head[1..][1..] == [F64(d.lat)];
        assert ByteSize([F64(d.lat)]) == 8 by { assert [F64(d.lat)][1..] == []; }
      }
      assert SerializeTree(t) == head + SerializeTree(l) + SerializeTree(r);
      ByteSizeAppend(head, SerializeTree(l));
      ByteSizeAppend(head + SerializeTree(l), SerializeTree(r));
  }

  /** `deserialize_recursive`: the tree and the items after it. The source
      never checks its reads; the model answers `None` where the stream ends
      early or holds an item of another kind. */
  function DeserializeTree(s: seq<Item>): (r: Option<(Tree, seq<Item>)>)
    ensures r.Some? ==> |r.value.1| < |s|
    decreases |s|
  {
    match ReadFlag(s)
    case None => None
    case Some((isNull, s1)) =>
      if isNull then Some((Null, s1))
      else
        match ReadF64(s1)
        case None => None
        case Some((lng, s2)) =>
          match ReadF64(s2)
          case None => None
          case Some((lat, s3)) =>
            match DeserializeTree(s3)
            case None => None
            case Some((l, s4)) =>
              match DeserializeTree(s4)
              case None => None
              case Some((r, s5)) => Some((Cell(Point(lng, lat), l, r), s5))
  }

  /** `deserialize(serialize(t))` rebuilds a tree of identical shape and data
      and leaves the items after it. */
  lemma {:induction false} DeserializeSerializeTree(t: Tree, rest: seq<Item>)
    ensures DeserializeTree(SerializeTree(t) + rest) == Some((t, rest))
  {
    match t
    case Null =>
      ReadWritten(Flag(true), rest);
    case Cell(d, l, r) =>
      var tail := SerializeTree(r) + rest;
      var s3 := SerializeTree(l) + tail;
      assert SerializeTree(t) + rest == [Flag(false)] + ([F64(d.lng)] + ([F64(d.lat)] + s3));
      ReadWritten(Flag(false), [F64(d.lng)] + ([F64(d.lat)] + s3));
      ReadWritten(F64(d.lng), [F64(d.lat)] + s3);
      ReadWritten(F64(d.lat), s3);
      DeserializeSerializeTree(l, tail);
      DeserializeSerializeTree(r, rest);
  }

  /** `KDNode`: a point and two owned child links. Its default constructor
      leaves `data` indeterminate. */
  class KDNode {
    var data: Point
    var left: Tree
    var right: Tree

    /** `KDNode()`: both children null; `data` is not initialised. */
    constructor ()
      ensures left == Null && right == Null
    {
      left, right := Null, Null;
    }

    /** `KDNode(const std::array<double, 2> &)`. */
    constructor FromArray(d: Point)
      ensures data == d && left == Null && right == Null
    {
      data, left, right := d, Null, Null;
    }

    /** `KDNode(const Node &)`: longitude into `data[0]`, latitude into `data[1]`. */
    constructor FromNode(n: Nodes.Node)
      ensures data.At(0) == n.GetLng() && data.At(1) == n.GetLat()
      ensures left == Null && right == Null
    {
      data, left, right := Point(n.GetLng(), n.GetLat()), Null, Null;
    }

    /** `KDNode::swap`: exchanges data and both child links with `other`. */
    method Swap(other: KDNode)
      modifies this, other
      ensures data == old(other.data) && left == old(other.left) && right == old(other.right)
      ensures other.data == old(data) && other.left == old(left) && other.right == old(right)
    {
      var d, l, r := data, left, right;
      data, left, right := other.data, other.left, other.right;
      other.data, other.left, other.right := d, l, r;
    }
  }

  /** Swapping twice restores both nodes. */
  method SwapTwice(a: KDNode, b: KDNode)
    modifies a, b
    ensures a.data == old(a.data) && a.left == old(a.left) && a.right == old(a.right)
    ensures b.data == old(b.data) && b.left == old(b.left) && b.right == old(b.right)
  {
    a.Swap(b);
    a.Swap(b);
  }

  /** `KDTree`: the owner of the root link. */
  class KDTree {
    var root: Tree

    /** `KDTree()`: an empty tree. */
    constructor ()
      ensures root == Null
    {
      root := Null;
    }

    /** `insert`: `insert_recursive(root, node, 0)`, which stores a copy of
        the whole node. */
    method Insert(node: KDNode)
      modifies this
      ensures root == PlantAt(old(root), node.data, node.left, node.right, 0)
    {
      root := PlantAt(root, node.data, node.left, node.right, 0);
    }

    /** `search`. */
    function Search(q: Point): Option<Point>
      reads this
    {
      SearchAt(root, q, 0)
    }

    /** `nearest_neighbor`: starts with `nn_dis = +infinity` and a default `nn`;
        `None` is that default node, returned for an empty tree. */
    function NearestNeighbor(metric: Nodes.Metric, q: Point): (r: Option<Point>)
      reads this
      ensures root == Null <==> r == None
      ensures r.Some? ==> r.value in Points(root)
      ensures r.Some? ==> forall p :: p in Descent(root, q, 0) ==> Dist(metric, q, r.value) <= Dist(metric, q, p)
    {
      NearestImproves(metric, root, q, 0, Unset);
      NearestIsStored(metric, root, q, 0, Unset);
      ContainsAllPoints(root);
      forall p | p in Descent(root, q, 0)
        ensures NearestAt(metric, root, q, 0, Unset).dis <= Dist(metric, q, p)
      {
        NearestBeatsDescent(metric, root, q, 0, Unset, p);
      }
      match NearestAt(metric, root, q, 0, Unset)
      case Unset => None
      case Best(nn, _) => Some(nn)
    }

    /** `serialize`. */
    function Serialize(): seq<Item>
      reads this
    {
      SerializeTree(root)
    }

    /** `deserialize`: overwrites the root with the tree read from `s` and
        answers the items after it; `None` on a stream the model cannot read
        (the root is then left null). */
    method Deserialize(s: seq<Item>) returns (next: Option<seq<Item>>)
      modifies this
      ensures match DeserializeTree(s)
        case Some((t, rest)) => root == t && next == Some(rest)
        case None => root == Null && next == None
    {
      match DeserializeTree(s)
      case Some((t, rest)) =>
        root, next := t, Some(rest);
      case None =>
        root, next := Null, None;
    }
  }
}
