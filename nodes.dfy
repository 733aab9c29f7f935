/** Graph vertices (`Node`, src/Node.h and src/Node.cpp): a (longitude,
    latitude) pair of doubles, its `std::tie` order, its equality, the
    distance delegation and its 16-byte binary form. */
module Nodes {
  import opened Base
  import opened Stream
  import opened Ordering

  datatype Node = Node(lng: real, lat: real) {

    function GetLng(): real {
      lng
    }

    function GetLat(): real {
      lat
    }
  }

  /** `Node(const std::pair<double, double> &)`: `first` is the longitude. */
  function FromPair(coord: (real, real)): (n: Node)
    ensures n.GetLng() == coord.0 && n.GetLat() == coord.1
  {
    Node(coord.0, coord.1)
  }

  /** `Node::operator<`: `std::tie(lng, lat) < std::tie(other.lng, other.lat)`. */
  predicate Less(a: Node, b: Node) {
    a.lng < b.lng || (!(b.lng < a.lng) && a.lat < b.lat)
  }

  /** `operator==(const Node &, const Node &)`. */
  predicate Eq(a: Node, b: Node) {
    a.lat == b.lat && a.lng == b.lng
  }

  /** The tuple comparison is the lexicographic order on (lng, lat). */
  lemma LessIsLexicographic(a: Node, b: Node)
    ensures Less(a, b) <==> a.lng < b.lng || (a.lng == b.lng && a.lat < b.lat)
  {
  }

  /** `<` is a strict total order on nodes. */
  lemma LessStrictTotal()
    ensures StrictTotal(Less)
  {
    forall x: Node, y: Node, z: Node | Less(x, y) && Less(y, z) ensures Less(x, z) {
    }
    forall x: Node, y: Node | x != y ensures Less(x, y) || Less(y, x) {
    }
  }

  /** Neither-less-than is exactly `operator==`, which is exactly equality of
      the coordinate pair, so map keys deduplicate on (lng, lat). */
  lemma EqIsIncomparable(a: Node, b: Node)
    ensures Eq(a, b) <==> !Less(a, b) && !Less(b, a)
    ensures Eq(a, b) <==> a == b
  {
  }

  lemma EqReflexiveSymmetric(a: Node, b: Node)
    ensures Eq(a, a)
    ensures Eq(a, b) ==> Eq(b, a)
  {
  }

  /** The haversine `calculate_distance(lng1, lat1, lng2, lat2)` of
      src/Node.cpp is not modelled: it is any non-negative function. */
  type Metric = m: (real, real, real, real) -> real
    | forall lng1, lat1, lng2, lat2 :: m(lng1, lat1, lng2, lat2) >= 0.0
    witness (lng1: real, lat1: real, lng2: real, lat2: real) => 0.0

  /** `calculate_distance(const Node &, const Node &)` delegates to the scalar
      version with longitude before latitude. */
  function Distance(metric: Metric, n1: Node, n2: Node): (r: real)
    ensures r == metric(n1.lng, n1.lat, n2.lng, n2.lat)
    ensures r >= 0.0
  {
    metric(n1.lng, n1.lat, n2.lng, n2.lat)
  }

  /** `Node::serialize`: the longitude, then the latitude. */
  function Serialize(n: Node): (s: seq<Item>)
    ensures |s| == 2
  {
    [F64(n.lng), F64(n.lat)]
  }

  /** A node takes two 8-byte words. */
  lemma SerializeBytes(n: Node)
    ensures ByteSize(Serialize(n)) == 16
  {
    var s := Serialize(n);
    assert ByteSize(s[1..]) == 8 by { assert s[1..][1..] == []; }
  }

  /** `Node::deserialize`: reads the two fields in the same order; answers the
      node and the items after it. */
  function Deserialize(s: seq<Item>): (r: Option<(Node, seq<Item>)>)
    ensures r.Some? ==> |s| >= 2 && r.value.1 == s[2..]
  {
    match ReadF64(s)
    case None => None
    case Some((lng, s1)) =>
      match ReadF64(s1)
      case None => None
      case Some((lat, s2)) => Some((Node(lng, lat), s2))
  }

  /** Decoding an encoded node gives the same node and leaves what follows. */
  lemma DeserializeSerialize(n: Node, rest: seq<Item>)
    ensures Deserialize(Serialize(n) + rest) == Some((n, rest))
  {
    var s := Serialize(n) + rest;
    assert s == [F64(n.lng)] + ([F64(n.lat)] + rest);
    ReadWritten(F64(n.lng), [F64(n.lat)] + rest);
    ReadWritten(F64(n.lat), rest);
  }

  /** Encodings of a node sequence, one after the other (the neighbour lists). */
  function SerializeAll(ns: seq<Node>): (s: seq<Item>)
    ensures |s| == 2 * |ns|
  {
    if ns == [] then [] else Serialize(ns[0]) + SerializeAll(ns[1..])
  }

  lemma {:induction false} SerializeAllAppend(a: seq<Node>, n: Node)
    ensures SerializeAll(a + [n]) == SerializeAll(a) + Serialize(n)
  {
    if a == [] {
      assert a + [n] == [n];
    } else {
      assert (a + [n])[1..] == a[1..] + [n];
      SerializeAllAppend(a[1..], n);
    }
  }

  /** A node set in `std::set<Node>` iteration order. */
  ghost function Sorted(s: set<Node>): (e: seq<Node>)
  {
    LessStrictTotal();
    Enumerate(Less, s)
  }

  lemma SortedSpec(s: set<Node>)
    ensures |Sorted(s)| == |s|
    ensures forall x :: x in Sorted(s) <==> x in s
    ensures StrictlySorted(Less, Sorted(s))
  {
    LessStrictTotal();
    EnumerateSpec(Less, s);
  }

  lemma SortedUnfold(s: set<Node>, k: Node)
    requires IsLeast(Less, k, s)
    ensures Sorted(s) == [k] + Sorted(s - {k})
  {
    LessStrictTotal();
    EnumerateUnfold(Less, s, k);
  }

  /** The next node a `std::set<Node>` or `std::map<Node, _>` iteration visits. */
  method LeastNode(s: set<Node>) returns (k: Node)
    requires s != {}
    ensures k in s
    ensures Sorted(s) == [k] + Sorted(s - {k})
  {
    LessStrictTotal();
    k := Least(Less, s);
  }
}
