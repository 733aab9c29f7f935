/** The binary layout of a saved graph (`Graph<T>::serialize` and
    `Graph<T>::deserialize`, src/Graph.h): four count-prefixed sections in
    key order, then the KD-tree dump.

    The reverse adjacency comes first, then the forward adjacency; an entry is
    a node, its neighbour count and its neighbours. A weight entry is two
    nodes and a `double`; a name entry is a length, the name's bytes and two
    `double`s. The decoders follow the source's loops: an adjacency entry is
    created only when one of its neighbours is read, and a later entry with
    the same key merges into (adjacency) or overwrites (weights, names) the
    earlier one. */
module GraphCodec {
  import opened Base
  import opened Stream
  import opened Ordering
  import opened Nodes
  import KDTrees

  type Adjacency = map<Node, set<Node>>
  type Weights = map<(Node, Node), real>
  type Locations = map<string, (real, real)>

  /** The four tables and the tree of a graph. */
  datatype Snapshot = Snapshot(rev: Adjacency, adj: Adjacency, dist: Weights, loc: Locations, tree: KDTrees.Tree)

  /** `std::pair<Node, Node>::operator<`: by source node, then by target. */
  predicate EdgeLess(a: (Node, Node), b: (Node, Node)) {
    Less(a.0, b.0) || (!Less(b.0, a.0) && Less(a.1, b.1))
  }

  lemma EdgeLessStrictTotal()
    ensures StrictTotal(EdgeLess)
  {
    forall x: (Node, Node), y: (Node, Node), z: (Node, Node) | EdgeLess(x, y) && EdgeLess(y, z)
      ensures EdgeLess(x, z)
    {
    }
    forall x: (Node, Node), y: (Node, Node) | x != y ensures EdgeLess(x, y) || EdgeLess(y, x) {
    }
  }

  /** `std::string::operator<`: lexicographic on characters, a proper prefix first. */
  predicate StrLess(a: string, b: string) {
    if a == [] then b != []
    else b != [] && (a[0] < b[0] || (a[0] == b[0] && StrLess(a[1..], b[1..])))
  }

  lemma {:induction false} StrLessIrreflexive(a: string)
    ensures !StrLess(a, a)
  {
    if a != [] {
      StrLessIrreflexive(a[1..]);
    }
  }

  lemma {:induction false} StrLessTransitive(a: string, b: string, c: string)
    requires StrLess(a, b) && StrLess(b, c)
    ensures StrLess(a, c)
  {
    if a != [] && a[0] == b[0] && b[0] == c[0] {
      StrLessTransitive(a[1..], b[1..], c[1..]);
    }
  }

  lemma {:induction false} StrLessConnected(a: string, b: string)
    requires a != b
    ensures StrLess(a, b) || StrLess(b, a)
  {
    if a != [] && b != [] && a[0] == b[0] {
      assert a == [a[0]] + a[1..] && b == [b[0]] + b[1..];
      StrLessConnected(a[1..], b[1..]);
    }
  }

  lemma StrLessStrictTotal()
    ensures StrictTotal(StrLess)
  {
    forall x: string ensures !StrLess(x, x) {
      StrLessIrreflexive(x);
    }
    forall x: string, y: string, z: string | StrLess(x, y) && StrLess(y, z) ensures StrLess(x, z) {
      StrLessTransitive(x, y, z);
    }
    forall x: string, y: string | x != y ensures StrLess(x, y) || StrLess(y, x) {
      StrLessConnected(x, y);
    }
  }

  /** The keys of the weight table in iteration order. */
  ghost function SortedEdges(s: set<(Node, Node)>): seq<(Node, Node)> {
    EdgeLessStrictTotal();
    Enumerate(EdgeLess, s)
  }

  /** The keys of the name table in iteration order. */
  ghost function SortedNames(s: set<string>): seq<string> {
    StrLessStrictTotal();
    Enumerate(StrLess, s)
  }

  lemma SortedEdgesSpec(s: set<(Node, Node)>)
    ensures |SortedEdges(s)| == |s|
    ensures forall x :: x in SortedEdges(s) <==> x in s
  {
    EdgeLessStrictTotal();
    EnumerateSpec(EdgeLess, s);
  }

  lemma SortedNamesSpec(s: set<string>)
    ensures |SortedNames(s)| == |s|
    ensures forall x :: x in SortedNames(s) <==> x in s
  {
    StrLessStrictTotal();
    EnumerateSpec(StrLess, s);
  }

  /** The next edge the iteration over the weight table visits. */
  method LeastEdge(s: set<(Node, Node)>) returns (k: (Node, Node))
    requires s != {}
    ensures k in s
    ensures SortedEdges(s) == [k] + SortedEdges(s - {k})
  {
    EdgeLessStrictTotal();
    k := Least(EdgeLess, s);
  }

  /** The next name the iteration over the name table visits. */
  method LeastName(s: set<string>) returns (k: string)
    requires s != {}
    ensures k in s
    ensures SortedNames(s) == [k] + SortedNames(s - {k})
  {
    StrLessStrictTotal();
    k := Least(StrLess, s);
  }

  /** `adjList[node]` through `operator[]`: an absent key reads as an empty set. */
  function Neighbours(m: Adjacency, n: Node): (r: set<Node>)
    ensures n in m ==> r == m[n]
    ensures n !in m ==> r == {}
  {
    if n in m then m[n] else {}
  }

  // ---------------------------------------------------------------- encoders

  /** One adjacency entry: the node, the neighbour count, the neighbours in order. */
  ghost function EncodeEntry(n: Node, nbrs: set<Node>): seq<Item> {
    Serialize(n) + [U64(|nbrs|)] + SerializeAll(Sorted(nbrs))
  }

  ghost function EncodeEntries(m: Adjacency, keys: seq<Node>): seq<Item>
    requires forall k | k in keys :: k in m
  {
    if keys == [] then [] else EncodeEntry(keys[0], m[keys[0]]) + EncodeEntries(m, keys[1..])
  }

  ghost function EncodeAdjacency(m: Adjacency): seq<Item> {
    SortedSpec(m.Keys);
    [U64(|m|)] + EncodeEntries(m, Sorted(m.Keys))
  }

  /** One weight entry: source, target, weight. */
  function EncodeWeight(e: (Node, Node), w: real): seq<Item> {
    Serialize(e.0) + Serialize(e.1) + [F64(w)]
  }

  ghost function EncodeWeightEntries(d: Weights, keys: seq<(Node, Node)>): seq<Item>
    requires forall k | k in keys :: k in d
  {
    if keys == [] then [] else EncodeWeight(keys[0], d[keys[0]]) + EncodeWeightEntries(d, keys[1..])
  }

  ghost function EncodeWeights(d: Weights): seq<Item> {
    SortedEdgesSpec(d.Keys);
    [U64(|d|)] + EncodeWeightEntries(d, SortedEdges(d.Keys))
  }

  /** One name entry: the length, the bytes, longitude, latitude. */
  function EncodeLocation(name: string, c: (real, real)): seq<Item> {
    [U64(|name|)] + WriteBytes(name) + [F64(c.0), F64(c.1)]
  }

  ghost function EncodeLocationEntries(l: Locations, keys: seq<string>): seq<Item>
    requires forall k | k in keys :: k in l
  {
    if keys == [] then [] else EncodeLocation(keys[0], l[keys[0]]) + EncodeLocationEntries(l, keys[1..])
  }

  ghost function EncodeLocations(l: Locations): seq<Item> {
    SortedNamesSpec(l.Keys);
    [U64(|l|)] + EncodeLocationEntries(l, SortedNames(l.Keys))
  }

  /** The whole file `serialize` writes. */
  ghost function EncodeGraph(g: Snapshot): seq<Item> {
    EncodeAdjacency(g.rev) + EncodeAdjacency(g.adj) + EncodeWeights(g.dist)
      + EncodeLocations(g.loc) + KDTrees.SerializeTree(g.tree)
  }

  /** Writing one more entry after the entries of `keys`. */
  lemma {:induction false} EncodeEntriesAppend(m: Adjacency, keys: seq<Node>, k: Node)
    requires forall j | j in keys :: j in m
    requires k in m
    ensures EncodeEntries(m, keys + [k]) == EncodeEntries(m, keys) + EncodeEntry(k, m[k])
  {
    if keys == [] {
      assert keys + [k] == [k];
    } else {
      assert (keys + [k])[1..] == keys[1..] + [k];
      EncodeEntriesAppend(m, keys[1..], k);
    }
  }

  lemma {:induction false} EncodeWeightEntriesAppend(d: Weights, keys: seq<(Node, Node)>, k: (Node, Node))
    requires forall j | j in keys :: j in d
    requires k in d
    ensures EncodeWeightEntries(d, keys + [k]) == EncodeWeightEntries(d, keys) + EncodeWeight(k, d[k])
  {
    if keys == [] {
      assert keys + [k] == [k];
    } else {
      assert (keys + [k])[1..] == keys[1..] + [k];
      EncodeWeightEntriesAppend(d, keys[1..], k);
    }
  }

  lemma {:induction false} EncodeLocationEntriesAppend(l: Locations, keys: seq<string>, k: string)
    requires forall j | j in keys :: j in l
    requires k in l
    ensures EncodeLocationEntries(l, keys + [k]) == EncodeLocationEntries(l, keys) + EncodeLocation(k, l[k])
  {
    if keys == [] {
      assert keys + [k] == [k];
    } else {
      assert (keys + [k])[1..] == keys[1..] + [k];
      EncodeLocationEntriesAppend(l, keys[1..], k);
    }
  }

  // ---------------------------------------------------------------- decoders

  /** The inner loop: `count` times, read a neighbour and insert it into
      `acc[node]`, creating that entry on the first insertion. */
  function DecodeNeighbours(s: seq<Item>, count: nat, node: Node, acc: Adjacency): Option<(Adjacency, seq<Item>)>
    decreases count
  {
    if count == 0 then Some((acc, s))
    else
      match Deserialize(s)
      case None => None
      case Some((nb, s1)) => DecodeNeighbours(s1, count - 1, node, acc[node := Neighbours(acc, node) + {nb}])
  }

  /** The outer loop: `count` entries, each a node, a count and its neighbours. */
  function DecodeEntries(s: seq<Item>, count: nat, acc: Adjacency): Option<(Adjacency, seq<Item>)>
    decreases count
  {
    if count == 0 then Some((acc, s))
    else
      match Deserialize(s)
      case None => None
      case Some((node, s1)) =>
        match ReadU64(s1)
        case None => None
        case Some((n, s2)) =>
          match DecodeNeighbours(s2, n, node, acc)
          case None => None
          case Some((acc', s3)) => DecodeEntries(s3, count - 1, acc')
  }

  function DecodeAdjacency(s: seq<Item>): Option<(Adjacency, seq<Item>)> {
    match ReadU64(s)
    case None => None
    case Some((count, s1)) => DecodeEntries(s1, count, map[])
  }

  /** `distances[{src, dest}] = dist`, `count` times. */
  function DecodeWeightEntries(s: seq<Item>, count: nat, acc: Weights): Option<(Weights, seq<Item>)>
    decreases count
  {
    if count == 0 then Some((acc, s))
    else
      match Deserialize(s)
      case None => None
      case Some((src, s1)) =>
        match Deserialize(s1)
        case None => None
        case Some((dest, s2)) =>
          match ReadF64(s2)
          case None => None
          case Some((w, s3)) => DecodeWeightEntries(s3, count - 1, acc[(src, dest) := w])
  }

  function DecodeWeights(s: seq<Item>): Option<(Weights, seq<Item>)> {
    match ReadU64(s)
    case None => None
    case Some((count, s1)) => DecodeWeightEntries(s1, count, map[])
  }

  /** `location_map[name] = {lng, lat}`, `count` times. */
  function DecodeLocationEntries(s: seq<Item>, count: nat, acc: Locations): Option<(Locations, seq<Item>)>
    decreases count
  {
    if count == 0 then Some((acc, s))
    else
      match ReadU64(s)
      case None => None
      case Some((len, s1)) =>
        match ReadBytes(s1, len)
        case None => None
        case Some((name, s2)) =>
          match ReadF64(s2)
          case None => None
          case Some((lng, s3)) =>
            match ReadF64(s3)
            case None => None
            case Some((lat, s4)) => DecodeLocationEntries(s4, count - 1, acc[name := (lng, lat)])
  }

  function DecodeLocations(s: seq<Item>): Option<(Locations, seq<Item>)> {
    match ReadU64(s)
    case None => None
    case Some((count, s1)) => DecodeLocationEntries(s1, count, map[])
  }

  /** The whole of `deserialize`: the four sections, then the tree; whatever
      follows the tree is never read. */
  function DecodeGraph(s: seq<Item>): Option<Snapshot> {
    match DecodeAdjacency(s)
    case None => None
    case Some((rev, s1)) =>
      match DecodeAdjacency(s1)
      case None => None
      case Some((adj, s2)) =>
        match DecodeWeights(s2)
        case None => None
        case Some((dist, s3)) =>
          match DecodeLocations(s3)
          case None => None
          case Some((loc, s4)) =>
            match KDTrees.DeserializeTree(s4)
            case None => None
            case Some((tree, _)) => Some(Snapshot(rev, adj, dist, loc, tree))
  }

  // ---------------------------------------------------------------- round trips

  /** The adjacency entries with at least one neighbour: what survives a round trip. */
  ghost function NonEmpty(m: Adjacency): (r: Adjacency)
  {
    map k | k in m && m[k] != {} :: m[k]
  }

  /** `acc` after reading the entry of `k` with neighbours `ns`. */
  function AddEntry(acc: Adjacency, k: Node, ns: set<Node>): Adjacency {
    if ns == {} then acc else acc[k := Neighbours(acc, k) + ns]
  }

  /** `acc` after reading the entries of `keys` from `m`. */
  ghost function Merge(acc: Adjacency, m: Adjacency, keys: seq<Node>): Adjacency {
    map k | k in acc.Keys + (set j | j in keys && Neighbours(m, j) != {})
      :: Neighbours(acc, k) + (if k in keys then Neighbours(m, k) else {})
  }

  /** The nodes of a list. */
  ghost function Elements(ns: seq<Node>): set<Node> {
    set x | x in ns
  }

  /** Reading a neighbour list inserts exactly its nodes into the entry of `node`,
      and creates that entry only when the list is non-empty. */
  lemma {:induction false} DecodeSerializedNeighbours(ns: seq<Node>, node: Node, acc: Adjacency, rest: seq<Item>)
    ensures DecodeNeighbours(SerializeAll(ns) + rest, |ns|, node, acc)
         == Some((AddEntry(acc, node, Elements(ns)), rest))
    decreases |ns|
  {
    if ns == [] {
      assert SerializeAll(ns) + rest == rest;
      assert Elements(ns) == {};
    } else {
      var tail := SerializeAll(ns[1..]) + rest;
      Assoc(Serialize(ns[0]), SerializeAll(ns[1..]), rest);
      DeserializeSerialize(ns[0], tail);
      var acc1 := acc[node := Neighbours(acc, node) + {ns[0]}];
      DecodeSerializedNeighbours(ns[1..], node, acc1, rest);
      var rem := Elements(ns[1..]);
      assert Elements(ns) == {ns[0]} + rem;
      assert AddEntry(acc1, node, rem) == AddEntry(acc, node, {ns[0]} + rem) by {
        assert Neighbours(acc1, node) == Neighbours(acc, node) + {ns[0]};
        if rem == {} {
          assert {ns[0]} + rem == {ns[0]};
        } else {
          assert Neighbours(acc1, node) + rem == Neighbours(acc, node) + ({ns[0]} + rem);
        }
      }
    }
  }

  /** Reading one encoded adjacency entry adds its neighbours to `acc`. */
  lemma DecodeEncodedEntry(k: Node, ns: set<Node>, count: nat, acc: Adjacency, rest: seq<Item>)
    requires count > 0
    ensures DecodeEntries(EncodeEntry(k, ns) + rest, count, acc)
         == DecodeEntries(rest, count - 1, AddEntry(acc, k, ns))
  {
    var sorted := Sorted(ns);
    SortedSpec(ns);
    assert Elements(sorted) == ns;
    var s2 := SerializeAll(sorted) + rest;
    assert EncodeEntry(k, ns) + rest == Serialize(k) + ([U64(|ns|)] + s2);
    DeserializeSerialize(k, [U64(|ns|)] + s2);
    ReadWritten(U64(|ns|), s2);
    DecodeSerializedNeighbours(sorted, k, acc, rest);
  }

  /** An entry of `Merge` exists exactly when `acc` has one or some key brings
      neighbours. */
  lemma MergeKeys(acc: Adjacency, m: Adjacency, keys: seq<Node>, x: Node)
    ensures x in Merge(acc, m, keys) <==> x in acc || (x in keys && Neighbours(m, x) != {})
  {
  }

  lemma MergeAt(acc: Adjacency, m: Adjacency, keys: seq<Node>, x: Node)
    requires x in Merge(acc, m, keys)
    ensures Merge(acc, m, keys)[x] == Neighbours(acc, x) + (if x in keys then Neighbours(m, x) else {})
  {
  }

  lemma MergeStep(acc: Adjacency, m: Adjacency, keys: seq<Node>)
    requires keys != [] && forall k | k in keys :: k in m
    ensures Merge(AddEntry(acc, keys[0], m[keys[0]]), m, keys[1..]) == Merge(acc, m, keys)
  {
    var k0 := keys[0];
    var acc1 := AddEntry(acc, k0, m[k0]);
    var lhs := Merge(acc1, m, keys[1..]);
    var rhs := Merge(acc, m, keys);
    forall x ensures x in lhs <==> x in rhs {
      MergeKeys(acc1, m, keys[1..], x);
      MergeKeys(acc, m, keys, x);
      assert x in keys <==> x == k0 || x in keys[1..];
    }
    forall x | x in lhs ensures lhs[x] == rhs[x] {
      MergeAt(acc1, m, keys[1..], x);
      MergeAt(acc, m, keys, x);
      assert x in keys <==> x == k0 || x in keys[1..];
      if x == k0 {
        assert Neighbours(acc1, x) == Neighbours(acc, x) + Neighbours(m, k0);
      } else {
        assert Neighbours(acc1, x) == Neighbours(acc, x);
      }
    }
  }

  lemma MergeNone(acc: Adjacency, m: Adjacency)
    ensures Merge(acc, m, []) == acc
  {
    forall k | k in acc ensures Merge(acc, m, [])[k] == acc[k] {
      assert Neighbours(acc, k) == acc[k];
    }
  }

  /** `acc` after reading the entries of `keys` from `m`, one entry at a time. */
  ghost function AddEntries(acc: Adjacency, m: Adjacency, keys: seq<Node>): Adjacency
    requires forall k | k in keys :: k in m
    decreases |keys|
  {
    if keys == [] then acc else AddEntries(AddEntry(acc, keys[0], m[keys[0]]), m, keys[1..])
  }

  /** Reading entry by entry merges the neighbour sets key by key. */
  lemma {:induction false} AddEntriesMerge(acc: Adjacency, m: Adjacency, keys: seq<Node>)
    requires forall k | k in keys :: k in m
    ensures AddEntries(acc, m, keys) == Merge(acc, m, keys)
    decreases |keys|
  {
    if keys == [] {
      MergeNone(acc, m);
    } else {
      AddEntriesMerge(AddEntry(acc, keys[0], m[keys[0]]), m, keys[1..]);
      MergeStep(acc, m, keys);
    }
  }

  lemma {:induction false} DecodeEncodedEntries(m: Adjacency, keys: seq<Node>, acc: Adjacency, rest: seq<Item>)
    requires forall k | k in keys :: k in m
    ensures DecodeEntries(EncodeEntries(m, keys) + rest, |keys|, acc) == Some((AddEntries(acc, m, keys), rest))
    decreases |keys|
  {
    if keys == [] {
      assert EncodeEntries(m, keys) + rest == rest;
    } else {
      var tail := EncodeEntries(m, keys[1..]) + rest;
      Assoc(EncodeEntry(keys[0], m[keys[0]]), EncodeEntries(m, keys[1..]), rest);
      DecodeEncodedEntry(keys[0], m[keys[0]], |keys|, acc, tail);
      DecodeEncodedEntries(m, keys[1..], AddEntry(acc, keys[0], m[keys[0]]), rest);
    }
  }

  /** The entries read from the encoding of a whole table are its non-empty entries. */
  lemma MergeAll(m: Adjacency)
    ensures Merge(map[], m, Sorted(m.Keys)) == NonEmpty(m)
  {
    var keys := Sorted(m.Keys);
    assert forall x :: x in keys <==> x in m by {
      SortedSpec(m.Keys);
    }
    var r := Merge(map[], m, keys);
    assert r.Keys == NonEmpty(m).Keys;
    forall k | k in r ensures r[k] == NonEmpty(m)[k] {
      assert Neighbours(map[], k) == {};
    }
  }

  /** Decoding an encoded adjacency gives back exactly its non-empty entries:
      an entry with no neighbours is never recreated. */
  lemma DecodeEncodedAdjacency(m: Adjacency, rest: seq<Item>)
    ensures DecodeAdjacency(EncodeAdjacency(m) + rest) == Some((NonEmpty(m), rest))
  {
    SortedSpec(m.Keys);
    var keys := Sorted(m.Keys);
    var body := EncodeEntries(m, keys) + rest;
    assert EncodeAdjacency(m) + rest == [U64(|m|)] + body;
    ReadWritten(U64(|m|), body);
    DecodeEncodedEntries(m, keys, map[], rest);
    AddEntriesMerge(map[], m, keys);
    MergeAll(m);
  }

  /** The entries of `d` whose keys appear in `keys`. */
  ghost function Restrict<K, V>(d: map<K, V>, keys: seq<K>): map<K, V> {
    map k | k in keys && k in d :: d[k]
  }

  lemma RestrictStep<K, V>(acc: map<K, V>, d: map<K, V>, keys: seq<K>)
    requires keys != [] && keys[0] in d
    ensures acc[keys[0] := d[keys[0]]] + Restrict(d, keys[1..]) == acc + Restrict(d, keys)
  {
    assert forall x :: x in keys <==> x == keys[0] || x in keys[1..];
  }

  lemma RestrictAll<K, V>(d: map<K, V>, keys: seq<K>)
    requires forall x :: x in keys <==> x in d
    ensures map[] + Restrict(d, keys) == d
  {
  }

  lemma RestrictNone<K, V>(acc: map<K, V>, d: map<K, V>)
    ensures acc + Restrict(d, []) == acc
  {
    assert Restrict(d, []) == map[];
  }

  /** Reading one encoded weight entry overwrites the weight of its edge. */
  lemma DecodeEncodedWeight(e: (Node, Node), w: real, count: nat, acc: Weights, rest: seq<Item>)
    requires count > 0
    ensures DecodeWeightEntries(EncodeWeight(e, w) + rest, count, acc)
         == DecodeWeightEntries(rest, count - 1, acc[e := w])
  {
    var s2 := [F64(w)] + rest;
    assert EncodeWeight(e, w) + rest == Serialize(e.0) + (Serialize(e.1) + s2);
    DeserializeSerialize(e.0, Serialize(e.1) + s2);
    DeserializeSerialize(e.1, s2);
    ReadWritten(F64(w), rest);
  }

  lemma {:induction false} DecodeEncodedWeightEntries(d: Weights, keys: seq<(Node, Node)>, acc: Weights, rest: seq<Item>)
    requires forall k | k in keys :: k in d
    ensures DecodeWeightEntries(EncodeWeightEntries(d, keys) + rest, |keys|, acc)
         == Some((acc + Restrict(d, keys), rest))
    decreases |keys|
  {
    if keys == [] {
      assert EncodeWeightEntries(d, keys) + rest == rest;
      RestrictNone(acc, d);
    } else {
      var tail := EncodeWeightEntries(d, keys[1..]) + rest;
      Assoc(EncodeWeight(keys[0], d[keys[0]]), EncodeWeightEntries(d, keys[1..]), rest);
      DecodeEncodedWeight(keys[0], d[keys[0]], |keys|, acc, tail);
      DecodeEncodedWeightEntries(d, keys[1..], acc[keys[0] := d[keys[0]]], rest);
      RestrictStep(acc, d, keys);
    }
  }

  /** The weight table reads back exactly as written. */
  lemma DecodeEncodedWeights(d: Weights, rest: seq<Item>)
    ensures DecodeWeights(EncodeWeights(d) + rest) == Some((d, rest))
  {
    var keys := SortedEdges(d.Keys);
    SortedEdgesSpec(d.Keys);
    var body := EncodeWeightEntries(d, keys) + rest;
    assert EncodeWeights(d) + rest == [U64(|d|)] + body;
    ReadWritten(U64(|d|), body);
    DecodeEncodedWeightEntries(d, keys, map[], rest);
    RestrictAll(d, keys);
  }

  /** Reading one encoded name entry overwrites the coordinates of its name. */
  lemma DecodeEncodedLocation(name: string, c: (real, real), count: nat, acc: Locations, rest: seq<Item>)
    requires count > 0
    ensures DecodeLocationEntries(EncodeLocation(name, c) + rest, count, acc)
         == DecodeLocationEntries(rest, count - 1, acc[name := c])
  {
    var s3 := [F64(c.1)] + rest;
    var s2 := [F64(c.0)] + s3;
    var s1 := WriteBytes(name) + s2;
    assert EncodeLocation(name, c) + rest == [U64(|name|)] + s1;
    ReadWritten(U64(|name|), s1);
    ReadWriteBytes(name, s2);
    ReadWritten(F64(c.0), s3);
    ReadWritten(F64(c.1), rest);
  }

  lemma {:induction false} DecodeEncodedLocationEntries(l: Locations, keys: seq<string>, acc: Locations, rest: seq<Item>)
    requires forall k | k in keys :: k in l
    ensures DecodeLocationEntries(EncodeLocationEntries(l, keys) + rest, |keys|, acc)
         == Some((acc + Restrict(l, keys), rest))
    decreases |keys|
  {
    if keys == [] {
      assert EncodeLocationEntries(l, keys) + rest == rest;
      RestrictNone(acc, l);
    } else {
      var tail := EncodeLocationEntries(l, keys[1..]) + rest;
      Assoc(EncodeLocation(keys[0], l[keys[0]]), EncodeLocationEntries(l, keys[1..]), rest);
      DecodeEncodedLocation(keys[0], l[keys[0]], |keys|, acc, tail);
      DecodeEncodedLocationEntries(l, keys[1..], acc[keys[0] := l[keys[0]]], rest);
      RestrictStep(acc, l, keys);
    }
  }

  /** The name table reads back exactly as written. */
  lemma DecodeEncodedLocations(l: Locations, rest: seq<Item>)
    ensures DecodeLocations(EncodeLocations(l) + rest) == Some((l, rest))
  {
    var keys := SortedNames(l.Keys);
    SortedNamesSpec(l.Keys);
    var body := EncodeLocationEntries(l, keys) + rest;
    assert EncodeLocations(l) + rest == [U64(|l|)] + body;
    ReadWritten(U64(|l|), body);
    DecodeEncodedLocationEntries(l, keys, map[], rest);
    RestrictAll(l, keys);
  }

  /** `deserialize(serialize(g))`, with anything after the file left unread:
      the weights, the names and the tree come back exactly; each adjacency
      keeps only its entries with neighbours. */
  lemma DecodeEncodedGraph(g: Snapshot, rest: seq<Item>)
    ensures DecodeGraph(EncodeGraph(g) + rest)
         == Some(Snapshot(NonEmpty(g.rev), NonEmpty(g.adj), g.dist, g.loc, g.tree))
  {
    var a, b, c, d, e := EncodeAdjacency(g.rev), EncodeAdjacency(g.adj), EncodeWeights(g.dist),
      EncodeLocations(g.loc), KDTrees.SerializeTree(g.tree);
    var s4 := e + rest;
    var s3 := d + s4;
    var s2 := c + s3;
    var s1 := b + s2;
    assert EncodeGraph(g) + rest == a + s1 by {
      assert EncodeGraph(g) == a + b + c + d + e;
      Regroup(a, b, c, d, e, rest);
    }
    DecodeEncodedAdjacency(g.rev, s1);
    DecodeEncodedAdjacency(g.adj, s2);
    DecodeEncodedWeights(g.dist, s3);
    DecodeEncodedLocations(g.loc, s4);
    KDTrees.DeserializeSerializeTree(g.tree, rest);
  }

  lemma Assoc(a: seq<Item>, b: seq<Item>, c: seq<Item>)
    ensures a + b + c == a + (b + c)
  {
  }

  lemma Regroup(a: seq<Item>, b: seq<Item>, c: seq<Item>, d: seq<Item>, e: seq<Item>, f: seq<Item>)
    ensures a + b + c + d + e + f == a + (b + (c + (d + (e + f))))
  {
  }

  /** A node with no neighbours does not survive a round trip: after loading,
      `containsNode` is false for it. */
  lemma SinkNodeIsLost(n: Node)
    ensures var g := Snapshot(map[n := {}], map[n := {}], map[], map[], KDTrees.Null);
      DecodeGraph(EncodeGraph(g)).Some? && n !in DecodeGraph(EncodeGraph(g)).value.adj
  {
    var g := Snapshot(map[n := {}], map[n := {}], map[], map[], KDTrees.Null);
    DecodeEncodedGraph(g, []);
    assert EncodeGraph(g) + [] == EncodeGraph(g);
    assert n !in NonEmpty(g.adj);
  }
}
