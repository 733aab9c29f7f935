/** Following the `cameFrom` back-pointers of a search (`reconstructPath` and
    `constructPath`, src/process.cpp and src/Graph.cpp).

    The source's loops stop because a search only ever points a node at a
    predecessor with a smaller tentative distance, or an equal one recorded
    earlier. The ghost `Key` of a node is that pair (distance, time of the
    last relaxation); `Ranked` says keys strictly decrease along every
    back-pointer, which is what makes each walk finite. */
module Paths {
  import opened Nodes

  type Parents = map<Node, Node>

  type Key = (real, nat)

  /** Lexicographic order on keys. */
  predicate KeyBelow(a: Key, b: Key) {
    a.0 < b.0 || (a.0 == b.0 && a.1 < b.1)
  }

  /** Every back-pointer leads to a node with a strictly smaller key. */
  ghost predicate Ranked(cameFrom: Parents, key: map<Node, Key>) {
    forall v {:trigger cameFrom[v]} | v in cameFrom :: v in key && cameFrom[v] in key && KeyBelow(key[cameFrom[v]], key[v])
  }

  /** `p` runs forward along the back-pointers from a node without one to `x`. */
  ghost predicate ChainTo(cameFrom: Parents, p: seq<Node>, x: Node) {
    && |p| > 0
    && p[|p| - 1] == x
    && p[0] !in cameFrom
    && forall i | 0 < i < |p| :: p[i] in cameFrom && cameFrom[p[i]] == p[i - 1]
  }

  /** Each element of `w` but the last has a back-pointer to the next one. */
  ghost predicate Linked(cameFrom: Parents, w: seq<Node>) {
    forall i | 0 <= i < |w| - 1 :: w[i] in cameFrom && cameFrom[w[i]] == w[i + 1]
  }

  /** `q` runs from `x` along the back-pointers to a node without one. */
  ghost predicate ChainFrom(cameFrom: Parents, q: seq<Node>, x: Node) {
    |q| > 0 && q[0] == x && q[|q| - 1] !in cameFrom && Linked(cameFrom, q)
  }

  /** `std::reverse` on a vector of nodes. */
  function Reverse(s: seq<Node>): (r: seq<Node>)
    ensures |r| == |s|
    ensures forall i | 0 <= i < |s| :: r[i] == s[|s| - 1 - i]
  {
    if s == [] then [] else Reverse(s[1..]) + [s[0]]
  }

  /** Reversing a walk to the root gives the walk from the root. */
  lemma ChainReverse(cameFrom: Parents, q: seq<Node>, x: Node)
    requires ChainFrom(cameFrom, q, x)
    ensures ChainTo(cameFrom, Reverse(q), x)
  {
    var p := Reverse(q);
    var n := |q|;
    forall i | 0 < i < n ensures p[i] in cameFrom && cameFrom[p[i]] == p[i - 1] {
      assert p[i] == q[n - 1 - i];
      assert p[i - 1] == q[(n - 1 - i) + 1];
    }
  }

  /** There is at most one walk from the root to `x`: the result of
      `reconstructPath` is determined by the back-pointers. */
  lemma {:induction false} ChainToUnique(cameFrom: Parents, p: seq<Node>, p': seq<Node>, x: Node)
    requires ChainTo(cameFrom, p, x) && ChainTo(cameFrom, p', x)
    ensures p == p'
    decreases |p|
  {
    if x !in cameFrom {
      assert |p| == 1 && |p'| == 1;
    } else {
      assert |p| > 1 && |p'| > 1;
      var q, q' := p[..|p| - 1], p'[..|p'| - 1];
      var y := cameFrom[x];
      assert p[|p| - 2] == y && p'[|p'| - 2] == y;
      assert ChainTo(cameFrom, q, y);
      assert ChainTo(cameFrom, q', y);
      ChainToUnique(cameFrom, q, q', y);
      assert p == q + [x] && p' == q' + [x];
    }
  }

  /** `x` has a key below the key of every node in `seen`. */
  ghost predicate Above(key: map<Node, Key>, seen: set<Node>, x: Node) {
    x in key && forall y | y in seen :: y in key && KeyBelow(key[x], key[y])
  }

  lemma LinkedAppend(cameFrom: Parents, w: seq<Node>)
    requires Linked(cameFrom, w) && |w| > 0 && w[|w| - 1] in cameFrom
    ensures Linked(cameFrom, w + [cameFrom[w[|w| - 1]]])
  {
  }

  /** Stepping to the predecessor moves strictly down in key, so a walk never
      comes back to a node it has left. */
  lemma StepDown(cameFrom: Parents, key: map<Node, Key>, seen: set<Node>, cur: Node)
    requires Ranked(cameFrom, key)
    requires cur in cameFrom && seen <= cameFrom.Keys
    requires seen != {} ==> Above(key, seen, cur)
    ensures cur !in seen
    ensures Above(key, seen + {cur}, cameFrom[cur])
    ensures |cameFrom.Keys - (seen + {cur})| < |cameFrom.Keys - seen|
  {
    var rest := cameFrom.Keys - seen;
    assert cur in rest;
    assert cameFrom.Keys - (seen + {cur}) == rest - {cur};
  }

  /** The loop shared by `reconstructPath` and `constructPath`: push the node
      and step to its predecessor until a node without one, then push that. */
  method WalkBack(cameFrom: Parents, current: Node, ghost key: map<Node, Key>) returns (walk: seq<Node>)
    requires Ranked(cameFrom, key)
    ensures ChainFrom(cameFrom, walk, current)
  {
    walk := [];
    var cur := current;
    ghost var seen: set<Node> := {};
    while cur in cameFrom
      invariant Linked(cameFrom, walk + [cur]) && (walk + [cur])[0] == current
      invariant seen <= cameFrom.Keys
      invariant seen != {} ==> Above(key, seen, cur)
      decreases |cameFrom.Keys - seen|
    {
      StepDown(cameFrom, key, seen, cur);
      LinkedAppend(cameFrom, walk + [cur]);
      assert walk + [cur] + [cameFrom[cur]] == (walk + [cur]) + [cameFrom[cur]];
      walk := walk + [cur];
      seen := seen + {cur};
      cur := cameFrom[cur];
    }
    walk := walk + [cur];
  }

  /** `reconstructPath`: the walk back from `current`, reversed. */
  method ReconstructPath(cameFrom: Parents, current: Node, ghost key: map<Node, Key>) returns (path: seq<Node>)
    requires Ranked(cameFrom, key)
    ensures ChainTo(cameFrom, path, current)
  {
    var walk := WalkBack(cameFrom, current, key);
    path := Reverse(walk);
    ChainReverse(cameFrom, walk, current);
  }

  /** `constructPath`: the forward walk from its root to `curStart`, then the
      walk from `curGoal` to the root of the goal side. `junction` is the
      index of `curStart`; nothing ties it to `curGoal`. Both node arguments
      are references the source leaves pointing at the two roots. */
  method ConstructPath(cameFromStart: Parents, curStart: Node, cameFromGoal: Parents, curGoal: Node,
                       ghost keyStart: map<Node, Key>, ghost keyGoal: map<Node, Key>)
    returns (path: seq<Node>, rootStart: Node, rootGoal: Node, ghost junction: nat)
    requires Ranked(cameFromStart, keyStart) && Ranked(cameFromGoal, keyGoal)
    ensures junction < |path| - 1
    ensures ChainTo(cameFromStart, path[..junction + 1], curStart)
    ensures ChainFrom(cameFromGoal, path[junction + 1..], curGoal)
    ensures rootStart == path[0] && rootGoal == path[|path| - 1]
  {
    var front := ReconstructPath(cameFromStart, curStart, keyStart);
    var back := WalkBack(cameFromGoal, curGoal, keyGoal);
    path := front + back;
    junction := |front| - 1;
    assert path[..junction + 1] == front;
    assert path[junction + 1..] == back;
    rootStart, rootGoal := front[0], back[|back| - 1];
  }
}
