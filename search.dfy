/** The searches of src/process.cpp and src/Graph.cpp: `AStar`, the simple
    bidirectional `BiAStar` that meets where the two popped nodes coincide,
    and the balanced bidirectional `Graph::BiAStar` with its potentials,
    stale-entry skipping and `min_length` bound.

    One direction of a search is a `Side`: its open queue, its back-pointers,
    its `g` scores (`gScore`, `disStart`, ...), its `f` scores and its visited
    set. The forward direction follows `adjList` and weighs the arc `(u, v)`;
    the reverse direction follows `rev_adjList` and weighs `(v, u)`. */
module Search {
  import opened Base
  import opened Nodes
  import opened Queues
  import opened Paths
  import opened GraphCodec
  import opened Graphs

  datatype Side = Side(open: Queue, cameFrom: Parents, g: map<Node, Ext>, f: map<Node, Ext>, visited: set<Node>)

  /** The weight key of the arc from `u` to its neighbour `v`. */
  function Arc(u: Node, v: Node, backward: bool): (e: (Node, Node))
    ensures e == if backward then (v, u) else (u, v)
  {
    if backward then (v, u) else (u, v)
  }

  /** What one direction keeps true while it runs, for its origin, the
      adjacency it follows and the ghost keys of `Paths` (every stamp is
      before `clock`, the time of the next relaxation): the origin has key
      distance 0 and no back-pointer, and the five facts below. */
  ghost predicate Inv(s: Side, origin: Node, nbrs: Adjacency, dist: Weights, backward: bool,
                      key: map<Node, Key>, clock: nat)
  {
    && origin !in s.cameFrom
    && origin in key && key[origin].0 == 0.0
    && Parents(s.cameFrom, nbrs, dist, backward)
    && Ranked(s.cameFrom, key)
    && Covered(key, origin, s.cameFrom)
    && Scored(s.g, key, clock)
    && Queued(s.open, key)
  }

  /** Every back-pointer is an arc of the adjacency with a weight. */
  ghost predicate Parents(cameFrom: Parents, nbrs: Adjacency, dist: Weights, backward: bool) {
    forall v {:trigger cameFrom[v]} | v in cameFrom :: HasEdge(nbrs, cameFrom[v], v) && Arc(cameFrom[v], v, backward) in dist
  }

  /** Every node with a key is the origin or has a back-pointer. */
  ghost predicate Covered(key: map<Node, Key>, origin: Node, cameFrom: Parents) {
    forall v | v in key :: v == origin || v in cameFrom
  }

  /** The score of a node with a key is its finite, non-negative key
      distance, and its stamp is before `clock`. */
  ghost predicate Scored(g: map<Node, Ext>, key: map<Node, Key>, clock: nat) {
    forall v | v in key :: v in g && g[v] == Fin(key[v].0) && key[v].0 >= 0.0 && key[v].1 < clock
  }

  /** Every queued node has a key. */
  ghost predicate Queued(open: Queue, key: map<Node, Key>) {
    forall e | e in open :: e.1 in key
  }

  ghost predicate NonNegative(dist: Weights) {
    forall e | e in dist :: dist[e] >= 0.0
  }

  /** One relaxation: `if (t < g[nb]) { cameFrom[nb] = cur; g[nb] = t;
      f[nb] = t + h; open.push({f[nb], nb}); }` with `priority == t + h`. */
  function Relax(s: Side, cur: Node, nb: Node, t: real, priority: real): Side {
    if Fin(t).Below(Lookup(s.g, nb)) then
      s.(open := s.open + multiset{(priority, nb)}, cameFrom := s.cameFrom[nb := cur],
         g := s.g[nb := Fin(t)], f := s.f[nb := Fin(priority)])
    else s
  }

  /** The ghost keys after the same relaxation. */
  ghost function Rekey(s: Side, key: map<Node, Key>, nb: Node, t: real, clock: nat): map<Node, Key> {
    if Fin(t).Below(Lookup(s.g, nb)) then key[nb := (t, clock)] else key
  }

  /** Pointing `nb` at `cur` with the fresh key `(t, clock)` keeps keys
      decreasing along back-pointers when `t` is at least `cur`'s distance
      and below `nb`'s old one. */
  lemma RelaxRanked(cameFrom: Parents, key: map<Node, Key>, clock: nat, cur: Node, nb: Node, t: real)
    requires Ranked(cameFrom, key)
    requires cur in key && cur != nb && key[cur].0 <= t && key[cur].1 < clock
    requires nb in key ==> t < key[nb].0
    ensures Ranked(cameFrom[nb := cur], key[nb := (t, clock)])
  {
    var cf', key' := cameFrom[nb := cur], key[nb := (t, clock)];
    forall v | v in cf'
      ensures v in key' && cf'[v] in key' && KeyBelow(key'[cf'[v]], key'[v])
    {
      if v != nb && cameFrom[v] == nb {
        assert KeyBelow(key[nb], key[v]);
      }
    }
  }

  /** A relaxation along a weighted arc out of a node with a key keeps the
      invariant: the origin and the node itself are never relaxed, and a
      relaxed node gets a key above its new predecessor's and below those of
      the nodes that point at it. */
  lemma RelaxKeeps(s: Side, origin: Node, nbrs: Adjacency, dist: Weights, backward: bool,
                   key: map<Node, Key>, clock: nat, cur: Node, nb: Node, t: real, priority: real)
    requires Inv(s, origin, nbrs, dist, backward, key, clock)
    requires cur in key && HasEdge(nbrs, cur, nb) && Arc(cur, nb, backward) in dist
    requires dist[Arc(cur, nb, backward)] >= 0.0
    requires t == key[cur].0 + dist[Arc(cur, nb, backward)]
    ensures Inv(Relax(s, cur, nb, t, priority), origin, nbrs, dist, backward, Rekey(s, key, nb, t, clock), clock + 1)
  {
    if Fin(t).Below(Lookup(s.g, nb)) {
      RelaxedKeeps(s, origin, nbrs, dist, backward, key, clock, cur, nb, t, priority);
    } else {
      assert Inv(s, origin, nbrs, dist, backward, key, clock + 1);
    }
  }

  lemma RelaxedKeeps(s: Side, origin: Node, nbrs: Adjacency, dist: Weights, backward: bool,
                     key: map<Node, Key>, clock: nat, cur: Node, nb: Node, t: real, priority: real)
    requires Inv(s, origin, nbrs, dist, backward, key, clock)
    requires cur in key && HasEdge(nbrs, cur, nb) && Arc(cur, nb, backward) in dist
    requires dist[Arc(cur, nb, backward)] >= 0.0
    requires t == key[cur].0 + dist[Arc(cur, nb, backward)]
    requires Fin(t).Below(Lookup(s.g, nb))
    ensures Inv(Side(s.open + multiset{(priority, nb)}, s.cameFrom[nb := cur], s.g[nb := Fin(t)], s.f[nb := Fin(priority)], s.visited),
                origin, nbrs, dist, backward, key[nb := (t, clock)], clock + 1)
  {
    var cf', g', key' := s.cameFrom[nb := cur], s.g[nb := Fin(t)], key[nb := (t, clock)];
    assert nb != origin by { assert s.g[origin] == Fin(0.0); }
    assert nb != cur by { assert s.g[cur] == Fin(key[cur].0); }
    assert nb in key ==> t < key[nb].0 by {
      if nb in key { assert s.g[nb] == Fin(key[nb].0); }
    }
    RelaxRanked(s.cameFrom, key, clock, cur, nb, t);
    assert Parents(cf', nbrs, dist, backward);
    assert Covered(key', origin, cf');
    assert Scored(g', key', clock + 1);
    assert Queued(s.open + multiset{(priority, nb)}, key');
  }

  /** What expanding a node answers: the getNeighbors error, the
      `distances.at` error, or the new side and `min_length`. */
  datatype Step = NoNeighbors | NoWeight | Expanded(side: Side, minLength: Ext)

  /** The `min_length` candidate through a neighbour `v` of `cur`: `cur`'s
      score, plus `v`'s score in the other direction, plus the weight. */
  function Candidate(g: map<Node, Ext>, cur: Node, otherG: map<Node, Ext>, v: Node, w: real): Ext {
    Lookup(g, cur).Add(Lookup(otherG, v)).Plus(w)
  }

  /** Every neighbour in `done` has a weight, and its score is at most
      `base` (the score of `cur`) plus that weight. */
  ghost predicate Settled(g: map<Node, Ext>, base: Ext, cur: Node, done: set<Node>, dist: Weights, backward: bool) {
    forall v | v in done :: Arc(cur, v, backward) in dist && !base.Plus(dist[Arc(cur, v, backward)]).Below(Lookup(g, v))
  }

  /** A score that differs from the one in `g0` belongs to a neighbour in
      `done`; it dropped to `base` plus the weight, and the node points at
      `cur`. */
  ghost predicate Lowered(g0: map<Node, Ext>, g: map<Node, Ext>, cameFrom: Parents, base: Ext, cur: Node,
                          done: set<Node>, dist: Weights, backward: bool) {
    forall v :: Lookup(g, v) != Lookup(g0, v) ==>
      && v in done && Arc(cur, v, backward) in dist && v in cameFrom && cameFrom[v] == cur
      && Lookup(g, v) == base.Plus(dist[Arc(cur, v, backward)]) && Lookup(g, v).Below(Lookup(g0, v))
  }

  /** A back-pointer that differs from the one in `cameFrom0` belongs to a
      node whose score changed. */
  ghost predicate Repointed(cameFrom0: Parents, cameFrom: Parents, g0: map<Node, Ext>, g: map<Node, Ext>) {
    forall v | v in cameFrom && (v !in cameFrom0 || cameFrom[v] != cameFrom0[v]) :: Lookup(g, v) != Lookup(g0, v)
  }

  /** No candidate through a neighbour in `done` that the other direction
      has visited is below `ml`. */
  ghost predicate Bounded(ml: Ext, g: map<Node, Ext>, cur: Node, otherG: map<Node, Ext>, otherVisited: set<Node>,
                          done: set<Node>, dist: Weights, backward: bool) {
    forall v | v in done && v in otherVisited :: NotBelow(ml, g, cur, otherG, v, dist, backward)
  }

  /** The neighbour `v` has a weight and its candidate is not below `ml`. */
  ghost predicate NotBelow(ml: Ext, g: map<Node, Ext>, cur: Node, otherG: map<Node, Ext>, v: Node,
                           dist: Weights, backward: bool) {
    Arc(cur, v, backward) in dist && !Candidate(g, cur, otherG, v, dist[Arc(cur, v, backward)]).Below(ml)
  }

  /** `ml` is `ml0` or the candidate through one of those neighbours. */
  ghost predicate Attained(ml0: Ext, ml: Ext, g: map<Node, Ext>, cur: Node, otherG: map<Node, Ext>, otherVisited: set<Node>,
                           done: set<Node>, dist: Weights, backward: bool) {
    ml == ml0 || exists v | v in done && v in otherVisited ::
      Arc(cur, v, backward) in dist && ml == Candidate(g, cur, otherG, v, dist[Arc(cur, v, backward)])
  }

  /** `ml` is the least of `ml0` and the candidates through the neighbours in
      `done` that the other direction has visited. */
  ghost predicate MinOver(ml0: Ext, ml: Ext, g: map<Node, Ext>, cur: Node, otherG: map<Node, Ext>, otherVisited: set<Node>,
                          done: set<Node>, dist: Weights, backward: bool) {
    && !ml0.Below(ml)
    && Bounded(ml, g, cur, otherG, otherVisited, done, dist, backward)
    && Attained(ml0, ml, g, cur, otherG, otherVisited, done, dist, backward)
  }

  /** A settled neighbour has a weight. */
  lemma SettledArcs(g: map<Node, Ext>, base: Ext, cur: Node, done: set<Node>, dist: Weights, backward: bool)
    requires Settled(g, base, cur, done, dist, backward)
    ensures forall v | v in done :: Arc(cur, v, backward) in dist
  {
  }

  lemma SettledStep(side: Side, base: Ext, cur: Node, done: set<Node>, dist: Weights, backward: bool,
                    nb: Node, t: real, priority: real)
    requires Settled(side.g, base, cur, done, dist, backward)
    requires nb !in done && Arc(cur, nb, backward) in dist && base.Plus(dist[Arc(cur, nb, backward)]) == Fin(t)
    ensures Settled(Relax(side, cur, nb, t, priority).g, base, cur, done + {nb}, dist, backward)
  {
    var g' := Relax(side, cur, nb, t, priority).g;
    forall v | v in done + {nb}
      ensures Arc(cur, v, backward) in dist && !base.Plus(dist[Arc(cur, v, backward)]).Below(Lookup(g', v))
    {
      if v == nb {
        BelowOrder(Fin(t), Lookup(side.g, nb), Fin(t));
      } else {
        assert Lookup(g', v) == Lookup(side.g, v);
      }
    }
  }

  lemma LoweredStep(g0: map<Node, Ext>, side: Side, base: Ext, cur: Node, done: set<Node>, dist: Weights, backward: bool,
                    nb: Node, t: real, priority: real)
    requires Lowered(g0, side.g, side.cameFrom, base, cur, done, dist, backward)
    requires nb !in done && Arc(cur, nb, backward) in dist && base.Plus(dist[Arc(cur, nb, backward)]) == Fin(t)
    ensures var side' := Relax(side, cur, nb, t, priority);
      Lowered(g0, side'.g, side'.cameFrom, base, cur, done + {nb}, dist, backward)
  {
    assert Lookup(side.g, nb) == Lookup(g0, nb);
  }

  lemma RepointedStep(g0: map<Node, Ext>, cameFrom0: Parents, side: Side, base: Ext, cur: Node, done: set<Node>,
                      dist: Weights, backward: bool, nb: Node, t: real, priority: real)
    requires Repointed(cameFrom0, side.cameFrom, g0, side.g)
    requires Lowered(g0, side.g, side.cameFrom, base, cur, done, dist, backward)
    requires nb !in done
    ensures var side' := Relax(side, cur, nb, t, priority); Repointed(cameFrom0, side'.cameFrom, g0, side'.g)
  {
    assert Lookup(side.g, nb) == Lookup(g0, nb);
  }

  lemma MinStep(ml0: Ext, ml: Ext, g: map<Node, Ext>, cur: Node, otherG: map<Node, Ext>, otherVisited: set<Node>,
                done: set<Node>, dist: Weights, backward: bool, nb: Node)
    requires MinOver(ml0, ml, g, cur, otherG, otherVisited, done, dist, backward)
    requires Arc(cur, nb, backward) in dist
    ensures nb in otherVisited ==> MinOver(ml0, ml.Min(Candidate(g, cur, otherG, nb, dist[Arc(cur, nb, backward)])),
                                           g, cur, otherG, otherVisited, done + {nb}, dist, backward)
    ensures nb !in otherVisited ==> MinOver(ml0, ml, g, cur, otherG, otherVisited, done + {nb}, dist, backward)
  {
    var c := Candidate(g, cur, otherG, nb, dist[Arc(cur, nb, backward)]);
    if nb in otherVisited {
      MinBelow(ml0, ml, c);
      BoundedLower(ml, c, g, cur, otherG, otherVisited, done, dist, backward, nb);
      AttainedLower(ml0, ml, c, g, cur, otherG, otherVisited, done, dist, backward, nb);
    } else {
      BoundedSkip(ml, g, cur, otherG, otherVisited, done, dist, backward, nb);
      AttainedSkip(ml0, ml, g, cur, otherG, otherVisited, done, dist, backward, nb);
    }
  }

  lemma BoundedLower(ml: Ext, c: Ext, g: map<Node, Ext>, cur: Node, otherG: map<Node, Ext>, otherVisited: set<Node>,
                     done: set<Node>, dist: Weights, backward: bool, nb: Node)
    requires Bounded(ml, g, cur, otherG, otherVisited, done, dist, backward)
    requires Arc(cur, nb, backward) in dist && c == Candidate(g, cur, otherG, nb, dist[Arc(cur, nb, backward)])
    ensures Bounded(ml.Min(c), g, cur, otherG, otherVisited, done + {nb}, dist, backward)
  {
    forall v | v in done + {nb} && v in otherVisited
      ensures NotBelow(ml.Min(c), g, cur, otherG, v, dist, backward)
    {
      if v == nb {
        MinRight(ml, c);
      } else {
        BoundedAt(ml, c, g, cur, otherG, dist, backward, v);
      }
    }
  }

  lemma BoundedAt(ml: Ext, c: Ext, g: map<Node, Ext>, cur: Node, otherG: map<Node, Ext>,
                  dist: Weights, backward: bool, v: Node)
    requires NotBelow(ml, g, cur, otherG, v, dist, backward)
    ensures NotBelow(ml.Min(c), g, cur, otherG, v, dist, backward)
  {
    MinBelow(Candidate(g, cur, otherG, v, dist[Arc(cur, v, backward)]), ml, c);
  }

  lemma AttainedLower(ml0: Ext, ml: Ext, c: Ext, g: map<Node, Ext>, cur: Node, otherG: map<Node, Ext>,
                      otherVisited: set<Node>, done: set<Node>, dist: Weights, backward: bool, nb: Node)
    requires Attained(ml0, ml, g, cur, otherG, otherVisited, done, dist, backward)
    requires nb in otherVisited
    requires Arc(cur, nb, backward) in dist && c == Candidate(g, cur, otherG, nb, dist[Arc(cur, nb, backward)])
    ensures Attained(ml0, ml.Min(c), g, cur, otherG, otherVisited, done + {nb}, dist, backward)
  {
    if c.Below(ml) {
      assert nb in done + {nb};
    } else if ml != ml0 {
      var w :| w in done && w in otherVisited && Arc(cur, w, backward) in dist
               && ml == Candidate(g, cur, otherG, w, dist[Arc(cur, w, backward)]);
      assert w in done + {nb};
    }
  }

  lemma BoundedSkip(ml: Ext, g: map<Node, Ext>, cur: Node, otherG: map<Node, Ext>, otherVisited: set<Node>,
                    done: set<Node>, dist: Weights, backward: bool, nb: Node)
    requires Bounded(ml, g, cur, otherG, otherVisited, done, dist, backward)
    requires nb !in otherVisited
    ensures Bounded(ml, g, cur, otherG, otherVisited, done + {nb}, dist, backward)
  {
  }

  lemma AttainedSkip(ml0: Ext, ml: Ext, g: map<Node, Ext>, cur: Node, otherG: map<Node, Ext>, otherVisited: set<Node>,
                     done: set<Node>, dist: Weights, backward: bool, nb: Node)
    requires Attained(ml0, ml, g, cur, otherG, otherVisited, done, dist, backward)
    ensures Attained(ml0, ml, g, cur, otherG, otherVisited, done + {nb}, dist, backward)
  {
    if ml != ml0 {
      var w :| w in done && w in otherVisited && Arc(cur, w, backward) in dist
               && ml == Candidate(g, cur, otherG, w, dist[Arc(cur, w, backward)]);
      assert w in done + {nb};
    }
  }

  /** The minimum of `a` and `b` is not above `b`. */
  lemma MinRight(a: Ext, b: Ext)
    ensures !b.Below(a.Min(b))
  {
    BelowOrder(a, b, b);
  }

  /** A value no lower than `b` is no lower than the minimum of `b` and `c`. */
  lemma MinBelow(a: Ext, b: Ext, c: Ext)
    requires !a.Below(b)
    ensures !a.Below(b.Min(c))
  {
    BelowOrder(a, b, b.Min(c));
    BelowOrder(b, c, a);
  }

  /** A relaxation changes no score key, no visited set and loses no queue
      entry or back-pointer, and it leaves `cur` as it was. */
  lemma RelaxFrame(s: Side, key: map<Node, Key>, clock: nat, cur: Node, nb: Node, t: real, priority: real)
    requires cur in key && cur in s.g && s.g[cur] == Fin(key[cur].0) && key[cur].0 <= t && t >= 0.0
    ensures var s' := Relax(s, cur, nb, t, priority);
      && s'.g.Keys == s.g.Keys && s'.visited == s.visited && s.open <= s'.open && s.cameFrom.Keys <= s'.cameFrom.Keys
      && Lookup(s'.g, cur) == Lookup(s.g, cur)
    ensures var key' := Rekey(s, key, nb, t, clock); cur in key' && key'[cur] == key[cur]
  {
  }

  /** The invariant of the loop in `Expand` once the neighbours in `done`
      have been relaxed: `side`, `ml` and the keys are the state reached
      from `s` and `minLength`. */
  ghost predicate Expanding(s: Side, minLength: Ext, side: Side, ml: Ext, cur: Node, nbrs: Adjacency, dist: Weights,
                            backward: bool, otherVisited: set<Node>, otherG: map<Node, Ext>, origin: Node,
                            key: map<Node, Key>, key': map<Node, Key>, clock': nat, done: set<Node>)
  {
    && Framed(s, side, cur, nbrs, dist, backward, origin, key, key', clock')
    && Progressed(s, minLength, side, ml, cur, dist, backward, otherVisited, otherG, done)
  }

  /** The half of `Expanding` that does not depend on `done`: the search
      invariant, the keys, and what relaxing leaves alone. */
  ghost predicate Framed(s: Side, side: Side, cur: Node, nbrs: Adjacency, dist: Weights, backward: bool, origin: Node,
                         key: map<Node, Key>, key': map<Node, Key>, clock': nat)
  {
    && Inv(side, origin, nbrs, dist, backward, key', clock')
    && cur in key && key.Keys <= key'.Keys && key'[cur] == key[cur] && Lookup(s.g, cur) == Fin(key[cur].0)
    && side.g.Keys == s.g.Keys && side.visited == s.visited
    && s.open <= side.open && s.cameFrom.Keys <= side.cameFrom.Keys
  }

  /** The half of `Expanding` about the neighbours in `done`. */
  ghost predicate Progressed(s: Side, minLength: Ext, side: Side, ml: Ext, cur: Node, dist: Weights, backward: bool,
                             otherVisited: set<Node>, otherG: map<Node, Ext>, done: set<Node>)
  {
    && Settled(side.g, Lookup(s.g, cur), cur, done, dist, backward)
    && Lowered(s.g, side.g, side.cameFrom, Lookup(s.g, cur), cur, done, dist, backward)
    && Repointed(s.cameFrom, side.cameFrom, s.g, side.g)
    && MinOver(minLength, ml, s.g, cur, otherG, otherVisited, done, dist, backward)
  }

  /** One turn of the loop in `Expand` keeps `Expanding`: relaxing `nb`
      through `cur` and lowering the bound over it. */
  lemma ExpandStep(s: Side, minLength: Ext, side: Side, ml: Ext, cur: Node, nbrs: Adjacency, dist: Weights,
                   backward: bool, otherVisited: set<Node>, otherG: map<Node, Ext>, origin: Node,
                   key: map<Node, Key>, key': map<Node, Key>, clock': nat, done: set<Node>,
                   nb: Node, t: real, priority: real)
    requires Expanding(s, minLength, side, ml, cur, nbrs, dist, backward, otherVisited, otherG, origin, key, key', clock', done)
    requires NonNegative(dist)
    requires HasEdge(nbrs, cur, nb) && nb !in done && Arc(cur, nb, backward) in dist
    requires t == key[cur].0 + dist[Arc(cur, nb, backward)]
    ensures var side' := Relax(side, cur, nb, t, priority);
      var ml' := if nb in otherVisited then ml.Min(Candidate(side'.g, cur, otherG, nb, dist[Arc(cur, nb, backward)])) else ml;
      Expanding(s, minLength, side', ml', cur, nbrs, dist, backward, otherVisited, otherG, origin,
                key, Rekey(side, key', nb, t, clock'), clock' + 1, done + {nb})
  {
    FramedStep(s, side, cur, nbrs, dist, backward, origin, key, key', clock', nb, t, priority);
    var side' := Relax(side, cur, nb, t, priority);
    assert Candidate(side'.g, cur, otherG, nb, dist[Arc(cur, nb, backward)])
        == Candidate(s.g, cur, otherG, nb, dist[Arc(cur, nb, backward)]);
    ProgressedStep(s, minLength, side, ml, cur, dist, backward, otherVisited, otherG, done, nb, key[cur].0, t, priority);
  }

  lemma FramedStep(s: Side, side: Side, cur: Node, nbrs: Adjacency, dist: Weights, backward: bool, origin: Node,
                   key: map<Node, Key>, key': map<Node, Key>, clock': nat, nb: Node, t: real, priority: real)
    requires Framed(s, side, cur, nbrs, dist, backward, origin, key, key', clock')
    requires NonNegative(dist)
    requires HasEdge(nbrs, cur, nb) && Arc(cur, nb, backward) in dist
    requires t == key[cur].0 + dist[Arc(cur, nb, backward)]
    ensures Framed(s, Relax(side, cur, nb, t, priority), cur, nbrs, dist, backward, origin,
                   key, Rekey(side, key', nb, t, clock'), clock' + 1)
    ensures Lookup(Relax(side, cur, nb, t, priority).g, cur) == Lookup(s.g, cur)
  {
    RelaxKeeps(side, origin, nbrs, dist, backward, key', clock', cur, nb, t, priority);
    RelaxFrame(side, key', clock', cur, nb, t, priority);
  }

  lemma ProgressedStep(s: Side, minLength: Ext, side: Side, ml: Ext, cur: Node, dist: Weights, backward: bool,
                       otherVisited: set<Node>, otherG: map<Node, Ext>, done: set<Node>,
                       nb: Node, a: real, t: real, priority: real)
    requires Progressed(s, minLength, side, ml, cur, dist, backward, otherVisited, otherG, done)
    requires nb !in done && Arc(cur, nb, backward) in dist
    requires Lookup(s.g, cur) == Fin(a) && t == a + dist[Arc(cur, nb, backward)]
    ensures var ml' := if nb in otherVisited then ml.Min(Candidate(s.g, cur, otherG, nb, dist[Arc(cur, nb, backward)])) else ml;
      Progressed(s, minLength, Relax(side, cur, nb, t, priority), ml', cur, dist, backward, otherVisited, otherG, done + {nb})
  {
    var base := Lookup(s.g, cur);
    assert base.Plus(dist[Arc(cur, nb, backward)]) == Fin(t);
    SettledStep(side, base, cur, done, dist, backward, nb, t, priority);
    LoweredStep(s.g, side, base, cur, done, dist, backward, nb, t, priority);
    RepointedStep(s.g, s.cameFrom, side, base, cur, done, dist, backward, nb, t, priority);
    MinStep(minLength, ml, s.g, cur, otherG, otherVisited, done, dist, backward, nb);
  }

  /** The body of the loop in `Expand` for the neighbour `nb`: the
      relaxation, then the `min_length` update. */
  method ExpandOne(s: Side, minLength: Ext, side: Side, ml: Ext, cur: Node, nbrs: Adjacency, dist: Weights,
                   backward: bool, h: Node -> real, otherVisited: set<Node>, otherG: map<Node, Ext>, ghost origin: Node,
                   ghost key: map<Node, Key>, ghost key': map<Node, Key>, ghost clock': nat, ghost done: set<Node>, nb: Node)
    returns (side': Side, ml': Ext, ghost key'': map<Node, Key>, ghost clock'': nat)
    requires Expanding(s, minLength, side, ml, cur, nbrs, dist, backward, otherVisited, otherG, origin, key, key', clock', done)
    requires NonNegative(dist)
    requires HasEdge(nbrs, cur, nb) && nb !in done && Arc(cur, nb, backward) in dist
    ensures Expanding(s, minLength, side', ml', cur, nbrs, dist, backward, otherVisited, otherG, origin, key, key'', clock'', done + {nb})
  {
    var w := dist[Arc(cur, nb, backward)];
    var t := side.g[cur].v + w;
    ExpandStep(s, minLength, side, ml, cur, nbrs, dist, backward, otherVisited, otherG, origin, key, key', clock', done,
               nb, t, t + h(nb));
    clock'' := clock' + 1;
    if Fin(t).Below(Lookup(side.g, nb)) {
      var f := t + h(nb);
      side' := Side(side.open + multiset{(f, nb)}, side.cameFrom[nb := cur], side.g[nb := Fin(t)], side.f[nb := Fin(f)],
                    side.visited);
      key'' := key'[nb := (t, clock')];
    } else {
      side', key'' := side, key';
    }
    ml' := if nb in otherVisited then ml.Min(Candidate(side'.g, cur, otherG, nb, w)) else ml;
  }

  /** The loop over the neighbours of a popped node `cur`: relax each one
      with priority score plus `h`, and, for a neighbour the other direction
      has visited, lower `minLength` to the candidate through it. A* and the
      simple bidirectional search pass an empty `otherVisited`.

      Visiting the neighbours in `std::set` order or any other gives the same
      result: each neighbour is touched once. */
  method Expand(s: Side, cur: Node, nbrs: Adjacency, dist: Weights, backward: bool, h: Node -> real,
                otherVisited: set<Node>, otherG: map<Node, Ext>, minLength: Ext,
                ghost origin: Node, ghost key: map<Node, Key>, ghost clock: nat)
    returns (r: Step, ghost key': map<Node, Key>, ghost clock': nat)
    requires Inv(s, origin, nbrs, dist, backward, key, clock)
    requires NonNegative(dist)
    requires cur in key
    ensures r == NoNeighbors <==> cur !in nbrs
    ensures r == NoWeight <==> cur in nbrs && exists v | v in nbrs[cur] :: Arc(cur, v, backward) !in dist
    ensures r.Expanded? ==> Inv(r.side, origin, nbrs, dist, backward, key', clock')
    ensures r.Expanded? ==> key.Keys <= key'.Keys
    ensures r.Expanded? ==> r.side.g.Keys == s.g.Keys && r.side.visited == s.visited
    ensures r.Expanded? ==> s.open <= r.side.open && s.cameFrom.Keys <= r.side.cameFrom.Keys
    ensures r.Expanded? ==> Settled(r.side.g, Lookup(s.g, cur), cur, nbrs[cur], dist, backward)
    ensures r.Expanded? ==> Lowered(s.g, r.side.g, r.side.cameFrom, Lookup(s.g, cur), cur, nbrs[cur], dist, backward)
    ensures r.Expanded? ==> Repointed(s.cameFrom, r.side.cameFrom, s.g, r.side.g)
    ensures r.Expanded? ==> MinOver(minLength, r.minLength, s.g, cur, otherG, otherVisited, nbrs[cur], dist, backward)
  {
    if cur !in nbrs {
      return NoNeighbors, key, clock;
    }
    var weighted, side, ml;
    weighted, side, ml, key', clock' := RelaxAll(s, cur, nbrs, dist, backward, h, otherVisited, otherG, minLength,
                                                 origin, key, clock);
    if !weighted {
      return NoWeight, key', clock';
    }
    r := Expanded(side, ml);
  }

  /** The loop of `Expand` over the neighbours of `cur`, which has an entry:
      it stops at the first neighbour without a weight. */
  method RelaxAll(s: Side, cur: Node, nbrs: Adjacency, dist: Weights, backward: bool, h: Node -> real,
                  otherVisited: set<Node>, otherG: map<Node, Ext>, minLength: Ext,
                  ghost origin: Node, ghost key: map<Node, Key>, ghost clock: nat)
    returns (weighted: bool, side: Side, ml: Ext, ghost key': map<Node, Key>, ghost clock': nat)
    requires Inv(s, origin, nbrs, dist, backward, key, clock)
    requires NonNegative(dist)
    requires cur in key && cur in nbrs
    ensures !weighted <==> exists v | v in nbrs[cur] :: Arc(cur, v, backward) !in dist
    ensures weighted ==> Expanding(s, minLength, side, ml, cur, nbrs, dist, backward, otherVisited, otherG,
                                   origin, key, key', clock', nbrs[cur])
  {
    key', clock' := key, clock;
    var todo := nbrs[cur];
    side, ml := s, minLength;
    ghost var done: set<Node> := {};
    while todo != {}
      invariant done + todo == nbrs[cur] && done !! todo
      invariant Expanding(s, minLength, side, ml, cur, nbrs, dist, backward, otherVisited, otherG, origin, key, key', clock', done)
      decreases todo
    {
      var nb :| nb in todo;
      if Arc(cur, nb, backward) !in dist {
        assert nb in nbrs[cur];
        return false, side, ml, key', clock';
      }
      side, ml, key', clock' := ExpandOne(s, minLength, side, ml, cur, nbrs, dist, backward, h, otherVisited, otherG,
                                          origin, key, key', clock', done, nb);
      MoveOne(done, todo, nbrs[cur], nb);
      done, todo := done + {nb}, todo - {nb};
    }
    assert done == nbrs[cur];
    SettledArcs(side.g, Lookup(s.g, cur), cur, done, dist, backward);
    weighted := true;
  }

  /** Moving one element from `todo` to `done` keeps them a partition of `all`. */
  lemma MoveOne<T>(done: set<T>, todo: set<T>, all: set<T>, x: T)
    requires done + todo == all && done !! todo && x in todo
    ensures (done + {x}) + (todo - {x}) == all && (done + {x}) !! (todo - {x}) && todo - {x} < todo
  {
  }

  // ---------------------------------------------------------------- searches

  /** What a search answers: a route, the empty vector of an exhausted open
      set, the "node not found in graph" error for `start` or the goal, the
      `getNeighbors`/`rev_getNeighbors` error, the `distances.at` error, or,
      in the model only, the end of the fuel bound on the number of rounds. */
  datatype Outcome = Route(path: seq<Node>) | NoRoute | EndpointMissing | NeighborsMissing | WeightMissing | OutOfFuel

  /** `for (const auto &node : adjList) gScore[node.first] = infinity;`. */
  method InitScores(keys: set<Node>) returns (m: map<Node, Ext>)
    ensures m.Keys == keys
    ensures forall k | k in m :: m[k] == Inf
  {
    m := map[];
    var todo := keys;
    while todo != {}
      invariant m.Keys + todo == keys && m.Keys !! todo
      invariant forall k | k in m :: m[k] == Inf
      decreases todo
    {
      var k :| k in todo;
      m := m[k := Inf];
      todo := todo - {k};
    }
  }

  /** The side a direction starts from: every node of `keys` at infinity,
      then `origin` at distance 0 with `f` score `f0`, and one queue entry. */
  method StartSide(keys: set<Node>, origin: Node, f0: real, priority: real) returns (s: Side)
    ensures s.open == multiset{(priority, origin)} && s.cameFrom == map[] && s.visited == {}
    ensures s.g.Keys == keys + {origin} && s.f.Keys == keys + {origin}
    ensures forall v | v in s.g :: s.g[v] == if v == origin then Fin(0.0) else Inf
    ensures s.f[origin] == Fin(f0)
  {
    var g := InitScores(keys);
    var f := InitScores(keys);
    s := Side(multiset{(priority, origin)}, map[], g[origin := Fin(0.0)], f[origin := Fin(f0)], {});
  }

  /** One turn of A* or of one direction of the simple bidirectional search:
      pop the least entry; stop if its node is `other` (the goal, or the node
      the other direction popped last); otherwise expand it. */
  method Turn(s: Side, nbrs: Adjacency, dist: Weights, backward: bool, h: Node -> real, other: Node,
              ghost origin: Node, ghost key: map<Node, Key>, ghost clock: nat)
    returns (top: Entry, met: bool, step: Step, ghost key': map<Node, Key>, ghost clock': nat)
    requires Inv(s, origin, nbrs, dist, backward, key, clock)
    requires NonNegative(dist) && s.open != multiset{}
    ensures top in s.open && top.1 in key
    ensures forall e | e in s.open :: !EntryLess(e, top)
    ensures met <==> top.1 == other
    ensures met ==> key' == key && clock' == clock
    ensures !met ==> (step == NoNeighbors <==> top.1 !in nbrs)
    ensures !met && step == NoWeight ==> top.1 in nbrs && exists v | v in nbrs[top.1] :: Arc(top.1, v, backward) !in dist
    ensures !met && step.Expanded? ==>
      Inv(step.side, origin, nbrs, dist, backward, key', clock') && step.side.g.Keys == s.g.Keys && key.Keys <= key'.Keys
  {
    var rest;
    top, rest := Pop(s.open);
    key', clock' := key, clock;
    met := top.1 == other;
    if met {
      return top, met, NoNeighbors, key', clock';
    }
    step, key', clock' := Expand(s.(open := rest), top.1, nbrs, dist, backward, h, {}, map[], Inf, origin, key, clock);
  }

  /** A side just started satisfies the invariant, with the origin's key
      stamped at time 0. */
  lemma StartInv(s: Side, origin: Node, nbrs: Adjacency, dist: Weights, backward: bool, priority: real)
    requires s.open == multiset{(priority, origin)} && s.cameFrom == map[]
    requires origin in s.g && s.g[origin] == Fin(0.0)
    ensures Inv(s, origin, nbrs, dist, backward, map[origin := (0.0, 0)], 1)
  {
  }

  /** Taking entries off the queue keeps the invariant. */
  lemma PopInv(s: Side, origin: Node, nbrs: Adjacency, dist: Weights, backward: bool,
               key: map<Node, Key>, clock: nat, rest: Queue)
    requires Inv(s, origin, nbrs, dist, backward, key, clock) && rest <= s.open
    ensures Inv(s.(open := rest), origin, nbrs, dist, backward, key, clock)
  {
  }

  /** A node whose key is known and which the walk back from the origin
      reaches: the walk starts at the origin and follows weighted arcs of
      the adjacency. */
  lemma ChainIsRoute(s: Side, origin: Node, nbrs: Adjacency, dist: Weights, backward: bool,
                     key: map<Node, Key>, clock: nat, p: seq<Node>, x: Node)
    requires Inv(s, origin, nbrs, dist, backward, key, clock)
    requires x in key && ChainTo(s.cameFrom, p, x)
    ensures p[0] == origin
    ensures forall i | 0 <= i < |p| - 1 :: HasEdge(nbrs, p[i], p[i + 1]) && Arc(p[i], p[i + 1], backward) in dist
  {
    if |p| > 1 {
      assert p[1] in s.cameFrom && s.cameFrom[p[1]] == p[0];
    }
    assert p[0] in key;
    forall i | 0 <= i < |p| - 1 ensures HasEdge(nbrs, p[i], p[i + 1]) && Arc(p[i], p[i + 1], backward) in dist {
      assert p[i + 1] in s.cameFrom && s.cameFrom[p[i + 1]] == p[i];
    }
  }

  /** The walk from a node with a key along the back-pointers ends at the
      origin, and each step goes back along a weighted arc. */
  lemma WalkIsRoute(s: Side, origin: Node, nbrs: Adjacency, dist: Weights, backward: bool,
                    key: map<Node, Key>, clock: nat, q: seq<Node>, x: Node)
    requires Inv(s, origin, nbrs, dist, backward, key, clock)
    requires x in key && ChainFrom(s.cameFrom, q, x)
    ensures q[|q| - 1] == origin
    ensures forall i | 0 <= i < |q| - 1 :: HasEdge(nbrs, q[i + 1], q[i]) && Arc(q[i + 1], q[i], backward) in dist
  {
    if |q| > 1 {
      assert q[|q| - 2] in s.cameFrom && s.cameFrom[q[|q| - 2]] == q[|q| - 1];
    }
    assert q[|q| - 1] in key;
  }

  /** Each step of `p` between positions `lo` and `hi` is an arc of the
      forward adjacency with a weight. */
  ghost predicate Walks(adj: Adjacency, dist: Weights, p: seq<Node>, lo: int, hi: int) {
    forall i | lo <= i < hi && 0 <= i < |p| - 1 :: HasEdge(adj, p[i], p[i + 1]) && (p[i], p[i + 1]) in dist
  }

  /** `p` is a route from `start` to `goal` along weighted forward arcs. */
  ghost predicate Leads(adj: Adjacency, dist: Weights, p: seq<Node>, start: Node, goal: Node) {
    |p| > 0 && p[0] == start && p[|p| - 1] == goal && Walks(adj, dist, p, 0, |p| - 1)
  }

  /** Some arc of the forward adjacency has no weight: `distances.at` can throw. */
  ghost predicate Unweighted(adj: Adjacency, dist: Weights) {
    exists u, v :: HasEdge(adj, u, v) && (u, v) !in dist
  }

  /** `reconstructPath(cameFrom, current)` once the goal is popped: a route
      from the origin of the search, which is `[current]` while no back-pointer
      has been set. */
  method Arrive(adj: Adjacency, dist: Weights, side: Side, ghost origin: Node, ghost key: map<Node, Key>, ghost clock: nat,
                current: Node)
    returns (path: seq<Node>)
    requires Inv(side, origin, adj, dist, false, key, clock)
    requires current in key
    ensures Leads(adj, dist, path, origin, current)
    ensures side.cameFrom == map[] ==> path == [current]
  {
    path := ReconstructPath(side.cameFrom, current, key);
    ChainIsRoute(side, origin, adj, dist, false, key, clock, path, current);
    if side.cameFrom == map[] {
      ChainToUnique(side.cameFrom, path, [current], current);
    }
  }

  /** Each step of `p` between positions `lo` and `hi` goes back along an arc
      of the reverse adjacency, and the forward pair has a weight. */
  ghost predicate BackWalks(rev: Adjacency, dist: Weights, p: seq<Node>, lo: int, hi: int) {
    forall i | lo <= i < hi && 0 <= i < |p| - 1 :: HasEdge(rev, p[i + 1], p[i]) && (p[i], p[i + 1]) in dist
  }

  /** Some arc of the reverse adjacency has no weight. */
  ghost predicate RevUnweighted(rev: Adjacency, dist: Weights) {
    exists u, v :: HasEdge(rev, v, u) && (u, v) !in dist
  }

  /** With the transpose invariant every arc has a weight, so no search of a
      valid graph fails on `distances.at`. */
  lemma ValidWeighted(adj: Adjacency, rev: Adjacency, dist: Weights)
    requires Transposed(adj, rev, dist)
    ensures !Unweighted(adj, dist) && !RevUnweighted(rev, dist)
  {
  }

  /** `p` runs from `start` along forward arcs up to position `j`, and from
      position `j + 1` along reverse arcs to `goal`; nothing is said of the
      pair at `j`. */
  ghost predicate Joined(adj: Adjacency, rev: Adjacency, dist: Weights, p: seq<Node>, start: Node, goal: Node, j: int) {
    && 0 <= j < |p| - 1
    && p[0] == start && p[|p| - 1] == goal
    && Walks(adj, dist, p, 0, j)
    && BackWalks(rev, dist, p, j + 1, |p| - 1)
  }

  /** With the transpose invariant the reverse arcs are forward arcs, so a
      joined path is a route in which only the pair at the junction may lack
      an arc. */
  lemma JoinedWalks(adj: Adjacency, rev: Adjacency, dist: Weights, p: seq<Node>, start: Node, goal: Node, j: int)
    requires Transposed(adj, rev, dist) && Joined(adj, rev, dist, p, start, goal, j)
    ensures Walks(adj, dist, p, j + 1, |p| - 1)
  {
  }

  /** `constructPath(cameFromStart, cur_start, cameFromGoal, cur_goal)` in a
      bidirectional search: the forward walk from `start` to `curStart`, then
      the walk from `curGoal` back to `goal`. */
  method Meet(adj: Adjacency, rev: Adjacency, dist: Weights, sideS: Side, sideG: Side, ghost start: Node, ghost goal: Node,
              ghost keyS: map<Node, Key>, ghost clockS: nat, ghost keyG: map<Node, Key>, ghost clockG: nat,
              curStart: Node, curGoal: Node)
    returns (path: seq<Node>, ghost junction: nat)
    requires Inv(sideS, start, adj, dist, false, keyS, clockS)
    requires Inv(sideG, goal, rev, dist, true, keyG, clockG)
    requires curStart in keyS && curGoal in keyG
    ensures Joined(adj, rev, dist, path, start, goal, junction)
    ensures path[junction] == curStart && path[junction + 1] == curGoal
    ensures sideS.cameFrom == map[] && sideG.cameFrom == map[] ==> path == [curStart, curGoal]
  {
    var rootStart, rootGoal;
    path, rootStart, rootGoal, junction := ConstructPath(sideS.cameFrom, curStart, sideG.cameFrom, curGoal, keyS, keyG);
    var front, back := path[..junction + 1], path[junction + 1..];
    ChainIsRoute(sideS, start, adj, dist, false, keyS, clockS, front, curStart);
    WalkIsRoute(sideG, goal, rev, dist, true, keyG, clockG, back, curGoal);
    assert path[0] == front[0] && path[|path| - 1] == back[|back| - 1];
    forall i | 0 <= i < junction ensures HasEdge(adj, path[i], path[i + 1]) && (path[i], path[i + 1]) in dist {
      assert path[i] == front[i] && path[i + 1] == front[i + 1];
    }
    forall i | junction + 1 <= i < |path| - 1 ensures HasEdge(rev, path[i + 1], path[i]) && (path[i], path[i + 1]) in dist {
      var k := i - (junction + 1);
      assert path[i] == back[k] && path[i + 1] == back[k + 1];
    }
    if sideS.cameFrom == map[] && sideG.cameFrom == map[] {
      ChainToUnique(sideS.cameFrom, front, [curStart], curStart);
      assert |back| == 1;
      assert path == front + back;
    }
  }
}
