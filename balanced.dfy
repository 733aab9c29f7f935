/** The balanced bidirectional `Graph::BiAStar` of src/Graph.cpp. Both
    directions use the average potentials `predict_forward` and
    `predict_reverse`, whose sum is the same constant at every node; each
    round pops one entry per direction, answers `constructPath` on the two
    popped nodes once they intersect and the bound `min_length + dis_s_t` is
    reached, and otherwise settles each popped entry that is not stale. The
    two popped nodes need not be joined by an arc, so the answer is only
    known to be a forward walk from `start` spliced to a reverse walk to the
    destination. */
module Balanced {
  import opened Base
  import opened Nodes
  import opened Queues
  import opened Paths
  import opened GraphCodec
  import opened Graphs
  import opened Search

  /** `predict_forward(cur, start, dst, dis_s_t)`: half the difference of the
      two potentials, shifted by half the distance between the endpoints. */
  function PredictForward(metric: Metric, cur: Node, start: Node, dst: Node, disST: real): real {
    0.5 * (Distance(metric, cur, dst) - Distance(metric, cur, start)) + 0.5 * disST
  }

  /** `predict_reverse(cur, start, dst, dis_s_t)`: the two predictions add up
      to `dis_s_t` at every node, which is what makes the bidirectional
      potentials consistent with each other. */
  function PredictReverse(metric: Metric, cur: Node, start: Node, dst: Node, disST: real): (r: real)
    ensures PredictForward(metric, cur, start, dst, disST) + r == disST
  {
    0.5 * (- Distance(metric, cur, dst) + Distance(metric, cur, start)) + 0.5 * disST
  }

  /** The reverse prediction is the forward prediction of the search with
      its endpoints exchanged. */
  lemma PredictSwap(metric: Metric, cur: Node, start: Node, dst: Node, disST: real)
    ensures PredictReverse(metric, cur, start, dst, disST) == PredictForward(metric, cur, dst, start, disST)
  {
  }

  /** `isIntersect`: the popped nodes coincide, or each has been visited by
      the other direction. */
  predicate Intersects(visitedF: set<Node>, visitedR: set<Node>, nodeF: Node, nodeR: Node) {
    nodeF == nodeR || (nodeR in visitedF && nodeF in visitedR)
  }

  /** `top_f.first + top_r.first >= min_length + dis_s_t`; with `min_length`
      still infinite this never holds. */
  predicate Reached(topF: Entry, topR: Entry, minLength: Ext, disST: real) {
    !Fin(topF.0 + topR.0).Below(minLength.Plus(disST))
  }

  /** A popped entry is stale when its priority is above the `f` score now
      recorded for its node (`top.first <= f[top.second]` fails). */
  predicate Stale(f: map<Node, Ext>, top: Entry) {
    Lookup(f, top.1).Below(Fin(top.0))
  }

  /** The answer of the balanced search: a walk along forward arcs from
      `start` up to some junction, then along reverse arcs to `goal`. */
  ghost predicate Spliced(adj: Adjacency, rev: Adjacency, dist: Weights, p: seq<Node>, start: Node, goal: Node) {
    exists j :: Joined(adj, rev, dist, p, start, goal, j)
  }

  /** Settling a popped entry `top` of one direction, whose queue `s.open`
      no longer holds it: a stale entry is skipped; otherwise its node is
      marked visited and expanded, and `minLength` is lowered through the
      neighbours the other direction has visited. */
  method Settle(s: Side, top: Entry, nbrs: Adjacency, dist: Weights, backward: bool, h: Node -> real,
                other: Side, minLength: Ext, ghost origin: Node, ghost key: map<Node, Key>, ghost clock: nat)
    returns (r: Step, ghost key': map<Node, Key>, ghost clock': nat)
    requires Inv(s, origin, nbrs, dist, backward, key, clock)
    requires NonNegative(dist) && top.1 in key
    ensures Stale(s.f, top) ==> r == Expanded(s, minLength) && key' == key && clock' == clock
    ensures !Stale(s.f, top) ==> (r == NoNeighbors <==> top.1 !in nbrs)
    ensures !Stale(s.f, top) ==>
      (r == NoWeight <==> top.1 in nbrs && exists v | v in nbrs[top.1] :: Arc(top.1, v, backward) !in dist)
    ensures r.Expanded? ==> Inv(r.side, origin, nbrs, dist, backward, key', clock')
    ensures r.Expanded? ==> r.side.g.Keys == s.g.Keys && key.Keys <= key'.Keys
    ensures r.Expanded? && !Stale(s.f, top) ==> r.side.visited == s.visited + {top.1}
    ensures r.Expanded? && !Stale(s.f, top) ==>
      MinOver(minLength, r.minLength, s.g, top.1, other.g, other.visited, nbrs[top.1], dist, backward)
  {
    if Stale(s.f, top) {
      return Expanded(s, minLength), key, clock;
    }
    var s' := s.(visited := s.visited + {top.1});
    assert Inv(s', origin, nbrs, dist, backward, key, clock);
    r, key', clock' := Expand(s', top.1, nbrs, dist, backward, h, other.visited, other.g, minLength, origin, key, clock);
  }

  /** What a round leaves: an answer, or both sides and `min_length`. */
  datatype Tick = Finish(outcome: Outcome) | Proceed(fwd: Side, bwd: Side, minLength: Ext)

  /** The second half of a round: settle the popped forward entry against
      the reverse side, then the popped reverse entry against the new
      forward side; `fwd` and `bwd` no longer hold the popped entries. */
  method SettleBoth(adj: Adjacency, rev: Adjacency, dist: Weights, metric: Metric, start: Node, goal: Node, disST: real,
                    fwd: Side, bwd: Side, topF: Entry, topR: Entry, minLength: Ext,
                    ghost keyS: map<Node, Key>, ghost clockS: nat, ghost keyG: map<Node, Key>, ghost clockG: nat)
    returns (res: Tick, ghost keyS': map<Node, Key>, ghost clockS': nat, ghost keyG': map<Node, Key>, ghost clockG': nat)
    requires NonNegative(dist)
    requires Inv(fwd, start, adj, dist, false, keyS, clockS) && fwd.g.Keys == adj.Keys
    requires Inv(bwd, goal, rev, dist, true, keyG, clockG) && bwd.g.Keys == rev.Keys + {goal}
    requires topF.1 in keyS && topR.1 in keyG
    ensures res.Finish? ==>
      || (res.outcome == WeightMissing && (Unweighted(adj, dist) || RevUnweighted(rev, dist)))
      || (res.outcome == NeighborsMissing && topR.1 == goal && goal !in rev)
    ensures res.Proceed? ==> Inv(res.fwd, start, adj, dist, false, keyS', clockS') && res.fwd.g.Keys == adj.Keys
    ensures res.Proceed? ==> Inv(res.bwd, goal, rev, dist, true, keyG', clockG') && res.bwd.g.Keys == rev.Keys + {goal}
    ensures res.Proceed? ==> !minLength.Below(res.minLength)
  {
    keyG', clockG' := keyG, clockG;
    var stepF;
    stepF, keyS', clockS' := Settle(fwd, topF, adj, dist, false,
                                    v => PredictForward(metric, v, start, goal, disST), bwd, minLength, start, keyS, clockS);
    if stepF.NoWeight? {
      var v :| v in adj[topF.1] && (topF.1, v) !in dist;
      assert HasEdge(adj, topF.1, v);
      return Finish(WeightMissing), keyS', clockS', keyG', clockG';
    }
    assert topF.1 in fwd.g;
    var fwd' := stepF.side;
    var stepR;
    stepR, keyG', clockG' := Settle(bwd, topR, rev, dist, true,
                                    v => PredictReverse(metric, v, start, goal, disST), fwd', stepF.minLength,
                                    goal, keyG, clockG);
    if stepR.NoNeighbors? {
      assert topR.1 in bwd.g;
      return Finish(NeighborsMissing), keyS', clockS', keyG', clockG';
    }
    if stepR.NoWeight? {
      var u :| u in rev[topR.1] && (u, topR.1) !in dist;
      assert HasEdge(rev, topR.1, u);
      return Finish(WeightMissing), keyS', clockS', keyG', clockG';
    }
    BelowOrder(minLength, stepF.minLength, stepR.minLength);
    res := Proceed(fwd', stepR.side, stepR.minLength);
  }

  /** One round of the balanced search: pop both queues, answer the spliced
      path if the popped nodes intersect and the bound is reached, and
      otherwise settle both popped entries. */
  method Round(adj: Adjacency, rev: Adjacency, dist: Weights, metric: Metric, start: Node, goal: Node, disST: real,
               fwd: Side, bwd: Side, minLength: Ext,
               ghost keyS: map<Node, Key>, ghost clockS: nat, ghost keyG: map<Node, Key>, ghost clockG: nat)
    returns (res: Tick, topF: Entry, topR: Entry, ghost junction: nat,
             ghost keyS': map<Node, Key>, ghost clockS': nat, ghost keyG': map<Node, Key>, ghost clockG': nat)
    requires NonNegative(dist) && fwd.open != multiset{} && bwd.open != multiset{}
    requires Inv(fwd, start, adj, dist, false, keyS, clockS) && fwd.g.Keys == adj.Keys
    requires Inv(bwd, goal, rev, dist, true, keyG, clockG) && bwd.g.Keys == rev.Keys + {goal}
    ensures topF in fwd.open && forall e | e in fwd.open :: !EntryLess(e, topF)
    ensures topR in bwd.open && forall e | e in bwd.open :: !EntryLess(e, topR)
    ensures (res.Finish? && res.outcome.Route?) <==>
              Intersects(fwd.visited, bwd.visited, topF.1, topR.1) && Reached(topF, topR, minLength, disST)
    ensures res.Finish? && res.outcome.Route? ==>
              && Joined(adj, rev, dist, res.outcome.path, start, goal, junction)
              && res.outcome.path[junction] == topF.1 && res.outcome.path[junction + 1] == topR.1
    ensures res.Finish? && !res.outcome.Route? ==>
      || (res.outcome == WeightMissing && (Unweighted(adj, dist) || RevUnweighted(rev, dist)))
      || (res.outcome == NeighborsMissing && topR.1 == goal && goal !in rev)
    ensures res.Proceed? ==> Inv(res.fwd, start, adj, dist, false, keyS', clockS') && res.fwd.g.Keys == adj.Keys
    ensures res.Proceed? ==> Inv(res.bwd, goal, rev, dist, true, keyG', clockG') && res.bwd.g.Keys == rev.Keys + {goal}
    ensures res.Proceed? ==> !minLength.Below(res.minLength)
  {
    var restF, restR;
    topF, restF := Pop(fwd.open);
    topR, restR := Pop(bwd.open);
    junction := 0;
    assert topF.1 in keyS && topR.1 in keyG;
    PopInv(fwd, start, adj, dist, false, keyS, clockS, restF);
    PopInv(bwd, goal, rev, dist, true, keyG, clockG, restR);
    if Intersects(fwd.visited, bwd.visited, topF.1, topR.1) && Reached(topF, topR, minLength, disST) {
      res, junction := MeetTick(adj, rev, dist, fwd, bwd, start, goal, keyS, clockS, keyG, clockG, topF.1, topR.1);
      return res, topF, topR, junction, keyS, clockS, keyG, clockG;
    }
    res, keyS', clockS', keyG', clockG' := SettleBoth(adj, rev, dist, metric, start, goal, disST,
                                                      fwd.(open := restF), bwd.(open := restR), topF, topR, minLength,
                                                      keyS, clockS, keyG, clockG);
  }

  /** The answer of a round whose popped nodes meet: the spliced path. */
  method MeetTick(adj: Adjacency, rev: Adjacency, dist: Weights, fwd: Side, bwd: Side, ghost start: Node, ghost goal: Node,
                  ghost keyS: map<Node, Key>, ghost clockS: nat, ghost keyG: map<Node, Key>, ghost clockG: nat,
                  nodeF: Node, nodeR: Node)
    returns (res: Tick, ghost junction: nat)
    requires Inv(fwd, start, adj, dist, false, keyS, clockS)
    requires Inv(bwd, goal, rev, dist, true, keyG, clockG)
    requires nodeF in keyS && nodeR in keyG
    ensures res.Finish? && res.outcome.Route?
    ensures Joined(adj, rev, dist, res.outcome.path, start, goal, junction)
    ensures res.outcome.path[junction] == nodeF && res.outcome.path[junction + 1] == nodeR
  {
    var path;
    path, junction := Meet(adj, rev, dist, fwd, bwd, start, goal, keyS, clockS, keyG, clockG, nodeF, nodeR);
    res := Finish(Route(path));
  }

  /** The rounds of the balanced search from its opening sides, at most
      `fuel` of them, with `min_length` starting at infinity. */
  method Rounds(adj: Adjacency, rev: Adjacency, dist: Weights, metric: Metric, start: Node, goal: Node, disST: real,
                fwd0: Side, bwd0: Side, fuel: nat)
    returns (r: Outcome)
    requires NonNegative(dist)
    requires Inv(fwd0, start, adj, dist, false, map[start := (0.0, 0)], 1) && fwd0.g.Keys == adj.Keys
    requires Inv(bwd0, goal, rev, dist, true, map[goal := (0.0, 0)], 1) && bwd0.g.Keys == rev.Keys + {goal}
    ensures r != EndpointMissing
    ensures r.Route? ==> Spliced(adj, rev, dist, r.path, start, goal)
    ensures r == WeightMissing ==> Unweighted(adj, dist) || RevUnweighted(rev, dist)
    ensures r == NeighborsMissing ==> goal !in rev
  {
    var fwd, bwd, minLength := fwd0, bwd0, Inf;
    ghost var keyS: map<Node, Key>, clockS: nat := map[start := (0.0, 0)], 1;
    ghost var keyG: map<Node, Key>, clockG: nat := map[goal := (0.0, 0)], 1;
    var n := fuel;
    while n > 0 && fwd.open != multiset{} && bwd.open != multiset{}
      invariant Inv(fwd, start, adj, dist, false, keyS, clockS) && fwd.g.Keys == adj.Keys
      invariant Inv(bwd, goal, rev, dist, true, keyG, clockG) && bwd.g.Keys == rev.Keys + {goal}
    {
      var tick, topF, topR;
      ghost var junction;
      tick, topF, topR, junction, keyS, clockS, keyG, clockG :=
        Round(adj, rev, dist, metric, start, goal, disST, fwd, bwd, minLength, keyS, clockS, keyG, clockG);
      if tick.Finish? {
        return tick.outcome;
      }
      fwd, bwd, minLength := tick.fwd, tick.bwd, tick.minLength;
      n := n - 1;
    }
    if fwd.open == multiset{} || bwd.open == multiset{} {
      return NoRoute;
    }
    return OutOfFuel;
  }

  /** `Graph::BiAStar(start, dst)`: throws unless both endpoints are keys of
      `adjList`; starts each direction at its endpoint with `g` score 0 and
      `f` score and priority its prediction; then runs the rounds. */
  method BiAStar(graph: Graph, metric: Metric, start: Node, dst: Node, fuel: nat) returns (r: Outcome)
    requires NonNegative(graph.distances)
    ensures r == EndpointMissing <==> !graph.ContainsNode(start) || !graph.ContainsNode(dst)
    ensures r.Route? ==> Spliced(graph.adjList, graph.revAdjList, graph.distances, r.path, start, dst)
    ensures r == WeightMissing ==> Unweighted(graph.adjList, graph.distances) || RevUnweighted(graph.revAdjList, graph.distances)
    ensures r == NeighborsMissing ==> dst !in graph.revAdjList
  {
    if !graph.ContainsNode(start) || !graph.ContainsNode(dst) {
      return EndpointMissing;
    }
    var adj, rev, dist := graph.adjList, graph.revAdjList, graph.distances;
    var disST := Distance(metric, start, dst);
    var f0 := PredictForward(metric, start, start, dst, disST);
    var r0 := PredictReverse(metric, dst, start, dst, disST);
    var fwd := StartSide(adj.Keys, start, f0, f0);
    var bwd := StartSide(rev.Keys, dst, r0, r0);
    StartInv(fwd, start, adj, dist, false, f0);
    StartInv(bwd, dst, rev, dist, true, r0);
    r := Rounds(adj, rev, dist, metric, start, dst, disST, fwd, bwd, fuel);
  }
}
