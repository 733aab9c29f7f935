/** `AStar` (src/process.cpp, and the identical member `Graph::AStar` of
    src/Graph.cpp) and the simple bidirectional `BiAStar` of src/process.cpp,
    which stops when the node one direction pops is the node the other
    direction popped last. */
module Routing {
  import opened Base
  import opened Nodes
  import opened Queues
  import opened Paths
  import opened GraphCodec
  import opened Graphs
  import opened Search

  /** `AStar`: pop the least entry; answer the walk back from the goal when it
      is popped; otherwise relax its neighbours with priority score plus the
      distance to the goal. There is no closed set, so a node may be expanded
      again; `fuel` bounds the number of rounds. */
  method AStar(graph: Graph, metric: Metric, start: Node, goal: Node, fuel: nat) returns (r: Outcome)
    requires NonNegative(graph.distances)
    ensures r == EndpointMissing <==> !graph.ContainsNode(start) || !graph.ContainsNode(goal)
    ensures r.Route? ==> Leads(graph.adjList, graph.distances, r.path, start, goal)
    ensures r == WeightMissing ==> Unweighted(graph.adjList, graph.distances)
    ensures r != NeighborsMissing
    ensures start == goal && fuel > 0 && graph.ContainsNode(start) ==> r == Route([start])
  {
    if !graph.ContainsNode(start) || !graph.ContainsNode(goal) {
      return EndpointMissing;
    }
    var adj, dist := graph.adjList, graph.distances;
    var side := StartSide(adj.Keys, start, Distance(metric, start, goal), 0.0);
    StartInv(side, start, adj, dist, false, 0.0);
    ghost var key: map<Node, Key> := map[start := (0.0, 0)];
    ghost var clock: nat := 1;
    ghost var first := true;
    var h := v => Distance(metric, v, goal);
    var n := fuel;
    while n > 0 && side.open != multiset{}
      invariant Inv(side, start, adj, dist, false, key, clock)
      invariant side.g.Keys == adj.Keys
      invariant first ==> n == fuel && side.open == multiset{(0.0, start)} && side.cameFrom == map[]
      invariant !first ==> start != goal
    {
      var top, met, step;
      top, met, step, key, clock := Turn(side, adj, dist, false, h, goal, start, key, clock);
      if met {
        var path := Arrive(adj, dist, side, start, key, clock, top.1);
        return Route(path);
      }
      if step.NoWeight? {
        var v :| v in adj[top.1] && (top.1, v) !in dist;
        assert HasEdge(graph.adjList, top.1, v);
        return WeightMissing;
      }
      side := step.side;
      first := false;
      n := n - 1;
    }
    if side.open == multiset{} {
      return NoRoute;
    }
    return OutOfFuel;
  }

  /** What one half of a round of the simple `BiAStar` answers: the route
      `constructPath` builds, a failure, or the new side and the node popped. */
  datatype Half = Met(path: seq<Node>) | Stopped(outcome: Outcome) | Moved(side: Side, cur: Node)

  /** The route of a meeting: a joined path whose junction pair is the meeting
      node twice. */
  ghost predicate Meets(adj: Adjacency, rev: Adjacency, dist: Weights, p: seq<Node>, start: Node, goal: Node) {
    exists j :: Joined(adj, rev, dist, p, start, goal, j) && p[j] == p[j + 1]
  }

  /** The forward half of a round: pop from `openSetStart`, meet if the node
      is `current_goal`, otherwise expand it along `adjList`. */
  method ForwardHalf(adj: Adjacency, rev: Adjacency, dist: Weights, fwd: Side, bwd: Side, metric: Metric, start: Node, goal: Node, curGoal: Node,
                     ghost keyS: map<Node, Key>, ghost clockS: nat, ghost keyG: map<Node, Key>, ghost clockG: nat)
    returns (res: Half, ghost keyS': map<Node, Key>, ghost clockS': nat)
    requires NonNegative(dist) && fwd.open != multiset{}
    requires Inv(fwd, start, adj, dist, false, keyS, clockS)
    requires Inv(bwd, goal, rev, dist, true, keyG, clockG)
    requires fwd.g.Keys == adj.Keys && curGoal in keyG
    ensures res.Met? ==> Meets(adj, rev, dist, res.path, start, goal)
    ensures res.Stopped? ==> res.outcome == WeightMissing && Unweighted(adj, dist)
    ensures res.Moved? ==> Inv(res.side, start, adj, dist, false, keyS', clockS')
    ensures res.Moved? ==> res.side.g.Keys == adj.Keys && res.cur in keyS' && res.cur != curGoal
    ensures fwd.open == multiset{(0.0, start)} && fwd.cameFrom == map[] && bwd.cameFrom == map[] && start == curGoal
            ==> res == Met([start, start])
  {
    var top, met, step;
    top, met, step, keyS', clockS' := Turn(fwd, adj, dist, false, v => Distance(metric, v, goal), curGoal, start, keyS, clockS);
    var cur := top.1;
    if met {
      var path, j := Meet(adj, rev, dist, fwd, bwd, start, goal, keyS, clockS, keyG, clockG, cur, curGoal);
      return Met(path), keyS', clockS';
    }
    if step.NoWeight? {
      var v :| v in adj[cur] && (cur, v) !in dist;
      assert HasEdge(adj, cur, v);
      return Stopped(WeightMissing), keyS', clockS';
    }
    res := Moved(step.side, cur);
  }

  /** The reverse half: pop from `openSetGoal`, meet if the node is
      `current_start`, otherwise expand it along `rev_adjList`, which throws
      for a node without an entry there; only the goal can be one. */
  method ReverseHalf(adj: Adjacency, rev: Adjacency, dist: Weights, fwd: Side, bwd: Side, metric: Metric, start: Node, goal: Node, curStart: Node,
                     ghost keyS: map<Node, Key>, ghost clockS: nat, ghost keyG: map<Node, Key>, ghost clockG: nat)
    returns (res: Half, ghost keyG': map<Node, Key>, ghost clockG': nat)
    requires NonNegative(dist) && bwd.open != multiset{}
    requires Inv(fwd, start, adj, dist, false, keyS, clockS)
    requires Inv(bwd, goal, rev, dist, true, keyG, clockG)
    requires bwd.g.Keys == rev.Keys + {goal} && curStart in keyS
    ensures res.Met? ==> Meets(adj, rev, dist, res.path, start, goal)
    ensures res.Stopped? ==>
      || (res.outcome == WeightMissing && RevUnweighted(rev, dist))
      || (res.outcome == NeighborsMissing && goal !in rev)
    ensures res.Moved? ==> Inv(res.side, goal, rev, dist, true, keyG', clockG')
    ensures res.Moved? ==> res.side.g.Keys == rev.Keys + {goal} && res.cur in keyG'
  {
    var top, met, step;
    top, met, step, keyG', clockG' := Turn(bwd, rev, dist, true, v => Distance(metric, v, start), curStart, goal, keyG, clockG);
    var cur := top.1;
    if met {
      var path, j := Meet(adj, rev, dist, fwd, bwd, start, goal, keyS, clockS, keyG, clockG, curStart, cur);
      return Met(path), keyG', clockG';
    }
    if step.NoNeighbors? {
      assert cur in bwd.g;
      return Stopped(NeighborsMissing), keyG', clockG';
    }
    if step.NoWeight? {
      var u :| u in rev[cur] && (u, cur) !in dist;
      assert HasEdge(rev, cur, u);
      return Stopped(WeightMissing), keyG', clockG';
    }
    res := Moved(step.side, cur);
  }

  /** What a round of the simple `BiAStar` leaves: an answer, or both new
      sides with the nodes they popped. */
  datatype Round = Done(outcome: Outcome) | Next(fwd: Side, bwd: Side, curStart: Node, curGoal: Node)

  /** The two sides as `BiAStar` starts them, before any node is popped. */
  predicate Opening(fwd: Side, bwd: Side, start: Node, goal: Node, curGoal: Node) {
    && fwd.open == multiset{(0.0, start)} && bwd.open == multiset{(0.0, goal)}
    && fwd.cameFrom == map[] && bwd.cameFrom == map[] && curGoal == goal
  }

  /** One round of the simple `BiAStar`: the forward half, then, unless that
      answered, the reverse half against the new forward side. */
  method PlayRound(adj: Adjacency, rev: Adjacency, dist: Weights, fwd: Side, bwd: Side, metric: Metric, start: Node, goal: Node, curGoal: Node,
                   ghost keyS: map<Node, Key>, ghost clockS: nat, ghost keyG: map<Node, Key>, ghost clockG: nat)
    returns (res: Round, ghost keyS': map<Node, Key>, ghost clockS': nat, ghost keyG': map<Node, Key>, ghost clockG': nat)
    requires NonNegative(dist) && fwd.open != multiset{} && bwd.open != multiset{}
    requires Inv(fwd, start, adj, dist, false, keyS, clockS) && fwd.g.Keys == adj.Keys
    requires Inv(bwd, goal, rev, dist, true, keyG, clockG)
    requires bwd.g.Keys == rev.Keys + {goal} && curGoal in keyG
    ensures res.Done? ==> res.outcome != EndpointMissing
    ensures res.Done? && res.outcome.Route? ==>
              Meets(adj, rev, dist, res.outcome.path, start, goal)
    ensures res.Done? && res.outcome == WeightMissing ==>
              Unweighted(adj, dist) || RevUnweighted(rev, dist)
    ensures res.Done? && res.outcome == NeighborsMissing ==> goal !in rev
    ensures res.Next? ==> Inv(res.fwd, start, adj, dist, false, keyS', clockS')
    ensures res.Next? ==> Inv(res.bwd, goal, rev, dist, true, keyG', clockG')
    ensures res.Next? ==> res.fwd.g.Keys == adj.Keys && res.bwd.g.Keys == rev.Keys + {goal}
    ensures res.Next? ==> res.curStart in keyS' && res.curGoal in keyG'
    ensures Opening(fwd, bwd, start, goal, curGoal) && start == goal ==> res == Done(Route([start, start]))
  {
    var half;
    keyG', clockG' := keyG, clockG;
    half, keyS', clockS' := ForwardHalf(adj, rev, dist, fwd, bwd, metric, start, goal, curGoal, keyS, clockS, keyG, clockG);
    if half.Met? {
      return Done(Route(half.path)), keyS', clockS', keyG', clockG';
    } else if half.Stopped? {
      return Done(half.outcome), keyS', clockS', keyG', clockG';
    }
    var fwd', curStart := half.side, half.cur;
    half, keyG', clockG' := ReverseHalf(adj, rev, dist, fwd', bwd, metric, start, goal, curStart, keyS', clockS', keyG, clockG);
    if half.Met? {
      return Done(Route(half.path)), keyS', clockS', keyG', clockG';
    } else if half.Stopped? {
      return Done(half.outcome), keyS', clockS', keyG', clockG';
    }
    res := Next(fwd', half.side, curStart, half.cur);
  }

  /** The rounds of the simple `BiAStar` from its opening sides, at most
      `fuel` of them. */
  method Rounds(adj: Adjacency, rev: Adjacency, dist: Weights, metric: Metric, start: Node, goal: Node,
                fwd0: Side, bwd0: Side, fuel: nat)
    returns (r: Outcome)
    requires NonNegative(dist)
    requires Inv(fwd0, start, adj, dist, false, map[start := (0.0, 0)], 1) && fwd0.g.Keys == adj.Keys
    requires Inv(bwd0, goal, rev, dist, true, map[goal := (0.0, 0)], 1) && bwd0.g.Keys == rev.Keys + {goal}
    requires Opening(fwd0, bwd0, start, goal, goal)
    ensures r != EndpointMissing
    ensures r.Route? ==> Meets(adj, rev, dist, r.path, start, goal)
    ensures r == WeightMissing ==> Unweighted(adj, dist) || RevUnweighted(rev, dist)
    ensures r == NeighborsMissing ==> goal !in rev
    ensures start == goal && fuel > 0 ==> r == Route([start, start])
  {
    var fwd, bwd := fwd0, bwd0;
    ghost var keyS: map<Node, Key>, clockS: nat := map[start := (0.0, 0)], 1;
    ghost var keyG: map<Node, Key>, clockG: nat := map[goal := (0.0, 0)], 1;
    var curGoal := goal;
    ghost var first := true;
    var n := fuel;
    while n > 0 && fwd.open != multiset{} && bwd.open != multiset{}
      invariant Inv(fwd, start, adj, dist, false, keyS, clockS) && fwd.g.Keys == adj.Keys
      invariant Inv(bwd, goal, rev, dist, true, keyG, clockG) && bwd.g.Keys == rev.Keys + {goal}
      invariant curGoal in keyG
      invariant first ==> n == fuel && Opening(fwd, bwd, start, goal, curGoal)
      invariant !first ==> start != goal
    {
      var round;
      round, keyS, clockS, keyG, clockG := PlayRound(adj, rev, dist, fwd, bwd, metric, start, goal, curGoal, keyS, clockS, keyG, clockG);
      if round.Done? {
        return round.outcome;
      }
      fwd, bwd, curGoal := round.fwd, round.bwd, round.curGoal;
      first := false;
      n := n - 1;
    }
    if fwd.open == multiset{} || bwd.open == multiset{} {
      return NoRoute;
    }
    return OutOfFuel;
  }

  /** The simple `BiAStar`: each round pops and expands one node forward from
      `start` and then one node backward from `goal`, and answers
      `constructPath` as soon as the node just popped is the node the other
      direction popped last. The meeting node therefore appears twice in a
      row; `start == goal` gives `[start, start]`. */
  method BiAStar(graph: Graph, metric: Metric, start: Node, goal: Node, fuel: nat) returns (r: Outcome)
    requires NonNegative(graph.distances)
    ensures r == EndpointMissing <==> !graph.ContainsNode(start) || !graph.ContainsNode(goal)
    ensures r.Route? ==> Meets(graph.adjList, graph.revAdjList, graph.distances, r.path, start, goal)
    ensures r == WeightMissing ==> Unweighted(graph.adjList, graph.distances) || RevUnweighted(graph.revAdjList, graph.distances)
    ensures r == NeighborsMissing ==> goal !in graph.revAdjList
    ensures start == goal && fuel > 0 && graph.ContainsNode(start) ==> r == Route([start, start])
  {
    if !graph.ContainsNode(start) || !graph.ContainsNode(goal) {
      return EndpointMissing;
    }
    var adj, rev, dist := graph.adjList, graph.revAdjList, graph.distances;
    var fwd := StartSide(adj.Keys, start, Distance(metric, start, goal), 0.0);
    var bwd := StartSide(rev.Keys, goal, Distance(metric, goal, start), 0.0);
    StartInv(fwd, start, adj, dist, false, 0.0);
    StartInv(bwd, goal, rev, dist, true, 0.0);
    r := Rounds(adj, rev, dist, metric, start, goal, fwd, bwd, fuel);
  }
}
