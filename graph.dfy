/**
 * graph.py: PlayersGraph, a graph of one frame that its stages mutate in a fixed order, and
 * create_graph_from_dataset, which builds one such graph per row.
 *
 * The networkx graph is modelled by three fields: the node ids in insertion order, the node
 * attributes, and the edge weights keyed by unordered node pair.
 */
module Graph {
  import opened Wrappers
  import opened Geometry
  import opened Forests
  import opened Frames
  import opened GraphModel
  import C = Constants

  class PlayersGraph {
    const inputData: Frame
    const teamList: seq<Value>
    var order: seq<int>
    var nodes: map<int, NodeData>
    var edges: map<Pair, Distance>
    var pointBall: Option<Point>
    var distanceRim: Option<Distance>
    var playerWithBall: Option<int>
    var teamPossession: Option<Value>

    /**
     * The insertion order lists each node once (as many entries as nodes, and the same ones);
     * every edge joins two nodes and weighs their distance; once the ball's point is recorded,
     * the ball node stands on it.
     */
    ghost predicate Valid()
      reads this
    {
      && |order| == |nodes|
      && (forall n :: n in nodes <==> n in order)
      && (forall e :: e in edges ==> e.lo <= e.hi)
      && Geometric(nodes, edges)
      && (pointBall.Some? ==> C.IndexBall in nodes && nodes[C.IndexBall].pos == pointBall.value)
    }

    /** The insertion order has no repeated node. */
    lemma OrderDistinct()
      requires Valid()
      ensures Distinct(order)
    {
      var elements := set x | x in order;
      forall x
        ensures x in elements <==> x in nodes.Keys
      {
        assert x in nodes <==> x in order;
      }
      assert elements == nodes.Keys;
      assert |nodes.Keys| == |nodes|;
      DistinctOfCount(order);
    }

    /** nx.Graph(PG): the nodes, their attributes and the weighted edges. */
    function Snapshot(): FrameGraph
      reads this
    {
      FrameGraph(order, nodes, edges)
    }

    constructor (inputData: Frame, teamList: seq<Value>)
      ensures Valid()
      ensures this.inputData == inputData && this.teamList == teamList
      ensures order == [] && nodes == map[] && edges == map[]
      ensures pointBall.None? && distanceRim.None? && playerWithBall.None? && teamPossession.None?
    {
      this.inputData := inputData;
      this.teamList := teamList;
      order, nodes, edges := [], map[], map[];
      pointBall, distanceRim, playerWithBall, teamPossession := None, None, None, None;
    }

    /** add_node of a new node: it goes to the end of the insertion order. */
    method AddNode(n: int, data: NodeData)
      requires Valid() && n !in nodes
      modifies this`order, this`nodes
      ensures Valid()
      ensures order == old(order) + [n] && nodes == old(nodes)[n := data]
    {
      order := order + [n];
      nodes := nodes[n := data];
    }

    /** add_edge between two nodes, weighted by their distance; an existing edge {u, v} is overwritten. */
    method AddEdge(u: int, v: int, w: Distance)
      requires Valid() && u in nodes && v in nodes && w == EuclideanDistance(nodes[u].pos, nodes[v].pos)
      modifies this`edges
      ensures Valid()
      ensures edges == old(edges)[Key(u, v) := w]
    {
      DistanceSymmetric(nodes[u].pos, nodes[v].pos);
      edges := edges[Key(u, v) := w];
    }

    /**
     * create_nodes: nodes 0..9 in order, node k with the player{k+1}_* fields. A missing column
     * stops it with a KeyError after the nodes before that player.
     */
    method CreateNodes() returns (outcome: Outcome<Failure>)
      requires Valid() && order == [] && nodes == map[] && edges == map[]
      modifies this`order, this`nodes
      ensures Valid() && edges == map[]
      ensures outcome == if PlayerNodes(inputData).Ok? then Pass else Fail(PlayerNodes(inputData).error)
      ensures order == Range(FirstUnreadable(inputData, 0))
      ensures forall k :: k in nodes ==> PlayerData(inputData, k) == Ok(nodes[k])
      ensures outcome.Pass? ==> nodes == PlayerNodes(inputData).value
    {
      var player := 0;
      while player < C.PlayerCount
        invariant 0 <= player <= C.PlayerCount
        invariant Valid() && edges == map[]
        invariant player <= FirstUnreadable(inputData, 0)
        invariant order == Range(player)
        invariant forall k :: k in nodes ==> PlayerData(inputData, k) == Ok(nodes[k])
      {
        var data := PlayerData(inputData, player);
        if data.Err? {
          assert FirstUnreadable(inputData, 0) == player;
          return Fail(data.error);
        }
        ReadablePast(inputData, player);
        AddNode(player, data.value);
        player := player + 1;
      }
      PlayerNodesOfAll(inputData, nodes);
      return Pass;
    }

    /**
     * _create_combinations_bw_players: for each listed team in turn, the nodes whose team equals
     * it, then every pair of them with their distance.
     */
    method CombinationsBwPlayers() returns (listEdges: seq<WeightedEdge>)
      requires Valid()
      ensures listEdges == CandidateList(order, nodes, teamList)
    {
      listEdges := [];
      for t := 0 to |teamList|
        invariant listEdges == CandidateList(order, nodes, teamList[..t])
      {
        var filtered := NodesOfTeam(order, nodes, teamList[t]);
        var pairs := WeightedPairs(filtered, nodes);
        listEdges := listEdges + pairs;
        assert teamList[..t + 1][..t] == teamList[..t];
      }
      assert teamList[..|teamList|] == teamList;
    }

    /** _create_edges_in_graph: add_edge for each entry, in list order. */
    method CreateEdgesInGraph(listEdges: seq<WeightedEdge>)
      requires Valid() && forall e :: e in listEdges ==> Fits(nodes, e)
      modifies this`edges
      ensures Valid()
      ensures edges == AddEdges(old(edges), listEdges)
    {
      for i := 0 to |listEdges|
        invariant Valid() && edges == AddEdges(old(edges), listEdges[..i])
      {
        var e := listEdges[i];
        assert Fits(nodes, e);
        AddEdge(e.u, e.v, e.w);
        assert listEdges[..i + 1][..i] == listEdges[..i];
      }
      assert listEdges[..|listEdges|] == listEdges;
    }

    /** create_edges_bw_players: the same-team candidate edges are added to the graph. */
    method CreateEdgesBwPlayers()
      requires Valid()
      modifies this`edges
      ensures Valid()
      ensures edges == AddEdges(old(edges), CandidateList(order, nodes, teamList))
    {
      var listEdges := CombinationsBwPlayers();
      OrderDistinct();
      CandidateListSound(order, nodes, teamList);
      CreateEdgesInGraph(listEdges);
    }

    /**
     * keep_shortest_path: the edges are replaced by a minimum spanning forest of the graph
     * (Kruskal's algorithm); the nodes and their attributes stay as they are.
     */
    method KeepShortestPath()
      requires Valid()
      modifies this`edges
      ensures Valid()
      ensures MinimumSpanningForestOf(nodes.Keys, old(edges), edges)
    {
      var forest := MinimumSpanningForest(nodes.Keys, edges);
      edges := forest;
    }

    /**
     * add_ball_node: records the ball's point and adds node 10 there, with name -1 and team -1;
     * a missing ball coordinate raises KeyError before anything changes.
     */
    method AddBallNode() returns (outcome: Outcome<Failure>)
      requires Valid() && C.IndexBall !in nodes && pointBall.None?
      modifies this`order, this`nodes, this`pointBall
      ensures Valid()
      ensures outcome == if BallPoint(inputData).Ok? then Pass else Fail(BallPoint(inputData).error)
      ensures outcome.Fail? ==> order == old(order) && nodes == old(nodes) && pointBall == old(pointBall)
      ensures outcome.Pass? ==> (pointBall == Some(BallPoint(inputData).value)
        && order == old(order) + [C.IndexBall] && nodes == old(nodes)[C.IndexBall := BallNode(pointBall.value)])
    {
      var ball := BallPoint(inputData);
      if ball.Err? {
        return Fail(ball.error);
      }
      AddNode(C.IndexBall, BallNode(ball.value));
      pointBall := Some(ball.value);
      return Pass;
    }

    /** _create_possible_edges_bw_ball_players: [node, 10, distance to the ball] for each other node, in node order. */
    method CreatePossibleEdgesBwBallPlayers() returns (cands: seq<WeightedEdge>)
      requires Valid() && pointBall.Some?
      ensures cands == BallCandidates(order, nodes, pointBall.value)
    {
      cands := [];
      for i := 0 to |order|
        invariant cands == BallCandidates(order[..i], nodes, pointBall.value)
      {
        var node := order[i];
        assert order[..i + 1][..i] == order[..i];
        if node != C.IndexBall {
          cands := cands + [WeightedEdge(node, C.IndexBall, EuclideanDistance(pointBall.value, nodes[node].pos))];
        }
      }
      assert order[..|order|] == order;
    }

    /**
     * add_closest_player_to_ball_edge: the ball is joined to the first candidate at the least
     * distance; with no candidate, iloc[0] raises IndexError.
     */
    method AddClosestPlayerToBallEdge() returns (outcome: Outcome<Failure>)
      requires Valid() && pointBall.Some?
      modifies this`edges
      ensures Valid()
      ensures var cands := BallCandidates(old(order), old(nodes), old(pointBall).value);
        && (outcome.Fail? <==> cands == [])
        && (outcome.Fail? ==> outcome.error == IndexError && edges == old(edges))
        && (outcome.Pass? ==> var c := cands[FirstMinimum(Squares(cands))]; edges == old(edges)[Key(c.u, c.v) := c.w])
    {
      var cands := CreatePossibleEdgesBwBallPlayers();
      if |cands| == 0 {
        return Fail(IndexError);
      }
      var k := ClosestCandidate(cands);
      FirstMinimumUnique(Squares(cands), k);
      var c := cands[k];
      assert c in cands;
      DistanceSymmetric(pointBall.value, nodes[c.u].pos);
      AddEdge(c.u, c.v, c.w);
      return Pass;
    }

    /** add_baskets: nodes 11 and 12 at the fixed basket positions, names -2 and -3, team -1. */
    method AddBaskets()
      requires Valid() && C.IndexBasket1 !in nodes && C.IndexBasket2 !in nodes
      modifies this`order, this`nodes
      ensures Valid()
      ensures order == old(order) + [C.IndexBasket1, C.IndexBasket2]
      ensures nodes == old(nodes)[C.IndexBasket1 := Basket1Node][C.IndexBasket2 := Basket2Node]
    {
      AddNode(C.IndexBasket1, Basket1Node);
      AddNode(C.IndexBasket2, Basket2Node);
    }

    /**
     * add_edges_ball_basket: distance_rim is the smaller ball-basket distance, and the ball is
     * joined to basket 1 if it is strictly nearer, to basket 2 otherwise.
     */
    method AddEdgesBallBasket()
      requires Valid() && pointBall.Some?
      requires C.IndexBasket1 in nodes && nodes[C.IndexBasket1].pos == Basket1Node.pos
      requires C.IndexBasket2 in nodes && nodes[C.IndexBasket2].pos == Basket2Node.pos
      modifies this`edges, this`distanceRim
      ensures Valid()
      ensures distanceRim == Some(DistanceRim(pointBall.value))
      ensures edges == old(edges)[BasketEdge(pointBall.value).0 := BasketEdge(pointBall.value).1]
    {
      var weightBasket1 := EuclideanDistance(pointBall.value, Basket1Node.pos);
      var weightBasket2 := EuclideanDistance(pointBall.value, Basket2Node.pos);
      distanceRim := Some(MinDistance(weightBasket1, weightBasket2));
      if Shorter(weightBasket1, weightBasket2) {
        AddEdge(C.IndexBall, C.IndexBasket1, weightBasket1);
      } else {
        AddEdge(C.IndexBall, C.IndexBasket2, weightBasket2);
      }
    }

    /**
     * set_posession_team: player_w_ball is the first node the edge view pairs with the ball, and
     * team_possession is that player's team column. No such edge raises IndexError; a missing
     * team column raises KeyError after player_w_ball is set.
     */
    method SetPosessionTeam() returns (outcome: Outcome<Failure>)
      requires Valid()
      modifies this`playerWithBall, this`teamPossession
      ensures var p := BallNeighbour(order, edges);
        && (p.None? ==> outcome == Fail(IndexError) && playerWithBall == old(playerWithBall))
        && (p.Some? ==> playerWithBall == p)
        && (p.Some? && Has(inputData, Team(PlayerActor(p.value))) ==>
              outcome == Pass && teamPossession == Some(inputData.teams[PlayerActor(p.value)]))
        && (p.Some? && !Has(inputData, Team(PlayerActor(p.value))) ==>
              outcome == Fail(KeyError(Team(PlayerActor(p.value)))))
      ensures outcome.Fail? ==> teamPossession == old(teamPossession)
    {
      var i := 0;
      while i < |order| && Key(order[i], C.IndexBall) !in edges && order[i] != C.IndexBall
        invariant 0 <= i <= |order|
        invariant BallNeighbour(order[i..], edges) == BallNeighbour(order, edges)
      {
        assert order[i..][1..] == order[i + 1..];
        i := i + 1;
      }
      if i == |order| || Key(order[i], C.IndexBall) !in edges {
        return Fail(IndexError);
      }
      playerWithBall := Some(order[i]);
      var column := Team(PlayerActor(order[i]));
      if column.actor !in inputData.teams {
        return Fail(KeyError(column));
      }
      teamPossession := Some(inputData.teams[column.actor]);
      return Pass;
    }

    /** create_nodes, create_edges_bw_players and keep_shortest_path on a fresh graph. */
    method PlayerStages() returns (outcome: Outcome<Failure>)
      requires Valid() && order == [] && nodes == map[] && edges == map[]
      requires pointBall.None?
      modifies this`order, this`nodes, this`edges
      ensures Valid() && pointBall.None?
      ensures outcome == if PlayerNodes(inputData).Ok? then Pass else Fail(PlayerNodes(inputData).error)
      ensures outcome.Pass? ==>
        (&& order == Range(C.PlayerCount)
         && nodes == PlayerNodes(inputData).value
         && MinimumSpanningForestOf(nodes.Keys, CandidateGraph(Range(C.PlayerCount), nodes, teamList), edges)
         && forall e :: e in edges ==> e.hi < C.IndexBall)
    {
      outcome := CreateNodes();
      if outcome.Fail? {
        return;
      }
      IdsMembers(C.PlayerCount);
      assert order == Range(C.PlayerCount);
      CreateEdgesBwPlayers();
      KeepShortestPath();
    }

    /** add_ball_node and add_closest_player_to_ball_edge after the players' stages. */
    method BallStages() returns (outcome: Outcome<Failure>)
      requires Valid() && pointBall.None?
      requires order == Range(C.PlayerCount) && forall k :: k in nodes <==> 0 <= k < C.PlayerCount
      modifies this`order, this`nodes, this`edges, this`pointBall
      ensures Valid()
      ensures outcome == if BallPoint(inputData).Ok? then Pass else Fail(BallPoint(inputData).error)
      ensures outcome.Pass? ==>
        (&& pointBall == Some(BallPoint(inputData).value)
         && order == Range(C.PlayerCount) + [C.IndexBall]
         && nodes == old(nodes)[C.IndexBall := BallNode(pointBall.value)]
         && var p := FirstMinimum(PlayerSquares(old(nodes), pointBall.value));
            edges == old(edges)[Key(p, C.IndexBall) := EuclideanDistance(pointBall.value, old(nodes)[p].pos)])
    {
      outcome := AddBallNode();
      if outcome.Fail? {
        return;
      }
      ClosestAfterPlayers(old(nodes), pointBall.value);
      outcome := AddClosestPlayerToBallEdge();
      assert outcome.Pass?;
    }

    /** add_baskets and add_edges_ball_basket once the ball is placed. */
    method BasketStages()
      requires Valid() && pointBall.Some?
      requires C.IndexBasket1 !in nodes && C.IndexBasket2 !in nodes
      modifies this`order, this`nodes, this`edges, this`pointBall, this`distanceRim
      ensures Valid()
      ensures order == old(order) + [C.IndexBasket1, C.IndexBasket2]
      ensures nodes == old(nodes)[C.IndexBasket1 := Basket1Node][C.IndexBasket2 := Basket2Node]
      ensures edges == old(edges)[BasketEdge(old(pointBall).value).0 := BasketEdge(old(pointBall).value).1]
      ensures pointBall == old(pointBall)
    {
      AddBaskets();
      AddEdgesBallBasket();
    }

    /** get_posession_team: the team recorded by set_posession_team. */
    method GetPosessionTeam() returns (team: Value)
      requires teamPossession.Some?
      ensures team == teamPossession.value
    {
      team := teamPossession.value;
    }
  }

  /**
   * The row add_closest_player_to_ball_edge picks: weight.min() in a first pass, then the first
   * row whose weight equals it (iloc[0]).
   */
  method ClosestCandidate(cands: seq<WeightedEdge>) returns (k: nat)
    requires |cands| > 0
    ensures IsFirstMinimum(Squares(cands), k)
  {
    var least := cands[0].w.square;
    for i := 1 to |cands|
      invariant forall j :: 0 <= j < i ==> least <= cands[j].w.square
      invariant exists j :: 0 <= j < i && least == cands[j].w.square
    {
      if cands[i].w.square < least {
        least := cands[i].w.square;
      }
    }
    k := 0;
    while cands[k].w.square != least
      invariant 0 <= k < |cands|
      invariant forall j :: 0 <= j < k ==> cands[j].w.square != least
      invariant exists j :: k <= j < |cands| && least == cands[j].w.square
      decreases |cands| - k
    {
      k := k + 1;
    }
  }

  /** itertools.combinations(ms, 2), each pair (a, b) with the distance from a to b. */
  method WeightedPairs(ms: seq<int>, nodes: map<int, NodeData>) returns (pairs: seq<WeightedEdge>)
    requires forall j :: 0 <= j < |ms| ==> ms[j] in nodes
    ensures pairs == Combinations(ms, nodes)
  {
    pairs := [];
    for a := 0 to |ms|
      invariant pairs + Combinations(ms[a..], nodes) == Combinations(ms, nodes)
    {
      var links := WeightedLinks(ms[a], ms[a + 1..], nodes);
      assert ms[a..][1..] == ms[a + 1..];
      pairs := pairs + links;
    }
  }

  /** The pairs (u, v) for each v of vs, in order, each with the distance from u to v. */
  method WeightedLinks(u: int, vs: seq<int>, nodes: map<int, NodeData>) returns (links: seq<WeightedEdge>)
    requires u in nodes && forall j :: 0 <= j < |vs| ==> vs[j] in nodes
    ensures links == Links(u, vs, nodes)
  {
    links := [];
    for b := 0 to |vs|
      invariant links == Links(u, vs[..b], nodes)
    {
      LinksSnoc(u, vs[..b], vs[b], nodes);
      assert vs[..b + 1] == vs[..b] + [vs[b]];
      links := links + [WeightedEdge(u, vs[b], EuclideanDistance(nodes[u].pos, nodes[vs[b]].pos))];
    }
    assert vs[..|vs|] == vs;
  }

  /** The nodes, in order, whose team attribute equals team. */
  method NodesOfTeam(order: seq<int>, nodes: map<int, NodeData>, team: Value) returns (filtered: seq<int>)
    requires forall n :: n in order ==> n in nodes
    ensures filtered == Members(order, nodes, team)
    ensures forall j :: 0 <= j < |filtered| ==> filtered[j] in nodes
  {
    filtered := [];
    for i := 0 to |order|
      invariant filtered == Members(order[..i], nodes, team)
    {
      assert order[..i + 1][..i] == order[..i];
      var n := order[i];
      assert n in order;
      if Matches(nodes[n].team, team) {
        filtered := filtered + [n];
      }
    }
    assert order[..|order|] == order;
    forall j | 0 <= j < |filtered|
      ensures filtered[j] in nodes
    {
      assert filtered[j] in filtered;
    }
  }

  /**
   * One iteration of create_graph_from_dataset: the stages in order on a fresh PlayersGraph,
   * then the nx.Graph copy. The KeyError of create_nodes or add_ball_node ends it.
   */
  method BuildFrameGraph(frame: Frame, teams: seq<Value>) returns (r: Result<FrameGraph, Failure>)
    ensures r.Err? <==> FrameFailure(frame).Some?
    ensures r.Err? ==> r.error == FrameFailure(frame).value
    ensures r.Ok? ==> FrameFailure(frame).None? && IsFrameGraph(frame, teams, r.value)
  {
    var graph := new PlayersGraph(frame, teams);
    var outcome := graph.PlayerStages();
    if outcome.Fail? {
      return Err(outcome.error);
    }
    ghost var players, forest := graph.nodes, graph.edges;
    IdsMembers(C.PlayerCount);
    r := FinishFrameGraph(graph);
    if r.Ok? {
      FrameGraphOfStages(frame, teams, forest, r.value);
    }
  }

  /** The stages from add_ball_node on, once the players' stages have succeeded. */
  method FinishFrameGraph(graph: PlayersGraph) returns (r: Result<FrameGraph, Failure>)
    requires graph.Valid() && graph.pointBall.None?
    requires graph.order == Range(C.PlayerCount) && forall k :: k in graph.nodes <==> 0 <= k < C.PlayerCount
    modifies graph
    ensures r.Err? <==> BallPoint(graph.inputData).Err?
    ensures r.Err? ==> r.error == BallPoint(graph.inputData).error
    ensures r.Ok? ==> var ball := BallPoint(graph.inputData).value;
      var p := FirstMinimum(PlayerSquares(old(graph.nodes), ball));
      && r.value.order == Range(13)
      && r.value.nodes == old(graph.nodes)[C.IndexBall := BallNode(ball)][C.IndexBasket1 := Basket1Node][C.IndexBasket2 := Basket2Node]
      && r.value.edges == old(graph.edges)[Key(p, C.IndexBall) := EuclideanDistance(ball, old(graph.nodes)[p].pos)]
           [BasketEdge(ball).0 := BasketEdge(ball).1]
  {
    var outcome := graph.BallStages();
    if outcome.Fail? {
      return Err(outcome.error);
    }
    graph.BasketStages();
    FrameOrder();
    return Ok(graph.Snapshot());
  }

  /**
   * The team list create_graph_from_dataset reads from the first row, player2_team then
   * player9_team; an empty dataset has no first row (IndexError).
   */
  function DatasetTeams(data: seq<Frame>): (r: Result<seq<Value>, Failure>)
    ensures r.Ok? <==> data != [] && Has(data[0], Team(Player(2))) && Has(data[0], Team(Player(9)))
    ensures r.Ok? ==> r.value == [data[0].teams[Player(2)], data[0].teams[Player(9)]]
    ensures data == [] ==> r == Err(IndexError)
    ensures data != [] && !Has(data[0], Team(Player(2))) ==> r == Err(KeyError(Team(Player(2))))
    ensures data != [] && Has(data[0], Team(Player(2))) && !Has(data[0], Team(Player(9))) ==>
      r == Err(KeyError(Team(Player(9))))
  {
    if data == [] then Err(IndexError)
    else if Player(2) !in data[0].teams then Err(KeyError(Team(Player(2))))
    else if Player(9) !in data[0].teams then Err(KeyError(Team(Player(9))))
    else Ok([data[0].teams[Player(2)], data[0].teams[Player(9)]])
  }

  /**
   * create_graph_from_dataset: one graph per row, in row order, all with the first row's team
   * list; the first row whose graph cannot be built ends it with that row's exception.
   */
  method CreateGraphFromDataset(data: seq<Frame>) returns (r: Result<seq<FrameGraph>, Failure>)
    ensures DatasetTeams(data).Err? ==> r == Err(DatasetTeams(data).error)
    ensures DatasetTeams(data).Ok? ==>
      (r.Ok? <==> forall i :: 0 <= i < |data| ==> FrameFailure(data[i]).None?)
    ensures DatasetTeams(data).Ok? && r.Err? ==>
      exists i :: 0 <= i < |data| && FrameFailure(data[i]) == Some(r.error)
        && forall j :: 0 <= j < i ==> FrameFailure(data[j]).None?
    ensures r.Ok? ==> DatasetTeams(data).Ok? && GraphsOf(data, DatasetTeams(data).value, r.value)
    ensures r.Ok? ==> forall i :: 0 <= i < |data| && TwoTeamsOfFive(data[i], DatasetTeams(data).value) ==>
      (|r.value[i].nodes| == 13 && |r.value[i].edges| == 10)
  {
    var teams := DatasetTeams(data);
    if teams.Err? {
      return Err(teams.error);
    }
    var savedGraphs: seq<FrameGraph> := [];
    for i := 0 to |data|
      invariant |savedGraphs| == i && GraphsUpTo(data, teams.value, savedGraphs)
    {
      var g := BuildFrameGraph(data[i], teams.value);
      if g.Err? {
        assert forall j :: 0 <= j < i ==> FrameFailure(data[j]).None?;
        return Err(g.error);
      }
      GraphsUpToSnoc(data, teams.value, savedGraphs, g.value);
      savedGraphs := savedGraphs + [g.value];
    }
    GraphsOfCounts(data, teams.value, savedGraphs);
    return Ok(savedGraphs);
  }
}
