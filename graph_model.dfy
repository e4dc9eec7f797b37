/**
 * The values behind graph.py's PlayersGraph and what each of its stages computes from one
 * frame of tracking data: the player nodes (create_nodes), the same-team candidate edges
 * (_create_combinations_bw_players), the edge map they are added to (_create_edges_in_graph),
 * the ball's candidate edges and the nearest player (add_closest_player_to_ball_edge), the
 * ball-to-basket edge (add_edges_ball_basket) and the ball's neighbour (set_posession_team).
 *
 * Node ids: players 0 to 9 (node k is described by the columns player{k+1}_*), the ball 10,
 * the baskets 11 and 12.
 */
module GraphModel {
  import opened Wrappers
  import opened Geometry
  import opened Forests
  import opened Frames
  import C = Constants

  /** The attributes of a node: name, position (x, y) and team. */
  datatype NodeData = NodeData(name: Value, pos: Point, team: Value)

  /** One entry [node1, node2, weight] of an edge list. */
  datatype WeightedEdge = WeightedEdge(u: int, v: int, w: Distance)

  /** What nx.Graph(PG) copies: the nodes in insertion order with their attributes, and the weighted edges. */
  datatype FrameGraph = FrameGraph(order: seq<int>, nodes: map<int, NodeData>, edges: map<Pair, Distance>)

  /** The node ids 0, 1, ..., n - 1. */
  function Range(n: nat): seq<int> {
    seq(n, i => i)
  }

  /** The next id goes at the end. */
  lemma RangeSnoc(n: nat)
    ensures Range(n) + [n] == Range(n + 1)
  {
  }

  /** The players, then the ball, then the two baskets: the ids 0..12 in order. */
  lemma FrameOrder()
    ensures Range(C.PlayerCount) + [C.IndexBall] + [C.IndexBasket1, C.IndexBasket2] == Range(13)
  {
    RangeSnoc(10);
    RangeSnoc(11);
    RangeSnoc(12);
    assert Range(11) + [11, 12] == Range(11) + [11] + [12];
  }

  predicate Distinct(s: seq<int>) {
    forall i, j :: 0 <= i < j < |s| ==> s[i] != s[j]
  }

  /** The set of the ids 0, 1, ..., n - 1. */
  function Ids(n: nat): set<int> {
    set k | k in Range(n)
  }

  lemma {:induction false} DistinctCardinality(s: seq<int>)
    requires Distinct(s)
    ensures |set x | x in s| == |s|
  {
    if s != [] {
      var init := s[..|s| - 1];
      DistinctCardinality(init);
      assert (set x | x in s) == (set x | x in init) + {s[|s| - 1]};
    }
  }

  lemma {:induction false} ElementsBound(s: seq<int>)
    ensures |set x | x in s| <= |s|
  {
    if s != [] {
      var init := s[..|s| - 1];
      ElementsBound(init);
      assert (set x | x in s) == (set x | x in init) + {s[|s| - 1]};
    }
  }

  /** A sequence with as many different elements as entries lists each element once. */
  lemma {:induction false} DistinctOfCount(s: seq<int>)
    requires |set x | x in s| == |s|
    ensures Distinct(s)
  {
    if s != [] {
      var init, last := s[..|s| - 1], s[|s| - 1];
      ElementsBound(init);
      assert (set x | x in s) == (set x | x in init) + {last};
      DistinctOfCount(init);
      forall i, j | 0 <= i < j < |s|
        ensures s[i] != s[j]
      {
        if j < |s| - 1 {
          assert s[i] == init[i] && s[j] == init[j];
        } else {
          assert s[i] in init;
        }
      }
    }
  }

  lemma IdsMembers(n: nat)
    ensures forall k :: k in Ids(n) <==> 0 <= k < n
    ensures |Ids(n)| == n
  {
    forall k | k in Ids(n)
      ensures 0 <= k < n
    {
      var i :| 0 <= i < n && Range(n)[i] == k;
    }
    forall k | 0 <= k < n
      ensures k in Ids(n)
    {
      assert Range(n)[k] == k;
    }
    DistinctCardinality(Range(n));
  }

  // ---------------------------------------------------------------------------------------
  // create_nodes

  function PlayerActor(k: int): Actor {
    Player(k + 1)
  }

  /** The row has all four columns that describe player node k. */
  predicate PlayerReadable(frame: Frame, k: int) {
    var a := PlayerActor(k);
    Has(frame, Name(a)) && Has(frame, XCoord(a)) && Has(frame, YCoord(a)) && Has(frame, Team(a))
  }

  /** The position of player node k, read from player{k+1}_x_coord and player{k+1}_y_coord. */
  function PlayerPoint(frame: Frame, k: int): Point
    requires PlayerReadable(frame, k)
  {
    Point(frame.xs[PlayerActor(k)], frame.ys[PlayerActor(k)])
  }

  /**
   * The attributes create_nodes gives node k, or the KeyError of the first of its columns
   * (name, x, y, team) that the row lacks.
   */
  function PlayerData(frame: Frame, k: int): (r: Result<NodeData, Failure>)
    ensures r.Ok? <==> PlayerReadable(frame, k)
    ensures r.Ok? ==> (PlayerReadable(frame, k) && r.value.name == frame.names[PlayerActor(k)]
      && r.value.pos == PlayerPoint(frame, k) && r.value.team == frame.teams[PlayerActor(k)])
    ensures r.Err? ==> r.error.KeyError? && r.error.column.actor == PlayerActor(k) && !Has(frame, r.error.column)
  {
    var a := PlayerActor(k);
    if a !in frame.names then Err(KeyError(Name(a)))
    else if a !in frame.xs then Err(KeyError(XCoord(a)))
    else if a !in frame.ys then Err(KeyError(YCoord(a)))
    else if a !in frame.teams then Err(KeyError(Team(a)))
    else Ok(NodeData(frame.names[a], Point(frame.xs[a], frame.ys[a]), frame.teams[a]))
  }

  /** The first player node from k on whose columns are not all present, or 10 if there is none. */
  function FirstUnreadable(frame: Frame, k: nat): (r: nat)
    requires k <= C.PlayerCount
    ensures k <= r <= C.PlayerCount
    ensures forall j :: k <= j < r ==> PlayerReadable(frame, j)
    ensures r < C.PlayerCount ==> !PlayerReadable(frame, r)
    decreases C.PlayerCount - k
  {
    if k == C.PlayerCount || !PlayerReadable(frame, k) then k else FirstUnreadable(frame, k + 1)
  }

  /** A readable player n, with every player before it readable, is not the first unreadable one. */
  lemma ReadablePast(frame: Frame, n: nat)
    requires n < C.PlayerCount && n <= FirstUnreadable(frame, 0) && PlayerReadable(frame, n)
    ensures n + 1 <= FirstUnreadable(frame, 0)
  {
  }

  /** Nodes 0..9, each holding its player's data, are the player nodes. */
  lemma PlayerNodesOfAll(frame: Frame, nodes: map<int, NodeData>)
    requires forall k :: k in nodes <==> k in Range(C.PlayerCount)
    requires forall k :: k in nodes ==> PlayerData(frame, k) == Ok(nodes[k])
    ensures PlayerNodes(frame) == Ok(nodes)
  {
    forall k | k in nodes
      ensures 0 <= k < C.PlayerCount
    {
      var i :| 0 <= i < C.PlayerCount && Range(C.PlayerCount)[i] == k;
    }
    forall k | 0 <= k < C.PlayerCount
      ensures k in nodes && PlayerReadable(frame, k)
    {
      assert Range(C.PlayerCount)[k] == k;
      assert PlayerData(frame, k).Ok?;
    }
    IdsMembers(C.PlayerCount);
    assert FirstUnreadable(frame, 0) == C.PlayerCount;
    assert PlayerNodes(frame).value == nodes;
  }

  /**
   * create_nodes: the ten player nodes 0..9, node k carrying the player{k+1}_* fields, or the
   * KeyError of the first missing column, in which case no graph is produced.
   */
  function PlayerNodes(frame: Frame): (r: Result<map<int, NodeData>, Failure>)
    ensures r.Ok? <==> forall k :: 0 <= k < C.PlayerCount ==> PlayerReadable(frame, k)
    ensures r.Ok? ==> r.value.Keys == Ids(C.PlayerCount)
    ensures r.Ok? ==> forall k :: 0 <= k < C.PlayerCount ==> (PlayerReadable(frame, k) && k in r.value &&
      r.value[k] == NodeData(frame.names[PlayerActor(k)], PlayerPoint(frame, k), frame.teams[PlayerActor(k)]))
    ensures r.Err? ==> exists k :: 0 <= k < C.PlayerCount && (forall j :: 0 <= j < k ==> PlayerReadable(frame, j))
                                && PlayerData(frame, k) == Err(r.error) && !Has(frame, r.error.column)
  {
    var n := FirstUnreadable(frame, 0);
    IdsMembers(n);
    if n == C.PlayerCount then Ok(map k | k in Ids(n) :: PlayerData(frame, k).value)
    else Err(PlayerData(frame, n).error)
  }

  // ---------------------------------------------------------------------------------------
  // _create_combinations_bw_players and _create_edges_in_graph

  /** The nodes of `order`, in order, whose team equals t: attr.get('team', 0) == team. */
  function Members(order: seq<int>, nodes: map<int, NodeData>, t: Value): (ms: seq<int>)
    requires forall n :: n in order ==> n in nodes
    ensures forall n :: n in ms <==> n in order && Matches(nodes[n].team, t)
    ensures Distinct(order) ==> Distinct(ms)
  {
    if order == [] then []
    else
      var last := order[|order| - 1];
      var ms := Members(order[..|order| - 1], nodes, t);
      assert forall n :: n in order <==> n in order[..|order| - 1] || n == last;
      if Matches(nodes[last].team, t) then ms + [last] else ms
  }

  /** The weighted edges from u to each of vs, in the order of vs. */
  function Links(u: int, vs: seq<int>, nodes: map<int, NodeData>): seq<WeightedEdge>
    requires u in nodes && forall j :: 0 <= j < |vs| ==> vs[j] in nodes
  {
    seq(|vs|, j requires 0 <= j < |vs| => WeightedEdge(u, vs[j], EuclideanDistance(nodes[u].pos, nodes[vs[j]].pos)))
  }

  /** itertools.combinations(ms, 2) in its order, each pair weighted by the distance between its nodes. */
  function Combinations(ms: seq<int>, nodes: map<int, NodeData>): seq<WeightedEdge>
    requires forall j :: 0 <= j < |ms| ==> ms[j] in nodes
  {
    if ms == [] then [] else Links(ms[0], ms[1..], nodes) + Combinations(ms[1..], nodes)
  }

  /** n players give n * (n - 1) / 2 pairs: 10 for a team of five. */
  lemma {:induction false} CombinationsCount(ms: seq<int>, nodes: map<int, NodeData>)
    requires forall j :: 0 <= j < |ms| ==> ms[j] in nodes
    ensures 2 * |Combinations(ms, nodes)| == |ms| * (|ms| - 1)
  {
    if ms != [] {
      CombinationsCount(ms[1..], nodes);
    }
  }

  /** The entry carries the distance between its two nodes. */
  predicate Fits(nodes: map<int, NodeData>, e: WeightedEdge) {
    e.u in nodes && e.v in nodes && e.w == EuclideanDistance(nodes[e.u].pos, nodes[e.v].pos)
  }

  /** The entry for the pair (a, b). */
  function Weighted(nodes: map<int, NodeData>, a: int, b: int): WeightedEdge
    requires a in nodes && b in nodes
  {
    WeightedEdge(a, b, EuclideanDistance(nodes[a].pos, nodes[b].pos))
  }

  lemma LinksMembers(u: int, vs: seq<int>, nodes: map<int, NodeData>)
    requires u in nodes && forall j :: 0 <= j < |vs| ==> vs[j] in nodes
    ensures forall e :: e in Links(u, vs, nodes) ==> Fits(nodes, e) && e.u == u && e.v in vs
    ensures forall j :: 0 <= j < |vs| ==> Weighted(nodes, u, vs[j]) in Links(u, vs, nodes)
  {
    var l := Links(u, vs, nodes);
    forall e | e in l
      ensures Fits(nodes, e) && e.u == u && e.v in vs
    {
      var j :| 0 <= j < |l| && l[j] == e;
    }
    forall j | 0 <= j < |vs|
      ensures Weighted(nodes, u, vs[j]) in l
    {
      assert l[j] == Weighted(nodes, u, vs[j]);
    }
  }

  /** One more node in vs gives one more entry, at the end. */
  lemma LinksSnoc(u: int, vs: seq<int>, v: int, nodes: map<int, NodeData>)
    requires u in nodes && v in nodes && forall j :: 0 <= j < |vs| ==> vs[j] in nodes
    ensures Links(u, vs + [v], nodes) == Links(u, vs, nodes) + [Weighted(nodes, u, v)]
  {
  }

  /** Every pair joins two different members, the earlier one first, and carries their distance. */
  lemma {:induction false} CombinationsSound(ms: seq<int>, nodes: map<int, NodeData>)
    requires forall j :: 0 <= j < |ms| ==> ms[j] in nodes
    requires Distinct(ms)
    ensures forall e :: e in Combinations(ms, nodes) ==> Fits(nodes, e) && e.u in ms && e.v in ms && e.u != e.v
  {
    if ms != [] {
      var rest := ms[1..];
      CombinationsSound(rest, nodes);
      LinksMembers(ms[0], rest, nodes);
      assert forall v :: v in rest ==> v != ms[0];
    }
  }

  /** Every pair of two different members appears, the earlier one first. */
  lemma {:induction false} CombinationsComplete(ms: seq<int>, nodes: map<int, NodeData>)
    requires forall j :: 0 <= j < |ms| ==> ms[j] in nodes
    ensures forall i, j :: 0 <= i < j < |ms| ==> Weighted(nodes, ms[i], ms[j]) in Combinations(ms, nodes)
  {
    if ms != [] {
      var rest := ms[1..];
      CombinationsComplete(rest, nodes);
      LinksMembers(ms[0], rest, nodes);
      forall i, j | 0 <= i < j < |ms|
        ensures Weighted(nodes, ms[i], ms[j]) in Combinations(ms, nodes)
      {
        if i == 0 {
          assert rest[j - 1] == ms[j];
        } else {
          assert rest[i - 1] == ms[i] && rest[j - 1] == ms[j];
        }
      }
    }
  }

  /**
   * _create_combinations_bw_players: for each listed team in turn, every pair of the nodes
   * whose team equals it.
   */
  function CandidateList(order: seq<int>, nodes: map<int, NodeData>, teams: seq<Value>): seq<WeightedEdge>
    requires forall n :: n in order ==> n in nodes
  {
    if teams == [] then []
    else
      CandidateList(order, nodes, teams[..|teams| - 1])
        + Combinations(Members(order, nodes, teams[|teams| - 1]), nodes)
  }

  /** Nodes a and b have the same team, and it is a listed one (NaN never matches). */
  predicate SameListedTeam(nodes: map<int, NodeData>, a: int, b: int, teams: seq<Value>)
    requires a in nodes && b in nodes
  {
    nodes[a].team != Null && nodes[a].team == nodes[b].team && nodes[a].team in teams
  }

  /** The candidate list only pairs two different nodes of one listed team, with their distance. */
  lemma {:induction false} CandidateListSound(order: seq<int>, nodes: map<int, NodeData>, teams: seq<Value>)
    requires forall n :: n in order ==> n in nodes
    requires Distinct(order)
    ensures forall e :: e in CandidateList(order, nodes, teams) ==>
      Fits(nodes, e) && e.u in order && e.v in order && e.u != e.v && SameListedTeam(nodes, e.u, e.v, teams)
  {
    if teams != [] {
      var init, t := teams[..|teams| - 1], teams[|teams| - 1];
      CandidateListSound(order, nodes, init);
      var ms := Members(order, nodes, t);
      CombinationsSound(ms, nodes);
    }
  }

  /** Every two different nodes of one listed team are paired, in one direction or the other. */
  lemma {:induction false} CandidateListComplete(order: seq<int>, nodes: map<int, NodeData>, teams: seq<Value>, a: int, b: int)
    requires forall n :: n in order ==> n in nodes
    requires a in order && b in order && a != b && SameListedTeam(nodes, a, b, teams)
    ensures Weighted(nodes, a, b) in CandidateList(order, nodes, teams)
         || Weighted(nodes, b, a) in CandidateList(order, nodes, teams)
  {
    var init, t := teams[..|teams| - 1], teams[|teams| - 1];
    if nodes[a].team in init {
      assert SameListedTeam(nodes, a, b, init);
      CandidateListComplete(order, nodes, init, a, b);
    } else {
      var ms := Members(order, nodes, t);
      CombinationsComplete(ms, nodes);
      var i :| 0 <= i < |ms| && ms[i] == a;
      var j :| 0 <= j < |ms| && ms[j] == b;
      assert i != j;
    }
  }

  /**
   * _create_edges_in_graph: add_edge for each entry in turn. An edge is keyed by its unordered
   * pair, so a later entry for the same pair overwrites the weight and never adds a second edge.
   */
  function AddEdges(E: map<Pair, Distance>, list: seq<WeightedEdge>): (r: map<Pair, Distance>)
    ensures r.Keys == E.Keys + set e | e in list :: Key(e.u, e.v)
  {
    if list == [] then E
    else
      var last := list[|list| - 1];
      var r := AddEdges(E, list[..|list| - 1]);
      assert forall e :: e in list <==> e in list[..|list| - 1] || e == last;
      r[Key(last.u, last.v) := last.w]
  }

  /** Every edge joins two nodes and weighs the distance between them. */
  ghost predicate Geometric(nodes: map<int, NodeData>, E: map<Pair, Distance>) {
    forall e :: e in E ==> e.lo in nodes && e.hi in nodes && E[e] == EuclideanDistance(nodes[e.lo].pos, nodes[e.hi].pos)
  }

  /** Adding entries that carry their endpoints' distance keeps every weight a distance. */
  lemma {:induction false} AddEdgesGeometric(nodes: map<int, NodeData>, E: map<Pair, Distance>, list: seq<WeightedEdge>)
    requires Geometric(nodes, E)
    requires forall e :: e in list ==> Fits(nodes, e)
    ensures Geometric(nodes, AddEdges(E, list))
  {
    if list != [] {
      var last := list[|list| - 1];
      AddEdgesGeometric(nodes, E, list[..|list| - 1]);
      assert Fits(nodes, last);
      DistanceSymmetric(nodes[last.u].pos, nodes[last.v].pos);
    }
  }

  /** The edges create_edges_bw_players adds to a graph without edges. */
  function CandidateGraph(order: seq<int>, nodes: map<int, NodeData>, teams: seq<Value>): map<Pair, Distance>
    requires forall n :: n in order ==> n in nodes
  {
    AddEdges(map[], CandidateList(order, nodes, teams))
  }

  /**
   * The candidate graph has an edge between two nodes iff they are different and have the same
   * listed team, and every edge weighs the distance between its endpoints.
   */
  lemma CandidateGraphEdges(order: seq<int>, nodes: map<int, NodeData>, teams: seq<Value>)
    requires forall n :: n in order ==> n in nodes
    requires Distinct(order)
    ensures forall e :: e in CandidateGraph(order, nodes, teams) ==>
      e.lo < e.hi && e.lo in order && e.hi in order && SameListedTeam(nodes, e.lo, e.hi, teams)
    ensures forall a, b :: a in order && b in order && a < b && SameListedTeam(nodes, a, b, teams) ==>
      Pair(a, b) in CandidateGraph(order, nodes, teams)
    ensures Geometric(nodes, CandidateGraph(order, nodes, teams))
  {
    var list := CandidateList(order, nodes, teams);
    CandidateListSound(order, nodes, teams);
    AddEdgesGeometric(nodes, map[], list);
    forall e | e in CandidateGraph(order, nodes, teams)
      ensures e.lo < e.hi && e.lo in order && e.hi in order && SameListedTeam(nodes, e.lo, e.hi, teams)
    {
      var x :| x in list && Key(x.u, x.v) == e;
    }
    forall a, b | a in order && b in order && a < b && SameListedTeam(nodes, a, b, teams)
      ensures Pair(a, b) in CandidateGraph(order, nodes, teams)
    {
      CandidateListComplete(order, nodes, teams, a, b);
      if Weighted(nodes, a, b) in list {
        assert Key(a, b) == Pair(a, b);
      } else {
        assert Key(b, a) == Pair(a, b);
      }
    }
  }

  // ---------------------------------------------------------------------------------------
  // add_ball_node and add_closest_player_to_ball_edge

  /** add_ball_node's point_ball, or the KeyError of the first ball coordinate the row lacks. */
  function BallPoint(frame: Frame): (r: Result<Point, Failure>)
    ensures r.Ok? <==> Has(frame, XCoord(Ball)) && Has(frame, YCoord(Ball))
    ensures r.Err? ==> r.error.KeyError? && r.error.column.actor == Ball && !Has(frame, r.error.column)
  {
    if Ball !in frame.xs then Err(KeyError(XCoord(Ball)))
    else if Ball !in frame.ys then Err(KeyError(YCoord(Ball)))
    else Ok(Point(frame.xs[Ball], frame.ys[Ball]))
  }

  /** The ball node: name -1 and team -1 at the ball's position. */
  function BallNode(ball: Point): NodeData {
    NodeData(Number(-1), ball, Number(-1))
  }

  /** The basket nodes: names -2 and -3, team -1, at the fixed basket positions. */
  const Basket1Node: NodeData := NodeData(Number(-2), Point(C.BasketX1, C.BasketY1), Number(-1))
  const Basket2Node: NodeData := NodeData(Number(-3), Point(C.BasketX2, C.BasketY2), Number(-1))

  /**
   * _create_possible_edges_bw_ball_players: the entry [node, 10, distance from the ball] for
   * every node but the ball, in node order.
   */
  function BallCandidates(order: seq<int>, nodes: map<int, NodeData>, ball: Point): (r: seq<WeightedEdge>)
    requires forall n :: n in order ==> n in nodes
    ensures forall e :: e in r ==>
      e.u in order && e.u != C.IndexBall && e.v == C.IndexBall && e.w == EuclideanDistance(ball, nodes[e.u].pos)
  {
    if order == [] then []
    else
      var n := order[|order| - 1];
      var r := BallCandidates(order[..|order| - 1], nodes, ball);
      assert forall m :: m in order <==> m in order[..|order| - 1] || m == n;
      if n != C.IndexBall then r + [WeightedEdge(n, C.IndexBall, EuclideanDistance(ball, nodes[n].pos))] else r
  }

  /** Every node of the order other than the ball has its candidate. */
  lemma {:induction false} BallCandidatesComplete(order: seq<int>, nodes: map<int, NodeData>, ball: Point)
    requires forall n :: n in order ==> n in nodes
    ensures forall n :: n in order && n != C.IndexBall ==>
      WeightedEdge(n, C.IndexBall, EuclideanDistance(ball, nodes[n].pos)) in BallCandidates(order, nodes, ball)
  {
    if order != [] {
      var init, last := order[..|order| - 1], order[|order| - 1];
      assert forall m :: m in order <==> m in init || m == last;
      BallCandidatesComplete(init, nodes, ball);
    }
  }

  /** Over the players 0..n - 1, the candidates are one per player, in id order. */
  lemma {:induction false} BallCandidatesOfPlayers(n: nat, nodes: map<int, NodeData>, ball: Point)
    requires n <= C.PlayerCount && forall k :: 0 <= k < n ==> k in nodes
    ensures |BallCandidates(Range(n), nodes, ball)| == n
    ensures forall k :: 0 <= k < n ==>
      BallCandidates(Range(n), nodes, ball)[k] == WeightedEdge(k, C.IndexBall, EuclideanDistance(ball, nodes[k].pos))
  {
    if n > 0 {
      BallCandidatesOfPlayers(n - 1, nodes, ball);
      var e := WeightedEdge(n - 1, C.IndexBall, EuclideanDistance(ball, nodes[n - 1].pos));
      var cands, before := BallCandidates(Range(n), nodes, ball), BallCandidates(Range(n - 1), nodes, ball);
      BallCandidatesRangeSnoc(n - 1, nodes, ball);
      assert cands == before + [e];
      forall k | 0 <= k < n
        ensures cands[k] == WeightedEdge(k, C.IndexBall, EuclideanDistance(ball, nodes[k].pos))
      {
        if k < n - 1 {
          assert cands[k] == before[k];
        }
      }
    }
  }

  /** The next player in id order adds its candidate at the end. */
  lemma BallCandidatesRangeSnoc(n: nat, nodes: map<int, NodeData>, ball: Point)
    requires n < C.PlayerCount && forall k :: 0 <= k <= n ==> k in nodes
    ensures BallCandidates(Range(n + 1), nodes, ball)
         == BallCandidates(Range(n), nodes, ball) + [WeightedEdge(n, C.IndexBall, EuclideanDistance(ball, nodes[n].pos))]
  {
    assert Range(n + 1)[..n] == Range(n);
  }

  /** The ball itself, last in the order, adds no candidate. */
  lemma BallCandidatesOfBall(n: nat, nodes: map<int, NodeData>, ball: Point)
    requires n <= C.PlayerCount && C.IndexBall in nodes && forall k :: 0 <= k < n ==> k in nodes
    ensures BallCandidates(Range(n) + [C.IndexBall], nodes, ball) == BallCandidates(Range(n), nodes, ball)
  {
    var order := Range(n) + [C.IndexBall];
    assert order[..|order| - 1] == Range(n);
  }

  /** The weights, as squares, of a list of edge entries. */
  function Squares(cands: seq<WeightedEdge>): (ws: seq<real>)
    ensures |ws| == |cands| && forall i :: 0 <= i < |cands| ==> ws[i] == cands[i].w.square
  {
    seq(|cands|, i requires 0 <= i < |cands| => cands[i].w.square)
  }

  /** k is the first position of a least value of ws. */
  predicate IsFirstMinimum(ws: seq<real>, k: int) {
    && 0 <= k < |ws|
    && (forall j :: 0 <= j < |ws| ==> ws[k] <= ws[j])
    && (forall j :: 0 <= j < k ==> ws[k] < ws[j])
  }

  /**
   * The position of the first least value: the row that iloc[0] takes among the rows whose
   * weight equals the minimum.
   */
  function FirstMinimum(ws: seq<real>): (k: nat)
    requires |ws| > 0
    ensures IsFirstMinimum(ws, k)
  {
    if |ws| == 1 then 0
    else
      var k := FirstMinimum(ws[..|ws| - 1]);
      if ws[|ws| - 1] < ws[k] then |ws| - 1 else k
  }

  /** There is only one first position of a least value. */
  lemma FirstMinimumUnique(ws: seq<real>, k: int)
    requires IsFirstMinimum(ws, k)
    ensures k == FirstMinimum(ws)
  {
  }

  // ---------------------------------------------------------------------------------------
  // add_baskets and add_edges_ball_basket

  function Basket1Distance(ball: Point): Distance {
    EuclideanDistance(ball, Basket1Node.pos)
  }

  function Basket2Distance(ball: Point): Distance {
    EuclideanDistance(ball, Basket2Node.pos)
  }

  /** distance_rim: Python's min of the two ball-basket distances. */
  function DistanceRim(ball: Point): (d: Distance)
    ensures d.square <= Basket1Distance(ball).square && d.square <= Basket2Distance(ball).square
    ensures d == Basket1Distance(ball) || d == Basket2Distance(ball)
  {
    MinDistance(Basket1Distance(ball), Basket2Distance(ball))
  }

  /** The ball-basket edge and its weight: basket 1 only when it is strictly nearer. */
  function BasketEdge(ball: Point): (Pair, Distance) {
    if Shorter(Basket1Distance(ball), Basket2Distance(ball))
    then (Key(C.IndexBall, C.IndexBasket1), Basket1Distance(ball))
    else (Key(C.IndexBall, C.IndexBasket2), Basket2Distance(ball))
  }

  /**
   * The ball is joined to basket 1 iff basket 1 is strictly nearer, so an exact tie goes to
   * basket 2, and the edge always weighs distance_rim.
   */
  lemma BasketEdgeChoice(ball: Point)
    ensures BasketEdge(ball).0 == Pair(C.IndexBall, C.IndexBasket1) <==> Shorter(Basket1Distance(ball), Basket2Distance(ball))
    ensures BasketEdge(ball).0 == Pair(C.IndexBall, C.IndexBasket2) <==> !Shorter(Basket1Distance(ball), Basket2Distance(ball))
    ensures BasketEdge(ball).1 == DistanceRim(ball)
  {
  }

  /** A ball at (10, 25) is 4.75 from basket 1 and 78.75 from basket 2, and is joined to basket 1. */
  lemma BasketNearBasket1()
    ensures Denotes(Basket1Distance(Point(10.0, 25.0)), 4.75)
    ensures Denotes(Basket2Distance(Point(10.0, 25.0)), 78.75)
    ensures BasketEdge(Point(10.0, 25.0)).0 == Pair(C.IndexBall, C.IndexBasket1)
    ensures Denotes(DistanceRim(Point(10.0, 25.0)), 4.75)
  {
  }

  // ---------------------------------------------------------------------------------------
  // set_posession_team

  /**
   * player_w_ball: the first edge (n, 10) that networkx's edge view lists. The view lists the
   * nodes in insertion order and reports each edge from whichever endpoint comes first, so n is
   * the first node, up to the ball itself, that has an edge to the ball.
   */
  function BallNeighbour(order: seq<int>, edges: map<Pair, Distance>): (r: Option<int>)
    ensures r.Some? ==> r.value in order && Key(r.value, C.IndexBall) in edges
    ensures (forall n :: n in order ==> Key(n, C.IndexBall) !in edges) ==> r.None?
  {
    if order == [] then None
    else if Key(order[0], C.IndexBall) in edges then Some(order[0])
    else if order[0] == C.IndexBall then None
    else BallNeighbour(order[1..], edges)
  }

  /**
   * If p, listed at position i, is joined to the ball, and no node listed before it is the ball
   * or joined to the ball, the ball's neighbour is p.
   */
  lemma {:induction false} BallNeighbourAt(order: seq<int>, edges: map<Pair, Distance>, p: int, i: nat)
    requires i < |order| && order[i] == p && Key(p, C.IndexBall) in edges
    requires forall j :: 0 <= j < i ==> order[j] != C.IndexBall && Key(order[j], C.IndexBall) !in edges
    ensures BallNeighbour(order, edges) == Some(p)
  {
    if i > 0 {
      BallNeighbourAt(order[1..], edges, p, i - 1);
    }
  }

  /** With a single edge {p, 10}, and p listed at position i before the ball, the ball's neighbour is p. */
  lemma {:induction false} BallNeighbourOfSingleEdge(order: seq<int>, edges: map<Pair, Distance>, p: int, i: nat)
    requires edges.Keys == {Key(p, C.IndexBall)} && p != C.IndexBall
    requires i < |order| && order[i] == p && forall j :: 0 <= j < i ==> order[j] != C.IndexBall
    ensures BallNeighbour(order, edges) == Some(p)
  {
    if order[0] != p {
      KeyUnordered(order[0], C.IndexBall, p, C.IndexBall);
      BallNeighbourOfSingleEdge(order[1..], edges, p, i - 1);
    }
  }

  /**
   * In a frame graph, node p below the ball and joined to it by {p, 10} is the ball's neighbour
   * when the other edges are between players or from the ball to a basket.
   */
  lemma BallNeighbourOfFrame(order: seq<int>, edges: map<Pair, Distance>, p: int)
    requires order == Range(13) && 0 <= p < C.IndexBall && Key(p, C.IndexBall) in edges
    requires forall e :: e in edges && e != Key(p, C.IndexBall) ==> e.hi < C.IndexBall || e.lo == C.IndexBall
    ensures BallNeighbour(order, edges) == Some(p)
  {
    forall j | 0 <= j < p
      ensures order[j] != C.IndexBall && Key(order[j], C.IndexBall) !in edges
    {
      assert order[j] == j;
      KeyUnordered(j, C.IndexBall, p, C.IndexBall);
    }
    assert order[p] == p;
    BallNeighbourAt(order, edges, p, p);
  }

  // ---------------------------------------------------------------------------------------
  // One frame's graph (the body of create_graph_from_dataset's loop)

  /** The exception building this frame's graph raises, if any: create_nodes's, then add_ball_node's. */
  function FrameFailure(frame: Frame): (r: Option<Failure>)
    ensures r.None? <==> PlayerNodes(frame).Ok? && BallPoint(frame).Ok?
  {
    if PlayerNodes(frame).Err? then Some(PlayerNodes(frame).error)
    else if BallPoint(frame).Err? then Some(BallPoint(frame).error)
    else None
  }

  /** The squared distance from the ball to each player node 0..9, in id order. */
  function BallSquares(frame: Frame): (ws: seq<real>)
    requires FrameFailure(frame).None?
    ensures |ws| == C.PlayerCount
    ensures forall k :: 0 <= k < C.PlayerCount ==>
      ws[k] == EuclideanDistance(BallPoint(frame).value, PlayerPoint(frame, k)).square
  {
    var ball := BallPoint(frame).value;
    seq(C.PlayerCount, k requires 0 <= k < C.PlayerCount => EuclideanDistance(ball, PlayerPoint(frame, k)).square)
  }

  /** The player node nearest to the ball; among equally near ones, the lowest id. */
  function NearestPlayer(frame: Frame): (p: int)
    requires FrameFailure(frame).None?
    ensures 0 <= p < C.PlayerCount
    ensures forall k :: 0 <= k < C.PlayerCount ==>
      EuclideanDistance(BallPoint(frame).value, PlayerPoint(frame, p)).square
        <= EuclideanDistance(BallPoint(frame).value, PlayerPoint(frame, k)).square
    ensures forall k :: 0 <= k < p ==>
      EuclideanDistance(BallPoint(frame).value, PlayerPoint(frame, p)).square
        < EuclideanDistance(BallPoint(frame).value, PlayerPoint(frame, k)).square
  {
    FirstMinimum(BallSquares(frame))
  }

  /** The thirteen nodes of a finished frame graph: players 0..9, the ball 10, the baskets 11 and 12. */
  function FrameNodes(frame: Frame): (nodes: map<int, NodeData>)
    requires FrameFailure(frame).None?
    ensures nodes.Keys == Ids(13)
  {
    IdsMembers(10);
    IdsMembers(13);
    PlayerNodes(frame).value[C.IndexBall := BallNode(BallPoint(frame).value)]
      [C.IndexBasket1 := Basket1Node][C.IndexBasket2 := Basket2Node]
  }

  /** The edges between players: those whose higher endpoint is below the ball's id. */
  function PlayerEdges(edges: map<Pair, Distance>): map<Pair, Distance> {
    map e | e in edges && e.hi < C.IndexBall :: edges[e]
  }

  /**
   * g is a graph that create_graph_from_dataset can produce for this frame with this team list:
   * nodes 0..12 in order with their attributes; between players, a minimum spanning forest of
   * the same-team candidate graph; the ball joined to its nearest player with their distance;
   * and the ball joined to a basket as add_edges_ball_basket decides.
   */
  ghost predicate IsFrameGraph(frame: Frame, teams: seq<Value>, g: FrameGraph)
    requires FrameFailure(frame).None?
  {
    var players := PlayerNodes(frame).value;
    var ball := BallPoint(frame).value;
    var p := NearestPlayer(frame);
    && g.order == Range(13)
    && g.nodes == FrameNodes(frame)
    && MinimumSpanningForestOf(players.Keys, CandidateGraph(Range(10), players, teams), PlayerEdges(g.edges))
    && g.edges == PlayerEdges(g.edges)[Key(p, C.IndexBall) := EuclideanDistance(ball, players[p].pos)]
                                      [BasketEdge(ball).0 := BasketEdge(ball).1]
  }

  /** The player nodes of the frame whose team is t. */
  function TeamMembers(frame: Frame, t: Value): set<int>
    requires PlayerNodes(frame).Ok?
  {
    var players := PlayerNodes(frame).value;
    set k | k in players && players[k].team == t
  }

  /** Two different, non-NaN teams of five players each, which together make up the ten players. */
  predicate TwoTeamsOfFive(frame: Frame, teams: seq<Value>)
    requires PlayerNodes(frame).Ok?
  {
    && |teams| == 2 && teams[0] != teams[1] && teams[0] != Null && teams[1] != Null
    && |TeamMembers(frame, teams[0])| == 5 && |TeamMembers(frame, teams[1])| == 5
  }

  /** A team's players form a closed, connected part of the candidate graph. */
  lemma TeamIsComponent(frame: Frame, teams: seq<Value>, t: Value)
    requires PlayerNodes(frame).Ok?
    requires t in teams && t != Null
    ensures TeamMembers(frame, t) <= PlayerNodes(frame).value.Keys
    ensures Closed(CandidateGraph(Range(10), PlayerNodes(frame).value, teams).Keys, TeamMembers(frame, t))
    ensures ConnectedSet(CandidateGraph(Range(10), PlayerNodes(frame).value, teams).Keys, TeamMembers(frame, t))
  {
    var players := PlayerNodes(frame).value;
    var order := Range(10);
    var W := CandidateGraph(order, players, teams);
    var S := TeamMembers(frame, t);
    IdsMembers(10);
    assert forall k :: k in order <==> k in players;
    CandidateGraphEdges(order, players, teams);
    assert Closed(W.Keys, S);
    forall a, b | a in S && b in S
      ensures Connected(W.Keys, a, b)
    {
      if a == b {
        ConnectedReflexive(W.Keys, a);
      } else if a < b {
        assert Pair(a, b) in W;
        ConnectedByEdge(W.Keys, a, b);
      } else {
        assert Pair(b, a) in W;
        ConnectedByEdge(W.Keys, a, b);
      }
    }
  }

  /** Every candidate edge joins two players of the first listed team or two of the second. */
  lemma CandidatesWithinTeams(frame: Frame, teams: seq<Value>)
    requires PlayerNodes(frame).Ok? && |teams| == 2
    ensures forall e :: e in CandidateGraph(Range(10), PlayerNodes(frame).value, teams) ==>
      && e.hi < C.IndexBall && e.lo in PlayerNodes(frame).value && e.hi in PlayerNodes(frame).value
      && SameListedTeam(PlayerNodes(frame).value, e.lo, e.hi, teams)
      && ((e.lo in TeamMembers(frame, teams[0]) && e.hi in TeamMembers(frame, teams[0]))
       || (e.lo in TeamMembers(frame, teams[1]) && e.hi in TeamMembers(frame, teams[1])))
  {
    var players := PlayerNodes(frame).value;
    IdsMembers(10);
    assert forall k :: k in Range(10) <==> k in players;
    CandidatesWithinTwoTeams(Range(10), players, teams);
  }

  lemma CandidatesWithinTwoTeams(order: seq<int>, nodes: map<int, NodeData>, teams: seq<Value>)
    requires forall n :: n in order ==> n in nodes
    requires Distinct(order) && |teams| == 2
    ensures forall e :: e in CandidateGraph(order, nodes, teams) ==>
      && e.lo in order && e.hi in order && e.lo in nodes && e.hi in nodes
      && SameListedTeam(nodes, e.lo, e.hi, teams)
      && ((nodes[e.lo].team == teams[0] && nodes[e.hi].team == teams[0])
       || (nodes[e.lo].team == teams[1] && nodes[e.hi].team == teams[1]))
  {
    var G := CandidateGraph(order, nodes, teams);
    CandidateGraphEdges(order, nodes, teams);
    forall e | e in G
      ensures e.lo in order && e.hi in order && e.lo in nodes && e.hi in nodes
      ensures SameListedTeam(nodes, e.lo, e.hi, teams)
      ensures (nodes[e.lo].team == teams[0] && nodes[e.hi].team == teams[0])
           || (nodes[e.lo].team == teams[1] && nodes[e.hi].team == teams[1])
    {
      assert e.lo in order && e.hi in order && SameListedTeam(nodes, e.lo, e.hi, teams);
      ListedTeamOfTwo(nodes, e.lo, e.hi, teams);
    }
  }

  lemma ListedTeamOfTwo(nodes: map<int, NodeData>, a: int, b: int, teams: seq<Value>)
    requires a in nodes && b in nodes && |teams| == 2 && SameListedTeam(nodes, a, b, teams)
    ensures (nodes[a].team == teams[0] && nodes[b].team == teams[0])
         || (nodes[a].team == teams[1] && nodes[b].team == teams[1])
  {
    var i :| 0 <= i < 2 && teams[i] == nodes[a].team;
  }

  /** With two listed teams of five, the forest between players has 4 edges in each team and none across. */
  lemma PlayerForestCounts(frame: Frame, teams: seq<Value>, F: map<Pair, Distance>)
    requires PlayerNodes(frame).Ok? && TwoTeamsOfFive(frame, teams)
    requires MinimumSpanningForestOf(PlayerNodes(frame).value.Keys, CandidateGraph(Range(10), PlayerNodes(frame).value, teams), F)
    ensures |F| == 8
    ensures |Within(F.Keys, TeamMembers(frame, teams[0]))| == 4
    ensures |Within(F.Keys, TeamMembers(frame, teams[1]))| == 4
    ensures forall e :: e in F ==>
      (e.hi < C.IndexBall && e.lo in PlayerNodes(frame).value && e.hi in PlayerNodes(frame).value
       && SameListedTeam(PlayerNodes(frame).value, e.lo, e.hi, teams))
  {
    var W := CandidateGraph(Range(10), PlayerNodes(frame).value, teams);
    var A, B := TeamMembers(frame, teams[0]), TeamMembers(frame, teams[1]);
    TeamIsComponent(frame, teams, teams[0]);
    TeamIsComponent(frame, teams, teams[1]);
    CandidatesWithinTeams(frame, teams);
    ForestOverTwoComponents(PlayerNodes(frame).value.Keys, W, F, A, B);
  }

  /** Two edges at the ball added to edges between players: two more edges, none inside a set of players. */
  lemma BallEdgesAdded(F: map<Pair, Distance>, kb: Pair, wb: Distance, kk: Pair, wk: Distance, S: set<int>)
    requires forall e :: e in F ==> e.hi < C.IndexBall
    requires kb.hi == C.IndexBall && kk.lo == C.IndexBall && kk.hi > C.IndexBall
    requires forall k :: k in S ==> k < C.IndexBall
    ensures |F[kb := wb][kk := wk]| == |F| + 2
    ensures Within(F[kb := wb][kk := wk].Keys, S) == Within(F.Keys, S)
  {
    assert F[kb := wb][kk := wk].Keys == F.Keys + {kb} + {kk};
    assert kb !in F.Keys && kk !in F.Keys + {kb};
  }

  /**
   * A frame whose ten players form two listed teams of five yields 13 nodes and 10 edges: a
   * spanning tree of 4 edges inside each team, no edge between the teams, the ball's edge to
   * its nearest player and its edge to a basket.
   */
  lemma FrameGraphCounts(frame: Frame, teams: seq<Value>, g: FrameGraph)
    requires FrameFailure(frame).None? && IsFrameGraph(frame, teams, g) && TwoTeamsOfFive(frame, teams)
    ensures |g.nodes| == 13 && |g.edges| == 10
    ensures |Within(g.edges.Keys, TeamMembers(frame, teams[0]))| == 4
    ensures |Within(g.edges.Keys, TeamMembers(frame, teams[1]))| == 4
    ensures forall e :: e in g.edges && e.hi < C.IndexBall ==>
      (e.lo in PlayerNodes(frame).value && e.hi in PlayerNodes(frame).value
       && SameListedTeam(PlayerNodes(frame).value, e.lo, e.hi, teams))
  {
    var players := PlayerNodes(frame).value;
    var ball := BallPoint(frame).value;
    var F := PlayerEdges(g.edges);
    IdsMembers(10);
    IdsMembers(13);
    PlayerForestCounts(frame, teams, F);
    var kb, kk := Key(NearestPlayer(frame), C.IndexBall), BasketEdge(ball).0;
    var wb, wk := EuclideanDistance(ball, players[NearestPlayer(frame)].pos), BasketEdge(ball).1;
    assert g.edges == F[kb := wb][kk := wk];
    BallEdgesAdded(F, kb, wb, kk, wk, TeamMembers(frame, teams[0]));
    BallEdgesAdded(F, kb, wb, kk, wk, TeamMembers(frame, teams[1]));
  }

  /** With the ball added after the players 0..9, there is one candidate per player, in id order. */
  lemma CandidatesAfterPlayers(players: map<int, NodeData>, ball: Point)
    requires forall k :: 0 <= k < C.PlayerCount ==> k in players
    ensures var cands := BallCandidates(Range(C.PlayerCount) + [C.IndexBall], players[C.IndexBall := BallNode(ball)], ball);
      && |cands| == C.PlayerCount
      && forall k :: 0 <= k < C.PlayerCount ==> cands[k] == WeightedEdge(k, C.IndexBall, EuclideanDistance(ball, players[k].pos))
  {
    BallCandidatesOfBall(C.PlayerCount, players[C.IndexBall := BallNode(ball)], ball);
    BallCandidatesOfPlayers(C.PlayerCount, players[C.IndexBall := BallNode(ball)], ball);
  }

  /** The squared distance from the ball to each of the nodes 0..9, in id order. */
  function PlayerSquares(players: map<int, NodeData>, ball: Point): (ws: seq<real>)
    requires forall k :: 0 <= k < C.PlayerCount ==> k in players
    ensures |ws| == C.PlayerCount
    ensures forall k :: 0 <= k < C.PlayerCount ==> ws[k] == EuclideanDistance(ball, players[k].pos).square
  {
    seq(C.PlayerCount, k requires 0 <= k < C.PlayerCount => EuclideanDistance(ball, players[k].pos).square)
  }

  /**
   * With the ball added after the players 0..9, add_closest_player_to_ball_edge picks the
   * candidate of the first player at the least distance.
   */
  lemma ClosestAfterPlayers(players: map<int, NodeData>, ball: Point)
    requires forall k :: 0 <= k < C.PlayerCount ==> k in players
    ensures var cands := BallCandidates(Range(C.PlayerCount) + [C.IndexBall], players[C.IndexBall := BallNode(ball)], ball);
      var p := FirstMinimum(PlayerSquares(players, ball));
      && |cands| == C.PlayerCount
      && cands[FirstMinimum(Squares(cands))] == WeightedEdge(p, C.IndexBall, EuclideanDistance(ball, players[p].pos))
  {
    CandidatesAfterPlayers(players, ball);
    var cands := BallCandidates(Range(C.PlayerCount) + [C.IndexBall], players[C.IndexBall := BallNode(ball)], ball);
    assert Squares(cands) == PlayerSquares(players, ball);
  }

  /** In a readable frame, the first nearest player node is NearestPlayer. */
  lemma NearestOfFrame(frame: Frame)
    requires FrameFailure(frame).None?
    ensures FirstMinimum(PlayerSquares(PlayerNodes(frame).value, BallPoint(frame).value)) == NearestPlayer(frame)
  {
    var players := PlayerNodes(frame).value;
    forall k | 0 <= k < C.PlayerCount
      ensures PlayerSquares(players, BallPoint(frame).value)[k] == BallSquares(frame)[k]
    {
      assert players[k].pos == PlayerPoint(frame, k);
    }
    assert PlayerSquares(players, BallPoint(frame).value) == BallSquares(frame);
  }

  /** The edges between players of F plus two edges at the ball are F again. */
  lemma PlayerEdgesWithBallEdges(F: map<Pair, Distance>, kb: Pair, wb: Distance, kk: Pair, wk: Distance)
    requires forall e :: e in F ==> e.hi < C.IndexBall
    requires kb.hi >= C.IndexBall && kk.hi >= C.IndexBall
    ensures PlayerEdges(F[kb := wb][kk := wk]) == F
  {
  }

  /** The graph the stages leave behind, described piece by piece, is a frame graph. */
  lemma FrameGraphOfStages(frame: Frame, teams: seq<Value>, forest: map<Pair, Distance>, g: FrameGraph)
    requires FrameFailure(frame).None?
    requires g.order == Range(13) && g.nodes == FrameNodes(frame)
    requires MinimumSpanningForestOf(PlayerNodes(frame).value.Keys,
      CandidateGraph(Range(C.PlayerCount), PlayerNodes(frame).value, teams), forest)
    requires forall e :: e in forest ==> e.hi < C.IndexBall
    requires var players, ball := PlayerNodes(frame).value, BallPoint(frame).value;
      var p := FirstMinimum(PlayerSquares(players, ball));
      g.edges == forest[Key(p, C.IndexBall) := EuclideanDistance(ball, players[p].pos)][BasketEdge(ball).0 := BasketEdge(ball).1]
    ensures IsFrameGraph(frame, teams, g)
  {
    var ball := BallPoint(frame).value;
    var p := NearestPlayer(frame);
    NearestOfFrame(frame);
    PlayerEdgesWithBallEdges(forest, Key(p, C.IndexBall), EuclideanDistance(ball, PlayerNodes(frame).value[p].pos),
      BasketEdge(ball).0, BasketEdge(ball).1);
  }

  /** gs holds, position by position, the graph of each of the frames, all of which are readable. */
  ghost predicate GraphsOf(frames: seq<Frame>, teams: seq<Value>, gs: seq<FrameGraph>)
  {
    |gs| == |frames| && GraphsUpTo(frames, teams, gs)
  }

  /** gs holds the graphs of the first |gs| frames, all of which are readable. */
  ghost predicate GraphsUpTo(frames: seq<Frame>, teams: seq<Value>, gs: seq<FrameGraph>)
  {
    && |gs| <= |frames|
    && forall j :: 0 <= j < |gs| ==> FrameFailure(frames[j]).None? && IsFrameGraph(frames[j], teams, gs[j])
  }

  /** Appending the graph of the next frame keeps the graphs in step with the frames. */
  lemma GraphsUpToSnoc(frames: seq<Frame>, teams: seq<Value>, gs: seq<FrameGraph>, g: FrameGraph)
    requires GraphsUpTo(frames, teams, gs) && |gs| < |frames|
    requires FrameFailure(frames[|gs|]).None? && IsFrameGraph(frames[|gs|], teams, g)
    ensures GraphsUpTo(frames, teams, gs + [g])
  {
    forall j | 0 <= j < |gs| + 1
      ensures FrameFailure(frames[j]).None? && IsFrameGraph(frames[j], teams, (gs + [g])[j])
    {
      if j < |gs| {
        assert (gs + [g])[j] == gs[j];
      }
    }
  }

  /** Every frame of two listed teams of five yields a graph of 13 nodes and 10 edges. */
  lemma GraphsOfCounts(frames: seq<Frame>, teams: seq<Value>, gs: seq<FrameGraph>)
    requires GraphsOf(frames, teams, gs)
    ensures forall i :: 0 <= i < |frames| && TwoTeamsOfFive(frames[i], teams) ==>
      |gs[i].nodes| == 13 && |gs[i].edges| == 10
  {
    forall i | 0 <= i < |frames| && TwoTeamsOfFive(frames[i], teams)
      ensures |gs[i].nodes| == 13 && |gs[i].edges| == 10
    {
      FrameGraphCounts(frames[i], teams, gs[i]);
    }
  }
}
