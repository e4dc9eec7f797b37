/**
 * preprocessing.py: the sequence logic that turns per-frame tracking rows and play-by-play
 * rows into labelled possessions.
 *
 * A table is a sequence of rows in index order; a cell that pandas holds as NaN or None is
 * `Null` (team cells) or `None` (everything else).
 */
module Preprocessing {
  import opened Wrappers
  import opened Geometry
  import opened Forests
  import opened Frames
  import opened GraphModel
  import opened Graph
  import C = Constants

  // ---------------------------------------------------------------------------------------
  // get_posession_team

  /**
   * The possession team of one tracking row: the team column of the player nearest the ball
   * (the first such player in id order), or the KeyError of a missing column.
   */
  function NearestTeam(frame: Frame): Result<Value, Failure> {
    match FrameFailure(frame)
    case Some(failure) => Err(failure)
    case None => Ok(frame.teams[PlayerActor(NearestPlayer(frame))])
  }

  /**
   * The nearest player is the one the full frame graph joins to the ball, so the reduced path
   * reads the same team as set_posession_team would on the graph create_graph_from_dataset
   * builds for the row.
   */
  lemma NearestTeamOfFrameGraph(frame: Frame, teams: seq<Value>, g: FrameGraph)
    requires FrameFailure(frame).None? && IsFrameGraph(frame, teams, g)
    ensures BallNeighbour(g.order, g.edges) == Some(NearestPlayer(frame))
    ensures NearestTeam(frame) == Ok(frame.teams[PlayerActor(NearestPlayer(frame))])
  {
    var p := NearestPlayer(frame);
    var ball := BallPoint(frame).value;
    var F := PlayerEdges(g.edges);
    assert g.edges == F[Key(p, C.IndexBall) := EuclideanDistance(ball, PlayerNodes(frame).value[p].pos)]
                       [BasketEdge(ball).0 := BasketEdge(ball).1];
    BallNeighbourOfFrame(g.order, g.edges, p);
  }

  /**
   * One iteration of get_posession_team's loop: a fresh graph on the row, then create_nodes,
   * add_ball_node, add_closest_player_to_ball_edge, set_posession_team and
   * get_posession_team.
   */
  method RowPossessionTeam(frame: Frame, teams: seq<Value>) returns (r: Result<Value, Failure>)
    ensures r == NearestTeam(frame)
  {
    var graph := new PlayersGraph(frame, teams);
    var outcome := graph.CreateNodes();
    if outcome.Fail? {
      return Err(outcome.error);
    }
    ghost var players := graph.nodes;
    IdsMembers(C.PlayerCount);
    assert forall k :: 0 <= k < C.PlayerCount ==> PlayerReadable(frame, k);
    NearestTeamOfStages(frame, players);
    r := BallPath(graph, players);
  }

  /** With the players' nodes in place, the row's team is read off the player nearest the ball. */
  lemma NearestTeamOfStages(frame: Frame, players: map<int, NodeData>)
    requires PlayerNodes(frame) == Ok(players)
    ensures forall k :: 0 <= k < C.PlayerCount ==> k in players
    ensures BallPoint(frame).Err? ==> NearestTeam(frame) == Err(BallPoint(frame).error)
    ensures BallPoint(frame).Ok? ==>
      var p := FirstMinimum(PlayerSquares(players, BallPoint(frame).value));
      0 <= p < C.PlayerCount && NearestTeam(frame) == Ok(frame.teams[PlayerActor(p)])
  {
    if BallPoint(frame).Ok? {
      NearestOfFrame(frame);
    }
  }

  /** add_ball_node, then the nearest player's edge and team, once create_nodes has succeeded. */
  method BallPath(graph: PlayersGraph, ghost players: map<int, NodeData>) returns (r: Result<Value, Failure>)
    requires graph.Valid() && graph.pointBall.None? && graph.edges == map[]
    requires graph.order == Range(C.PlayerCount) && graph.nodes == players
    requires forall k :: k in players <==> 0 <= k < C.PlayerCount
    requires forall k :: 0 <= k < C.PlayerCount ==> PlayerActor(k) in graph.inputData.teams
    modifies graph
    ensures BallPoint(graph.inputData).Err? ==> r == Err(BallPoint(graph.inputData).error)
    ensures BallPoint(graph.inputData).Ok? ==>
      var p := FirstMinimum(PlayerSquares(players, BallPoint(graph.inputData).value));
      0 <= p < C.PlayerCount && r == Ok(graph.inputData.teams[PlayerActor(p)])
  {
    var outcome := graph.AddBallNode();
    if outcome.Fail? {
      return Err(outcome.error);
    }
    r := JoinNearest(graph, players);
  }

  /**
   * add_closest_player_to_ball_edge, set_posession_team and get_posession_team once the ball
   * is placed after the players 0..9: the team read is that of the nearest player.
   */
  method JoinNearest(graph: PlayersGraph, ghost players: map<int, NodeData>) returns (r: Result<Value, Failure>)
    requires graph.Valid() && graph.pointBall.Some? && graph.edges == map[]
    requires forall k :: 0 <= k < C.PlayerCount ==> k in players && PlayerActor(k) in graph.inputData.teams
    requires graph.order == Range(C.PlayerCount) + [C.IndexBall]
    requires graph.nodes == players[C.IndexBall := BallNode(graph.pointBall.value)]
    modifies graph`edges, graph`playerWithBall, graph`teamPossession
    ensures var p := FirstMinimum(PlayerSquares(players, graph.pointBall.value));
      0 <= p < C.PlayerCount && r == Ok(graph.inputData.teams[PlayerActor(p)])
  {
    ClosestAfterPlayers(players, graph.pointBall.value);
    ghost var p := FirstMinimum(PlayerSquares(players, graph.pointBall.value));
    var outcome := graph.AddClosestPlayerToBallEdge();
    assert graph.edges.Keys == {Key(p, C.IndexBall)};
    r := ReadPossession(graph, p);
  }

  /** set_posession_team and get_posession_team once the ball's only edge joins it to player p. */
  method ReadPossession(graph: PlayersGraph, ghost p: int) returns (r: Result<Value, Failure>)
    requires graph.Valid() && 0 <= p < C.PlayerCount && PlayerActor(p) in graph.inputData.teams
    requires graph.order == Range(C.PlayerCount) + [C.IndexBall] && graph.edges.Keys == {Key(p, C.IndexBall)}
    modifies graph`playerWithBall, graph`teamPossession
    ensures r == Ok(graph.inputData.teams[PlayerActor(p)])
  {
    assert graph.order[p] == p;
    BallNeighbourOfSingleEdge(graph.order, graph.edges, p, p);
    var outcome := graph.SetPosessionTeam();
    var team := graph.GetPosessionTeam();
    return Ok(team);
  }

  /** Each row's own outcome, in row order. */
  function RowTeams(data: seq<Frame>): (rs: seq<Result<Value, Failure>>)
    ensures |rs| == |data|
  {
    seq(|data|, i requires 0 <= i < |data| => NearestTeam(data[i]))
  }

  /**
   * A loop that appends each row's value and stops at the first exception: the values of all
   * rows, or the first row's exception.
   */
  function Collect<T>(rs: seq<Result<T, Failure>>): Result<seq<T>, Failure> {
    if rs == [] then Ok([])
    else match rs[0]
      case Err(e) => Err(e)
      case Ok(t) => Prepend([t], Collect(rs[1..]))
  }

  /** The values ts put before the values of a result, or its exception. */
  function Prepend<T>(ts: seq<T>, r: Result<seq<T>, Failure>): Result<seq<T>, Failure> {
    if r.Ok? then Ok(ts + r.value) else r
  }

  lemma PrependNothing<T>(r: Result<seq<T>, Failure>)
    ensures Prepend([], r) == r
  {
    if r.Ok? {
      assert [] + r.value == r.value;
    }
  }

  lemma PrependTwice<T>(ts: seq<T>, us: seq<T>, r: Result<seq<T>, Failure>)
    ensures Prepend(ts, Prepend(us, r)) == Prepend(ts + us, r)
  {
    if r.Ok? {
      assert ts + (us + r.value) == (ts + us) + r.value;
    }
  }

  /** All rows pass: one value per row, row i's own. */
  lemma {:induction false} CollectOk<T>(rs: seq<Result<T, Failure>>)
    ensures Collect(rs).Ok? <==> forall i :: 0 <= i < |rs| ==> rs[i].Ok?
    ensures Collect(rs).Ok? ==>
      (|Collect(rs).value| == |rs| && forall i :: 0 <= i < |rs| ==> rs[i] == Ok(Collect(rs).value[i]))
  {
    if rs != [] {
      CollectOk(rs[1..]);
      assert forall i :: 1 <= i < |rs| ==> rs[i] == rs[1..][i - 1];
    }
  }

  /** Otherwise the exception is that of the first row that fails. */
  lemma {:induction false} CollectErr<T>(rs: seq<Result<T, Failure>>)
    ensures Collect(rs).Err? ==>
      exists i :: (0 <= i < |rs| && rs[i] == Err(Collect(rs).error) && forall j :: 0 <= j < i ==> rs[j].Ok?)
  {
    if rs != [] && rs[0].Ok? && Collect(rs).Err? {
      CollectErr(rs[1..]);
      var i :| 0 <= i < |rs[1..]| && rs[1..][i] == Err(Collect(rs).error) && forall j :: 0 <= j < i ==> rs[1..][j].Ok?;
      assert rs[i + 1] == rs[1..][i];
      assert forall j :: 1 <= j < i + 1 ==> rs[j] == rs[1..][j - 1];
    }
  }

  /**
   * get_posession_team: a loop over the rows that appends each row's team, ending with the
   * first row's exception.
   */
  method GetPossessionTeam(data: seq<Frame>, teams: seq<Value>) returns (r: Result<seq<Value>, Failure>)
    ensures r == Collect(RowTeams(data))
  {
    ghost var rs := RowTeams(data);
    var possessionTeam: seq<Value> := [];
    assert rs[0..] == rs;
    PrependNothing(Collect(rs));
    for i := 0 to |data|
      invariant Collect(rs) == Prepend(possessionTeam, Collect(rs[i..]))
    {
      var team := RowPossessionTeam(data[i], teams);
      assert team == rs[i];
      assert rs[i..][1..] == rs[i + 1..];
      if team.Err? {
        assert Collect(rs[i..]) == Err(team.error);
        return Err(team.error);
      }
      PrependTwice(possessionTeam, [team.value], Collect(rs[i + 1..]));
      possessionTeam := possessionTeam + [team.value];
    }
    assert rs[|data|..] == [];
    assert possessionTeam + [] == possessionTeam;
    return Ok(possessionTeam);
  }

  // ---------------------------------------------------------------------------------------
  // drop_null_in_players

  /** The row's ten player{k}_name cells are all there and none is NaN. */
  predicate AllNamed(row: Frame) {
    forall k :: 1 <= k <= C.PlayerCount ==> Player(k) in row.names && row.names[Player(k)] != Null
  }

  /**
   * The first of the columns player1_name .. player10_name, from column k on, that some row
   * lacks: selecting the columns raises KeyError for it.
   */
  function MissingName(data: seq<Frame>, k: nat): (r: Option<nat>)
    requires 1 <= k <= C.PlayerCount + 1
    ensures r.Some? ==> k <= r.value <= C.PlayerCount && exists i :: 0 <= i < |data| && Player(r.value) !in data[i].names
    ensures r.Some? ==> forall j, i :: k <= j < r.value && 0 <= i < |data| ==> Player(j) in data[i].names
    ensures r.None? ==> forall j, i :: k <= j <= C.PlayerCount && 0 <= i < |data| ==> Player(j) in data[i].names
    decreases C.PlayerCount + 1 - k
  {
    if k > C.PlayerCount then None
    else if exists i :: 0 <= i < |data| && Player(k) !in data[i].names then Some(k)
    else MissingName(data, k + 1)
  }

  /** The rows whose ten names are all present, in their original order. */
  function NamedRows(data: seq<Frame>): seq<Frame> {
    if data == [] then []
    else (if AllNamed(data[0]) then [data[0]] else []) + NamedRows(data[1..])
  }

  /** drop_null_in_players: the rows with all ten player names, or the KeyError of a missing column. */
  function DropNullInPlayers(data: seq<Frame>): (r: Result<seq<Frame>, Failure>)
    ensures r.Err? <==> exists k, i :: 1 <= k <= C.PlayerCount && 0 <= i < |data| && Player(k) !in data[i].names
    ensures r.Err? ==> r.error.KeyError? && r.error.column.Name?
  {
    match MissingName(data, 1)
    case Some(k) => Err(KeyError(Name(Player(k))))
    case None => Ok(NamedRows(data))
  }

  /** A row is kept iff it is in the table and all its names are present. */
  lemma {:induction false} NamedRowsMembers(data: seq<Frame>)
    ensures forall row :: row in NamedRows(data) <==> row in data && AllNamed(row)
    ensures |NamedRows(data)| <= |data|
  {
    if data != [] {
      NamedRowsMembers(data[1..]);
      assert forall row :: row in data <==> row == data[0] || row in data[1..];
    }
  }

  /** Filtering keeps the order: the rows kept from a + b are those kept from a, then from b. */
  lemma {:induction false} NamedRowsAppend(a: seq<Frame>, b: seq<Frame>)
    ensures NamedRows(a + b) == NamedRows(a) + NamedRows(b)
  {
    if a == [] {
      assert a + b == b;
    } else {
      var head := if AllNamed(a[0]) then [a[0]] else [];
      assert (a + b)[0] == a[0] && (a + b)[1..] == a[1..] + b;
      NamedRowsAppend(a[1..], b);
      calc {
        NamedRows(a + b);
        head + NamedRows(a[1..] + b);
        head + (NamedRows(a[1..]) + NamedRows(b));
        (head + NamedRows(a[1..])) + NamedRows(b);
        NamedRows(a) + NamedRows(b);
      }
    }
  }

  /** Filtering the filtered rows drops nothing more. */
  lemma {:induction false} NamedRowsIdempotent(data: seq<Frame>)
    ensures NamedRows(NamedRows(data)) == NamedRows(data)
  {
    if data != [] {
      NamedRowsIdempotent(data[1..]);
      var head := if AllNamed(data[0]) then [data[0]] else [];
      NamedRowsAppend(head, NamedRows(data[1..]));
      if AllNamed(data[0]) {
        assert head[1..] == [];
      }
    }
  }

  // ---------------------------------------------------------------------------------------
  // create_posessions and create_value_x_posession

  /** A possession label: 'home' or 'away'. */
  datatype Side = Home | Away

  /**
   * One play-by-play row, with the columns these two functions read; `None` is a NaN cell.
   * AnyShotOutcome is the shot outcome, or else the free-throw outcome, of the row.
   */
  datatype PlayRow = PlayRow(
    quarterScore: int,
    secLeft: real,
    secLeftEnd: Option<real>,
    awayScore: int,
    homeScore: int,
    awayPlay: Option<string>,
    homePlay: Option<string>,
    anyShotOutcome: Option<string>,
    reboundType: Option<string>,
    turnoverType: Option<string>,
    foulType: Option<string>,
    enterGame: Option<string>,
    timeoutTeam: Option<string>,
    posession: Option<Side>)

  /** The kinds of event the possession rules look for. */
  datatype Event = ShotMade | DefensiveRebound | OffensiveRebound | Turnover | PersonalFoul

  /** A rule: on a row with a play of the home (or away) side and this event, the possession goes to side. */
  datatype Rule = Rule(byHome: bool, event: Event, side: Side)

  /** create_posessions's ten rules, in the order it applies them: the away side's, then the home side's. */
  const Rules: seq<Rule> := [
    Rule(false, ShotMade, Home), Rule(false, DefensiveRebound, Away), Rule(false, OffensiveRebound, Away),
    Rule(false, Turnover, Home), Rule(false, PersonalFoul, Away),
    Rule(true, ShotMade, Away), Rule(true, DefensiveRebound, Home), Rule(true, OffensiveRebound, Home),
    Rule(true, Turnover, Away), Rule(true, PersonalFoul, Home)]

  predicate Happens(event: Event, row: PlayRow) {
    match event
    case ShotMade => row.anyShotOutcome == Some("make")
    case DefensiveRebound => row.reboundType == Some("defensive")
    case OffensiveRebound => row.reboundType == Some("offensive")
    case Turnover => row.turnoverType.Some?
    case PersonalFoul => row.foulType == Some("personal")
  }

  /** The rule's condition holds on the row. */
  predicate Fires(rule: Rule, row: PlayRow) {
    (if rule.byHome then row.homePlay.Some? else row.awayPlay.Some?) && Happens(rule.event, row)
  }

  /** The possession after applying the rules in order, each overwriting what the earlier ones wrote. */
  function ApplyRules(rules: seq<Rule>, current: Option<Side>, row: PlayRow): Option<Side> {
    if rules == [] then current
    else ApplyRules(rules[1..], if Fires(rules[0], row) then Some(rules[0].side) else current, row)
  }

  /** The side of the last of the rules that fires on the row, if any. */
  function LastFiring(rules: seq<Rule>, row: PlayRow): (r: Option<Side>)
    ensures r.Some? <==> exists i :: 0 <= i < |rules| && Fires(rules[i], row)
    ensures r.Some? ==> exists i :: (0 <= i < |rules| && Fires(rules[i], row) && rules[i].side == r.value
      && forall j :: i < j < |rules| ==> !Fires(rules[j], row))
  {
    if rules == [] then None
    else if Fires(rules[|rules| - 1], row) then Some(rules[|rules| - 1].side)
    else
      var r := LastFiring(rules[..|rules| - 1], row);
      assert forall i :: 0 <= i < |rules| - 1 ==> rules[..|rules| - 1][i] == rules[i];
      r
  }

  /** Applying one more rule. */
  lemma {:induction false} ApplyRulesSnoc(rules: seq<Rule>, rule: Rule, current: Option<Side>, row: PlayRow)
    ensures ApplyRules(rules + [rule], current, row)
         == if Fires(rule, row) then Some(rule.side) else ApplyRules(rules, current, row)
  {
    if rules == [] {
      assert [rule][1..] == [];
    } else {
      assert (rules + [rule])[1..] == rules[1..] + [rule];
      ApplyRulesSnoc(rules[1..], rule, if Fires(rules[0], row) then Some(rules[0].side) else current, row);
    }
  }

  /** A later matching rule overrides an earlier one: the rules leave the last firing rule's side, or the prior value. */
  lemma {:induction false} ApplyRulesIsLastFiring(rules: seq<Rule>, current: Option<Side>, row: PlayRow)
    ensures ApplyRules(rules, current, row) == if LastFiring(rules, row).Some? then LastFiring(rules, row) else current
  {
    if rules != [] {
      var init, last := rules[..|rules| - 1], rules[|rules| - 1];
      assert rules == init + [last];
      ApplyRulesSnoc(init, last, current, row);
      ApplyRulesIsLastFiring(init, current, row);
    }
  }

  /** The row's possession once the ten rules have run. */
  function AfterRules(row: PlayRow): Option<Side> {
    ApplyRules(Rules, row.posession, row)
  }

  /** An EnterGame or TimeoutTeam entry: the row takes the previous row's possession. */
  predicate Entered(row: PlayRow) {
    row.enterGame.Some? || row.timeoutTeam.Some?
  }

  /**
   * create_posessions: the ten rules run over the whole column in order, then every entered row
   * takes the previous row's possession as the rules left it (none for the first row).
   */
  method CreatePossessions(rows: seq<PlayRow>) returns (result: seq<PlayRow>)
    ensures |result| == |rows|
    ensures forall i :: 0 <= i < |rows| ==> result[i] == rows[i].(posession := result[i].posession)
    ensures forall i :: 0 <= i < |rows| && !Entered(rows[i]) ==> result[i].posession == AfterRules(rows[i])
    ensures forall i :: 0 <= i < |rows| && Entered(rows[i]) ==>
      result[i].posession == if i == 0 then None else AfterRules(rows[i - 1])
  {
    var posession := new Option<Side>[|rows|](i requires 0 <= i < |rows| => rows[i].posession);
    for r := 0 to |Rules|
      invariant forall i :: 0 <= i < |rows| ==> posession[i] == ApplyRules(Rules[..r], rows[i].posession, rows[i])
    {
      WriteRule(posession, rows, Rules[..r], Rules[r]);
      assert Rules[..r + 1] == Rules[..r] + [Rules[r]];
    }
    assert Rules[..|Rules|] == Rules;
    TakePrevious(posession, rows);
    result := seq(|rows|, i requires 0 <= i < |rows| reads posession => rows[i].(posession := posession[i]));
  }

  /** One `.loc` write: the rows where the rule fires take its side, the others keep theirs. */
  method WriteRule(posession: array<Option<Side>>, rows: seq<PlayRow>, ghost done: seq<Rule>, rule: Rule)
    requires posession.Length == |rows|
    requires forall i :: 0 <= i < |rows| ==> posession[i] == ApplyRules(done, rows[i].posession, rows[i])
    modifies posession
    ensures forall i :: 0 <= i < |rows| ==> posession[i] == ApplyRules(done + [rule], rows[i].posession, rows[i])
  {
    forall i | 0 <= i < |rows| {
      ApplyRulesSnoc(done, rule, rows[i].posession, rows[i]);
    }
    for i := 0 to |rows|
      invariant forall j :: 0 <= j < i ==> posession[j] == ApplyRules(done + [rule], rows[j].posession, rows[j])
      invariant forall j :: i <= j < |rows| ==> posession[j] == ApplyRules(done, rows[j].posession, rows[j])
    {
      if Fires(rule, rows[i]) {
        posession[i] := Some(rule.side);
      }
    }
  }

  /** The substitution pass: a row with a player entering or a timeout takes the previous row's value. */
  method TakePrevious(posession: array<Option<Side>>, rows: seq<PlayRow>)
    requires posession.Length == |rows|
    requires forall i :: 0 <= i < |rows| ==> posession[i] == AfterRules(rows[i])
    modifies posession
    ensures forall i :: 0 <= i < |rows| && !Entered(rows[i]) ==> posession[i] == AfterRules(rows[i])
    ensures forall i :: 0 <= i < |rows| && Entered(rows[i]) ==>
      posession[i] == if i == 0 then None else AfterRules(rows[i - 1])
  {
    var previous := Shifted(posession[..]);
    for i := 0 to |rows|
      invariant forall j :: 0 <= j < i ==> posession[j] == if Entered(rows[j]) then previous[j] else AfterRules(rows[j])
      invariant forall j :: i <= j < |rows| ==> posession[j] == AfterRules(rows[j])
    {
      if Entered(rows[i]) {
        posession[i] := previous[i];
      }
    }
  }

  /** shift(1): each entry takes the one before it, and the first becomes NaN. */
  function Shifted<T>(column: seq<Option<T>>): (r: seq<Option<T>>)
    ensures |r| == |column|
    ensures forall i :: 0 < i < |column| ==> r[i] == column[i - 1]
    ensures |column| > 0 ==> r[0] == None
  {
    if column == [] then [] else [None] + column[..|column| - 1]
  }

  /** A row of create_value_x_posession's table: the kept columns and the two score changes. */
  datatype ValueRow = ValueRow(
    quarterScore: int,
    secLeft: real,
    secLeftEnd: Option<real>,
    awayScore: int,
    homeScore: int,
    posession: Option<Side>,
    yAway: Option<int>,
    yHome: Option<int>)

  /** The change of a score column to the next row: shift(-1) minus the column, NaN on the last row. */
  function NextChange(scores: seq<int>, i: nat): (d: Option<int>)
    requires i < |scores|
    ensures d.None? <==> i == |scores| - 1
    ensures d.Some? ==> scores[i] + d.value == scores[i + 1]
  {
    if i + 1 < |scores| then Some(scores[i + 1] - scores[i]) else None
  }

  function AwayScores(rows: seq<PlayRow>): (s: seq<int>)
    ensures |s| == |rows| && forall i :: 0 <= i < |rows| ==> s[i] == rows[i].awayScore
  {
    seq(|rows|, i requires 0 <= i < |rows| => rows[i].awayScore)
  }

  function HomeScores(rows: seq<PlayRow>): (s: seq<int>)
    ensures |s| == |rows| && forall i :: 0 <= i < |rows| ==> s[i] == rows[i].homeScore
  {
    seq(|rows|, i requires 0 <= i < |rows| => rows[i].homeScore)
  }

  /** create_value_x_posession: the six kept columns of each row, with y_away and y_home. */
  function CreateValueXPosession(rows: seq<PlayRow>): (r: seq<ValueRow>)
    ensures |r| == |rows|
    ensures forall i :: 0 <= i < |rows| ==>
      var row := rows[i];
      && r[i].quarterScore == row.quarterScore && r[i].secLeft == row.secLeft && r[i].secLeftEnd == row.secLeftEnd
      && r[i].awayScore == row.awayScore && r[i].homeScore == row.homeScore && r[i].posession == row.posession
      && (r[i].yAway.None? <==> i == |rows| - 1) && (r[i].yHome.None? <==> i == |rows| - 1)
      && (i + 1 < |rows| ==>
            (row.awayScore + r[i].yAway.value == rows[i + 1].awayScore
             && row.homeScore + r[i].yHome.value == rows[i + 1].homeScore))
  {
    var away, home := AwayScores(rows), HomeScores(rows);
    seq(|rows|, i requires 0 <= i < |rows| =>
      ValueRow(rows[i].quarterScore, rows[i].secLeft, rows[i].secLeftEnd, rows[i].awayScore, rows[i].homeScore,
        rows[i].posession, NextChange(away, i), NextChange(home, i)))
  }

  /** The sum of the changes of the rows before the last one (NaN skipped). */
  function SumChanges(ys: seq<Option<int>>): int {
    if ys == [] then 0
    else SumChanges(ys[..|ys| - 1]) + (if ys[|ys| - 1].Some? then ys[|ys| - 1].value else 0)
  }

  /** The changes telescope: over rows 0..n - 1 they add up to the last score minus the first. */
  lemma {:induction false} ScoreChangesTelescope(scores: seq<int>, n: nat)
    requires 0 < n <= |scores|
    ensures SumChanges(seq(n - 1, i requires 0 <= i < n - 1 => NextChange(scores, i))) == scores[n - 1] - scores[0]
  {
    if n > 1 {
      ScoreChangesTelescope(scores, n - 1);
      var ys := seq(n - 1, i requires 0 <= i < n - 1 => NextChange(scores, i));
      assert ys[..n - 2] == seq(n - 2, i requires 0 <= i < n - 2 => NextChange(scores, i));
    }
  }

  /** Over the whole table, y_away adds up to the final away score minus the first (and so for home). */
  lemma ValueChangesTelescope(rows: seq<PlayRow>)
    requires |rows| > 0
    ensures var r := CreateValueXPosession(rows);
      && SumChanges(seq(|r|, i requires 0 <= i < |r| => r[i].yAway)) == rows[|rows| - 1].awayScore - rows[0].awayScore
      && SumChanges(seq(|r|, i requires 0 <= i < |r| => r[i].yHome)) == rows[|rows| - 1].homeScore - rows[0].homeScore
  {
    var r := CreateValueXPosession(rows);
    var n := |rows|;
    var away, home := AwayScores(rows), HomeScores(rows);
    ScoreChangesTelescope(away, n);
    ScoreChangesTelescope(home, n);
    var ya := seq(n, i requires 0 <= i < n => r[i].yAway);
    var yh := seq(n, i requires 0 <= i < n => r[i].yHome);
    assert ya[..n - 1] == seq(n - 1, i requires 0 <= i < n - 1 => NextChange(away, i));
    assert yh[..n - 1] == seq(n - 1, i requires 0 <= i < n - 1 => NextChange(home, i));
  }

  /** A row as create_posession_id reads it: its possession team and its game clock. */
  datatype TrackRow = TrackRow(team: Value, gameClock: real)

  /** A row of create_posession_id's result: possession_id and possession_duration added. */
  datatype IdRow = IdRow(team: Value, gameClock: real, possessionId: nat, duration: Option<real>)

  /** new_possession: the team differs from the previous row's; row 0 compares with NaN, so it is new. */
  predicate NewPossession(teams: seq<Value>, i: nat)
    requires i < |teams|
  {
    i == 0 || !Matches(teams[i], teams[i - 1])
  }

  /** Row k continues the possession of row k - 1: both teams are present and equal. */
  predicate SameTeam(rows: seq<TrackRow>, k: nat)
    requires 0 < k < |rows|
  {
    Matches(rows[k].team, rows[k - 1].team)
  }

  /** The cumulative sum of new_possession up to row i. */
  function CountNew(teams: seq<Value>, i: nat): (c: nat)
    requires i < |teams|
    ensures 1 <= c <= i + 1
  {
    (if i == 0 then 0 else CountNew(teams, i - 1)) + (if NewPossession(teams, i) then 1 else 0)
  }

  function Teams(rows: seq<TrackRow>): (teams: seq<Value>)
    ensures |teams| == |rows| && forall i :: 0 <= i < |rows| ==> teams[i] == rows[i].team
  {
    seq(|rows|, i requires 0 <= i < |rows| => rows[i].team)
  }

  /** possession_duration: the clock drop to the next row, null on the last row of a possession. */
  function Duration(rows: seq<TrackRow>, i: nat): (d: Option<real>)
    requires i < |rows|
    ensures d.None? <==> i + 1 == |rows| || !SameTeam(rows, i + 1)
    ensures d.Some? ==> d.value == rows[i].gameClock - rows[i + 1].gameClock
  {
    if i + 1 == |rows| || NewPossession(Teams(rows), i + 1) then None
    else Some(rows[i].gameClock - rows[i + 1].gameClock)
  }

  /** The id of row i is the previous row's, plus one when the team changes. */
  predicate IdStep(rows: seq<TrackRow>, r: seq<IdRow>, i: nat)
    requires 0 < i < |rows| == |r|
  {
    r[i].possessionId == r[i - 1].possessionId + (if SameTeam(rows, i) then 0 else 1)
  }

  /** create_posession_id. */
  function CreatePossessionId(rows: seq<TrackRow>): (r: seq<IdRow>)
    ensures |r| == |rows|
    ensures forall i {:trigger r[i]} :: 0 <= i < |rows| ==>
      r[i].team == rows[i].team && r[i].gameClock == rows[i].gameClock && r[i].duration == Duration(rows, i)
    ensures |rows| > 0 ==> r[0].possessionId == 1
    ensures forall i :: 0 < i < |rows| ==> IdStep(rows, r, i)
  {
    var teams := Teams(rows);
    seq(|rows|, i requires 0 <= i < |rows| =>
      IdRow(rows[i].team, rows[i].gameClock, CountNew(teams, i), Duration(rows, i)))
  }

  lemma {:induction false} CountNewMonotone(teams: seq<Value>, i: nat, j: nat)
    requires i <= j < |teams|
    ensures CountNew(teams, i) <= CountNew(teams, j)
    decreases j
  {
    if i < j {
      CountNewMonotone(teams, i, j - 1);
    }
  }

  lemma {:induction false} CountNewSame(teams: seq<Value>, i: nat, j: nat)
    requires i <= j < |teams|
    ensures CountNew(teams, i) == CountNew(teams, j) <==> forall k :: i < k <= j ==> !NewPossession(teams, k)
    decreases j
  {
    if i < j {
      CountNewSame(teams, i, j - 1);
      CountNewMonotone(teams, i, j - 1);
    }
  }

  /** Row k's possession id is the running count of new possessions. */
  lemma PossessionIdAt(rows: seq<TrackRow>, k: nat)
    requires k < |rows|
    ensures CreatePossessionId(rows)[k].possessionId == CountNew(Teams(rows), k)
  {
  }

  /** new_possession, read on the rows: row k > 0 starts a possession unless it continues row k - 1. */
  lemma NewPossessionOfRows(rows: seq<TrackRow>)
    ensures forall k :: 0 < k < |rows| ==> (NewPossession(Teams(rows), k) <==> !SameTeam(rows, k))
  {
  }

  /** Possession ids never decrease down the table. */
  lemma PossessionIdsMonotone(rows: seq<TrackRow>, i: nat, j: nat)
    requires i <= j < |rows|
    ensures CreatePossessionId(rows)[i].possessionId <= CreatePossessionId(rows)[j].possessionId
  {
    CountNewMonotone(Teams(rows), i, j);
    PossessionIdAt(rows, i);
    PossessionIdAt(rows, j);
  }

  /** Two rows share a possession id exactly when the team matches at every step between them. */
  lemma PossessionIdsSame(rows: seq<TrackRow>, i: nat, j: nat)
    requires i <= j < |rows|
    ensures CreatePossessionId(rows)[i].possessionId == CreatePossessionId(rows)[j].possessionId
        <==> forall k :: i < k <= j ==> SameTeam(rows, k)
  {
    CountNewSame(Teams(rows), i, j);
    NewPossessionOfRows(rows);
    PossessionIdAt(rows, i);
    PossessionIdAt(rows, j);
  }

  /** The summed possession_duration of the rows carrying a possession id, nulls skipped, over rows 0..n - 1. */
  function DurationSum(rows: seq<IdRow>, id: nat, n: nat): real
    requires n <= |rows|
  {
    if n == 0 then 0.0
    else
      var d := rows[n - 1].duration;
      DurationSum(rows, id, n - 1) + (if rows[n - 1].possessionId == id && d.Some? then d.value else 0.0)
  }

  /** groupby(possession_id).sum() of possession_duration. */
  function GroupDuration(rows: seq<IdRow>, id: nat): real {
    DurationSum(rows, id, |rows|)
  }

  /** A possession whose summed duration is below the limit. */
  predicate Short(rows: seq<IdRow>, id: nat, limit: real) {
    GroupDuration(rows, id) < limit
  }

  /** The rows of one possession: a maximal run a..b of matching teams. */
  predicate PossessionRun(rows: seq<TrackRow>, a: nat, b: nat) {
    && a <= b < |rows|
    && (a == 0 || !SameTeam(rows, a))
    && (b + 1 == |rows| || !SameTeam(rows, b + 1))
    && forall k :: a < k <= b ==> SameTeam(rows, k)
  }

  /** Rows of other possessions add nothing to a possession's sum. */
  lemma {:induction false} DurationSumSkips(r: seq<IdRow>, id: nat, lo: nat, hi: nat)
    requires lo <= hi <= |r|
    requires forall k :: lo <= k < hi ==> r[k].possessionId != id
    ensures DurationSum(r, id, hi) == DurationSum(r, id, lo)
    decreases hi
  {
    if lo < hi {
      DurationSumSkips(r, id, lo, hi - 1);
    }
  }

  /** Within a possession, the durations telescope to the clock drop. */
  lemma {:induction false} DurationSumTelescopes(r: seq<IdRow>, id: nat, a: nat, m: nat)
    requires a <= m < |r|
    requires forall k :: a <= k < m ==>
      r[k].possessionId == id && r[k].duration == Some(r[k].gameClock - r[k + 1].gameClock)
    ensures DurationSum(r, id, m) == DurationSum(r, id, a) + (r[a].gameClock - r[m].gameClock)
    decreases m
  {
    if a < m {
      DurationSumTelescopes(r, id, a, m - 1);
    }
  }

  /** Rows above a possession carry smaller ids, rows below it larger ones. */
  lemma PossessionIdsOutside(rows: seq<TrackRow>, a: nat, b: nat)
    requires PossessionRun(rows, a, b)
    ensures var r := CreatePossessionId(rows);
      && (forall k :: 0 <= k < a ==> r[k].possessionId < r[a].possessionId)
      && (forall k :: b < k < |rows| ==> r[k].possessionId > r[b].possessionId)
  {
    var r, teams := CreatePossessionId(rows), Teams(rows);
    NewPossessionOfRows(rows);
    PossessionIdAt(rows, a);
    forall k | 0 <= k < a
      ensures r[k].possessionId < r[a].possessionId
    {
      CountNewMonotone(teams, k, a - 1);
      PossessionIdAt(rows, k);
    }
    PossessionIdAt(rows, b);
    forall k | b < k < |rows|
      ensures r[k].possessionId > r[b].possessionId
    {
      CountNewMonotone(teams, b + 1, k);
      PossessionIdAt(rows, k);
      PossessionIdAt(rows, b + 1);
    }
  }

  /** Inside a possession every row carries its id, and every row but the last its clock drop. */
  lemma PossessionRowsInside(rows: seq<TrackRow>, a: nat, b: nat)
    requires PossessionRun(rows, a, b)
    ensures var r := CreatePossessionId(rows);
      && (forall k :: a <= k <= b ==> r[k].possessionId == r[a].possessionId)
      && (forall k :: a <= k < b ==> r[k].duration == Some(r[k].gameClock - r[k + 1].gameClock))
      && r[b].duration == None
  {
    var r, teams := CreatePossessionId(rows), Teams(rows);
    NewPossessionOfRows(rows);
    PossessionIdAt(rows, a);
    forall k | a <= k <= b
      ensures r[k].possessionId == r[a].possessionId
    {
      CountNewSame(teams, a, k);
      PossessionIdAt(rows, k);
    }
    forall k | a <= k < b
      ensures r[k].duration == Some(r[k].gameClock - r[k + 1].gameClock)
    {
      assert SameTeam(rows, k + 1);
      assert r[k].duration == Duration(rows, k);
    }
  }

  /** The summed duration of a run of rows with one id, with no other row carrying it. */
  lemma GroupDurationOfRun(r: seq<IdRow>, a: nat, b: nat)
    requires a <= b < |r|
    requires forall k :: 0 <= k < a ==> r[k].possessionId < r[a].possessionId
    requires forall k :: b < k < |r| ==> r[k].possessionId > r[b].possessionId
    requires forall k :: a <= k <= b ==> r[k].possessionId == r[a].possessionId
    requires forall k :: a <= k < b ==> r[k].duration == Some(r[k].gameClock - r[k + 1].gameClock)
    requires r[b].duration == None
    ensures GroupDuration(r, r[a].possessionId) == r[a].gameClock - r[b].gameClock
  {
    var id := r[a].possessionId;
    DurationSumSkips(r, id, 0, a);
    DurationSumTelescopes(r, id, a, b);
    assert DurationSum(r, id, b + 1) == DurationSum(r, id, b);
    DurationSumSkips(r, id, b + 1, |r|);
  }

  /** A possession's summed duration is the clock at its first row minus the clock at its last row. */
  lemma PossessionDuration(rows: seq<TrackRow>, a: nat, b: nat)
    requires PossessionRun(rows, a, b)
    ensures var r := CreatePossessionId(rows);
      GroupDuration(r, r[a].possessionId) == rows[a].gameClock - rows[b].gameClock
  {
    PossessionIdsOutside(rows, a, b);
    PossessionRowsInside(rows, a, b);
    GroupDurationOfRun(CreatePossessionId(rows), a, b);
  }

  /** ffill: each null takes the last non-null value above it; leading nulls stay null. */
  function FFill(vs: seq<Value>): (r: seq<Value>)
    ensures |r| == |vs|
  {
    if vs == [] then []
    else
      var p := FFill(vs[..|vs| - 1]);
      p + [if vs[|vs| - 1] != Null || p == [] then vs[|vs| - 1] else p[|p| - 1]]
  }

  /** Row i of a forward fill: its own value when not null, otherwise the filled row above. */
  lemma {:induction false} FFillAt(vs: seq<Value>, i: nat)
    requires i < |vs|
    ensures FFill(vs)[i] == if vs[i] != Null || i == 0 then vs[i] else FFill(vs)[i - 1]
    decreases |vs|
  {
    var n := |vs|;
    if i < n - 1 {
      FFillAt(vs[..n - 1], i);
      assert vs[..n - 1][i] == vs[i];
      if i > 0 {
        assert FFill(vs)[i - 1] == FFill(vs[..n - 1])[i - 1];
      }
    }
  }

  /** A filled row is null exactly when every row up to it is null. */
  lemma {:induction false} FFillNull(vs: seq<Value>, i: nat)
    requires i < |vs|
    ensures FFill(vs)[i] == Null <==> forall j :: 0 <= j <= i ==> vs[j] == Null
    decreases i
  {
    FFillAt(vs, i);
    if i > 0 {
      FFillNull(vs, i - 1);
    }
  }

  /** A non-null filled value comes from the last non-null row at or above it. */
  lemma {:induction false} FFillSource(vs: seq<Value>, i: nat)
    requires i < |vs| && FFill(vs)[i] != Null
    ensures exists j :: 0 <= j <= i && vs[j] == FFill(vs)[i] && forall k :: j < k <= i ==> vs[k] == Null
    decreases i
  {
    FFillAt(vs, i);
    if vs[i] == Null {
      FFillSource(vs, i - 1);
      var j :| 0 <= j <= i - 1 && vs[j] == FFill(vs)[i - 1] && forall k :: j < k <= i - 1 ==> vs[k] == Null;
      assert forall k :: j < k <= i ==> vs[k] == Null;
    }
  }

  /** Forward filling twice is forward filling once. */
  lemma {:induction false} FFillIdempotent(vs: seq<Value>)
    ensures FFill(FFill(vs)) == FFill(vs)
  {
    var w := FFill(vs);
    forall i | 0 <= i < |vs|
      ensures FFill(w)[i] == w[i]
    {
      FFillIdempotentAt(vs, i);
    }
  }

  lemma {:induction false} FFillIdempotentAt(vs: seq<Value>, i: nat)
    requires i < |vs|
    ensures FFill(FFill(vs))[i] == FFill(vs)[i]
    decreases i
  {
    FFillAt(FFill(vs), i);
    FFillAt(vs, i);
    if i > 0 {
      FFillIdempotentAt(vs, i - 1);
    }
  }

  /**
   * The teams after the left merge: null on every row of a short possession. What this means for
   * numbered possessions is stated by ShortPossessionNulled.
   */
  function NulledTeams(rows: seq<IdRow>, limit: real): (ts: seq<Value>)
    ensures |ts| == |rows|
    ensures forall i :: 0 <= i < |rows| ==>
      ts[i] == if Short(rows, rows[i].possessionId, limit) then Null else rows[i].team
  {
    seq(|rows|, i requires 0 <= i < |rows| =>
      if Short(rows, rows[i].possessionId, limit) then Null else rows[i].team)
  }

  /** clean_short_posessions. */
  function CleanShortPossessions(rows: seq<IdRow>, limit: real): (r: seq<IdRow>)
    ensures |r| == |rows|
    ensures forall i :: 0 <= i < |rows| ==> r[i] == rows[i].(team := r[i].team)
  {
    var teams := FFill(NulledTeams(rows, limit));
    seq(|rows|, i requires 0 <= i < |rows| => rows[i].(team := teams[i]))
  }

  /** A row whose team survives: not in a short possession and not null. */
  predicate Kept(rows: seq<IdRow>, limit: real, j: nat)
    requires j < |rows|
  {
    !Short(rows, rows[j].possessionId, limit) && rows[j].team != Null
  }

  /** Outside short possessions a non-null team is left as it was. */
  lemma KeptTeamUnchanged(rows: seq<IdRow>, limit: real, i: nat)
    requires i < |rows| && Kept(rows, limit, i)
    ensures CleanShortPossessions(rows, limit)[i].team == rows[i].team
  {
    FFillAt(NulledTeams(rows, limit), i);
  }

  /** Every cleaned team is the team of the last kept row at or above it, or null when there is none. */
  lemma CleanedTeamSource(rows: seq<IdRow>, limit: real, i: nat)
    requires i < |rows|
    ensures var t := CleanShortPossessions(rows, limit)[i].team;
      && (t == Null <==> forall j :: 0 <= j <= i ==> !Kept(rows, limit, j))
      && (t != Null ==> exists j :: 0 <= j <= i && Kept(rows, limit, j) && rows[j].team == t
                                  && forall k :: j < k <= i ==> !Kept(rows, limit, k))
  {
    var ts := NulledTeams(rows, limit);
    FFillNull(ts, i);
    assert forall j :: 0 <= j < |rows| ==> (ts[j] == Null <==> !Kept(rows, limit, j));
    if FFill(ts)[i] != Null {
      FFillSource(ts, i);
    }
  }

  /** The cleaned team column is already forward filled: filling it again changes nothing. */
  lemma CleanTeamsFilled(rows: seq<IdRow>, limit: real)
    ensures var r := CleanShortPossessions(rows, limit);
      FFill(seq(|r|, i requires 0 <= i < |r| => r[i].team)) == seq(|r|, i requires 0 <= i < |r| => r[i].team)
  {
    var ts := NulledTeams(rows, limit);
    var r := CleanShortPossessions(rows, limit);
    FFillIdempotent(ts);
    assert seq(|r|, i requires 0 <= i < |r| => r[i].team) == FFill(ts);
  }

  /**
   * create_posession_id followed by clean_short_posessions: a row of a possession is nulled by
   * the merge iff the possession's first clock minus its last is below the limit, or its team
   * was null already.
   */
  lemma ShortPossessionNulled(rows: seq<TrackRow>, a: nat, b: nat, i: nat, limit: real)
    requires PossessionRun(rows, a, b) && a <= i <= b
    ensures NulledTeams(CreatePossessionId(rows), limit)[i] == Null
        <==> rows[a].gameClock - rows[b].gameClock < limit || rows[i].team == Null
  {
    var r := CreatePossessionId(rows);
    PossessionDuration(rows, a, b);
    PossessionRowsInside(rows, a, b);
    assert r[i].possessionId == r[a].possessionId;
    assert r[i].team == rows[i].team;
  }

  /**
   * Every row of a possession shorter than the limit takes the cleaned team of the row just
   * before the possession, or null when the possession starts the table.
   */
  lemma {:induction false} ShortPossessionInherits(rows: seq<TrackRow>, a: nat, b: nat, i: nat, limit: real)
    requires PossessionRun(rows, a, b) && a <= i <= b
    requires rows[a].gameClock - rows[b].gameClock < limit
    ensures var c := CleanShortPossessions(CreatePossessionId(rows), limit);
      c[i].team == if a == 0 then Null else c[a - 1].team
    decreases i
  {
    var ts := NulledTeams(CreatePossessionId(rows), limit);
    ShortPossessionNulled(rows, a, b, i, limit);
    FFillAt(ts, i);
    if i > a {
      ShortPossessionInherits(rows, a, b, i - 1, limit);
    }
  }
}
