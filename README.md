# nba-graph-prediction: graph construction and possession labelling

This project is a Dafny model of the core of nba-graph-prediction. That system turns basketball
tracking data (one row per moment: the name, court position and team of the ten players on
court, and the ball's position) into one weighted graph per moment. It also labels possessions
in the play-by-play and tracking tables.

The graph of a moment (`graph.py`, class `PlayersGraph`) is built in fixed stages:

- nodes 0..9 for the players;
- candidate edges between every two players of the same listed team, weighted by their
  Euclidean distance;
- reduction of those edges to a minimum spanning forest (Kruskal);
- node 10 for the ball, joined to the nearest player;
- nodes 11 and 12 for the baskets, with the ball joined to the nearer one.

`create_graph_from_dataset` runs these stages on every row, with the two teams read from the
first row. The possession resolver (`get_posession_team`) runs only the player, ball and
nearest-player stages and reads the team of the player nearest the ball.

The preprocessing functions (`preprocessing.py`) do the following:

- drop rows with a missing player name;
- derive a home/away possession label from play-by-play events;
- compute score changes;
- number possessions in the tracking table and time them;
- clear the team of possessions shorter than a limit, then forward-fill it.

Modules:

- `Constants` (constants.dfy): the basket coordinates and the node ids of the ball and baskets.
- `Geometry` (geometry.dfy): `euclidean_distance`. A distance is represented exactly by its
  square, since comparing, minimising and equating lengths is the same as doing it on their
  squares (`ShorterIffLess`, `DenotesUnique`).
- `Frames` (frames.dfy): a tracking row. A column the row lacks is a key absent from a map, and
  reading it is a `KeyError`. A NaN cell is `Null`, and `Matches` is pandas equality, under which
  NaN equals nothing.
- `Forests` (forests.dfy): undirected weighted graphs, walks and connectivity, forests, and
  Kruskal's algorithm as a loop over a component-label map (union-find).
- `GraphModel` (graph_model.dfy): the functions that specify each stage, and the lemmas about
  them.
- `Graph` (graph.dfy): the class `PlayersGraph`. Its fields are the node insertion order, the
  node attributes, the edge map and the scalars the methods set. Each stage is a method proved
  against the `GraphModel` functions. `create_graph_from_dataset` is a loop over the rows.
- `Preprocessing` (preprocessing.dfy): `get_posession_team` as a loop that builds a
  `PlayersGraph` per row; `create_posessions` as in-place writes to an array column; the
  whole-column pandas expressions as functions over sequences.

## Model

| member | source | states |
|---|---|---|
| Geometry.EuclideanDistance | utils.py:9-12 | the distance is never negative, and it is zero between a point and itself |
| Geometry.DistanceSymmetric | utils.py:9-12 | the distance from p to q equals the distance from q to p |
| Geometry.DenotesUnique | utils.py:12 | a squared distance stands for exactly one non-negative length, so squares can stand in for square roots |
| Geometry.ShorterIffLess | utils.py:12 | comparing two squared distances agrees with comparing the lengths, which justifies doing the argmin and `<` of graph.py on squares |
| Geometry.ThreeFourFive | utils.py:12 | the distance from (0,0) to (3,4) is 5 |
| Geometry.MinDistance | graph.py:154 | Python's `min` of two distances is one of them and no longer than either |
| Forests.Key | graph.py:77 | an undirected edge is keyed by its two endpoints in either order |
| Forests.KeyUnordered | graph.py:77 | `add_edge(u, v)` and `add_edge(v, u)` address the same edge, and different endpoint pairs address different edges |
| Forests.KruskalDiscard | graph.py:91 | skipping a lightest remaining edge whose endpoints are already joined keeps Kruskal's loop invariant |
| Forests.KruskalKeep | graph.py:91 | keeping a lightest remaining edge between two components keeps the forest acyclic and merges their labels |
| Forests.KruskalFinish | graph.py:91 | once every edge is processed, the kept edges connect exactly what the graph connects and span each closed connected node set with one edge fewer than it has nodes |
| Forests.MinimumSpanningForest | graph.py:91 | the result is a minimum spanning forest: its edges are graph edges with their weights, it has no cycle, it has the graph's components, and each dropped edge is closed by a path of kept edges no heavier than it |
| Forests.ForestOverTwoComponents | graph.py:86-95 | a minimum spanning forest of a graph made of two closed connected parts A and B has \|A\|-1 edges in A, \|B\|-1 in B, and no others |
| GraphModel.FrameOrder | graph.py:20-30 | players, then ball, then the two baskets are inserted as the ids 0..12 in order |
| GraphModel.PlayerData | graph.py:100-106 | node k gets the name, position and team of the player{k+1} columns; otherwise it fails with the KeyError of the first missing column, in the order name, x, y, team |
| GraphModel.FirstUnreadable | graph.py:99-106 | the first player, from k on, with a missing column (10 if none); every player before it is readable |
| GraphModel.PlayerNodes | graph.py:98-106 | the ten player nodes exist iff every player's four columns exist; then the nodes are exactly 0..9 with their fields; otherwise the error is the KeyError of the first unreadable player, all earlier ones being readable |
| GraphModel.Members | graph.py:50 | the filtered nodes are exactly the nodes whose team equals the listed team (NaN equals nothing), with no repeats |
| GraphModel.CombinationsCount | graph.py:53 | n nodes give n(n-1)/2 pairs, so a team of five gives 10 |
| GraphModel.CombinationsSound | graph.py:53-70 | every pair joins two different members and is weighted by their distance |
| GraphModel.CombinationsComplete | graph.py:53 | every two members appear as a pair, the earlier one first |
| GraphModel.CandidateListSound | graph.py:46-72 | every candidate joins two different nodes of the same listed team, weighted by their distance |
| GraphModel.CandidateListComplete | graph.py:46-72 | every two different nodes of one listed team are paired |
| GraphModel.AddEdges | graph.py:74-77 | adding the list gives exactly the old edges plus one undirected edge per entry, never a parallel edge |
| GraphModel.AddEdgesGeometric | graph.py:74-77 | after adding entries that carry distances, every edge still weighs its endpoints' distance |
| GraphModel.CandidateGraphEdges | graph.py:80-82 | the candidate graph has an edge between two nodes iff they differ and share a listed team, and each edge weighs their distance |
| GraphModel.TeamIsComponent | graph.py:46-72 | a listed team's players form a closed and connected part of the candidate graph |
| GraphModel.CandidatesWithinTeams | graph.py:46-72 | no candidate edge crosses teams or touches the ball: each joins two players of the first listed team or two of the second |
| GraphModel.PlayerForestCounts | graph.py:86-95 | with two listed teams of five, the reduced forest has 8 edges, 4 inside each team, none across |
| GraphModel.BallPoint | graph.py:110 | the ball's point exists iff both ball coordinates exist; otherwise the KeyError names a missing ball column |
| GraphModel.BallCandidates | graph.py:120-131 | each candidate joins a non-ball node to the ball, weighted by its distance to the ball |
| GraphModel.BallCandidatesComplete | graph.py:123-127 | every node other than the ball has its candidate |
| GraphModel.BallCandidatesOfPlayers | graph.py:123-127 | over players 0..n-1 there is exactly one candidate per player, in id order |
| GraphModel.CandidatesAfterPlayers | graph.py:120-131 | with the ball inserted after the ten players, the candidates are the ten players' in id order |
| GraphModel.FirstMinimum | graph.py:137-138 | the row `iloc[0]` picks among those at `weight.min()`: a least value, and strictly less than every earlier one |
| GraphModel.FirstMinimumUnique | graph.py:137-138 | only one position is the first least value |
| GraphModel.ClosestAfterPlayers | graph.py:133-139 | the ball is joined to the first player at least distance, with that distance |
| GraphModel.NearestPlayer | graph.py:133-139 | the chosen player is one of 0..9, no farther from the ball than any player, and strictly nearer than every lower id |
| GraphModel.NearestOfFrame | graph.py:133-139 | the player the stages pick from a row's nodes is that row's nearest player |
| GraphModel.DistanceRim | graph.py:154 | `distance_rim` is one of the two basket distances and no longer than either |
| GraphModel.BasketEdgeChoice | graph.py:156-159 | the ball is joined to basket 1 iff it is strictly nearer, so a tie goes to basket 2, and the edge weighs `distance_rim` |
| GraphModel.BasketNearBasket1 | graph.py:147-159 | a ball at (10, 25) is 4.75 from basket 1 and 78.75 from basket 2, is joined to basket 1, and `distance_rim` is 4.75 |
| GraphModel.BallNeighbour | graph.py:163 | a neighbour found is a listed node joined to the ball; with no edge at the ball there is none |
| GraphModel.BallNeighbourOfSingleEdge | graph.py:163 | when the only edge joins player p to the ball, `player_w_ball` is p |
| GraphModel.BallNeighbourOfFrame | graph.py:163 | in a full frame graph, the player joined to the ball is `player_w_ball`, whatever the player and basket edges |
| GraphModel.FrameFailure | graph.py:20-26 | a row's graph fails iff `create_nodes` or `add_ball_node` raises |
| GraphModel.FrameNodes | graph.py:98-144 | a finished frame graph has exactly the 13 nodes 0..12 |
| GraphModel.FrameGraphOfStages | graph.py:18-34 | the stages' result is a frame graph: a minimum spanning forest between players, plus the nearest-player edge and the basket edge at the ball |
| GraphModel.FrameGraphCounts | graph.py:9-36 | a row with two listed teams of five yields 13 nodes and 10 edges: 4 inside each team, none across, one ball-player edge, one ball-basket edge |
| GraphModel.GraphsOfCounts | graph.py:9-36 | in a dataset's graphs, every row with two listed teams of five has 13 nodes and 10 edges |
| Graph.PlayersGraph.constructor | graph.py:40-43 | a fresh graph holds the row and team list, with no nodes, no edges and no scalars set |
| Graph.PlayersGraph.AddNode | graph.py:100-106 | a new node goes to the end of the insertion order with its attributes |
| Graph.PlayersGraph.AddEdge | graph.py:77 | an edge is added, or its weight replaced, under its undirected key; nothing else changes |
| Graph.PlayersGraph.CreateNodes | graph.py:98-106 | passes iff the row has all player columns, leaving exactly the player nodes; otherwise it raises the first KeyError, after adding the readable players before it |
| Graph.PlayersGraph.CombinationsBwPlayers | graph.py:46-72 | returns the candidate list of the current nodes and team list |
| Graph.PlayersGraph.CreateEdgesInGraph | graph.py:74-77 | adds the entries in list order |
| Graph.PlayersGraph.CreateEdgesBwPlayers | graph.py:80-82 | adds exactly the candidate list's edges |
| Graph.PlayersGraph.KeepShortestPath | graph.py:86-95 | the edges become a minimum spanning forest of the old edges; the nodes and their attributes stay unchanged |
| Graph.PlayersGraph.AddBallNode | graph.py:109-117 | records the ball's point and appends node 10 there with name and team -1; a missing coordinate raises KeyError before anything changes |
| Graph.PlayersGraph.CreatePossibleEdgesBwBallPlayers | graph.py:120-131 | returns one candidate per non-ball node in insertion order |
| Graph.PlayersGraph.AddClosestPlayerToBallEdge | graph.py:133-139 | adds exactly the edge of the first least-distance candidate; with no candidate it raises IndexError and changes nothing |
| Graph.PlayersGraph.AddBaskets | graph.py:142-144 | appends nodes 11 and 12 at the fixed basket positions, with names -2 and -3 and team -1 |
| Graph.PlayersGraph.AddEdgesBallBasket | graph.py:147-159 | sets `distance_rim` and adds the one ball-basket edge `BasketEdgeChoice` describes |
| Graph.PlayersGraph.SetPosessionTeam | graph.py:162-164 | `player_w_ball` is the ball's first neighbour in edge-view order, and `team_possession` is that player's team column; no such edge raises IndexError, and a missing team column raises KeyError |
| Graph.PlayersGraph.GetPosessionTeam | graph.py:167-168 | returns the recorded team |
| Graph.PlayersGraph.PlayerStages | graph.py:20-24 | after the player stages: nodes 0..9 with their fields, and a minimum spanning forest of the candidate graph, with no edge at the ball |
| Graph.PlayersGraph.BallStages | graph.py:26-28 | after the ball stages: node 10 at the ball, and one more edge from the nearest player to the ball |
| Graph.PlayersGraph.BasketStages | graph.py:30-32 | after the basket stages: nodes 11 and 12, and one more edge from the ball to the chosen basket |
| Graph.ClosestCandidate | graph.py:137-138 | the index `iloc[0]` picks is the first least-weight candidate |
| Graph.WeightedPairs | graph.py:53-70 | builds the pairs of `combinations` in its order, each with its distance |
| Graph.NodesOfTeam | graph.py:50 | the nodes whose team equals the given team, in insertion order |
| Graph.FinishFrameGraph | graph.py:26-34 | fails iff the ball's coordinates are missing; otherwise the copy has nodes 0..12 and the forest plus the two ball edges |
| Graph.BuildFrameGraph | graph.py:18-34 | fails iff the row cannot be read, with that exception; otherwise it returns a frame graph of the row |
| Graph.DatasetTeams | graph.py:11-12 | the team list is row 0's player2_team and player9_team; an empty table raises IndexError, and a missing column raises its KeyError |
| Graph.CreateGraphFromDataset | graph.py:9-36 | one frame graph per row in row order, all with row 0's teams; otherwise the exception of the first row that fails; rows of two teams of five give 13 nodes and 10 edges |
| Preprocessing.NearestTeamOfFrameGraph | preprocessing.py:152-168 | the team the resolver reads is that of the player the full frame graph joins to the ball |
| Preprocessing.NearestTeamOfStages | preprocessing.py:158-163 | with the players' nodes built, the team read is that of the first player nearest the ball, or the ball's KeyError |
| Preprocessing.RowPossessionTeam | preprocessing.py:155-166 | one loop iteration yields the nearest player's team, or the row's exception |
| Preprocessing.BallPath | preprocessing.py:160-166 | after `create_nodes`, the remaining stages yield the nearest player's team, or the ball's KeyError |
| Preprocessing.JoinNearest | preprocessing.py:162-166 | with the ball placed, the remaining stages yield the first nearest player's team |
| Preprocessing.ReadPossession | preprocessing.py:164-166 | with the single edge at player p, the team read is p's team column |
| Preprocessing.CollectOk | preprocessing.py:154-168 | an append loop succeeds iff every row does, giving one value per row in row order |
| Preprocessing.CollectErr | preprocessing.py:154-168 | when it fails, the exception is that of the first failing row |
| Preprocessing.GetPossessionTeam | preprocessing.py:152-168 | the list of every row's possession team in row order, or the first row's exception |
| Preprocessing.MissingName | preprocessing.py:172-175 | the first name column that some row lacks: every row has each earlier name column; with none, every row has every name column |
| Preprocessing.DropNullInPlayers | preprocessing.py:171-180 | raises KeyError on a name column iff one is missing; otherwise it keeps the rows whose ten names are present |
| Preprocessing.NamedRowsMembers | preprocessing.py:175-178 | a row is kept iff it is in the table with all ten names present |
| Preprocessing.NamedRowsAppend | preprocessing.py:175-178 | the filter keeps order: filtering a + b gives a's kept rows, then b's |
| Preprocessing.NamedRowsIdempotent | preprocessing.py:175-178 | filtering twice is filtering once |
| Preprocessing.LastFiring | preprocessing.py:70-93 | some rule fires iff a side results, and it is the side of the last rule that fires |
| Preprocessing.ApplyRulesSnoc | preprocessing.py:83-93 | one more `.loc` write overwrites the rows it fires on and leaves the others |
| Preprocessing.ApplyRulesIsLastFiring | preprocessing.py:83-93 | after the writes, a row holds the side of the last rule that fires on it, or its prior value when none does |
| Preprocessing.WriteRule | preprocessing.py:83-93 | one `.loc` write applied to the whole column |
| Preprocessing.Shifted | preprocessing.py:96 | `shift(1)`: each entry takes the previous one, and the first becomes NaN |
| Preprocessing.TakePrevious | preprocessing.py:95-98 | rows with EnterGame or TimeoutTeam take the previous row's value as the rules left it (NaN on row 0); other rows keep theirs |
| Preprocessing.CreatePossessions | preprocessing.py:69-100 | same rows and columns; a row's possession is the last firing rule's side, or its prior value, unless it has EnterGame or TimeoutTeam, in which case it takes row i-1's value after the rules |
| Preprocessing.NextChange | preprocessing.py:107-108 | the change to the next row's score, NaN exactly on the last row |
| Preprocessing.CreateValueXPosession | preprocessing.py:102-110 | keeps the six columns; score plus y_away (y_home) is the next row's away (home) score; both are NaN exactly on the last row |
| Preprocessing.ScoreChangesTelescope | preprocessing.py:107-108 | the changes over rows 0..n-2 add up to the last score minus the first |
| Preprocessing.ValueChangesTelescope | preprocessing.py:107-108 | over a table, y_away (y_home) with NaN skipped adds up to the final away (home) score minus the first |
| Preprocessing.CountNew | preprocessing.py:121 | the running count of new possessions at row i is between 1 and i+1 |
| Preprocessing.Duration | preprocessing.py:124-128 | the duration is NaN exactly on the last row and on the last row of each possession; otherwise it is the clock drop to the next row |
| Preprocessing.CreatePossessionId | preprocessing.py:116-133 | same rows, teams and clocks; the first id is 1; each id is the previous one plus 1 exactly when the team changes (NaN never matches), plus the durations above |
| Preprocessing.CountNewMonotone | preprocessing.py:121 | the running count never decreases |
| Preprocessing.CountNewSame | preprocessing.py:118-121 | two rows have the same count iff no new possession starts between them |
| Preprocessing.PossessionIdsMonotone | preprocessing.py:118-121 | possession ids never decrease down the table |
| Preprocessing.PossessionIdsSame | preprocessing.py:118-121 | two rows share a possession id iff the team matches at every step between them |
| Preprocessing.PossessionIdsOutside | preprocessing.py:118-121 | rows above a possession have smaller ids, and rows below it larger ones |
| Preprocessing.PossessionRowsInside | preprocessing.py:118-128 | inside a possession, every row has its id, every row but the last has its clock drop, and the last has NaN |
| Preprocessing.GroupDurationOfRun | preprocessing.py:137 | `groupby().sum()` over a run of rows holding one id adds up to its first clock minus its last |
| Preprocessing.PossessionDuration | preprocessing.py:124-137 | a possession's summed duration equals its first row's game clock minus its last row's |
| Preprocessing.FFillAt | preprocessing.py:146 | after `ffill`, a non-null value stays; a null takes the filled value above it; a leading null stays null |
| Preprocessing.FFillNull | preprocessing.py:146 | a filled entry is null iff every entry up to it is null |
| Preprocessing.FFillSource | preprocessing.py:146 | a non-null filled entry is the last non-null entry at or above it |
| Preprocessing.FFillIdempotent | preprocessing.py:146 | forward-filling twice is forward-filling once |
| Preprocessing.CleanShortPossessions | preprocessing.py:136-150 | same row count and order; only the team column changes |
| Preprocessing.KeptTeamUnchanged | preprocessing.py:136-150 | a non-null team outside short possessions is left as it was |
| Preprocessing.CleanedTeamSource | preprocessing.py:136-150 | each cleaned team is the team of the last kept row at or above it; it is null iff there is no such row |
| Preprocessing.CleanTeamsFilled | preprocessing.py:136-150 | the cleaned team column is already forward-filled |
| Preprocessing.ShortPossessionNulled | preprocessing.py:118-144 | after numbering, a row of a possession is nulled by the merge iff the possession's first game clock minus its last is below the limit, or its team was null already |
| Preprocessing.ShortPossessionInherits | preprocessing.py:116-150 | every row of a possession shorter than the limit ends with the cleaned team of the row just before it, or null when the possession opens the table |

## Left out

- Floating point and `math.sqrt`: coordinates, clocks and durations are exact reals, and a
  distance is represented by its square. IEEE rounding is not modelled.
- `Forests.MinimumSpanningForest`: minimality is stated as cycle optimality (every dropped edge
  is closed by kept edges no heavier than it) and as the count of edges per component. The
  statement that no spanning forest has a smaller total weight is not proved.
- `Forests.MinimumSpanningForest`: the choice among equal-weight edges is left open. networkx's
  own ordering of ties (graph.py:91) is not visible in this code.
- `Graph.PlayersGraph.KeepShortestPath`: networkx's `nx.Graph(self)` copy and
  `minimum_spanning_tree` are modelled by their result, not by networkx's code.
- The `nx.Graph(PG)` copy (graph.py:34) is modelled as the node order, the node attributes and
  the weighted edges. The Python attributes `point_ball`, `distance_rim`, `player_w_ball` and
  `team_possession` are not copied by networkx, so they are not part of `FrameGraph`.
- The `seconds`/`minutes` computed from `game_clock` and never used (graph.py:14-15) are not
  modelled. This includes the KeyError a row without `game_clock` would raise there.
- A tracking row carries only the player and ball columns that the core reads, each as a
  name, a coordinate or a team cell. Coordinates are never NaN in the model.
- `Graph.DatasetTeams`: the team list is not checked to hold two different teams, as in the code.
  `TwoTeamsOfFive` is the hypothesis of the 13-node, 10-edge count.
- `Preprocessing.RowPossessionTeam`: the team list passed to `PlayersGraph` in
  `get_posession_team` is unused on that path, and it is kept as an unused parameter.
- `Preprocessing.DropNullInPlayers`: pandas checks column presence on the table. The model
  checks it per row, so an empty table never raises KeyError in the model.
  Pandas raises one KeyError listing every missing name column; the model's KeyError names only
  the lowest-numbered one (`Preprocessing.MissingName`).
- The play-by-play, tracking and value tables carry only the columns the functions read or
  write. Other columns pass through unchanged in pandas and are not represented.
- `Preprocessing.CreatePossessions`: the helper column `previous_posession`, which the source
  leaves in the table, is not part of the result. The `posession` column that the first `.loc`
  write creates is modelled as a prior value per row, NaN (`None`) when absent.
- `Preprocessing.CreatePossessionId`: the game clock is never NaN in the model, and the
  dropped helper columns `new_possession` and `next_game_clock` are not represented.
- `Preprocessing.CreatePossessions`: the source writes `posession` and `previous_posession`
  into the DataFrame it is given and returns that same object. The model returns a new
  sequence, so the update of the caller's table, and the aliasing between argument and result,
  are not captured.
- `Preprocessing.CreatePossessionId`: the source adds `new_possession`, `possession_id`,
  `next_game_clock` and `possession_duration` to the caller's DataFrame before the copying
  `drop`, so the caller's table keeps all four. The model returns a new sequence and does not
  capture that update of the caller's table.
- `Preprocessing.CleanShortPossessions`: the limit is a parameter (0.4 seconds by default in
  the source), and the model's lemmas hold for every limit. The left merge renumbers the index. Row index labels
  are not modelled; row order and count are.
- Scores are integers. A NaN score, which would make a score change NaN, is not modelled.
- `cleansing_score_data`, `flatten_players_movement_data` and `get_player_movement_data`
  (column plumbing and Spark SQL), `plot_graph` (matplotlib), and the learning code in
  `model.py` and `model_data.py` are not part of this model.

## Notes on the code

The model follows these facts about the code.

- Basket 2 is at (88.75, 25), so a ball at (10, 25) is 88.75 - 10 = 78.75 from it and 4.75
  from basket 1 (`GraphModel.BasketNearBasket1`).
- The resolved possession team is the nearest player's own team column. The team list is never
  consulted, so the result is one of the listed teams only when that player's team is one of them.
- The graph stored by `create_graph_from_dataset` is an `nx.Graph` copy. It carries the nodes,
  their attributes and the weighted edges, but not the Python attributes such as `distance_rim`.
- The team list is row 0's `player2_team` and `player9_team`. Nothing checks that they differ.
