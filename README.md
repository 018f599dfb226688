# JPacman board core and the sports-hall planner, modelled in Dafny

This project models two independent components.

**The JPacman board core.** The board is a rectangular grid of squares indexed `[y][x]`. Its width is the length of a row and its height the number of rows. A position is within the borders when `0 <= x < width` and `0 <= y < height`.

Squares list their occupants in order of arrival. A unit stands on at most one square, and `occupy` moves it: the old square drops it and the new square appends it. `squaresAheadOf(n)` follows the unit's facing direction `n` times. NORTH decreases y and EAST increases x.

The collision map gives the effect of a contact:
- a player meeting a ghost dies, whichever of the two moved;
- a player meeting a pellet gains points, whichever of the two moved;
- two players leave each other unchanged.

Two ghosts choose their next move from breadth-first shortest paths over the open squares. The search explores NORTH, EAST, SOUTH, WEST in that order.
- **Clyde** follows the first step of a shortest route to the player while the route is longer than 8. At 8 or fewer it takes the opposite direction. With no player, or no route, it has no move.
- **Inky** takes the square two ahead of the player, in the player's facing direction, as a reference. It doubles Blinky's route to the reference square and returns the first step of a shortest route to the point that route ends at. A missing Blinky or player, an unreachable square, or a target off the board means no move.

Players are registered on a level, which places each new player on the next start square in turn. A level may have no start square; no player stands on its board before one is registered.

**The sports-hall planner.** `planHalls(requests, halls)` works as follows:
- Duplicate halls are rejected. This check comes before everything else, so it applies even with no requests.
- No requests give the empty mapping.
- Otherwise each request, in list order, gets a distinct hall that has every requested property, has the sport, and has at least the minimum number of fields for it. Halls are tried in list order, with backtracking. The first full assignment in that order is returned, or no plan when none exists.

The game modules are `Board` (`board.dfy`), `Collisions`, `Navigation`, `Ghosts` and `Levels`. The planner is `Planner`. `Wrappers` holds the `Option` type.

Ghost decisions are specified relationally. A ghost's answer must be right for *some* shortest route, so how the search breaks ties is not part of the contracts.

The searches are proved three ways:
- **sound:** every returned route is a walk over open squares to the target;
- **optimal:** no walk is shorter;
- **complete:** `None` only when no walk exists.

The planner is proved to return the lexicographically least complete assignment. No plan means no complete assignment exists.

## Model

| member | source | states |
|---|---|---|
| Board.Board.Width | jpacman-framework/src/test/java/nl/tudelft/jpacman/board/BoardTest.java:21-34 | on a rectangular grid every row has exactly the width's number of columns |
| Board.Board.Height | jpacman-framework/src/test/java/nl/tudelft/jpacman/board/BoardTest.java:39-43 | the height is the number of rows of the grid |
| Board.TwoRowsOfThree | jpacman-framework/src/test/java/nl/tudelft/jpacman/board/BoardTest.java:21-65 | a grid of two rows of three squares is 3 wide and 2 high; (0, 0) and (0, 1) are on it and name the squares placed there; (1, 2) is off it |
| Board.Board.WithinBorders | jpacman-framework/src/test/java/nl/tudelft/jpacman/board/BoardTest.java:50-64 | a position within the borders lies on a board with at least one row and one column; an empty board has none |
| Board.Board.WithinBordersIffIndexed | jpacman-framework/src/test/java/nl/tudelft/jpacman/board/BoardTest.java:56-61 | on a rectangular board a position is within the borders exactly when its row is a row of the grid and its column indexes that row, so that squareAt can look it up |
| Board.Board.SquareAt | jpacman-framework/src/test/java/nl/tudelft/jpacman/board/BoardTest.java:56-61 | the square at an in-bounds position belongs to the board and, on a valid board, carries that position's coordinates |
| Board.Board.Neighbour | jpacman-framework/src/test/java/nl/tudelft/jpacman/board/UnitSquaresAheadOfTest.java:33-103 | the neighbour in a direction is the board square one step that way from the square |
| Board.Board.SquareAtInverse | jpacman-framework/src/test/java/nl/tudelft/jpacman/board/BoardTest.java:21-25 | every square of a valid board is the one squareAt returns for its own coordinates, so a lookup always yields the same square |
| Board.Unit.constructor | jpacman-framework/src/test/java/nl/tudelft/jpacman/board/OccupantTest.java:32-37 | a new unit stands on no square, faces EAST, has score 0 and is alive |
| Board.Unit.HasSquare | jpacman-framework/src/test/java/nl/tudelft/jpacman/board/OccupantTest.java:32-50 | a unit has a square exactly when its square is set; a new unit has none and a unit that occupied a square has one |
| Board.Square.constructor | jpacman-framework/src/test/java/nl/tudelft/jpacman/board/OccupantTest.java:43-54 | a new square has its coordinates and wall flag and no occupants |
| Board.Unit.Occupy | jpacman-framework/src/test/java/nl/tudelft/jpacman/board/OccupantTest.java:43-79 | after occupy the unit's square is the target. The target's occupants end with the unit. The square it left no longer lists it. The unit stays listed by exactly one square, and if every occupant of the tracked squares had that square as its own before the move, that still holds after it. |
| Board.Unit.LeaveSquare | jpacman-framework/src/test/java/nl/tudelft/jpacman/board/OccupantTest.java:69-73 | the unit stands on no square and its old square lists it once less; placement and consistency over the tracked squares are kept |
| Board.Unit.Arrive | jpacman-framework/src/test/java/nl/tudelft/jpacman/board/OccupantTest.java:43-54 | a unit standing nowhere is appended to the target and has it as its square; placement and consistency over the tracked squares are kept |
| Board.Without | jpacman-framework/src/test/java/nl/tudelft/jpacman/board/OccupantTest.java:60-76 | removing a unit from an occupant list takes out exactly one copy of it, and leaves the list as it was when the unit is absent |
| Board.WithoutRemovesFirst | jpacman-framework/src/test/java/nl/tudelft/jpacman/board/OccupantTest.java:60-76 | the copy removed is the first occurrence of the unit, and the other occupants keep their order |
| Board.Board.OccupantPlaced | jpacman-framework/src/test/java/nl/tudelft/jpacman/board/OccupantTest.java:52-53 | on a consistent board a unit listed by a square of the board has that square as its own |
| Board.Unit.SetDirection | jpacman-framework/src/test/java/nl/tudelft/jpacman/board/UnitSquaresAheadOfTest.java:49 | the unit faces the given direction |
| Board.Direction.Opposite | jpacman-framework/src/test/java/nl/tudelft/jpacman/npc/ghost/ClydeTest.java:79-103 | the opposite direction negates both coordinate deltas and differs from the original |
| Board.Unit.SquaresAheadOf | jpacman-framework/src/test/java/nl/tudelft/jpacman/board/UnitSquaresAheadOfTest.java:15-103 | the square n ahead is the one reached by n neighbour steps in the facing direction, at the unit's position shifted n times; n = 0 gives the unit's own square. The unit is not changed. |
| Board.Board.Ahead | jpacman-framework/src/test/java/nl/tudelft/jpacman/board/UnitSquaresAheadOfTest.java:33-103 | n neighbour steps from a square of the board land on the board square at the position shifted n times |
| Board.Board.LineWithinBorders | jpacman-framework/src/test/java/nl/tudelft/jpacman/board/UnitSquaresAheadOfTest.java:33-103 | if both ends of a straight run are on the board, so is every square between them |
| Board.Pos.ShiftStep | jpacman-framework/src/test/java/nl/tudelft/jpacman/board/UnitSquaresAheadOfTest.java:33-103 | shifting n + 1 times is shifting n times and stepping once more |
| Collisions.Rule | jpacman-framework/src/test/java/nl/tudelft/jpacman/level/AbstractCollisionMapTest.java:37-69 | a kill or an eat always acts on the side holding the player |
| Collisions.Affect | jpacman-framework/src/test/java/nl/tudelft/jpacman/level/AbstractCollisionMapTest.java:37-69 | a kill leaves the unit dead with its score, an eat raises its score, any other effect leaves it as it was |
| Collisions.Collide | jpacman-framework/src/test/java/nl/tudelft/jpacman/level/AbstractCollisionMapTest.java:37-69 | each unit's score and alive flag become what the rule for the pair does to them; nothing else changes |
| Collisions.RuleSymmetric | jpacman-framework/src/test/java/nl/tudelft/jpacman/level/AbstractCollisionMapTest.java:55-60 | swapping mover and collided-on swaps the roles of the effect and nothing else |
| Collisions.PlayerEatsPelletEitherWay | jpacman-framework/src/test/java/nl/tudelft/jpacman/level/AbstractCollisionMapTest.java:37-46 | a player meeting a pellet ends with a strictly greater score, whichever moved |
| Collisions.GhostKillsPlayerEitherWay | jpacman-framework/src/test/java/nl/tudelft/jpacman/level/AbstractCollisionMapTest.java:48-60 | a player meeting a ghost ends not alive, whichever moved |
| Collisions.PlayersIgnoreEachOther | jpacman-framework/src/test/java/nl/tudelft/jpacman/level/AbstractCollisionMapTest.java:62-69 | two players colliding leave each other's score and alive flag unchanged |
| Navigation.ShortestPath | jpacman-framework/src/test/java/nl/tudelft/jpacman/npc/ghost/ClydeTest.java:27-29 | breadth-first search returns a walk over open squares to the target that no walk beats, or None exactly when the target is unreachable |
| Navigation.SearchRound | jpacman-framework/src/test/java/nl/tudelft/jpacman/npc/ghost/ClydeTest.java:27-29 | one round takes the head of the queue: if it is the target, its recorded route is a shortest path; otherwise, after expanding it, the search invariant holds and either new squares were reached or the queue shrank |
| Navigation.ReachedWithin | jpacman-framework/src/test/java/nl/tudelft/jpacman/npc/ghost/ClydeTest.java:27-29 | once every square found below a depth is expanded, every walk up to that depth ends on a found square with a route no longer than the walk |
| Navigation.FoundIsShortest | jpacman-framework/src/test/java/nl/tudelft/jpacman/npc/ghost/ClydeTest.java:27-29 | the route recorded for the target when it leaves the queue is a shortest path |
| Navigation.ExhaustedUnreachable | jpacman-framework/src/test/java/nl/tudelft/jpacman/npc/ghost/ClydeTest.java:139-160 | when the search exhausts its queue without finding the target, no walk reaches it |
| Navigation.Dequeue | jpacman-framework/src/test/java/nl/tudelft/jpacman/npc/ghost/ClydeTest.java:27-29 | taking the head off the queue keeps the layering at the head's level (queue in order of route length, within one step of each other), and every position that has left the queue except the head has been expanded |
| Navigation.FewerUnreached | jpacman-framework/src/test/java/nl/tudelft/jpacman/npc/ghost/ClydeTest.java:27-29 | marking new squares as seen strictly shrinks the set of unseen cells (the search terminates) |
| Navigation.Visit | jpacman-framework/src/test/java/nl/tudelft/jpacman/npc/ghost/ClydeTest.java:27-29 | looking from the square being expanded in one direction reaches an open neighbour at most one step later than that square, keeps every earlier route, and keeps the layering |
| Navigation.Expand | jpacman-framework/src/test/java/nl/tudelft/jpacman/npc/ghost/ClydeTest.java:27-29 | after looking in all four directions, in the order NORTH, EAST, SOUTH, WEST, the square is expanded: every open neighbour is reached at most one step later |
| Navigation.WalkAppend | jpacman-framework/src/test/java/nl/tudelft/jpacman/npc/ghost/ClydeTest.java:27-29 | one more step moves a walk's end by one step and is a walk exactly when the square entered is open |
| Navigation.WalkLengthAtLeastManhattan | jpacman-framework/src/test/java/nl/tudelft/jpacman/npc/ghost/ClydeTest.java:63 | no walk is shorter than the grid distance between its ends |
| Navigation.ShortestSuffix | jpacman-framework/src/test/java/nl/tudelft/jpacman/npc/ghost/ClydeTest.java:27-29 | after the first step of a shortest path, the rest is a shortest path from the square entered |
| Navigation.StraightWalk | jpacman-framework/src/test/java/nl/tudelft/jpacman/npc/ghost/ClydeTest.java:63-68 | walking straight over open squares is a walk ending at the shifted position |
| Navigation.WalkStaysInside | jpacman-framework/src/test/java/nl/tudelft/jpacman/npc/ghost/InkyTest.java:176-193 | a walk that starts in a region no open step leaves stays in that region |
| Navigation.FindUnit | jpacman-framework/src/test/java/nl/tudelft/jpacman/npc/ghost/ClydeTest.java:48-51 | the scan of one square returns its first occupant of the kind asked for |
| Navigation.FirstOfKind | jpacman-framework/src/test/java/nl/tudelft/jpacman/npc/ghost/ClydeTest.java:48-51 | the occupant found is on the square and has the kind asked for, and every occupant before it has another kind; None means no occupant of that kind |
| Navigation.FindUnitInRow | jpacman-framework/src/test/java/nl/tudelft/jpacman/npc/ghost/ClydeTest.java:48-51 | the loop over a row's squares, west to east, returns the row scan's result |
| Navigation.FindInRowFirst | jpacman-framework/src/test/java/nl/tudelft/jpacman/npc/ghost/ClydeTest.java:48-51 | the scan of a row finds the first unit of that kind in the first square, west to east, holding one; None means no square of the row holds one |
| Navigation.FindInRowsFirst | jpacman-framework/src/test/java/nl/tudelft/jpacman/npc/ghost/ClydeTest.java:48-51 | the board scan returns the first row's find, rows in order, all earlier rows holding none; None means no row holds one |
| Navigation.FoundOnBoard | jpacman-framework/src/test/java/nl/tudelft/jpacman/npc/ghost/InkyTest.java:68-71 | the unit found has the kind asked for and stands on a square of the board; None means no unit of that kind is on the board |
| Navigation.FindUnitInBoard | jpacman-framework/src/test/java/nl/tudelft/jpacman/npc/ghost/ClydeTest.java:48-51 | the nested row-by-row loop returns exactly the row-major scan's result |
| Ghosts.SightingOfFound | jpacman-framework/src/test/java/nl/tudelft/jpacman/npc/ghost/InkyTest.java:68-71 | on a consistent board the unit found stands on a square of the board, and its sighting is that square and its facing |
| Ghosts.ClydeNextAiMove | jpacman-framework/src/test/java/nl/tudelft/jpacman/npc/ghost/ClydeTest.java:27-29 | with no player, no move; otherwise, if the player is reachable, Clyde's choice over some shortest route to it (chase above 8, turn away at 8 or less); unreachable, no move |
| Ghosts.ClydeMovesIff | jpacman-framework/src/test/java/nl/tudelft/jpacman/npc/ghost/ClydeTest.java:139-160 | Clyde moves exactly when there is a player on another square that it can reach |
| Ghosts.ClydeChasesWhenFar | jpacman-framework/src/test/java/nl/tudelft/jpacman/npc/ghost/ClydeTest.java:28 | beyond 8 steps Clyde enters an open square from which the player is one step nearer along a shortest route |
| Ghosts.ClydeFleesWhenNear | jpacman-framework/src/test/java/nl/tudelft/jpacman/npc/ghost/ClydeTest.java:29 | at 8 steps or fewer Clyde's move is the reverse of the first step of a shortest route to the player, undoing that step |
| Ghosts.ShortestEmptyIffSame | jpacman-framework/src/test/java/nl/tudelft/jpacman/npc/ghost/ClydeTest.java:27-29 | a shortest route is empty exactly when both ends are the same square |
| Ghosts.CorridorShortestHeadsWest | jpacman-framework/src/test/java/nl/tudelft/jpacman/npc/ghost/ClydeTest.java:63-68 | in a one-row corridor every shortest route to a square further west is as long as the column distance and starts WEST |
| Ghosts.CorridorReachableWest | jpacman-framework/src/test/java/nl/tudelft/jpacman/npc/ghost/ClydeTest.java:63-68 | in a one-row corridor, walking straight WEST reaches any square further west |
| Ghosts.ClydeChasesFarHorizontal | jpacman-framework/src/test/java/nl/tudelft/jpacman/npc/ghost/ClydeTest.java:53-77 | in the 15-column corridor with the player 12 squares west, Clyde moves WEST |
| Ghosts.ClydeFleesNearHorizontal | jpacman-framework/src/test/java/nl/tudelft/jpacman/npc/ghost/ClydeTest.java:79-103 | in the 11-column corridor with the player 5 squares west, Clyde moves EAST |
| Ghosts.FollowingTwiceDoubles | jpacman-framework/src/test/java/nl/tudelft/jpacman/npc/ghost/InkyTest.java:78 | following Blinky's route to the reference square once more, from the reference square, lands on the doubled point |
| Ghosts.InkyNextAiMove | jpacman-framework/src/test/java/nl/tudelft/jpacman/npc/ghost/InkyTest.java:129-174 | with no Blinky or no player there is no move; otherwise the result is the decision for the squares where Blinky and the player are found and the player's facing |
| Ghosts.Aim | jpacman-framework/src/test/java/nl/tudelft/jpacman/npc/ghost/InkyTest.java:176-202 | the reference square is the square two ahead of the player in its facing direction. There is no move when that square is off the board, when Blinky cannot reach it, or when the doubled target is off the board or unreachable. Otherwise the move is the first step of some shortest route to the target. |
| Ghosts.InkyStepsTowardTarget | jpacman-framework/src/test/java/nl/tudelft/jpacman/npc/ghost/InkyTest.java:75-78 | when Inky moves it enters an open square from which the target is one step nearer along a shortest route |
| Ghosts.InkyMovesIff | jpacman-framework/src/test/java/nl/tudelft/jpacman/npc/ghost/InkyTest.java:129-202 | Inky moves exactly when both actors exist, Blinky reaches the reference square, and the doubled target is on the board, reachable and not Inky's own square |
| Ghosts.InkyNoMoveWhenBlinkyWalledIn | jpacman-framework/src/test/java/nl/tudelft/jpacman/npc/ghost/InkyTest.java:176-202 | with Blinky walled in away from the player, Blinky has no walk to the square two ahead of the player, so Inky makes no move |
| Levels.Level.constructor | jpacman-framework/src/test/java/nl/tudelft/jpacman/npc/ghost/ClydeTest.java:143-161 | a level is built from a board with no player on it and any number of start squares, none included; it has no registered player and hands out its first start square first |
| Levels.Level.RegisterPlayer | jpacman-framework/src/test/java/nl/tudelft/jpacman/npc/ghost/ClydeTest.java:41-46 | a new player is appended to the players, placed on the next start square (round robin) and listed by it, and becomes visible to the board scan; a registered player changes nothing; every player standing on the board stays a registered one |
| Levels.Level.PlaceNew | jpacman-framework/src/test/java/nl/tudelft/jpacman/npc/ghost/InkyTest.java:61-66 | placing a unit that stands nowhere on a board square appends it to the square and keeps the board consistent |
| Levels.Level.NoPlayerRegisteredNoneFound | jpacman-framework/src/test/java/nl/tudelft/jpacman/npc/ghost/InkyTest.java:153-174 | while no player is registered, the scan of the board finds no player, even on a map that has a start square |
| Levels.Level.NoPlayerRegisteredNoMove | jpacman-framework/src/test/java/nl/tudelft/jpacman/npc/ghost/ClydeTest.java:139-161 | while no player is registered, the only decision Clyde or Inky may take is no move |
| Planner.ExtendFinds | sportsHallPlanner/src/test/java/delft/SportsHallPlannerTests.java:75-89 | the search from a partial assignment returns a complete extension of it that is lexicographically least, or None exactly when no complete extension exists |
| Planner.TryFromFinds | sportsHallPlanner/src/test/java/delft/SportsHallPlannerTests.java:75-89 | trying halls from index h onward for the next request returns the least complete extension whose next hall is at least h, or None when there is none |
| Planner.PartialAppend | sportsHallPlanner/src/test/java/delft/SportsHallPlannerTests.java:57-73 | giving the next request an unused hall that can host it keeps the assignment valid |
| Planner.ToMapHas | sportsHallPlanner/src/test/java/delft/SportsHallPlannerTests.java:91-103 | the mapping built from an assignment maps each chosen hall to its request |
| Planner.ToMapOnly | sportsHallPlanner/src/test/java/delft/SportsHallPlannerTests.java:91-103 | the mapping holds only halls that were chosen, so unused halls are absent |
| Planner.ToMapSize | sportsHallPlanner/src/test/java/delft/SportsHallPlannerTests.java:91-103 | the mapping has one entry per assigned request |
| Planner.CanFulfill | sportsHallPlanner/src/test/java/delft/SportsHallPlannerTests.java:44-55 | a hall missing a requested property, lacking the requested sport, or with fewer fields than the minimum cannot host the request; a hall with every property and exactly the minimum number of fields can |
| Planner.PlanHalls | sportsHallPlanner/src/test/java/delft/SportsHallPlannerTests.java:19-168 | duplicate halls give the error exactly, whatever the requests; with distinct halls, no requests give the empty mapping (what a plan contains is stated by PlanServesEveryRequest and PlanIsFirstFit) |
| Planner.PlanRejectsDuplicates | sportsHallPlanner/src/test/java/delft/SportsHallPlannerTests.java:107-127 | the duplicate-halls error is raised exactly when two halls are equal, with or without requests; with distinct halls, no requests give the empty mapping |
| Planner.PlanNoneIff | sportsHallPlanner/src/test/java/delft/SportsHallPlannerTests.java:129-148 | there is no plan exactly when the halls are distinct and no complete assignment exists |
| Planner.PlanIsFirstFit | sportsHallPlanner/src/test/java/delft/SportsHallPlannerTests.java:57-89 | a plan is the mapping of the lexicographically least complete assignment: requests in order, each taking the earliest hall that leaves the rest servable |
| Planner.PlanServesEveryRequest | sportsHallPlanner/src/test/java/delft/SportsHallPlannerTests.java:91-103 | a plan has one entry per request, every hall in it comes from the list and can host its request, and every request is served |
| Planner.OneRequestFirstHall | sportsHallPlanner/src/test/java/delft/SportsHallPlannerTests.java:31-42 | a single request gets the first hall in the list able to host it |
| Planner.AllPropertiesAndEnoughFields | sportsHallPlanner/src/test/java/delft/SportsHallPlannerTests.java:44-55 | halls missing a property or with too few fields are passed over for one that has both |
| Planner.MissingSportLeavesNoPlan | sportsHallPlanner/src/test/java/delft/SportsHallPlannerTests.java:150-158 | a hall with no field of the requested sport cannot host it: no plan |
| Planner.ExactMinimumAccepted | sportsHallPlanner/src/test/java/delft/SportsHallPlannerTests.java:160-168 | exactly the minimum number of fields is enough |
| Planner.Pigeonhole | sportsHallPlanner/src/test/java/delft/SportsHallPlannerTests.java:129-136 | distinct hall indices below n number at most n |
| Planner.MoreRequestsThanHalls | sportsHallPlanner/src/test/java/delft/SportsHallPlannerTests.java:129-148 | more requests than halls (in particular no halls at all) leave no plan |
| Planner.BacktracksToCrossAssignment | sportsHallPlanner/src/test/java/delft/SportsHallPlannerTests.java:75-89 | when each request can only use the other's first choice, the plan backtracks to the cross assignment |
| Planner.TakeInOrder | sportsHallPlanner/src/test/java/delft/SportsHallPlannerTests.java:57-73 | with two distinct halls, each able to host the request at its own position, the search takes them in list order and the plan maps the first hall to the first request and the second to the second |
| Planner.RequestsTakeHallsInOrder | sportsHallPlanner/src/test/java/delft/SportsHallPlannerTests.java:57-73 | when both halls can host both requests, the first request takes the first hall and the second the second |

## Left out

- Sprites, the factories and the text map parser are left out: they are rendering and setup, not logic. Boards are built directly as grids of squares with a wall flag, and the map-based cases are stated as predicates on the board's open squares.
- Mockito, JUnit parameterisation and AssertJ are left out; the test cases appear as lemmas.
- Production classes are not part of this model. Their behaviour is modelled as the tests and their doc comments pin it down.
- Passability is a wall flag per square. Per-unit passability rules are not modelled.
- Board.Unit.SquaresAheadOf requires the looked-ahead square to be on the board. Nothing fixes what happens past the edge (wrap, clip or fail).
- The board does not wrap around at its edges: Board.Board.Neighbour requires an on-board neighbour, Board.Board.Open is false off the board, and Navigation.ShortestPath never leaves the board. The tests do not fix the edge policy.
- Levels.Level.RegisterPlayer requires at least one start square. What registering a player on a level without one does is not fixed by the tests.
- Navigation.FindUnitInBoard scans the board row by row, west to east, and returns the first unit of the kind. When several players are present, which one counts is not pinned beyond that order.
- Ghosts.ClydeNextAiMove and Ghosts.InkyNextAiMove do not fix which shortest route is used when several tie. The search explores NORTH, EAST, SOUTH, WEST, but the contracts allow any shortest route.
- Ghosts.ClydeNextAiMove moves away by taking the opposite of the first step toward the player. The doc comment also mentions heading for a home corner, but the near case expects EAST for a player to the west, which this rule gives.
- Ghosts.InkyNextAiMove gives no move when the square two ahead of the player, or the doubled target, lies off the board. The tests leave this open.
- The vertical Clyde case expects a chase at distance 7, which contradicts the more-than-8 rule. It is not stated as a lemma.
- The two favourable Inky cases do not fit the doubling rule. In the first, the target is Inky's own square, so Inky makes no move. In the second, the target lies off the board. Neither is stated as a lemma.
- Removing an eaten pellet from its square is left out: the tests call it implementation-dependent. Only the score increase is modelled, with a fixed pellet value of 10.
- Collisions.PlayerEatsPelletEitherWay states only that the score increases, not by how much, because the tests fix no amount.
- The duplicate-halls error is a result value. The exception's message text is not modelled.
- The unused width and height constants of the board test disagree with the asserted sizes and are left out.
