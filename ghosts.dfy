/** The decisions of two ghosts. Each looks the actors it needs up on the board, asks the
    breadth-first search for a route, and answers with the direction of its next move, or
    `None` when it has no basis for a decision this tick (an actor is missing, or a route or
    target does not exist). Ties between equally short routes are not part of the contracts:
    a decision is correct for SOME shortest route. */
module Ghosts {
  import opened Wrappers
  import opened Board
  import opened Navigation

  /** Clyde keeps chasing only while the player is more than this many steps away. */
  const Shyness: nat := 8

  /** Inky aims past the square this many steps ahead of the player. */
  const AheadOfPlayer: nat := 2

  /** Clyde's rule for a route to the player: follow it when it is longer than `Shyness`,
      take the opposite of its first step otherwise; an empty route (same square) is no move. */
  function ClydeChoice(path: seq<Direction>): Option<Direction> {
    if |path| == 0 then None
    else if |path| > Shyness then Some(path[0])
    else Some(path[0].Opposite())
  }

  /** The first move of a route; an empty route is no move. */
  function FirstStep(path: seq<Direction>): Option<Direction> {
    if |path| == 0 then None else Some(path[0])
  }

  /** Where the row-major scan finds a unit of kind `k`, and which way that unit faces; `None`
      when no square of the board holds one (or the one found stands on no square). */
  ghost function Sighting(b: Board, k: Kind): Option<(Pos, Direction)>
    requires b.Rectangular()
    reads b.Squares(), b.Occupants()
  {
    match FindInRows(b, k, 0)
    case None => None
    case Some(u) =>
      FoundOnBoard(b, k);
      if u.square == null then None else Some((u.square.At(), u.direction))
  }

  /** On a consistent board the unit the scan finds stands on a square of the board, and the
      sighting reports that square and the unit's facing. */
  lemma SightingOfFound(b: Board, k: Kind)
    requires b.Valid() && b.Consistent() && FindInRows(b, k, 0).Some?
    ensures FindInRows(b, k, 0).value.square != null
    ensures b.Holds(FindInRows(b, k, 0).value.square)
    ensures Sighting(b, k) == Some((FindInRows(b, k, 0).value.square.At(), FindInRows(b, k, 0).value.direction))
  {
    var u := FindInRows(b, k, 0).value;
    FoundOnBoard(b, k);
    var s :| s in b.Squares() && u in s.occupants;
    b.OccupantPlaced(s, u);
  }

  /** What Clyde may answer, standing at `clyde`, given the sighting of the player. */
  ghost predicate ClydeDecision(b: Board, clyde: Pos, player: Option<(Pos, Direction)>, r: Option<Direction>) {
    match player
    case None => r == None
    case Some((p, _)) =>
      if Reachable(b, clyde, p) then exists path :: IsShortestPath(b, clyde, p, path) && r == ClydeChoice(path)
      else r == None
  }

  /** Clyde's next move: chase the player while the player is far, move away once near. */
  method ClydeNextAiMove(b: Board, clyde: Unit) returns (r: Option<Direction>)
    requires b.Valid() && b.Consistent()
    requires clyde.square != null && b.Holds(clyde.square)
    ensures ClydeDecision(b, clyde.square.At(), Sighting(b, Player), r)
    ensures FindInRows(b, Player, 0).None? ==> r == None
  {
    var found := FindUnitInBoard(b, Player);
    if found.None? {
      return None;
    }
    var player := found.value;
    SightingOfFound(b, Player);
    var path := ShortestPath(b, clyde.square.At(), player.square.At());
    match path
    case None => r := None;
    case Some(q) => r := ClydeChoice(q);
  }

  /** A route of length zero exists exactly when the ends coincide. */
  lemma ShortestEmptyIffSame(b: Board, from: Pos, to: Pos, path: seq<Direction>)
    requires IsShortestPath(b, from, to, path)
    ensures |path| == 0 <==> from == to
  {
    if from == to {
      assert IsPath(b, from, to, []);
    }
  }

  /** Clyde moves exactly when there is a player, on another square, that it can reach. */
  lemma ClydeMovesIff(b: Board, clyde: Pos, player: Option<(Pos, Direction)>, r: Option<Direction>)
    requires ClydeDecision(b, clyde, player, r)
    ensures r.Some? <==> player.Some? && player.value.0 != clyde && Reachable(b, clyde, player.value.0)
  {
    if player.Some? && Reachable(b, clyde, player.value.0) {
      var path :| IsShortestPath(b, clyde, player.value.0, path) && r == ClydeChoice(path);
      ShortestEmptyIffSame(b, clyde, player.value.0, path);
    }
  }

  /** Far from the player, Clyde's step enters an open square one step nearer to the player
      along a shortest route. */
  lemma ClydeChasesWhenFar(b: Board, clyde: Pos, p: Pos, facing: Direction, path: seq<Direction>,
                           r: Option<Direction>)
    requires IsShortestPath(b, clyde, p, path) && |path| > Shyness
    requires ClydeDecision(b, clyde, Some((p, facing)), r)
    ensures r.Some? && b.Open(clyde.Step(r.value))
    ensures exists q :: IsShortestPath(b, clyde.Step(r.value), p, q) && |q| == |path| - 1
  {
    var chosen :| IsShortestPath(b, clyde, p, chosen) && r == ClydeChoice(chosen);
    assert |chosen| == |path|;
    ShortestSuffix(b, clyde, p, chosen);
    assert IsShortestPath(b, clyde.Step(r.value), p, chosen[1..]);
  }

  /** Near the player (8 steps or fewer), Clyde turns its back on it: its step undoes the first
      step of a shortest route to the player. */
  lemma ClydeFleesWhenNear(b: Board, clyde: Pos, p: Pos, facing: Direction, path: seq<Direction>,
                           r: Option<Direction>)
    requires IsShortestPath(b, clyde, p, path) && 0 < |path| <= Shyness
    requires ClydeDecision(b, clyde, Some((p, facing)), r)
    ensures r.Some?
    ensures exists q: seq<Direction> :: IsShortestPath(b, clyde, p, q) && |q| == |path| > 0
                     && r.value == q[0].Opposite() && clyde.Step(r.value).Step(q[0]) == clyde
  {
    var chosen :| IsShortestPath(b, clyde, p, chosen) && r == ClydeChoice(chosen);
    assert |chosen| == |path|;
  }

  /** A board that is a single horizontal corridor: three rows, of which only the middle one
      is open, from column `lo` to column `hi`. */
  ghost predicate Corridor(b: Board, width: nat, lo: int, hi: int) {
    && b.Valid() && b.Width() == width && b.Height() == 3
    && forall p :: b.Open(p) <==> p.y == 1 && lo <= p.x <= hi
  }

  /** In a corridor, the only way out of a square is along the corridor. */
  lemma CorridorStep(b: Board, width: nat, lo: int, hi: int, from: Pos, path: seq<Direction>)
    requires Corridor(b, width, lo, hi) && from.y == 1 && |path| > 0 && IsWalk(b, from, path)
    ensures from.Step(path[0]).y == 1 && lo <= from.Step(path[0]).x <= hi
    ensures path[0] == East || path[0] == West
  {
    assert b.Open(from.Step(path[0]));
  }

  /** In a corridor, a square further west along the corridor is reached by walking straight
      west. */
  lemma CorridorReachableWest(b: Board, width: nat, lo: int, hi: int, from: Pos, to: Pos)
    requires Corridor(b, width, lo, hi) && from.y == 1 && to.y == 1 && lo <= to.x < from.x <= hi
    ensures IsPath(b, from, to, seq(from.x - to.x, _ => West))
  {
    var n := from.x - to.x;
    forall i | 1 <= i <= n
      ensures b.Open(from.Shift(West, i))
    {
      assert from.Shift(West, i) == Pos(from.x - i, 1);
    }
    StraightWalk(b, from, West, n);
    assert from.Shift(West, n) == to;
  }

  /** In a corridor, every shortest route to a square further west is as long as the distance
      between the two columns and starts by heading WEST. */
  lemma CorridorShortestHeadsWest(b: Board, width: nat, lo: int, hi: int, from: Pos, to: Pos,
                                  path: seq<Direction>)
    requires Corridor(b, width, lo, hi) && from.y == 1 && to.y == 1 && lo <= to.x < from.x <= hi
    requires IsShortestPath(b, from, to, path)
    ensures |path| == from.x - to.x && path[0] == West
  {
    CorridorReachableWest(b, width, lo, hi, from, to);
    WalkLengthAtLeastManhattan(from, path);
    CorridorStep(b, width, lo, hi, from, path);
    if path[0] == East {
      var next := from.Step(East);
      assert WalkEnd(next, path[1..]) == to;
      WalkLengthAtLeastManhattan(next, path[1..]);
    }
  }

  /** The player 12 squares west of Clyde in a corridor: Clyde chases, heading WEST. */
  lemma ClydeChasesFarHorizontal(b: Board, facing: Direction, r: Option<Direction>)
    requires Corridor(b, 15, 1, 13)
    requires ClydeDecision(b, Pos(13, 1), Some((Pos(1, 1), facing)), r)
    ensures r == Some(West)
  {
    CorridorReachableWest(b, 15, 1, 13, Pos(13, 1), Pos(1, 1));
    var path :| IsShortestPath(b, Pos(13, 1), Pos(1, 1), path) && r == ClydeChoice(path);
    CorridorShortestHeadsWest(b, 15, 1, 13, Pos(13, 1), Pos(1, 1), path);
  }

  /** The player 5 squares west of Clyde in a corridor: Clyde flees, heading EAST. */
  lemma ClydeFleesNearHorizontal(b: Board, facing: Direction, r: Option<Direction>)
    requires Corridor(b, 11, 1, 9)
    requires ClydeDecision(b, Pos(6, 1), Some((Pos(1, 1), facing)), r)
    ensures r == Some(East)
  {
    CorridorReachableWest(b, 11, 1, 9, Pos(6, 1), Pos(1, 1));
    var path :| IsShortestPath(b, Pos(6, 1), Pos(1, 1), path) && r == ClydeChoice(path);
    CorridorShortestHeadsWest(b, 11, 1, 9, Pos(6, 1), Pos(1, 1), path);
  }

  /** The point as far beyond `via` as `from` is before it. */
  function Doubled(from: Pos, via: Pos): Pos {
    Pos(2 * via.x - from.x, 2 * via.y - from.y)
  }

  /** Following Blinky's route to the reference square a second time, starting from the
      reference square, lands on the doubled target. */
  lemma FollowingTwiceDoubles(from: Pos, via: Pos, path: seq<Direction>)
    requires WalkEnd(from, path) == via
    ensures WalkEnd(via, path) == Doubled(from, via)
  {
    WalkEndTranslate(from, path, via.x - from.x, via.y - from.y);
    assert Pos(from.x + (via.x - from.x), from.y + (via.y - from.y)) == via;
  }

  /** What Inky may answer, standing at `inky`, given the sightings of Blinky and the player. */
  ghost predicate InkyDecision(b: Board, inky: Pos, blinky: Option<(Pos, Direction)>,
                               player: Option<(Pos, Direction)>, r: Option<Direction>) {
    if blinky.None? || player.None? then r == None
    else InkyAim(b, inky, blinky.value.0, player.value.0.Shift(player.value.1, AheadOfPlayer), r)
  }

  /** What Inky may answer once Blinky stands at `blinky` and the reference square is `ahead`. */
  ghost predicate InkyAim(b: Board, inky: Pos, blinky: Pos, ahead: Pos, r: Option<Direction>) {
    if !b.WithinBorders(ahead) || !Reachable(b, blinky, ahead) then r == None
    else
      var target := Doubled(blinky, ahead);
      if !b.WithinBorders(target) || !Reachable(b, inky, target) then r == None
      else exists path :: IsShortestPath(b, inky, target, path) && r == FirstStep(path)
  }

  /** Inky's next move: the first step toward the end of the Blinky-to-reference segment doubled,
      the reference being the square two ahead of the player. */
  method InkyNextAiMove(b: Board, inky: Unit) returns (r: Option<Direction>)
    requires b.Valid() && b.Consistent()
    requires inky.square != null && b.Holds(inky.square)
    ensures InkyDecision(b, inky.square.At(), Sighting(b, Ghost(Blinky)), Sighting(b, Player), r)
    ensures FindInRows(b, Ghost(Blinky), 0).None? || FindInRows(b, Player, 0).None? ==> r == None
  {
    var foundBlinky := FindUnitInBoard(b, Ghost(Blinky));
    if foundBlinky.None? {
      return None;
    }
    var foundPlayer := FindUnitInBoard(b, Player);
    if foundPlayer.None? {
      return None;
    }
    SightingOfFound(b, Ghost(Blinky));
    SightingOfFound(b, Player);
    r := Aim(b, inky.square.At(), foundBlinky.value.square.At(), foundPlayer.value);
    SightingOfFound(b, Ghost(Blinky));
    SightingOfFound(b, Player);
  }

  /** The rest of Inky's decision once Blinky stands at `blinky`: the reference square two ahead
      of the player, Blinky's route to it, the doubled target, and Inky's route there. */
  method Aim(b: Board, inky: Pos, blinky: Pos, player: Unit) returns (r: Option<Direction>)
    requires b.Valid() && b.WithinBorders(inky) && b.WithinBorders(blinky)
    requires player.square != null && b.Holds(player.square)
    ensures InkyAim(b, inky, blinky, player.square.At().Shift(player.direction, AheadOfPlayer), r)
  {
    var aheadAt := player.square.At().Shift(player.direction, AheadOfPlayer);
    if !b.WithinBorders(aheadAt) {
      return None;
    }
    var ahead := player.SquaresAheadOf(b, AheadOfPlayer);
    var firstHalf := ShortestPath(b, blinky, ahead.At());
    if firstHalf.None? {
      return None;
    }
    var target := WalkEnd(ahead.At(), firstHalf.value);
    FollowingTwiceDoubles(blinky, ahead.At(), firstHalf.value);
    if !b.WithinBorders(target) {
      return None;
    }
    var path := ShortestPath(b, inky, target);
    if path.None? {
      return None;
    }
    r := FirstStep(path.value);
  }

  /** When Inky moves, it enters an open square from which its target is one step nearer. */
  lemma InkyStepsTowardTarget(b: Board, inky: Pos, blinky: (Pos, Direction), player: (Pos, Direction),
                              r: Option<Direction>)
    requires InkyDecision(b, inky, Some(blinky), Some(player), r) && r.Some?
    ensures var target := Doubled(blinky.0, player.0.Shift(player.1, AheadOfPlayer));
            && b.Open(inky.Step(r.value))
            && exists path :: IsShortestPath(b, inky, target, path) && |path| > 0
                            && IsShortestPath(b, inky.Step(r.value), target, path[1..])
  {
    var target := Doubled(blinky.0, player.0.Shift(player.1, AheadOfPlayer));
    var path :| IsShortestPath(b, inky, target, path) && r == FirstStep(path);
    ShortestSuffix(b, inky, target, path);
  }

  /** Inky moves only when Blinky can reach the square two ahead of the player and the doubled
      target lies on the board, reachable and not under Inky. */
  lemma InkyMovesIff(b: Board, inky: Pos, blinky: Option<(Pos, Direction)>,
                     player: Option<(Pos, Direction)>, r: Option<Direction>)
    requires InkyDecision(b, inky, blinky, player, r)
    ensures r.Some? <==>
              && blinky.Some? && player.Some?
              && var ahead := player.value.0.Shift(player.value.1, AheadOfPlayer);
                 && b.WithinBorders(ahead) && Reachable(b, blinky.value.0, ahead)
                 && var target := Doubled(blinky.value.0, ahead);
                    && b.WithinBorders(target) && Reachable(b, inky, target) && target != inky
  {
    if blinky.Some? && player.Some? {
      var ahead := player.value.0.Shift(player.value.1, AheadOfPlayer);
      var target := Doubled(blinky.value.0, ahead);
      if b.WithinBorders(ahead) && Reachable(b, blinky.value.0, ahead)
         && b.WithinBorders(target) && Reachable(b, inky, target) {
        var path :| IsShortestPath(b, inky, target, path) && r == FirstStep(path);
        ShortestEmptyIffSame(b, inky, target, path);
      }
    }
  }

  /** The map of the walled-in case: Blinky's column (x = 1, rows 1 to 3) is cut off by a
      wall block from the area holding the player and Inky (x = 6 to 9, rows 1 to 3). */
  ghost predicate WalledInBlinkyMap(b: Board) {
    && b.Valid() && b.Width() == 11 && b.Height() == 5
    && forall p :: b.Open(p) <==> 1 <= p.y <= 3 && (p.x == 1 || 6 <= p.x <= 9)
  }

  /** Blinky walled in, the player facing EAST two squares west of Inky: Blinky cannot reach
      the square two ahead of the player, so Inky makes no move. */
  lemma InkyNoMoveWhenBlinkyWalledIn(b: Board, blinkyFacing: Direction, r: Option<Direction>)
    requires WalledInBlinkyMap(b)
    requires InkyDecision(b, Pos(9, 2), Some((Pos(1, 1), blinkyFacing)), Some((Pos(7, 2), East)), r)
    ensures !Reachable(b, Pos(1, 1), Pos(9, 2))
    ensures r == None
  {
    var region := {Pos(1, 1), Pos(1, 2), Pos(1, 3)};
    assert forall p, d: Direction :: p in region && b.Open(p.Step(d)) ==> p.Step(d) in region;
    var ahead := Pos(7, 2).Shift(East, AheadOfPlayer);
    assert ahead == Pos(9, 2);
    forall path | IsPath(b, Pos(1, 1), ahead, path)
      ensures false
    {
      WalkStaysInside(b, Pos(1, 1), region, path);
    }
  }
}
