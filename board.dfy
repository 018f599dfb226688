/** The spatial substrate of the game: directions, squares with their occupants, the units that
    occupy them, and the rectangular board that owns the squares. The grid is indexed [y][x]:
    the outer sequence holds the rows, so the width is the length of a row and the height the
    number of rows. */
module Board {

  /** The four directions a unit can face. NORTH decreases y, EAST increases x. */
  datatype Direction = North | East | South | West {

    function DeltaX(): int {
      match this
      case East => 1
      case West => -1
      case _ => 0
    }

    function DeltaY(): int {
      match this
      case North => -1
      case South => 1
      case _ => 0
    }

    /** The direction whose step undoes a step in this one. */
    function Opposite(): (d: Direction)
      ensures d.DeltaX() == -DeltaX() && d.DeltaY() == -DeltaY()
      ensures d != this
    {
      match this
      case North => South
      case East => West
      case South => North
      case West => East
    }
  }

  /** The fixed order in which directions are explored: NORTH, EAST, SOUTH, WEST. */
  const Directions: seq<Direction> := [North, East, South, West]

  /** A coordinate pair on (or off) the board. */
  datatype Pos = Pos(x: int, y: int) {

    /** The position one step away in direction `d`. */
    function Step(d: Direction): Pos {
      Pos(x + d.DeltaX(), y + d.DeltaY())
    }

    /** The position `n` steps away in direction `d`. */
    function Shift(d: Direction, n: int): Pos {
      match d
      case North => Pos(x, y - n)
      case East => Pos(x + n, y)
      case South => Pos(x, y + n)
      case West => Pos(x - n, y)
    }

    /** One more step after `n` steps is `n + 1` steps. */
    lemma ShiftStep(d: Direction, n: int)
      ensures Shift(d, n + 1) == Shift(d, n).Step(d)
    {
      match d
      case North =>
      case East =>
      case South =>
      case West =>
    }
  }

  datatype GhostVariant = Blinky | Pinky | Inky | Clyde

  /** What a unit is: the concrete class the game dispatches on. `Plain` is a unit with no role. */
  datatype Kind = Player | Pellet | Ghost(variant: GhostVariant) | Plain

  /** The points a pellet is worth; every pellet is worth the same positive amount. */
  const PelletValue: int := 10

  /** A cell of the board. Its coordinates and whether units may enter it are fixed when the
      board is built; its occupants change as units move, in order of arrival. */
  class Square {
    const x: int
    const y: int
    const accessible: bool
    var occupants: seq<Unit>

    constructor (x: int, y: int, accessible: bool)
      ensures this.x == x && this.y == y && this.accessible == accessible
      ensures occupants == []
    {
      this.x := x;
      this.y := y;
      this.accessible := accessible;
      occupants := [];
    }

    function At(): Pos {
      Pos(x, y)
    }
  }

  /** `s` with its first occurrence of `u` removed (a list's remove-by-identity). */
  function Without(s: seq<Unit>, u: Unit): (r: seq<Unit>)
    ensures u !in s ==> r == s
    ensures u in s ==> |r| == |s| - 1
    ensures multiset(r) == multiset(s) - multiset{u}
  {
    if s == [] then []
    else if s[0] == u then
      assert s == [s[0]] + s[1..];
      s[1..]
    else
      assert s == [s[0]] + s[1..];
      [s[0]] + Without(s[1..], u)
  }

  /** Splitting a sequence at `j + 1` after its head: the prefix is the head before the tail's
      prefix, and the suffix is the tail's suffix. */
  lemma SplitAfterHead<T>(s: seq<T>, j: nat)
    requires j < |s| - 1
    ensures s[..j + 1] == [s[0]] + s[1..][..j]
    ensures s[j + 2..] == s[1..][j + 1..]
    ensures [s[0]] + (s[1..][..j] + s[1..][j + 1..]) == s[..j + 1] + s[j + 2..]
  {
  }

  /** The occurrence `Without` removes is the first one, and the other units keep their order. */
  lemma {:induction false} WithoutRemovesFirst(s: seq<Unit>, u: Unit)
    requires u in s
    ensures exists i :: 0 <= i < |s| && s[i] == u && u !in s[..i] && Without(s, u) == s[..i] + s[i + 1..]
  {
    if s[0] == u {
      assert s[..0] == [] && s[..0] + s[0 + 1..] == Without(s, u);
    } else {
      WithoutRemovesFirst(s[1..], u);
      var j :| 0 <= j < |s[1..]| && s[1..][j] == u && u !in s[1..][..j]
               && Without(s[1..], u) == s[1..][..j] + s[1..][j + 1..];
      SplitAfterHead(s, j);
      assert s[j + 1] == u && u !in s[..j + 1];
      assert Without(s, u) == s[..j + 1] + s[j + 1 + 1..];
    }
  }

  /** Every occupant listed by a square of `world` has that square as its own. */
  ghost predicate ConsistentOn(world: set<Square>)
    reads world, set s, u | s in world && u in s.occupants :: u
  {
    forall s, u :: s in world && u in s.occupants ==> u.square == s
  }

  /** A mobile or static actor. `score` and `alive` are the player's state; other kinds keep
      their initial values. */
  class Unit {
    const kind: Kind
    var square: Square?
    var direction: Direction
    var score: int
    var alive: bool

    /** A new unit stands on no square, faces EAST, and (as a player) is alive with no points. */
    constructor (kind: Kind)
      ensures this.kind == kind
      ensures square == null && !HasSquare() && direction == East
      ensures score == 0 && alive
    {
      this.kind := kind;
      square := null;
      direction := East;
      score := 0;
      alive := true;
    }

    predicate HasSquare()
      reads this
      ensures HasSquare() <==> square != null
    {
      square != null
    }

    /** Among the squares of `world`, this unit is listed exactly once by its own square and by
        no other square: it sits on at most one square at a time. */
    ghost predicate PlacedWithin(world: set<Square>)
      reads this, world
    {
      && (square != null ==> square in world)
      && forall s :: s in world ==> multiset(s.occupants)[this] == if s == square then 1 else 0
    }

    /** Leaves the current square (if any) and is appended to the occupants of `target`.
        The ghost `world` is the set of squares over which placement is tracked; a move within
        it keeps every square's occupants and their own squares in agreement. */
    method Occupy(target: Square, ghost world: set<Square>)
      requires square != target ==> this !in target.occupants
      requires square == target ==> this !in Without(target.occupants, this)
      modifies this`square, target, square
      ensures square == target && HasSquare()
      ensures target.occupants == Without(old(target.occupants), this) + [this]
      ensures old(square) != null && old(square) != target ==>
                old(square).occupants == Without(old(square.occupants), this)
      ensures old(PlacedWithin(world)) && target in world ==> PlacedWithin(world)
      ensures old(PlacedWithin(world)) && old(ConsistentOn(world)) && target in world ==> ConsistentOn(world)
    {
      LeaveSquare(world);
      Arrive(target, world);
    }

    /** Steps, from no square, onto `target`, which lists it last. */
    method Arrive(target: Square, ghost world: set<Square>)
      requires square == null && this !in target.occupants
      modifies this`square, target
      ensures square == target && target.occupants == old(target.occupants) + [this]
      ensures old(PlacedWithin(world)) && target in world ==> PlacedWithin(world)
      ensures old(PlacedWithin(world)) && old(ConsistentOn(world)) && target in world ==> ConsistentOn(world)
    {
      square := target;
      target.occupants := target.occupants + [this];
      if old(PlacedWithin(world)) && target in world {
        forall s | s in world
          ensures multiset(s.occupants)[this] == if s == square then 1 else 0
        {
          if s == target {
            assert multiset(s.occupants) == multiset(old(target.occupants)) + multiset{this};
          }
        }
        if old(ConsistentOn(world)) {
          forall s, v | s in world && v in s.occupants
            ensures v.square == s
          {
            if v != this && s == target {
              assert v in old(target.occupants);
            }
          }
        }
      }
    }

    /** Stands on no square any more, its old square (if any) no longer listing it. */
    method LeaveSquare(ghost world: set<Square>)
      modifies this`square, square
      ensures square == null
      ensures old(square) != null ==> old(square).occupants == Without(old(square.occupants), this)
      ensures old(PlacedWithin(world)) ==> PlacedWithin(world)
      ensures old(PlacedWithin(world)) && old(ConsistentOn(world)) ==> ConsistentOn(world)
    {
      ghost var source := square;
      if square != null {
        square.occupants := Without(square.occupants, this);
      }
      square := null;
      if old(PlacedWithin(world)) && old(ConsistentOn(world)) {
        forall s, v | s in world && v in s.occupants
          ensures v.square == s
        {
          if s == source {
            assert v in multiset(Without(old(source.occupants), this));
            assert v != this;
          } else {
            assert v != this by {
              assert multiset(old(s.occupants))[this] == 0;
            }
          }
        }
      }
    }

    method SetDirection(d: Direction)
      modifies this`direction
      ensures direction == d
    {
      direction := d;
    }

    /** The square `n` steps ahead in the facing direction, found by following the neighbour
        link `n` times; the unit itself does not move. */
    method SquaresAheadOf(b: Board, n: nat) returns (dest: Square)
      requires b.Valid() && square != null && b.Holds(square)
      requires b.WithinBorders(square.At().Shift(direction, n))
      ensures dest == b.Ahead(square, direction, n)
      ensures b.Holds(dest) && dest.At() == square.At().Shift(direction, n)
    {
      var start, facing := square, direction;
      dest := start;
      for i := 0 to n
        invariant b.WithinBorders(start.At().Shift(facing, i))
        invariant dest == b.Ahead(start, facing, i)
      {
        b.LineWithinBorders(start.At(), facing, n, i + 1);
        start.At().ShiftStep(facing, i);
        dest := b.Neighbour(dest, facing);
        assert dest == b.Ahead(start, facing, i + 1);
      }
    }
  }

  /** A rectangular grid of squares, fixed at construction. */
  datatype Board = Board(grid: seq<seq<Square>>) {

    /** The number of rows. */
    function Height(): (h: nat)
      ensures h == |grid|
    {
      |grid|
    }

    /** The number of columns: the length of the first row (every row, on a rectangular board). */
    function Width(): (w: nat)
      ensures Rectangular() ==> forall y :: 0 <= y < |grid| ==> |grid[y]| == w
    {
      if |grid| == 0 then 0 else |grid[0]|
    }

    predicate Rectangular() {
      forall y :: 0 <= y < |grid| ==> |grid[y]| == |grid[0]|
    }

    /** Whether `p` lies on the board; an empty board has no such position. */
    predicate WithinBorders(p: Pos)
      ensures WithinBorders(p) ==> Width() > 0 && Height() > 0
    {
      0 <= p.x < Width() && 0 <= p.y < Height()
    }

    /** Rectangular, and every square carries the coordinates at which it is placed. */
    ghost predicate Valid() {
      && Rectangular()
      && forall y, x :: 0 <= y < Height() && 0 <= x < Width() ==> grid[y][x].At() == Pos(x, y)
    }

    function Squares(): set<Square> {
      set y, x | 0 <= y < |grid| && 0 <= x < |grid[y]| :: grid[y][x]
    }

    /** Every position within the borders. */
    function Cells(): set<Pos> {
      set x, y | 0 <= x < Width() && 0 <= y < Height() :: Pos(x, y)
    }

    /** Every unit standing on some square of the board. */
    function Occupants(): set<Unit>
      reads Squares()
    {
      set s, u | s in Squares() && u in s.occupants :: u
    }

    /** The square-unit association agrees on both sides: each occupant of a square of the
        board has that square as its own. */
    ghost predicate Consistent()
      reads Squares(), Occupants()
    {
      forall s, u :: s in Squares() && u in s.occupants ==> u.square == s
    }

    /** The square at column `x` of row `y`. */
    function SquareAt(p: Pos): (s: Square)
      requires Rectangular() && WithinBorders(p)
      ensures s in Squares()
      ensures Valid() ==> s.At() == p
    {
      grid[p.y][p.x]
    }

    /** `s` is the square this board places at `s`'s own coordinates. */
    predicate Holds(s: Square) {
      Rectangular() && WithinBorders(s.At()) && grid[s.y][s.x] == s
    }

    /** Whether a unit may stand at `p`: on the board and not a wall. */
    predicate Open(p: Pos) {
      0 <= p.y < |grid| && 0 <= p.x < |grid[p.y]| && grid[p.y][p.x].accessible
    }

    /** The neighbour of `s` in direction `d`; the board does not wrap around at its edges. */
    function Neighbour(s: Square, d: Direction): (r: Square)
      requires Valid() && Holds(s) && WithinBorders(s.At().Step(d))
      ensures Holds(r) && r.At() == s.At().Step(d)
    {
      SquareAt(s.At().Step(d))
    }

    /** The square reached from `s` by `n` successive neighbour steps in direction `d`. */
    function Ahead(s: Square, d: Direction, n: nat): (r: Square)
      requires Valid() && Holds(s) && WithinBorders(s.At().Shift(d, n))
      ensures Holds(r) && r.At() == s.At().Shift(d, n)
    {
      if n == 0 then s
      else
        LineWithinBorders(s.At(), d, n, n - 1);
        s.At().ShiftStep(d, n - 1);
        Neighbour(Ahead(s, d, n - 1), d)
    }

    /** The board is convex: between two positions on a straight line, every position is on it. */
    lemma LineWithinBorders(p: Pos, d: Direction, n: nat, i: nat)
      requires WithinBorders(p) && WithinBorders(p.Shift(d, n)) && i <= n
      ensures WithinBorders(p.Shift(d, i))
    {
    }

    /** Squares and coordinates are in one-to-one correspondence: every square of a valid board
        is the one `SquareAt` returns for its own coordinates. */
    lemma SquareAtInverse(s: Square)
      requires Valid() && s in Squares()
      ensures Holds(s) && SquareAt(s.At()) == s
    {
      var y, x :| 0 <= y < |grid| && 0 <= x < |grid[y]| && grid[y][x] == s;
      assert grid[y][x].At() == Pos(x, y);
    }

    /** The positions within the borders are exactly the cells of the grid. */
    lemma WithinBordersIffCell(p: Pos)
      ensures WithinBorders(p) <==> p in Cells()
    {
      if WithinBorders(p) {
        assert Pos(p.x, p.y) in Cells();
      }
    }

    /** On a rectangular board, a position is within the borders exactly when it indexes a
        cell of the grid. */
    lemma WithinBordersIffIndexed(p: Pos)
      requires Rectangular()
      ensures WithinBorders(p) <==> 0 <= p.y < |grid| && 0 <= p.x < |grid[p.y]|
    {
    }

    /** Consistency of the board is consistency over its set of squares. */
    lemma ConsistentOnSquares()
      ensures Consistent() <==> ConsistentOn(Squares())
    {
    }

    /** On a consistent board, a unit found on a square of the board stands on that square. */
    lemma OccupantPlaced(s: Square, u: Unit)
      requires Valid() && Consistent() && s in Squares() && u in s.occupants
      ensures u in Occupants() && u.square == s && Holds(s)
    {
      SquareAtInverse(s);
    }
  }

  /** A grid of two rows of three squares is three wide and two high; (0, 0) and (0, 1) lie on
      it and name the squares placed there, while (1, 2) lies below the last row. */
  lemma TwoRowsOfThree(b: Board)
    requires |b.grid| == 2 && |b.grid[0]| == 3 && |b.grid[1]| == 3
    ensures b.Rectangular() && b.Width() == 3 && b.Height() == 2
    ensures b.WithinBorders(Pos(0, 0)) && b.SquareAt(Pos(0, 0)) == b.grid[0][0]
    ensures b.WithinBorders(Pos(0, 1)) && b.SquareAt(Pos(0, 1)) == b.grid[1][0]
    ensures !b.WithinBorders(Pos(1, 2))
  {
  }
}
