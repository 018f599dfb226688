/** Stateless search over the board: walks and shortest paths between positions, and the
    row-major lookup of a unit of a given kind. A path is a sequence of directions; the empty
    path means "already there", and `None` means "no route". */
module Navigation {
  import opened Wrappers
  import opened Board

  /** Following `path` from `from`, every square entered is on the board and not a wall.
      The starting square itself is not checked. */
  predicate IsWalk(b: Board, from: Pos, path: seq<Direction>)
    decreases |path|
  {
    |path| == 0 || (b.Open(from.Step(path[0])) && IsWalk(b, from.Step(path[0]), path[1..]))
  }

  /** Where following `path` from `from` ends, ignoring walls and borders. */
  function WalkEnd(from: Pos, path: seq<Direction>): Pos
    decreases |path|
  {
    if |path| == 0 then from else WalkEnd(from.Step(path[0]), path[1..])
  }

  ghost predicate IsPath(b: Board, from: Pos, to: Pos, path: seq<Direction>) {
    IsWalk(b, from, path) && WalkEnd(from, path) == to
  }

  ghost predicate Reachable(b: Board, from: Pos, to: Pos) {
    exists path :: IsPath(b, from, to, path)
  }

  /** `path` leads from `from` to `to` and no route between them is shorter. */
  ghost predicate IsShortestPath(b: Board, from: Pos, to: Pos, path: seq<Direction>) {
    && IsPath(b, from, to, path)
    && forall q :: IsPath(b, from, to, q) ==> |path| <= |q|
  }

  /** Extending a walk by one step moves its end one step, and keeps it a walk exactly when the
      square entered is open. */
  lemma {:induction false} WalkAppend(b: Board, from: Pos, path: seq<Direction>, d: Direction)
    ensures WalkEnd(from, path + [d]) == WalkEnd(from, path).Step(d)
    ensures IsWalk(b, from, path + [d]) <==> IsWalk(b, from, path) && b.Open(WalkEnd(from, path).Step(d))
    decreases |path|
  {
    if |path| == 0 {
      assert path + [d] == [d];
      assert [d][1..] == [];
    } else {
      assert (path + [d])[0] == path[0];
      assert (path + [d])[1..] == path[1..] + [d];
      WalkAppend(b, from.Step(path[0]), path[1..], d);
    }
  }

  /** Prefixing a walk with one step. */
  lemma PrefixStep(b: Board, from: Pos, d: Direction, path: seq<Direction>)
    ensures WalkEnd(from, [d] + path) == WalkEnd(from.Step(d), path)
    ensures IsWalk(b, from, [d] + path) <==> b.Open(from.Step(d)) && IsWalk(b, from.Step(d), path)
  {
    assert ([d] + path)[0] == d;
    assert ([d] + path)[1..] == path;
  }

  /** Walks can be translated: shifting the start shifts the end by the same vector. */
  lemma {:induction false} WalkEndTranslate(from: Pos, path: seq<Direction>, dx: int, dy: int)
    ensures WalkEnd(Pos(from.x + dx, from.y + dy), path)
         == Pos(WalkEnd(from, path).x + dx, WalkEnd(from, path).y + dy)
    decreases |path|
  {
    if |path| > 0 {
      WalkEndTranslate(from.Step(path[0]), path[1..], dx, dy);
    }
  }

  /** A walk never gets further than one square per step: its length is at least the
      Manhattan distance between its ends. */
  lemma {:induction false} WalkLengthAtLeastManhattan(from: Pos, path: seq<Direction>)
    ensures |path| >= Abs(WalkEnd(from, path).x - from.x) + Abs(WalkEnd(from, path).y - from.y)
    decreases |path|
  {
    if |path| > 0 {
      WalkLengthAtLeastManhattan(from.Step(path[0]), path[1..]);
    }
  }

  function Abs(n: int): nat {
    if n < 0 then -n else n
  }

  /** A shortest path stays shortest after its first step: the rest of it is a shortest path
      from the square the first step enters. */
  lemma ShortestSuffix(b: Board, from: Pos, to: Pos, path: seq<Direction>)
    requires IsShortestPath(b, from, to, path) && |path| > 0
    ensures IsShortestPath(b, from.Step(path[0]), to, path[1..])
  {
    var next := from.Step(path[0]);
    forall q | IsPath(b, next, to, q)
      ensures |path[1..]| <= |q|
    {
      PrefixStep(b, from, path[0], q);
      assert IsPath(b, from, to, [path[0]] + q);
    }
  }

  /** After expansion, every open neighbour of `p` has been reached, at most one step later. */
  ghost predicate Closed(b: Board, seen: map<Pos, seq<Direction>>, p: Pos)
    requires p in seen
  {
    forall d: Direction :: b.Open(p.Step(d)) ==>
      p.Step(d) in seen && |seen[p.Step(d)]| <= |seen[p]| + 1
  }

  /** The heart of breadth-first search: if every position reached by fewer than `depth` steps
      has been expanded, every walk of at most `depth` steps ends at a reached position, and it
      was reached by a path no longer than that walk. */
  lemma {:induction false} ReachedWithin(b: Board, from: Pos, seen: map<Pos, seq<Direction>>,
                                         w: seq<Direction>, depth: nat)
    requires from in seen && seen[from] == []
    requires forall p :: p in seen && |seen[p]| < depth ==> Closed(b, seen, p)
    requires IsWalk(b, from, w) && |w| <= depth
    ensures WalkEnd(from, w) in seen && |seen[WalkEnd(from, w)]| <= |w|
    decreases |w|
  {
    if |w| > 0 {
      var front, d := w[..|w| - 1], w[|w| - 1];
      assert w == front + [d];
      WalkAppend(b, from, front, d);
      ReachedWithin(b, from, seen, front, depth);
      var e := WalkEnd(from, front);
      assert Closed(b, seen, e);
    }
  }

  /** Walking `n` steps straight on in direction `d` over open squares is a walk, and it ends
      `n` squares away. */
  lemma {:induction false} StraightWalk(b: Board, from: Pos, d: Direction, n: nat)
    requires forall i :: 1 <= i <= n ==> b.Open(from.Shift(d, i))
    ensures IsWalk(b, from, seq(n, _ => d)) && WalkEnd(from, seq(n, _ => d)) == from.Shift(d, n)
  {
    if n == 0 {
      assert from.Shift(d, 0) == from;
    } else {
      StraightWalk(b, from, d, n - 1);
      assert seq(n, _ => d) == seq(n - 1, _ => d) + [d];
      WalkAppend(b, from, seq(n - 1, _ => d), d);
      from.ShiftStep(d, n - 1);
    }
  }

  /** A region of the board that no open square borders from inside keeps every walk that
      starts in it: a walled-in start cannot reach anything outside. */
  lemma {:induction false} WalkStaysInside(b: Board, from: Pos, region: set<Pos>, path: seq<Direction>)
    requires from in region
    requires forall p, d: Direction :: p in region && b.Open(p.Step(d)) ==> p.Step(d) in region
    requires IsWalk(b, from, path)
    ensures WalkEnd(from, path) in region
    decreases |path|
  {
    if |path| > 0 {
      WalkStaysInside(b, from.Step(path[0]), region, path[1..]);
    }
  }

  /** Every direction is one of the four explored. */
  lemma DirectionsComplete(d: Direction)
    ensures exists i :: 0 <= i < 4 && Directions[i] == d
  {
    match d
    case North => assert Directions[0] == d;
    case East => assert Directions[1] == d;
    case South => assert Directions[2] == d;
    case West => assert Directions[3] == d;
  }

  /** The bookkeeping of breadth-first search: every reached position carries a path to it;
      the queue holds reached positions in order of path length, all `level` or `level + 1`
      steps from the start. */
  ghost predicate Layered(b: Board, from: Pos, seen: map<Pos, seq<Direction>>, queue: seq<Pos>, level: nat)
  {
    && from in seen && seen[from] == []
    && (forall p {:trigger IsPath(b, from, p, seen[p])} :: p in seen ==> IsPath(b, from, p, seen[p]))
    && (forall p :: p in seen ==> b.WithinBorders(p))
    && (forall i :: 0 <= i < |queue| ==> queue[i] in seen)
    && (forall i :: 0 <= i < |queue| ==> level <= |seen[queue[i]]| <= level + 1)
    && (forall i, j :: 0 <= i <= j < |queue| ==> |seen[queue[i]]| <= |seen[queue[j]]|)
  }

  /** Every reached position that has left the queue (other than `except`) was expanded, and
      is at most `level` steps from the start. */
  ghost predicate ExpandedOutside(b: Board, seen: map<Pos, seq<Direction>>, queue: seq<Pos>, level: nat, except: set<Pos>)
  {
    forall p {:trigger Closed(b, seen, p)} :: p in seen && p !in queue && p !in except ==> |seen[p]| <= level && Closed(b, seen, p)
  }

  /** Looks from `s` in direction `d`: an open neighbour not yet reached is reached by the
      path to `s` plus that step, and queued. */
  method Visit(b: Board, ghost from: Pos, to: Pos, s: Pos, d: Direction,
               seen: map<Pos, seq<Direction>>, queue: seq<Pos>, ghost level: nat)
    returns (seen': map<Pos, seq<Direction>>, queue': seq<Pos>)
    requires b.Rectangular()
    requires Layered(b, from, seen, queue, level) && ExpandedOutside(b, seen, queue, level, {s})
    requires s in seen && |seen[s]| == level && s != to
    requires to in seen ==> to in queue
    ensures Layered(b, from, seen', queue', level) && ExpandedOutside(b, seen', queue', level, {s})
    ensures to in seen' ==> to in queue'
    ensures forall p :: p in seen ==> p in seen' && seen'[p] == seen[p]
    ensures b.Open(s.Step(d)) ==> s.Step(d) in seen' && |seen'[s.Step(d)]| <= level + 1
    ensures seen'.Keys == seen.Keys ==> queue' == queue
  {
    seen', queue' := seen, queue;
    var n := s.Step(d);
    if b.Open(n) && n !in seen {
      assert IsPath(b, from, s, seen[s]);
      WalkAppend(b, from, seen[s], d);
      seen' := seen[n := seen[s] + [d]];
      queue' := queue + [n];
      forall p | p in seen' && p !in queue' && p != s
        ensures |seen'[p]| <= level && Closed(b, seen', p)
      {
        assert p in seen && p !in queue;
        assert Closed(b, seen, p);
      }
    } else if b.Open(n) {
      if n !in queue && n != s {
        assert Closed(b, seen, n);
      }
    }
  }

  /** Expands the position `s` just taken from the queue, looking in every direction in the
      fixed order. */
  method Expand(b: Board, ghost from: Pos, to: Pos, s: Pos, seen: map<Pos, seq<Direction>>,
                queue: seq<Pos>, ghost level: nat)
    returns (seen': map<Pos, seq<Direction>>, queue': seq<Pos>)
    requires b.Rectangular()
    requires Layered(b, from, seen, queue, level) && ExpandedOutside(b, seen, queue, level, {s})
    requires s in seen && |seen[s]| == level && s != to
    requires to in seen ==> to in queue
    ensures Layered(b, from, seen', queue', level) && ExpandedOutside(b, seen', queue', level, {})
    ensures to in seen' ==> to in queue'
    ensures seen.Keys <= seen'.Keys && (seen'.Keys == seen.Keys ==> queue' == queue)
  {
    seen', queue' := seen, queue;
    for i := 0 to 4
      invariant Layered(b, from, seen', queue', level) && ExpandedOutside(b, seen', queue', level, {s})
      invariant forall p :: p in seen ==> p in seen' && seen'[p] == seen[p]
      invariant forall d :: d in Directions[..i] && b.Open(s.Step(d)) ==>
                  s.Step(d) in seen' && |seen'[s.Step(d)]| <= level + 1
      invariant to in seen' ==> to in queue'
      invariant seen'.Keys == seen.Keys ==> queue' == queue
    {
      assert Directions[..i + 1] == Directions[..i] + [Directions[i]];
      seen', queue' := Visit(b, from, to, s, Directions[i], seen', queue', level);
    }
    forall d: Direction | b.Open(s.Step(d))
      ensures s.Step(d) in seen' && |seen'[s.Step(d)]| <= |seen'[s]| + 1
    {
      DirectionsComplete(d);
      assert Directions[..4] == Directions;
    }
    assert Closed(b, seen', s);
    forall p | p in seen' && p !in queue'
      ensures |seen'[p]| <= level && Closed(b, seen', p)
    {
      assert Closed(b, seen', p);
    }
  }

  /** Breadth-first search from `from` to `to`, exploring NORTH, EAST, SOUTH, WEST in that
      order. Returns a shortest path, or `None` when `to` cannot be reached. */
  method ShortestPath(b: Board, from: Pos, to: Pos) returns (r: Option<seq<Direction>>)
    requires b.Rectangular() && b.WithinBorders(from)
    ensures r.Some? ==> IsShortestPath(b, from, to, r.value)
    ensures r.None? ==> !Reachable(b, from, to)
  {
    var seen: map<Pos, seq<Direction>> := map[from := []];
    var queue: seq<Pos> := [from];
    ghost var level: nat := 0;
    while queue != []
      invariant Layered(b, from, seen, queue, level) && ExpandedOutside(b, seen, queue, level, {})
      invariant to in seen ==> to in queue
      decreases |b.Cells() - seen.Keys|, |queue|
    {
      ghost var keys0 := seen.Keys;
      var found;
      seen, queue, level, found := SearchRound(b, from, to, seen, queue, level);
      if found.Some? {
        return found;
      }
      if seen.Keys != keys0 {
        FewerUnreached(b, keys0, seen.Keys);
      }
    }
    ExhaustedUnreachable(b, from, to, seen);
    return None;
  }

  /** One round of the search: takes the head of the queue and reports its route if it is the
      target, or expands it otherwise. */
  method SearchRound(b: Board, ghost from: Pos, to: Pos, seen: map<Pos, seq<Direction>>,
                     queue: seq<Pos>, ghost level: nat)
    returns (seen': map<Pos, seq<Direction>>, queue': seq<Pos>, ghost level': nat,
             found: Option<seq<Direction>>)
    requires b.Rectangular() && queue != []
    requires Layered(b, from, seen, queue, level) && ExpandedOutside(b, seen, queue, level, {})
    requires to in seen ==> to in queue
    ensures found.Some? ==> IsShortestPath(b, from, to, found.value)
    ensures found.None? ==>
              && Layered(b, from, seen', queue', level') && ExpandedOutside(b, seen', queue', level', {})
              && (to in seen' ==> to in queue')
              && seen.Keys <= seen'.Keys
              && (seen'.Keys == seen.Keys ==> |queue'| < |queue|)
  {
    var s := queue[0];
    Dequeue(b, from, seen, queue, level);
    level' := |seen[s]|;
    if s == to {
      FoundIsShortest(b, from, to, seen, queue[1..], level');
      return seen, queue, level', Some(seen[s]);
    }
    seen', queue' := Expand(b, from, to, s, seen, queue[1..], level');
    found := None;
  }

  /** Taking the head off the queue moves the search to the head's level; everything that
      left the queue before it has been expanded. */
  lemma Dequeue(b: Board, from: Pos, seen: map<Pos, seq<Direction>>, queue: seq<Pos>, level: nat)
    requires Layered(b, from, seen, queue, level) && ExpandedOutside(b, seen, queue, level, {})
    requires queue != []
    ensures Layered(b, from, seen, queue[1..], |seen[queue[0]]|)
    ensures ExpandedOutside(b, seen, queue[1..], |seen[queue[0]]|, {queue[0]})
  {
    var next := |seen[queue[0]]|;
    forall i | 0 <= i < |queue[1..]|
      ensures next <= |seen[queue[1..][i]]| <= next + 1
    {
      assert queue[1..][i] == queue[i + 1];
    }
    forall p | p in seen && p !in queue[1..] && p != queue[0]
      ensures |seen[p]| <= next && Closed(b, seen, p)
    {
      assert p !in queue;
      assert Closed(b, seen, p);
    }
  }

  /** When the target leaves the queue, the path recorded for it is a shortest one: every
      position nearer than the target has already been expanded. */
  lemma FoundIsShortest(b: Board, from: Pos, to: Pos, seen: map<Pos, seq<Direction>>,
                        queue: seq<Pos>, level: nat)
    requires Layered(b, from, seen, queue, level) && ExpandedOutside(b, seen, queue, level, {to})
    requires to in seen && |seen[to]| == level
    ensures IsShortestPath(b, from, to, seen[to])
  {
    forall q | IsPath(b, from, to, q)
      ensures |seen[to]| <= |q|
    {
      if |q| <= level {
        ReachedWithin(b, from, seen, q, level);
      }
    }
  }

  /** When the queue runs dry, every reached position has been expanded, so a target not
      reached cannot be reached at all. */
  lemma ExhaustedUnreachable(b: Board, from: Pos, to: Pos, seen: map<Pos, seq<Direction>>)
    requires from in seen && seen[from] == []
    requires forall p :: p in seen ==> Closed(b, seen, p)
    requires to !in seen
    ensures !Reachable(b, from, to)
  {
    forall q | IsPath(b, from, to, q)
      ensures false
    {
      ReachedWithin(b, from, seen, q, |q|);
    }
  }

  /** Reaching more positions of the board leaves fewer of its cells unreached. */
  lemma FewerUnreached(b: Board, before: set<Pos>, after: set<Pos>)
    requires before <= after && before != after
    requires forall p :: p in after ==> b.WithinBorders(p)
    ensures |b.Cells() - after| < |b.Cells() - before|
  {
    var cells := b.Cells();
    forall p | p in after
      ensures p in cells
    {
      b.WithinBordersIffCell(p);
    }
    var e :| e in after && e !in before;
    assert cells - before == (cells - after) + (after - before);
    assert (cells - after) * (after - before) == {};
    assert e in after - before;
  }

  /** The first occupant of kind `k`, in order of arrival. */
  function FirstOfKind(occupants: seq<Unit>, k: Kind): (r: Option<Unit>)
    ensures r.Some? ==> r.value in occupants && r.value.kind == k
    ensures r.Some? ==> exists i :: 0 <= i < |occupants| && occupants[i] == r.value
                                   && forall j :: 0 <= j < i ==> occupants[j].kind != k
    ensures r.None? ==> forall u :: u in occupants ==> u.kind != k
  {
    if occupants == [] then None
    else if occupants[0].kind == k then Some(occupants[0])
    else FirstOfKind(occupants[1..], k)
  }

  /** The first unit of kind `k` on row `y`, scanning columns from `x` eastwards. */
  function FindInRow(b: Board, k: Kind, y: nat, x: nat): Option<Unit>
    requires b.Rectangular() && y < b.Height()
    reads b.Squares()
    decreases b.Width() - x
  {
    if x >= b.Width() then None
    else match FirstOfKind(b.SquareAt(Pos(x, y)).occupants, k)
      case Some(u) => Some(u)
      case None => FindInRow(b, k, y, x + 1)
  }

  /** The first unit of kind `k` in row-major order (rows top to bottom, each west to east),
      starting at row `y`. */
  function FindInRows(b: Board, k: Kind, y: nat): Option<Unit>
    requires b.Rectangular()
    reads b.Squares()
    decreases b.Height() - y
  {
    if y >= b.Height() then None
    else match FindInRow(b, k, y, 0)
      case Some(u) => Some(u)
      case None => FindInRows(b, k, y + 1)
  }

  /** The row scan answers with the first square, from column `x` on, that holds a unit of
      kind `k`, and with `None` exactly when no such square is left in the row. */
  lemma {:induction false} FindInRowFirst(b: Board, k: Kind, y: nat, x: nat)
    requires b.Rectangular() && y < b.Height()
    ensures FindInRow(b, k, y, x).Some? ==>
              exists x' :: x <= x' < b.Width()
                && FirstOfKind(b.SquareAt(Pos(x', y)).occupants, k) == FindInRow(b, k, y, x)
                && forall x'' :: x <= x'' < x' ==> FirstOfKind(b.SquareAt(Pos(x'', y)).occupants, k).None?
    ensures FindInRow(b, k, y, x).None? ==>
              forall x' :: x <= x' < b.Width() ==> FirstOfKind(b.SquareAt(Pos(x', y)).occupants, k).None?
    decreases b.Width() - x
  {
    if x < b.Width() && FirstOfKind(b.SquareAt(Pos(x, y)).occupants, k).None? {
      FindInRowFirst(b, k, y, x + 1);
      assert FindInRow(b, k, y, x) == FindInRow(b, k, y, x + 1);
      if FindInRow(b, k, y, x).Some? {
        var x' :| x + 1 <= x' < b.Width()
                  && FirstOfKind(b.SquareAt(Pos(x', y)).occupants, k) == FindInRow(b, k, y, x + 1)
                  && forall x'' :: x + 1 <= x'' < x' ==> FirstOfKind(b.SquareAt(Pos(x'', y)).occupants, k).None?;
        assert forall x'' :: x <= x'' < x' ==> FirstOfKind(b.SquareAt(Pos(x'', y)).occupants, k).None?;
      }
    }
  }

  /** No row from `lo` up to (not including) `hi` holds a unit of kind `k`. */
  ghost predicate RowsWithout(b: Board, k: Kind, lo: nat, hi: nat)
    requires b.Rectangular() && hi <= b.Height()
    reads b.Squares()
  {
    forall y :: lo <= y < hi ==> FindInRow(b, k, y, 0).None?
  }

  /** The board scan answers with the first row, from row `y` on, whose scan finds a unit of
      kind `k`, and with `None` exactly when no row is left whose scan finds one. */
  lemma {:induction false} FindInRowsFirst(b: Board, k: Kind, y: nat)
    requires b.Rectangular()
    ensures FindInRows(b, k, y).Some? ==>
              exists y' :: y <= y' < b.Height()
                && FindInRow(b, k, y', 0) == FindInRows(b, k, y) && RowsWithout(b, k, y, y')
    ensures FindInRows(b, k, y).None? ==> y >= b.Height() || RowsWithout(b, k, y, b.Height())
    decreases b.Height() - y
  {
    if y < b.Height() && FindInRow(b, k, y, 0).None? {
      FindInRowsFirst(b, k, y + 1);
      assert FindInRows(b, k, y) == FindInRows(b, k, y + 1);
      if FindInRows(b, k, y).Some? {
        var y' :| y + 1 <= y' < b.Height()
                  && FindInRow(b, k, y', 0) == FindInRows(b, k, y + 1) && RowsWithout(b, k, y + 1, y');
        assert RowsWithout(b, k, y, y');
      } else if y + 1 < b.Height() {
        assert RowsWithout(b, k, y + 1, b.Height());
      }
    } else if y < b.Height() {
      assert RowsWithout(b, k, y, y);
    }
  }

  /** A unit found by the row-major scan is of the kind asked for and stands on the board;
      when the scan finds nothing, no square of the board holds a unit of that kind. */
  lemma FoundOnBoard(b: Board, k: Kind)
    requires b.Rectangular()
    ensures FindInRows(b, k, 0).Some? ==>
              FindInRows(b, k, 0).value.kind == k
              && exists s :: s in b.Squares() && FindInRows(b, k, 0).value in s.occupants
    ensures FindInRows(b, k, 0).None? ==>
              forall s, u :: s in b.Squares() && u in s.occupants ==> u.kind != k
  {
    var r := FindInRows(b, k, 0);
    FindInRowsFirst(b, k, 0);
    if r.Some? {
      var y :| 0 <= y < b.Height() && FindInRow(b, k, y, 0) == r;
      FindInRowFirst(b, k, y, 0);
      var x :| 0 <= x < b.Width() && FirstOfKind(b.SquareAt(Pos(x, y)).occupants, k) == r;
      assert b.SquareAt(Pos(x, y)) in b.Squares();
    } else {
      forall s, u | s in b.Squares() && u in s.occupants
        ensures u.kind != k
      {
        var y, x :| 0 <= y < |b.grid| && 0 <= x < |b.grid[y]| && b.grid[y][x] == s;
        assert RowsWithout(b, k, 0, b.Height());
        FindInRowFirst(b, k, y, 0);
        assert b.SquareAt(Pos(x, y)) == s;
      }
    }
  }

  /** The first occupant of `square` of kind `k`. */
  method FindUnit(square: Square, k: Kind) returns (r: Option<Unit>)
    ensures r == FirstOfKind(square.occupants, k)
  {
    var occupants := square.occupants;
    var i := 0;
    while i < |occupants|
      invariant 0 <= i <= |occupants|
      invariant FirstOfKind(occupants[i..], k) == FirstOfKind(occupants, k)
    {
      assert occupants[i..][1..] == occupants[i + 1..];
      if occupants[i].kind == k {
        return Some(occupants[i]);
      }
      i := i + 1;
    }
    return None;
  }

  /** Scans row `y` west to east for the first unit of kind `k`. */
  method FindUnitInRow(b: Board, k: Kind, y: nat) returns (r: Option<Unit>)
    requires b.Rectangular() && y < b.Height()
    ensures r == FindInRow(b, k, y, 0)
  {
    var x := 0;
    while x < b.Width()
      invariant 0 <= x <= b.Width()
      invariant FindInRow(b, k, y, x) == FindInRow(b, k, y, 0)
    {
      r := FindUnit(b.SquareAt(Pos(x, y)), k);
      if r.Some? {
        return r;
      }
      x := x + 1;
    }
    return None;
  }

  /** Scans the board row by row, west to east, for the first unit of kind `k`. */
  method FindUnitInBoard(b: Board, k: Kind) returns (r: Option<Unit>)
    requires b.Rectangular()
    ensures r == FindInRows(b, k, 0)
  {
    var y := 0;
    while y < b.Height()
      invariant 0 <= y <= b.Height()
      invariant FindInRows(b, k, y) == FindInRows(b, k, 0)
    {
      r := FindUnitInRow(b, k, y);
      assert unchanged(b.Squares());
      if r.Some? {
        return r;
      }
      y := y + 1;
    }
    return None;
  }
}
