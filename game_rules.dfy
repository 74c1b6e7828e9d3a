/** The rules a `GameState` follows, stated on values: the cell tests, the
    effect of one `move`, the heuristic, the solved test and what the
    constructor's scans of the map find. The class in module GameStates is
    proved to behave as these functions say. */
module GameRules {
  import opened Grids

  datatype Option<T> = None | Some(value: T)

  const BoxMarks: set<char> := {'$', '*'}
  const TargetMarks: set<char> := {'.', '*'}
  const PlayerMarks: set<char> := {'@', '+'}

  /** The directions every search tries, in this order. */
  const Directions: seq<string> := ["U", "D", "L", "R"]

  predicate IsWall(g: Grid, q: Position)
    requires InBounds(g, q)
  {
    Cell(g, q) == '#'
  }

  predicate IsBox(g: Grid, q: Position)
    requires InBounds(g, q)
  {
    Cell(g, q) in BoxMarks
  }

  predicate IsTarget(g: Grid, q: Position)
    requires InBounds(g, q)
  {
    Cell(g, q) in TargetMarks
  }

  predicate IsEmpty(g: Grid, q: Position)
    requires InBounds(g, q)
  {
    Cell(g, q) == ' '
  }

  /** Everything a `GameState` holds except the two dimensions, which never
      change: the map, the player, the box list, the target list recorded at
      construction, `current_cost` and the cached `is_solved`. */
  datatype Config = Config(
    grid: Grid,
    player: Option<Position>,
    boxes: seq<Position>,
    targets: seq<Position>,
    cost: int,
    solved: bool)

  /** The neighbour of `q` in direction `d`; any string other than the four
      letters leaves the position where it is. */
  function Shift(q: Position, d: string): Position
  {
    if d == "U" then Position(q.row - 1, q.col)
    else if d == "D" then Position(q.row + 1, q.col)
    else if d == "L" then Position(q.row, q.col - 1)
    else if d == "R" then Position(q.row, q.col + 1)
    else q
  }

  predicate TargetsInBounds(g: Grid, targets: seq<Position>)
  {
    forall t :: t in targets ==> InBounds(g, t)
  }

  /** `check_solved`: every recorded target cell holds a box character. */
  predicate Solved(g: Grid, targets: seq<Position>)
    requires TargetsInBounds(g, targets)
  {
    forall t :: t in targets ==> IsBox(g, t)
  }

  predicate Distinct(xs: seq<Position>)
  {
    forall i, j :: 0 <= i < j < |xs| ==> xs[i] != xs[j]
  }

  /** Python's `list.remove`: drops the first occurrence of `x`. */
  function RemoveFirst(xs: seq<Position>, x: Position): (r: seq<Position>)
    requires x in xs
    ensures multiset(r) == multiset(xs) - multiset{x}
  {
    assert xs == [xs[0]] + xs[1..];
    if xs[0] == x then xs[1..] else [xs[0]] + RemoveFirst(xs[1..], x)
  }

  /** What `move` needs so that every cell it reads is on the grid and
      `boxes.remove` finds the box it removes. */
  predicate MovePre(c: Config, d: string)
  {
    c.player.Some? && InBounds(c.grid, c.player.value) && TargetsInBounds(c.grid, c.targets) &&
    var dest := Shift(c.player.value, d);
    InBounds(c.grid, dest) &&
    (!IsWall(c.grid, dest) && IsBox(c.grid, dest) ==>
      var beyond := Shift(dest, d);
      InBounds(c.grid, beyond) &&
      (!IsWall(c.grid, beyond) && !IsBox(c.grid, beyond) ==> dest in c.boxes))
  }

  /** The move is refused: the destination is a wall, or it holds a box whose
      next cell in the same direction is a wall or a box. */
  predicate Blocked(c: Config, d: string)
    requires MovePre(c, d)
  {
    var dest := Shift(c.player.value, d);
    IsWall(c.grid, dest) ||
    (IsBox(c.grid, dest) && (IsWall(c.grid, Shift(dest, d)) || IsBox(c.grid, Shift(dest, d))))
  }

  /** The move goes ahead and pushes a box. */
  predicate IsPush(c: Config, d: string)
    requires MovePre(c, d)
  {
    !Blocked(c, d) && IsBox(c.grid, Shift(c.player.value, d))
  }

  /** The player's half of a move: swap the player's cell with the
      destination, record the new position, add one to the cost and
      recompute the solved flag. */
  function Walk(c: Config, p: Position, dest: Position): Config
    requires InBounds(c.grid, p) && InBounds(c.grid, dest) && TargetsInBounds(c.grid, c.targets)
  {
    var g := Swap(c.grid, p, dest);
    c.(grid := g, player := Some(dest), cost := c.cost + 1, solved := Solved(g, c.targets))
  }

  /** `GameState.move(d)` on values. */
  function Step(c: Config, d: string): Config
    requires MovePre(c, d)
  {
    var p := c.player.value;
    var dest := Shift(p, d);
    if IsWall(c.grid, dest) then c
    else if IsBox(c.grid, dest) then
      var beyond := Shift(dest, d);
      if IsWall(c.grid, beyond) || IsBox(c.grid, beyond) then c
      else
        var pushed := c.(grid := Swap(c.grid, dest, beyond),
                         boxes := RemoveFirst(c.boxes, dest) + [beyond]);
        Walk(pushed, p, dest)
    else Walk(c, p, dest)
  }

  /** The state every search keeps: a rectangular map walled in on all four
      sides, a player on a cell that is neither wall nor box, a box list that
      names each box character of the map exactly once, targets on the map,
      and a solved flag that agrees with the map. */
  ghost predicate WellFormed(c: Config)
  {
    Rectangular(c.grid) && Enclosed(c.grid) &&
    c.player.Some? && InBounds(c.grid, c.player.value) &&
    !IsWall(c.grid, c.player.value) && !IsBox(c.grid, c.player.value) &&
    (forall b :: b in c.boxes ==> InBounds(c.grid, b)) &&
    (forall q :: InBounds(c.grid, q) ==> (IsBox(c.grid, q) <==> q in c.boxes)) &&
    Distinct(c.boxes) &&
    TargetsInBounds(c.grid, c.targets) &&
    c.solved == Solved(c.grid, c.targets)
  }

  /** The successive moves `ds`, applied in order to `c`. A move the rules
      do not define leaves the state as it is; from a well-formed state that
      never happens (`StepsWellFormed`). */
  ghost function Steps(c: Config, ds: seq<string>): Config
    decreases |ds|
  {
    if ds == [] then c
    else
      var before := Steps(c, ds[..|ds| - 1]);
      if MovePre(before, ds[|ds| - 1]) then Step(before, ds[|ds| - 1]) else before
  }

  /** Every move of `ds` is defined on the state the earlier ones reached,
      and the state stays well formed with the same targets and as many
      boxes. */
  lemma {:induction false} StepsWellFormed(c: Config, ds: seq<string>)
    requires WellFormed(c)
    ensures WellFormed(Steps(c, ds))
    ensures Steps(c, ds).targets == c.targets && |Steps(c, ds).boxes| == |c.boxes|
    decreases |ds|
  {
    if ds != [] {
      StepsWellFormed(c, ds[..|ds| - 1]);
      StepPreservesWellFormed(Steps(c, ds[..|ds| - 1]), ds[|ds| - 1]);
    }
  }

  /** Making one more move after `ds` is `Step` on the state `ds` reached. */
  lemma StepsSnoc(c: Config, ds: seq<string>, d: string)
    requires WellFormed(c)
    ensures MovePre(Steps(c, ds), d) && Steps(c, ds + [d]) == Step(Steps(c, ds), d)
  {
    StepsWellFormed(c, ds);
    StepPreservesWellFormed(Steps(c, ds), d);
    assert (ds + [d])[..|ds|] == ds;
  }

  /** The same, for the first `k + 1` moves of `ds`. */
  lemma StepsPrefix(c: Config, ds: seq<string>, k: nat)
    requires WellFormed(c) && k < |ds|
    ensures MovePre(Steps(c, ds[..k]), ds[k]) && Steps(c, ds[..k + 1]) == Step(Steps(c, ds[..k]), ds[k])
  {
    assert ds[..k + 1] == ds[..k] + [ds[k]];
    StepsSnoc(c, ds[..k], ds[k]);
  }

  // ---------------------------------------------------------------------
  // One move

  /** In an enclosed map a cell that is not a wall is off the border, so its
      neighbour in any direction is on the map. */
  lemma InteriorNeighbour(g: Grid, q: Position, d: string)
    requires Rectangular(g) && Enclosed(g) && InBounds(g, q) && !IsWall(g, q)
    ensures InBounds(g, Shift(q, d))
  {
    assert !OnBorder(g, q);
  }

  lemma {:induction false} RemoveFirstDistinct(xs: seq<Position>, x: Position)
    requires x in xs && Distinct(xs)
    ensures Distinct(RemoveFirst(xs, x))
    ensures forall y :: y in RemoveFirst(xs, x) <==> y in xs && y != x
  {
    if xs[0] == x {
      assert x !in xs[1..];
    } else {
      RemoveFirstDistinct(xs[1..], x);
      assert xs[0] !in xs[1..];
    }
  }

  /** A well-formed state admits a move in every direction, and the move
      keeps it well formed, with the same targets and as many boxes. */
  lemma StepPreservesWellFormed(c: Config, d: string)
    requires WellFormed(c)
    ensures MovePre(c, d)
    ensures WellFormed(Step(c, d)) && Step(c, d).targets == c.targets
    ensures |Step(c, d).boxes| == |c.boxes|
  {
    var g, p := c.grid, c.player.value;
    var dest := Shift(p, d);
    InteriorNeighbour(g, p, d);
    if IsWall(g, dest) {
      return;
    }
    if IsBox(g, dest) {
      var beyond := Shift(dest, d);
      InteriorNeighbour(g, dest, d);
      if IsWall(g, beyond) || IsBox(g, beyond) {
        return;
      }
      PushPreservesWellFormed(c, d);
    } else {
      WalkPreservesWellFormed(c, d);
    }
  }

  lemma WalkPreservesWellFormed(c: Config, d: string)
    requires WellFormed(c) && MovePre(c, d) && !Blocked(c, d) && !IsPush(c, d)
    ensures WellFormed(Step(c, d)) && Step(c, d).targets == c.targets && Step(c, d).boxes == c.boxes
  {
    var g, p := c.grid, c.player.value;
    var dest := Shift(p, d);
    var r := Step(c, d);
    assert r == Walk(c, p, dest);
    var g2 := r.grid;
    assert g2 == Swap(g, p, dest);
    forall q | InBounds(g2, q) && OnBorder(g2, q) ensures Cell(g2, q) == '#' {
      assert OnBorder(g, q);
      assert q != p && q != dest;
    }
    forall q | InBounds(g2, q) ensures IsBox(g2, q) <==> q in r.boxes {
      assert InBounds(g, q);
      if q == p || q == dest {
        assert !IsBox(g, p) && !IsBox(g, dest);
      }
    }
  }

  /** The map after a push: the player's cell gets what was beyond the box,
      the box's cell gets the player, the cell beyond gets the box, and
      every other cell, the border included, stays as it was. */
  lemma PushGrid(c: Config, d: string)
    requires WellFormed(c) && MovePre(c, d) && IsPush(c, d)
    ensures var p := c.player.value; var dest := Shift(p, d); var beyond := Shift(dest, d);
      var g, g2 := c.grid, Step(c, d).grid;
      p != dest && p != beyond && dest != beyond &&
      SameShape(g2, g) && Rectangular(g2) && Enclosed(g2) &&
      Cell(g2, p) == Cell(g, beyond) && Cell(g2, dest) == Cell(g, p) && Cell(g2, beyond) == Cell(g, dest) &&
      forall q :: InBounds(g, q) && q != p && q != dest && q != beyond ==> Cell(g2, q) == Cell(g, q)
  {
    var g, p := c.grid, c.player.value;
    var dest := Shift(p, d);
    var beyond := Shift(dest, d);
    assert dest != p;
    assert beyond != p && beyond != dest;
    var g1 := Swap(g, dest, beyond);
    var g2 := Swap(g1, p, dest);
    assert Step(c, d).grid == g2;
    forall q | InBounds(g2, q) && OnBorder(g2, q) ensures Cell(g2, q) == '#' {
      assert OnBorder(g, q);
      assert q != p && q != dest && q != beyond;
    }
  }

  /** The box list after a push: the pushed box's entry is removed and the
      cell beyond it appended, without duplicates and with the same length. */
  lemma PushBoxes(c: Config, d: string)
    requires WellFormed(c) && MovePre(c, d) && IsPush(c, d)
    ensures var dest := Shift(c.player.value, d); var b1 := Step(c, d).boxes;
      Distinct(b1) && |b1| == |c.boxes| &&
      forall q :: q in b1 <==> (q in c.boxes && q != dest) || q == Shift(dest, d)
  {
    var dest := Shift(c.player.value, d);
    var beyond := Shift(dest, d);
    assert dest in c.boxes && beyond !in c.boxes;
    RemoveFirstDistinct(c.boxes, dest);
    var rest := RemoveFirst(c.boxes, dest);
    var b1 := rest + [beyond];
    assert Step(c, d).boxes == b1;
    forall i, j | 0 <= i < j < |b1| ensures b1[i] != b1[j] {
      if j == |b1| - 1 {
        assert b1[i] in rest;
      }
    }
    assert |rest| == |c.boxes| - 1 by {
      assert |multiset(rest)| == |multiset(c.boxes)| - 1;
    }
  }

  lemma PushPreservesWellFormed(c: Config, d: string)
    requires WellFormed(c) && MovePre(c, d) && IsPush(c, d)
    ensures WellFormed(Step(c, d)) && Step(c, d).targets == c.targets
    ensures |Step(c, d).boxes| == |c.boxes|
  {
    PushGrid(c, d);
    PushBoxes(c, d);
    var g := c.grid;
    var r := Step(c, d);
    forall q | InBounds(r.grid, q) ensures IsBox(r.grid, q) <==> q in r.boxes {
      assert InBounds(g, q);
    }
  }

  /** A refused move changes nothing at all: map, player, boxes, cost and
      solved flag are those of the state it was asked of. */
  lemma StepRefused(c: Config, d: string)
    requires MovePre(c, d) && Blocked(c, d)
    ensures Step(c, d) == c
  {
  }

  /** Every move that is not refused puts the player on the destination, adds
      exactly one to the cost and keeps the recorded targets. */
  lemma StepAdvances(c: Config, d: string)
    requires MovePre(c, d) && !Blocked(c, d)
    ensures Step(c, d).player == Some(Shift(c.player.value, d))
    ensures Step(c, d).cost == c.cost + 1
    ensures Step(c, d).targets == c.targets
  {
  }

  /** A push removes the pushed box's position from the box list and appends
      the cell one further on in the same direction; a walk keeps the list. */
  lemma StepMovesBoxes(c: Config, d: string)
    requires MovePre(c, d)
    ensures |Step(c, d).boxes| == |c.boxes|
    ensures IsPush(c, d) ==>
      var dest := Shift(c.player.value, d);
      multiset(Step(c, d).boxes) == multiset(c.boxes) - multiset{dest} + multiset{Shift(dest, d)} &&
      Step(c, d).boxes[|c.boxes| - 1] == Shift(dest, d)
    ensures !IsPush(c, d) ==> Step(c, d).boxes == c.boxes
  {
    if IsPush(c, d) {
      var dest := Shift(c.player.value, d);
      var rest := RemoveFirst(c.boxes, dest);
      assert |multiset(rest)| == |multiset(c.boxes)| - 1;
    }
  }

  /** A move only swaps cells, so the map holds the same characters with the
      same multiplicities afterwards. */
  lemma StepPreservesCells(c: Config, d: string)
    requires MovePre(c, d)
    ensures Cells(Step(c, d).grid) == Cells(c.grid)
  {
    var g, p := c.grid, c.player.value;
    var dest := Shift(p, d);
    if IsPush(c, d) {
      var g1 := Swap(g, dest, Shift(dest, d));
      SwapCells(g, dest, Shift(dest, d));
      SwapCells(g1, p, dest);
    } else if !Blocked(c, d) {
      SwapCells(g, p, dest);
    }
  }

  /** The move with the empty direction, which `ucs` makes before every
      successor, leaves a well-formed state in place and only adds one to its
      cost. */
  lemma NeutralStep(c: Config)
    requires WellFormed(c)
    ensures MovePre(c, "") && Step(c, "") == c.(cost := c.cost + 1)
  {
    StepPreservesWellFormed(c, "");
    var g, p := c.grid, c.player.value;
    assert Shift(p, "") == p;
    var row := g[p.row];
    assert row[p.col := row[p.col]] == row;
    assert Put(g, p, Cell(g, p)) == g;
    assert Swap(g, p, p) == g;
  }

  // ---------------------------------------------------------------------
  // Heuristic

  function Abs(x: int): nat
  {
    if x < 0 then -x else x
  }

  function Manhattan(a: Position, b: Position): nat
  {
    Abs(a.row - b.row) + Abs(a.col - b.col)
  }

  /** `min` over the Manhattan distances from `b` to the targets. */
  function MinDistance(b: Position, targets: seq<Position>): (r: nat)
    requires |targets| > 0
    ensures exists t :: t in targets && r == Manhattan(b, t)
    ensures forall t :: t in targets ==> r <= Manhattan(b, t)
  {
    if |targets| == 1 then Manhattan(b, targets[0])
    else
      var rest := MinDistance(b, targets[1..]);
      assert forall t :: t in targets[1..] ==> t in targets;
      if Manhattan(b, targets[0]) <= rest then Manhattan(b, targets[0]) else rest
  }

  /** `min` fails on an empty list, so boxes need at least one target. */
  predicate HeuristicDefined(boxes: seq<Position>, targets: seq<Position>)
  {
    |boxes| > 0 ==> |targets| > 0
  }

  /** The sum over the boxes, in list order, of the distance to the nearest
      target. */
  function Heuristic(boxes: seq<Position>, targets: seq<Position>): int
    requires HeuristicDefined(boxes, targets)
    decreases |boxes|
  {
    if boxes == [] then 0
    else Heuristic(boxes[..|boxes| - 1], targets) + MinDistance(boxes[|boxes| - 1], targets)
  }

  /** The heuristic is never negative, and it is zero exactly when every box
      stands on a target position. */
  lemma {:induction false} HeuristicZeroIffBoxesOnTargets(boxes: seq<Position>, targets: seq<Position>)
    requires HeuristicDefined(boxes, targets)
    ensures Heuristic(boxes, targets) >= 0
    ensures Heuristic(boxes, targets) == 0 <==> forall b :: b in boxes ==> b in targets
    decreases |boxes|
  {
    if boxes != [] {
      var init, last := boxes[..|boxes| - 1], boxes[|boxes| - 1];
      HeuristicZeroIffBoxesOnTargets(init, targets);
      assert boxes == init + [last];
      var m := MinDistance(last, targets);
      assert m == 0 <==> last in targets by {
        if m == 0 {
          var t :| t in targets && m == Manhattan(last, t);
          assert t == last;
        }
        if last in targets {
          assert m <= Manhattan(last, last);
        }
      }
    }
  }

  /** The heuristic is at most the sum of the distances to any one chosen
      target per box, and each box's term is attained by some target. */
  lemma {:induction false} HeuristicBelowAnyAssignment(boxes: seq<Position>, targets: seq<Position>, choice: seq<Position>)
    requires HeuristicDefined(boxes, targets)
    requires |choice| == |boxes| && forall k :: 0 <= k < |choice| ==> choice[k] in targets
    ensures Heuristic(boxes, targets) <= SumDistances(boxes, choice)
    decreases |boxes|
  {
    if boxes != [] {
      var n := |boxes| - 1;
      HeuristicBelowAnyAssignment(boxes[..n], targets, choice[..n]);
      assert MinDistance(boxes[n], targets) <= Manhattan(boxes[n], choice[n]);
    }
  }

  /** The total Manhattan distance when box `k` is sent to `choice[k]`. */
  function SumDistances(boxes: seq<Position>, choice: seq<Position>): int
    requires |choice| == |boxes|
    decreases |boxes|
  {
    if boxes == [] then 0
    else SumDistances(boxes[..|boxes| - 1], choice[..|boxes| - 1]) + Manhattan(boxes[|boxes| - 1], choice[|boxes| - 1])
  }

  // ---------------------------------------------------------------------
  // Solved test

  /** On a well-formed state the solved flag holds exactly when every target
      position is in the box list; with no targets it holds vacuously. */
  lemma SolvedIffTargetsCovered(c: Config)
    requires WellFormed(c)
    ensures c.solved <==> forall t :: t in c.targets ==> t in c.boxes
    ensures c.targets == [] ==> c.solved
  {
  }

  lemma {:induction false} DistinctCard(xs: seq<Position>)
    requires Distinct(xs)
    ensures |set x | x in xs| == |xs|
  {
    if xs != [] {
      DistinctCard(xs[1..]);
      assert (set x | x in xs) == {xs[0]} + (set x | x in xs[1..]);
      assert xs[0] !in (set x | x in xs[1..]);
    }
  }

  /** When the map has as many boxes as distinct targets, the solved flag
      holds exactly when the boxes occupy precisely the target positions. */
  lemma SolvedIffBoxesAreTargets(c: Config)
    requires WellFormed(c) && Distinct(c.targets) && |c.boxes| == |c.targets|
    ensures c.solved <==> (set b | b in c.boxes) == (set t | t in c.targets)
  {
    var bs, ts := set b | b in c.boxes, set t | t in c.targets;
    DistinctCard(c.boxes);
    DistinctCard(c.targets);
    if c.solved {
      assert ts <= bs;
      assert |bs - ts| == |bs| - |ts|;
      assert bs - ts == {};
      assert bs == ts;
    } else {
      var t :| t in c.targets && !IsBox(c.grid, t);
      assert t in ts && t !in bs;
    }
  }

  // ---------------------------------------------------------------------
  // Scans of the constructor

  /** `a` comes before `b` in row-major order. */
  predicate Before(a: Position, b: Position)
  {
    a.row < b.row || (a.row == b.row && a.col < b.col)
  }

  /** `found` lists every cell whose character is one of `marks`, each once,
      in row-major order. */
  ghost predicate RowMajorListing(g: Grid, marks: set<char>, found: seq<Position>)
  {
    (forall k :: 0 <= k < |found| ==> InBounds(g, found[k]) && Cell(g, found[k]) in marks) &&
    (forall q :: InBounds(g, q) && Cell(g, q) in marks ==> q in found) &&
    (forall k, l :: 0 <= k < l < |found| ==> Before(found[k], found[l]))
  }

  /** `player` is the first cell in row-major order that holds `@` or `+`, or
      None when there is no such cell. */
  ghost predicate FirstPlayer(g: Grid, player: Option<Position>)
  {
    match player
    case None => forall q :: InBounds(g, q) ==> Cell(g, q) !in PlayerMarks
    case Some(p) =>
      InBounds(g, p) && Cell(g, p) in PlayerMarks &&
      forall q :: InBounds(g, q) && Before(q, p) ==> Cell(g, q) !in PlayerMarks
  }

  /** A freshly constructed state of an enclosed map that has a player is
      well formed: its scans name each box character once and the player
      stands on a player character. */
  lemma InitialWellFormed(g: Grid, player: Option<Position>, boxes: seq<Position>,
                          targets: seq<Position>, cost: int)
    requires Rectangular(g) && Enclosed(g) && player.Some?
    requires FirstPlayer(g, player)
    requires RowMajorListing(g, BoxMarks, boxes) && RowMajorListing(g, TargetMarks, targets)
    ensures TargetsInBounds(g, targets)
    ensures WellFormed(Config(g, player, boxes, targets, cost, Solved(g, targets)))
  {
    forall b | b in boxes ensures InBounds(g, b) {
      var k :| 0 <= k < |boxes| && boxes[k] == b;
    }
    forall t | t in targets ensures InBounds(g, t) {
      var k :| 0 <= k < |targets| && targets[k] == t;
    }
    forall q | InBounds(g, q) && q in boxes ensures IsBox(g, q) {
      var k :| 0 <= k < |boxes| && boxes[k] == q;
    }
  }
}
