/** The Sokoban game state: a character map that `Move` updates in place,
    with the player position, the box list, the target list and the cost so
    far kept beside it. */
module GameStates {
  import opened Grids
  import opened GameRules

  /** `find_player`: scan the rows top to bottom and each row left to right
      for the first `@` or `+`. */
  method FindPlayer(grid: Grid) returns (player: Option<Position>)
    requires Rectangular(grid)
    ensures FirstPlayer(grid, player)
  {
    var height, width := |grid|, |grid[0]|;
    for i := 0 to height
      invariant forall q :: InBounds(grid, q) && q.row < i ==> Cell(grid, q) !in PlayerMarks
    {
      for j := 0 to width
        invariant forall q :: InBounds(grid, q) && (q.row < i || (q.row == i && q.col < j)) ==>
          Cell(grid, q) !in PlayerMarks
      {
        if grid[i][j] in PlayerMarks {
          return Some(Position(i, j));
        }
      }
    }
    return None;
  }

  /** `find_boxes` and `find_targets`: collect, row by row and left to right,
      every cell whose character is one of `marks`. */
  method ScanCells(grid: Grid, marks: set<char>) returns (found: seq<Position>)
    requires Rectangular(grid)
    ensures RowMajorListing(grid, marks, found)
  {
    var height, width := |grid|, |grid[0]|;
    found := [];
    for i := 0 to height
      invariant forall k :: 0 <= k < |found| ==>
        InBounds(grid, found[k]) && Cell(grid, found[k]) in marks && found[k].row < i
      invariant forall q :: InBounds(grid, q) && q.row < i && Cell(grid, q) in marks ==> q in found
      invariant forall k, l :: 0 <= k < l < |found| ==> Before(found[k], found[l])
    {
      for j := 0 to width
        invariant forall k :: 0 <= k < |found| ==>
          InBounds(grid, found[k]) && Cell(grid, found[k]) in marks && Before(found[k], Position(i, j))
        invariant forall q :: InBounds(grid, q) && Before(q, Position(i, j)) && Cell(grid, q) in marks ==>
          q in found
        invariant forall k, l :: 0 <= k < l < |found| ==> Before(found[k], found[l])
      {
        if grid[i][j] in marks {
          found := found + [Position(i, j)];
        }
      }
    }
  }

  class GameState {
    var grid: Grid
    var currentCost: int
    const height: int
    const width: int
    var player: Option<Position>
    var boxes: seq<Position>
    const targets: seq<Position>
    var isSolved: bool

    /** The state as a value, for the rules in module GameRules. */
    function View(): Config
      reads this
    {
      Config(grid, player, boxes, targets, currentCost, isSolved)
    }

    /** Records the map and scans it once for the player, the boxes and the
        targets; `currentCost` is 0 unless the caller gives another. */
    constructor (grid: Grid, currentCost: int)
      requires Rectangular(grid)
      ensures this.grid == grid && this.currentCost == currentCost
      ensures height == |grid| && width == |grid[0]|
      ensures FirstPlayer(grid, player)
      ensures RowMajorListing(grid, BoxMarks, boxes) && RowMajorListing(grid, TargetMarks, targets)
      ensures TargetsInBounds(grid, targets) && isSolved == Solved(grid, targets)
    {
      this.grid := grid;
      this.currentCost := currentCost;
      height := |grid|;
      width := |grid[0]|;
      var found := FindPlayer(grid);
      player := found;
      var listed := ScanCells(grid, BoxMarks);
      boxes := listed;
      listed := ScanCells(grid, TargetMarks);
      targets := listed;
      forall t | t in listed ensures InBounds(grid, t) {
        var k :| 0 <= k < |listed| && listed[k] == t;
      }
      isSolved := Solved(grid, listed);
    }

    /** `get_current_cost`: the moves made so far, without the heuristic. */
    function GetCurrentCost(): (cost: int)
      reads this
      ensures cost == View().cost
    {
      currentCost
    }

    /** `get_heuristic`: add up, box by box, the distance to the nearest
        target. */
    method GetHeuristic() returns (heuristic: int)
      requires HeuristicDefined(boxes, targets)
      ensures heuristic == Heuristic(boxes, targets)
    {
      heuristic := 0;
      for k := 0 to |boxes|
        invariant heuristic == Heuristic(boxes[..k], targets)
      {
        assert boxes[..k + 1][..k] == boxes[..k];
        heuristic := heuristic + MinDistance(boxes[k], targets);
      }
      assert boxes[..|boxes|] == boxes;
    }

    /** `get_total_cost`: the cost so far plus the heuristic. */
    method GetTotalCost() returns (total: int)
      requires HeuristicDefined(boxes, targets)
      ensures total == currentCost + Heuristic(boxes, targets)
    {
      var heuristic := GetHeuristic();
      total := currentCost + heuristic;
    }

    /** `move`: walk or push in place, following `Step`, and hand back the
        receiver itself rather than a copy. */
    method Move(direction: string) returns (next: GameState)
      requires MovePre(View(), direction)
      modifies this
      ensures next == this
      ensures View() == Step(old(View()), direction)
    {
      var p := player.value;
      var dest := Shift(p, direction);
      if IsWall(grid, dest) {
        return this;
      }
      if IsBox(grid, dest) {
        var beyond := Shift(dest, direction);
        if IsWall(grid, beyond) || IsBox(grid, beyond) {
          return this;
        }
        grid := Swap(grid, dest, beyond);
        boxes := RemoveFirst(boxes, dest);
        boxes := boxes + [beyond];
      }
      grid := Swap(grid, p, dest);
      player := Some(dest);
      currentCost := currentCost + 1;
      isSolved := Solved(grid, targets);
      return this;
    }
  }
}
