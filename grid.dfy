/** The character grid of a Sokoban map: positions, cell access, in-place
    cell updates and the multiset of characters a grid holds. */
module Grids {

  /** A (row, column) pair; rows grow downwards, columns to the right. */
  datatype Position = Position(row: int, col: int)

  /** The map as a list of rows of characters. */
  type Grid = seq<seq<char>>

  predicate InBounds(g: Grid, q: Position)
  {
    0 <= q.row < |g| && 0 <= q.col < |g[q.row]|
  }

  function Cell(g: Grid, q: Position): char
    requires InBounds(g, q)
  {
    g[q.row][q.col]
  }

  /** At least one row, and every row as long as the first one. */
  predicate Rectangular(g: Grid)
  {
    |g| > 0 && forall i :: 0 <= i < |g| ==> |g[i]| == |g[0]|
  }

  predicate OnBorder(g: Grid, q: Position)
    requires InBounds(g, q)
  {
    q.row == 0 || q.row == |g| - 1 || q.col == 0 || q.col == |g[q.row]| - 1
  }

  /** Every cell on the outer rows and columns is a wall. */
  ghost predicate Enclosed(g: Grid)
  {
    forall q :: InBounds(g, q) && OnBorder(g, q) ==> Cell(g, q) == '#'
  }

  /** Same number of rows, and each row of the same length. */
  predicate SameShape(a: Grid, b: Grid)
  {
    |a| == |b| && forall i :: 0 <= i < |a| ==> |a[i]| == |b[i]|
  }

  /** The grid with the cell at `q` overwritten by `c`. */
  function Put(g: Grid, q: Position, c: char): (r: Grid)
    requires InBounds(g, q)
    ensures SameShape(r, g) && forall p :: InBounds(r, p) <==> InBounds(g, p)
    ensures forall p :: InBounds(g, p) ==> Cell(r, p) == if p == q then c else Cell(g, p)
  {
    g[q.row := g[q.row][q.col := c]]
  }

  /** The tuple assignment `m[a], m[b] = m[b], m[a]`: both right-hand cells are
      read first, then `a` and `b` are written in that order. */
  function Swap(g: Grid, a: Position, b: Position): (r: Grid)
    requires InBounds(g, a) && InBounds(g, b)
    ensures SameShape(r, g) && forall p :: InBounds(r, p) <==> InBounds(g, p)
    ensures forall p :: InBounds(g, p) ==>
      Cell(r, p) == if p == a then Cell(g, b) else if p == b then Cell(g, a) else Cell(g, p)
  {
    Put(Put(g, a, Cell(g, b)), b, Cell(g, a))
  }

  /** Every character of the grid, counted with multiplicity. */
  function Cells(g: Grid): multiset<char>
  {
    if g == [] then multiset{} else multiset(g[0]) + Cells(g[1..])
  }

  lemma {:induction false} CellsReplaceRow(g: Grid, i: nat, row: seq<char>)
    requires i < |g|
    ensures Cells(g[i := row]) + multiset(g[i]) == Cells(g) + multiset(row)
  {
    var h := g[i := row];
    assert Cells(h) == multiset(h[0]) + Cells(h[1..]);
    assert Cells(g) == multiset(g[0]) + Cells(g[1..]);
    if i == 0 {
      assert h[1..] == g[1..];
    } else {
      assert h[1..] == g[1..][i - 1 := row];
      assert h[0] == g[0] && g[1..][i - 1] == g[i];
      CellsReplaceRow(g[1..], i - 1, row);
      calc {
        Cells(h) + multiset(g[i]);
        multiset(g[0]) + (Cells(g[1..][i - 1 := row]) + multiset(g[1..][i - 1]));
        multiset(g[0]) + (Cells(g[1..]) + multiset(row));
        Cells(g) + multiset(row);
      }
    }
  }

  /** Overwriting one cell trades that cell's old character for the new one. */
  lemma PutCells(g: Grid, q: Position, c: char)
    requires InBounds(g, q)
    ensures Cells(Put(g, q, c)) + multiset{Cell(g, q)} == Cells(g) + multiset{c}
  {
    var row := g[q.row];
    var left, right := row[..q.col], row[q.col + 1..];
    assert row == left + [row[q.col]] + right;
    assert row[q.col := c] == left + [c] + right;
    assert multiset(row) == multiset(left) + multiset{Cell(g, q)} + multiset(right);
    assert multiset(row[q.col := c]) == multiset(left) + multiset{c} + multiset(right);
    CellsReplaceRow(g, q.row, row[q.col := c]);
    var before, after := Cells(g), Cells(Put(g, q, c));
    assert Put(g, q, c) == g[q.row := row[q.col := c]];
    assert after + multiset(row) == before + multiset(row[q.col := c]);
    forall x ensures (after + multiset{Cell(g, q)})[x] == (before + multiset{c})[x] {
      assert (after + multiset(row))[x] == (before + multiset(row[q.col := c]))[x];
    }
  }

  /** A swap of two cells keeps the multiset of characters of the grid. */
  lemma SwapCells(g: Grid, a: Position, b: Position)
    requires InBounds(g, a) && InBounds(g, b)
    ensures Cells(Swap(g, a, b)) == Cells(g)
  {
    var g1 := Put(g, a, Cell(g, b));
    PutCells(g, a, Cell(g, b));
    assert Cell(g1, b) == Cell(g, b);
    PutCells(g1, b, Cell(g, a));
    var g2 := Swap(g, a, b);
    assert g2 == Put(g1, b, Cell(g, a));
    forall x ensures Cells(g2)[x] == Cells(g)[x] {
      assert (Cells(g2) + multiset{Cell(g, b)})[x] == (Cells(g1) + multiset{Cell(g, a)})[x];
      assert (Cells(g1) + multiset{Cell(g, a)})[x] == (Cells(g) + multiset{Cell(g, b)})[x];
    }
  }
}
