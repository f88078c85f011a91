/** The 4×4 board: cells that are empty (`None`) or hold a letter, and the tile counts over them. */
module Board {
  import opened Options
  import opened Letters

  type Cell = Option<Letter>

  /** Rows of cells, indexed `g[row][col]` as in the source. */
  type Grid = seq<seq<Cell>>

  const Size: int := 4

  predicate WellFormed(g: Grid) {
    |g| == Size && forall row :: 0 <= row < |g| ==> |g[row]| == Size
  }

  predicate InBounds(row: int, col: int) {
    0 <= row < Size && 0 <= col < Size
  }

  /** The board of a fresh game: every cell empty. */
  function EmptyGrid(): (g: Grid)
    ensures WellFormed(g)
    ensures forall row, col :: InBounds(row, col) ==> g[row][col] == None
  {
    seq(Size, _ => seq(Size, _ => None))
  }

  /** The board with letter `l` written into cell (row, col) and every other cell untouched. */
  function SetCell(g: Grid, row: int, col: int, l: Letter): (g': Grid)
    requires WellFormed(g) && InBounds(row, col)
    ensures WellFormed(g')
    ensures g'[row][col] == Some(l)
    ensures forall r, c :: InBounds(r, c) && (r != row || c != col) ==> g'[r][c] == g[r][c]
  {
    g[row := g[row][col := Some(l)]]
  }

  predicate IsFull(g: Grid)
    requires WellFormed(g)
  {
    forall row, col :: 0 <= row < Size && 0 <= col < Size ==> g[row][col].Some?
  }

  /** How many cells of one row hold `v`. */
  function RowCount(cells: seq<Cell>, v: Cell): nat {
    if cells == [] then 0 else (if cells[0] == v then 1 else 0) + RowCount(cells[1..], v)
  }

  /** How many cells of the board hold `v`. */
  function GridCount(g: Grid, v: Cell): nat {
    if g == [] then 0 else RowCount(g[0], v) + GridCount(g[1..], v)
  }

  /** The number of occupied cells. */
  function Filled(g: Grid): nat {
    GridCount(g, Some(F)) + GridCount(g, Some(O)) + GridCount(g, Some(X))
  }

  /** Overwriting one cell of a row changes its count of `v` by what left and what arrived. */
  lemma {:induction false} RowCountUpdate(cells: seq<Cell>, i: int, w: Cell, v: Cell)
    requires 0 <= i < |cells|
    ensures RowCount(cells[i := w], v)
            == RowCount(cells, v) - (if cells[i] == v then 1 else 0) + (if w == v then 1 else 0)
  {
    if i == 0 {
      assert cells[i := w][1..] == cells[1..];
    } else {
      RowCountUpdate(cells[1..], i - 1, w, v);
      assert cells[i := w][1..] == cells[1..][i - 1 := w];
    }
  }

  /** Replacing one row changes the board's count of `v` by the difference of the two rows' counts. */
  lemma {:induction false} GridCountUpdate(g: Grid, row: int, cells: seq<Cell>, v: Cell)
    requires 0 <= row < |g|
    ensures GridCount(g[row := cells], v) == GridCount(g, v) - RowCount(g[row], v) + RowCount(cells, v)
  {
    if row == 0 {
      assert g[row := cells][1..] == g[1..];
    } else {
      GridCountUpdate(g[1..], row - 1, cells, v);
      assert g[row := cells][1..] == g[1..][row - 1 := cells];
    }
  }

  /** Writing a letter into an empty cell adds one to that letter's count and takes one from the
      empty cells; every other letter's count is unchanged. */
  lemma SetCellCount(g: Grid, row: int, col: int, l: Letter, v: Cell)
    requires WellFormed(g) && InBounds(row, col) && g[row][col] == None
    ensures GridCount(SetCell(g, row, col, l), v)
            == GridCount(g, v) + (if v == Some(l) then 1 else 0) - (if v == None then 1 else 0)
  {
    RowCountUpdate(g[row], col, Some(l), v);
    GridCountUpdate(g, row, g[row][col := Some(l)], v);
  }

  /** Placing on an empty cell raises the number of occupied cells by exactly one. */
  lemma SetCellFilled(g: Grid, row: int, col: int, l: Letter)
    requires WellFormed(g) && InBounds(row, col) && g[row][col] == None
    ensures Filled(SetCell(g, row, col, l)) == Filled(g) + 1
  {
    SetCellCount(g, row, col, l, Some(F));
    SetCellCount(g, row, col, l, Some(O));
    SetCellCount(g, row, col, l, Some(X));
  }

  /** Every cell of a row is empty or holds F, O or X. */
  lemma {:induction false} RowPartition(cells: seq<Cell>)
    ensures RowCount(cells, None) + RowCount(cells, Some(F)) + RowCount(cells, Some(O))
            + RowCount(cells, Some(X)) == |cells|
  {
    if cells != [] {
      RowPartition(cells[1..]);
      match cells[0]
      case None =>
      case Some(l) => assert l == F || l == O || l == X;
    }
  }

  /** Every cell of the board is empty or occupied. */
  lemma {:induction false} GridPartition(g: Grid)
    requires forall row :: 0 <= row < |g| ==> |g[row]| == Size
    ensures GridCount(g, None) + Filled(g) == Size * |g|
  {
    if g != [] {
      RowPartition(g[0]);
      GridPartition(g[1..]);
    }
  }

  /** A row counts no `v` exactly when no cell of it holds `v`. */
  lemma {:induction false} RowCountZero(cells: seq<Cell>, v: Cell)
    ensures RowCount(cells, v) == 0 <==> forall i :: 0 <= i < |cells| ==> cells[i] != v
  {
    if cells != [] {
      RowCountZero(cells[1..], v);
      if RowCount(cells, v) == 0 {
        forall i | 0 <= i < |cells|
          ensures cells[i] != v
        {
          if i > 0 {
            assert cells[i] == cells[1..][i - 1];
          }
        }
      } else if cells[0] != v {
        var i :| 0 <= i < |cells[1..]| && cells[1..][i] == v;
        assert cells[i + 1] == v;
      }
    }
  }

  /** The board counts no `v` exactly when no cell of it holds `v`. */
  lemma {:induction false} GridCountZero(g: Grid, v: Cell)
    ensures GridCount(g, v) == 0 <==> forall row, col :: 0 <= row < |g| && 0 <= col < |g[row]| ==> g[row][col] != v
  {
    if g != [] {
      RowCountZero(g[0], v);
      GridCountZero(g[1..], v);
      if GridCount(g, v) == 0 {
        forall row, col | 0 <= row < |g| && 0 <= col < |g[row]|
          ensures g[row][col] != v
        {
          if row > 0 {
            assert g[row] == g[1..][row - 1];
          }
        }
      } else if RowCount(g[0], v) == 0 {
        var row, col :| 0 <= row < |g[1..]| && 0 <= col < |g[1..][row]| && g[1..][row][col] == v;
        assert g[row + 1][col] == v;
      } else {
        var col :| 0 <= col < |g[0]| && g[0][col] == v;
        assert g[0][col] == v;
      }
    }
  }

  /** The board is full exactly when sixteen cells are occupied. */
  lemma FullIffSixteenFilled(g: Grid)
    requires WellFormed(g)
    ensures IsFull(g) <==> Filled(g) == TileTotal
  {
    GridPartition(g);
    GridCountZero(g, None);
  }

  /** A fresh board has no occupied cell. */
  lemma EmptyGridFilled()
    ensures Filled(EmptyGrid()) == 0
  {
    var g := EmptyGrid();
    GridCountZero(g, Some(F));
    GridCountZero(g, Some(O));
    GridCountZero(g, Some(X));
  }
}
