/** Geometry of the Minesweeper board and the specification of the
    surrounding-mine count. The grids themselves are ROWS x COLS arrays of
    booleans, indexed [row, column]. */
module Board {

  const ROWS: int := 12
  const COLS: int := 10
  const TOTAL_MINES: int := 20

  /** Java's Math.abs on the (small) differences of two coordinates. */
  function Abs(x: int): (r: nat)
    ensures r == x || r == -x
  {
    if x < 0 then -x else x
  }

  predicate InBounds(i: int, j: int) {
    0 <= i < ROWS && 0 <= j < COLS
  }

  /** (i, j) lies in the 3x3 square centred on (row, col): Chebyshev distance
      at most 1, the centre included. This is both the neighbourhood that the
      counter and the flood fill scan and the first-click safety zone. */
  predicate Near(i: int, j: int, row: int, col: int) {
    Abs(i - row) <= 1 && Abs(j - col) <= 1
  }

  /** All cells of the board. */
  function AllCells(): (r: set<(int, int)>)
    ensures forall p :: p in r <==> InBounds(p.0, p.1)
  {
    set i, j | 0 <= i < ROWS && 0 <= j < COLS :: (i, j)
  }

  /** The in-bounds cells of the 3x3 square centred on (row, col). */
  function Neighbourhood(row: int, col: int): set<(int, int)>
  {
    set p | p in AllCells() && Near(p.0, p.1, row, col)
  }

  /** A grid of the board's shape. */
  predicate IsGrid(g: array2<bool>) {
    g.Length0 == ROWS && g.Length1 == COLS
  }

  /** The cells of the grid that are set. */
  ghost function Marked(g: array2<bool>): set<(int, int)>
    requires IsGrid(g)
    reads g
  {
    set p | p in AllCells() && g[p.0, p.1]
  }

  /** The cells of the grid that are not set. */
  ghost function Unmarked(g: array2<bool>): set<(int, int)>
    requires IsGrid(g)
    reads g
  {
    set p | p in AllCells() && !g[p.0, p.1]
  }

  /** 1 when (i, j) is an in-bounds mine, 0 otherwise (off-board cells read as
      empty, never as an index). */
  function MineAt(g: array2<bool>, i: int, j: int): (r: nat)
    requires IsGrid(g)
    reads g
    ensures r <= 1
    ensures r == 1 <==> InBounds(i, j) && g[i, j]
  {
    if InBounds(i, j) && g[i, j] then 1 else 0
  }

  /** Sum of MineAt over the cells (i, lo) .. (i, hi - 1). */
  function RowMines(g: array2<bool>, i: int, lo: int, hi: int): nat
    requires IsGrid(g)
    reads g
    decreases hi - lo
  {
    if hi <= lo then 0 else RowMines(g, i, lo, hi - 1) + MineAt(g, i, hi - 1)
  }

  /** Sum of RowMines over the rows rlo .. rhi - 1, columns clo .. chi - 1. */
  function BlockMines(g: array2<bool>, rlo: int, rhi: int, clo: int, chi: int): nat
    requires IsGrid(g)
    reads g
    decreases rhi - rlo
  {
    if rhi <= rlo then 0 else BlockMines(g, rlo, rhi - 1, clo, chi) + RowMines(g, rhi - 1, clo, chi)
  }

  /** The number of mines in the 3x3 window around (row, col), clipped at the
      edges of the board, in the order the nested loops of the counter visit
      the window. */
  function SurroundingMines(g: array2<bool>, row: int, col: int): nat
    requires IsGrid(g)
    reads g
  {
    BlockMines(g, row - 1, row + 2, col - 1, col + 2)
  }

  /** The same quantity as a set: the in-bounds mine cells near (row, col). */
  ghost function MinesNear(g: array2<bool>, row: int, col: int): set<(int, int)>
    requires IsGrid(g)
    reads g
  {
    set p | p in AllCells() && Near(p.0, p.1, row, col) && g[p.0, p.1]
  }

  // ---------------------------------------------------------------------
  // Lemmas about the count

  lemma {:induction false} RowMinesBound(g: array2<bool>, i: int, lo: int, hi: int)
    requires IsGrid(g) && lo <= hi
    ensures RowMines(g, i, lo, hi) <= hi - lo
    ensures RowMines(g, i, lo, hi) == 0 <==> forall j | lo <= j < hi :: MineAt(g, i, j) == 0
    decreases hi - lo
  {
    if lo < hi {
      RowMinesBound(g, i, lo, hi - 1);
    }
  }

  lemma {:induction false} BlockMinesBound(g: array2<bool>, rlo: int, rhi: int, clo: int, chi: int)
    requires IsGrid(g) && rlo <= rhi && clo <= chi
    ensures BlockMines(g, rlo, rhi, clo, chi) <= (rhi - rlo) * (chi - clo)
    ensures BlockMines(g, rlo, rhi, clo, chi) == 0 <==>
            forall i, j | rlo <= i < rhi && clo <= j < chi :: MineAt(g, i, j) == 0
    decreases rhi - rlo
  {
    if rlo < rhi {
      BlockMinesBound(g, rlo, rhi - 1, clo, chi);
      RowMinesBound(g, rhi - 1, clo, chi);
      assert (rhi - rlo) * (chi - clo) == (rhi - 1 - rlo) * (chi - clo) + (chi - clo);
    }
  }

  /** The count lies in [0, 9], and in [0, 8] when the centre is a safe
      in-bounds cell. */
  lemma SurroundingMinesBound(g: array2<bool>, row: int, col: int)
    requires IsGrid(g)
    ensures SurroundingMines(g, row, col) <= 9
    ensures InBounds(row, col) && !g[row, col] ==> SurroundingMines(g, row, col) <= 8
  {
    BlockMinesBound(g, row - 1, row + 2, col - 1, col + 2);
    if InBounds(row, col) && !g[row, col] {
      RowMinesBound(g, row, col - 1, col);
      RowMinesBound(g, row + 1, col - 1, col + 2);
      RowMinesBound(g, row - 1, col - 1, col + 2);
      BlockMinesBound(g, row - 1, row, col - 1, col + 2);
      assert RowMines(g, row, col - 1, col + 2) <= 2;
    }
  }

  /** A zero count means that no in-bounds cell of the 3x3 window is a mine,
      and conversely. This is what makes the flood fill safe. */
  lemma SurroundingMinesZero(g: array2<bool>, row: int, col: int)
    requires IsGrid(g)
    ensures SurroundingMines(g, row, col) == 0 <==>
            forall i, j | InBounds(i, j) && Near(i, j, row, col) :: !g[i, j]
  {
    BlockMinesBound(g, row - 1, row + 2, col - 1, col + 2);
    if SurroundingMines(g, row, col) == 0 {
      forall i, j | InBounds(i, j) && Near(i, j, row, col) ensures !g[i, j] {
        assert MineAt(g, i, j) == 0;
      }
    } else {
      var i, j :| row - 1 <= i < row + 2 && col - 1 <= j < col + 2 && MineAt(g, i, j) != 0;
      assert InBounds(i, j) && Near(i, j, row, col) && g[i, j];
    }
  }

  /** The in-bounds mine cells (i, lo) .. (i, hi - 1). */
  ghost function RowSet(g: array2<bool>, i: int, lo: int, hi: int): set<(int, int)>
    requires IsGrid(g)
    reads g
  {
    set j | lo <= j < hi && InBounds(i, j) && g[i, j] :: (i, j)
  }

  /** The in-bounds mine cells in rows rlo .. rhi - 1, columns clo .. chi - 1. */
  ghost function BlockSet(g: array2<bool>, rlo: int, rhi: int, clo: int, chi: int): set<(int, int)>
    requires IsGrid(g)
    reads g
  {
    set i, j | rlo <= i < rhi && clo <= j < chi && InBounds(i, j) && g[i, j] :: (i, j)
  }

  /** The same fact about the mine set: a zero count means the
      neighbourhood holds no mine. */
  lemma NoMinesNear(g: array2<bool>, row: int, col: int)
    requires IsGrid(g) && SurroundingMines(g, row, col) == 0
    ensures Neighbourhood(row, col) * Marked(g) == {}
  {
    SurroundingMinesZero(g, row, col);
  }

  lemma {:induction false} RowMinesCard(g: array2<bool>, i: int, lo: int, hi: int)
    requires IsGrid(g)
    ensures RowMines(g, i, lo, hi) == |RowSet(g, i, lo, hi)|
    decreases hi - lo
  {
    var s := RowSet(g, i, lo, hi);
    if hi <= lo {
      assert s == {};
    } else {
      var t := RowSet(g, i, lo, hi - 1);
      RowMinesCard(g, i, lo, hi - 1);
      if InBounds(i, hi - 1) && g[i, hi - 1] {
        assert s == t + {(i, hi - 1)};
      } else {
        assert s == t;
      }
    }
  }

  lemma {:induction false} BlockMinesCard(g: array2<bool>, rlo: int, rhi: int, clo: int, chi: int)
    requires IsGrid(g)
    ensures BlockMines(g, rlo, rhi, clo, chi) == |BlockSet(g, rlo, rhi, clo, chi)|
    decreases rhi - rlo
  {
    var s := BlockSet(g, rlo, rhi, clo, chi);
    if rhi <= rlo {
      assert s == {};
    } else {
      var t := BlockSet(g, rlo, rhi - 1, clo, chi);
      var u := RowSet(g, rhi - 1, clo, chi);
      BlockMinesCard(g, rlo, rhi - 1, clo, chi);
      RowMinesCard(g, rhi - 1, clo, chi);
      forall p | p in s ensures p in t + u {
        if p.0 < rhi - 1 { assert p in t; } else { assert p in u; }
      }
      assert s == t + u;
      assert t * u == {};
    }
  }

  /** The count is the number of in-bounds mine cells at Chebyshev distance at
      most 1 from (row, col), the centre included. */
  lemma SurroundingMinesIsCardinality(g: array2<bool>, row: int, col: int)
    requires IsGrid(g)
    ensures SurroundingMines(g, row, col) == |MinesNear(g, row, col)|
  {
    BlockMinesCard(g, row - 1, row + 2, col - 1, col + 2);
    assert MinesNear(g, row, col) == BlockSet(g, row - 1, row + 2, col - 1, col + 2);
  }

  // ---------------------------------------------------------------------
  // Cell indices: the widget list holds the cells row by row

  /** The cell of widget index n. */
  function CellOf(n: int): (int, int)
  {
    (n / COLS, n % COLS)
  }

  /** The widget index of cell (i, j). */
  function IndexOf(i: int, j: int): int
  {
    i * COLS + j
  }

  /** A widget index decodes to a cell on the board that encodes back to it,
      and every cell on the board has an index that decodes back to it. */
  lemma CellIndexRoundTrip(n: int, i: int, j: int)
    ensures 0 <= n < ROWS * COLS ==>
            InBounds(CellOf(n).0, CellOf(n).1) && IndexOf(CellOf(n).0, CellOf(n).1) == n
    ensures InBounds(i, j) ==>
            0 <= IndexOf(i, j) < ROWS * COLS && CellOf(IndexOf(i, j)) == (i, j)
  {
  }
}
