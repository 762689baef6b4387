/** The Minesweeper board engine of the game's main screen: three boolean
    grids, the mode and game flags, and the click handling, mine placement,
    counting and flood-fill reveal that update them. */
module Minesweeper {
  import opened Board
  import opened Placement
  import opened Flood

  /** Toggling the flag of `p` by a click in flag mode: revealed cells keep
      their flag state, otherwise the flag is set or cleared. */
  function FlagClick(flags: set<(int, int)>, revealed: set<(int, int)>, p: (int, int)): (r: set<(int, int)>)
    ensures p in revealed ==> r == flags
    ensures p !in revealed ==> (p in r <==> p !in flags)
    ensures forall q | q != p :: q in r <==> q in flags
  {
    if p in revealed then flags
    else if p in flags then flags - {p}
    else flags + {p}
  }

  /** Two flag-mode clicks on the same cell restore the flags. */
  lemma FlagClickTwice(flags: set<(int, int)>, revealed: set<(int, int)>, p: (int, int))
    ensures FlagClick(FlagClick(flags, revealed, p), revealed, p) == flags
  {
  }

  /** The neighbours of (row, col), centre excluded, that the row-major scan
      of revealAdjacentCells has passed before reaching (i, j). */
  ghost function Scanned(row: int, col: int, i: int, j: int): set<(int, int)> {
    set p | p in Neighbourhood(row, col) && (p.0 < i || (p.0 == i && p.1 < j)) && p != (row, col)
  }

  lemma ScannedStep(row: int, col: int, i: int, j: int)
    requires row - 1 <= i <= row + 1 && col - 1 <= j <= col + 1
    ensures Scanned(row, col, i, j + 1) ==
            Scanned(row, col, i, j) + (if InBounds(i, j) && (i, j) != (row, col) then {(i, j)} else {})
  {
    assert InBounds(i, j) ==> (i, j) in Neighbourhood(row, col);
  }

  lemma ScannedRow(row: int, col: int, i: int)
    ensures Scanned(row, col, i, col + 2) == Scanned(row, col, i + 1, col - 1)
  {
  }

  lemma ScannedEnds(row: int, col: int)
    ensures Scanned(row, col, row - 1, col - 1) == {}
    ensures Scanned(row, col, row + 2, col - 1) == Neighbourhood(row, col) - {(row, col)}
  {
  }

  class Game {
    var mineGrid: array2<bool>
    var revealedGrid: array2<bool>
    var flaggedGrid: array2<bool>
    /** true: pickaxe (reveal) mode; false: flag mode. */
    var playerMode: bool
    var firstClick: bool
    var gameOver: bool
    /** The cell of the first click, around which no mine is placed. */
    ghost var firstCell: (int, int)

    /** The grids have the board's shape and are three distinct arrays. */
    ghost predicate Valid()
      reads this`mineGrid, this`revealedGrid, this`flaggedGrid
    {
      IsGrid(mineGrid) && IsGrid(revealedGrid) && IsGrid(flaggedGrid) &&
      mineGrid != revealedGrid && mineGrid != flaggedGrid && revealedGrid != flaggedGrid
    }

    ghost function Mines(): set<(int, int)>
      requires Valid()
      reads this`mineGrid, this`revealedGrid, this`flaggedGrid, mineGrid
    {
      Marked(mineGrid)
    }

    ghost function Revealed(): set<(int, int)>
      requires Valid()
      reads this`mineGrid, this`revealedGrid, this`flaggedGrid, revealedGrid
    {
      Marked(revealedGrid)
    }

    ghost function Flagged(): set<(int, int)>
      requires Valid()
      reads this`mineGrid, this`revealedGrid, this`flaggedGrid, flaggedGrid
    {
      Marked(flaggedGrid)
    }

    /** The safe cells with no surrounding mine: the flood fill spreads
        from them. */
    ghost function Blanks(): set<(int, int)>
      requires Valid()
      reads this`mineGrid, this`revealedGrid, this`flaggedGrid, mineGrid
    {
      set p | p in AllCells() && !mineGrid[p.0, p.1] && SurroundingMines(mineGrid, p.0, p.1) == 0
    }

    /** The game invariant kept by every click. */
    ghost predicate Invariant()
      reads this`mineGrid, this`revealedGrid, this`flaggedGrid, this`firstClick, this`firstCell, this`gameOver
      reads mineGrid, revealedGrid, flaggedGrid
    {
      Valid() &&
      (firstClick ==> Mines() == {} && Revealed() == {} && Flagged() == {}) &&
      (!firstClick ==> Mines() * Neighbourhood(firstCell.0, firstCell.1) == {} && |Mines()| <= TOTAL_MINES) &&
      (gameOver <==> Revealed() * Mines() != {})
    }

    /** A fresh board: no mines, nothing revealed or flagged, pickaxe mode,
        waiting for the first click. */
    constructor ()
      ensures Invariant() && fresh(mineGrid) && fresh(revealedGrid) && fresh(flaggedGrid)
      ensures Mines() == {} && Revealed() == {} && Flagged() == {}
      ensures playerMode && firstClick && !gameOver
    {
      mineGrid := new bool[ROWS, COLS]((i, j) => false);
      revealedGrid := new bool[ROWS, COLS]((i, j) => false);
      flaggedGrid := new bool[ROWS, COLS]((i, j) => false);
      playerMode := true;
      firstClick := true;
      gameOver := false;
      new;
      assert Mines() == {};
      assert Revealed() == {};
      assert Flagged() == {};
    }

    /** Flips between pickaxe and flag mode; allowed at any time. */
    method SwitchMode()
      requires Invariant()
      modifies this`playerMode
      ensures Invariant()
      ensures playerMode == !old(playerMode)
    {
      playerMode := !playerMode;
    }

    /** A click on cell (i, j), the cell CellOf decodes from the index of the
        clicked widget. Once the game is over
        nothing changes. Otherwise the first click places the mines around
        it, drawing from `samples`; then in pickaxe mode an unrevealed,
        unflagged cell is revealed and the game is over exactly when it is a
        mine, and in flag mode the flag of an unrevealed cell is toggled.
        `order` lists the cells the click revealed, in the order revealed.
        The mode and the grid references never change (the modifies clause
        leaves them out). */
    method Click(i: int, j: int, samples: seq<(int, int)>) returns (ghost order: seq<(int, int)>)
      requires Invariant()
      requires InBounds(i, j)
      requires forall k | 0 <= k < |samples| :: InBounds(samples[k].0, samples[k].1)
      modifies this`firstClick, this`firstCell, this`gameOver, mineGrid, revealedGrid, flaggedGrid
      ensures Invariant()
      // after the game is over
      ensures old(gameOver) ==>
                gameOver && firstClick == old(firstClick) &&
                unchanged(mineGrid) && unchanged(revealedGrid) && unchanged(flaggedGrid)
      // mine placement
      ensures !old(gameOver) ==> !firstClick
      ensures !old(gameOver) && old(firstClick) ==>
                Mines() == Sampled({}, samples, i, j, TOTAL_MINES)
      ensures old(firstClick) && playerMode ==> !gameOver
      ensures !old(firstClick) ==> unchanged(mineGrid)
      // pickaxe mode
      ensures !old(gameOver) && playerMode ==> unchanged(flaggedGrid)
      ensures !old(gameOver) && playerMode && ((i, j) in old(Revealed()) || (i, j) in old(Flagged())) ==>
                unchanged(revealedGrid) && !gameOver
      ensures !old(gameOver) && playerMode && (i, j) !in old(Revealed()) && (i, j) !in old(Flagged()) ==>
                (i, j) in Revealed() && old(Revealed()) <= Revealed() &&
                (gameOver <==> (i, j) in Mines()) &&
                ((i, j) in Mines() ==> Revealed() == old(Revealed()) + {(i, j)}) &&
                ((i, j) !in Blanks() ==> Revealed() == old(Revealed()) + {(i, j)}) &&
                ClosedFrom(old(Revealed()), Revealed(), Blanks())
      // the revealed cells spread from (i, j) through blank cells only
      ensures FillOrder(order, old(Revealed()), Revealed(), Blanks(), {(i, j)})
      // flag mode
      ensures !old(gameOver) && !playerMode ==>
                unchanged(revealedGrid) && !gameOver &&
                Flagged() == FlagClick(old(Flagged()), old(Revealed()), (i, j))
    {
      order := [];
      if gameOver {
        return;
      }
      ghost var revealed, flagged := Revealed(), Flagged();
      if firstClick {
        Start(i, j, samples);
        assert Revealed() == revealed && Flagged() == flagged;
      }
      order := Play(i, j);
      assert FillOrder(order, revealed, Revealed(), Blanks(), {(i, j)});
    }

    /** The rest of a click on a live game, once the mines are placed: in
        pickaxe mode it digs, in flag mode it toggles the flag. */
    method Play(i: int, j: int) returns (ghost order: seq<(int, int)>)
      requires Invariant() && InBounds(i, j) && !firstClick && !gameOver
      modifies this`gameOver, revealedGrid, flaggedGrid
      ensures Invariant()
      ensures playerMode ==> unchanged(flaggedGrid)
      ensures playerMode && ((i, j) in old(Revealed()) || (i, j) in old(Flagged())) ==>
                unchanged(revealedGrid) && !gameOver
      ensures playerMode && (i, j) !in old(Revealed()) && (i, j) !in old(Flagged()) ==>
                (i, j) in Revealed() && old(Revealed()) <= Revealed() &&
                (gameOver <==> (i, j) in Mines()) &&
                ((i, j) in Mines() ==> Revealed() == old(Revealed()) + {(i, j)}) &&
                ((i, j) !in Blanks() ==> Revealed() == old(Revealed()) + {(i, j)}) &&
                ClosedFrom(old(Revealed()), Revealed(), Blanks())
      ensures FillOrder(order, old(Revealed()), Revealed(), Blanks(), {(i, j)})
      ensures !playerMode ==>
                unchanged(revealedGrid) && !gameOver &&
                Flagged() == FlagClick(old(Flagged()), old(Revealed()), (i, j))
    {
      order := [];
      if playerMode {
        order := Dig(i, j);
      } else {
        Flag(i, j);
      }
    }

    /** The first-click branch of a click: the mines are placed around
        (i, j), drawing from `samples`, and the game is started. */
    method Start(i: int, j: int, samples: seq<(int, int)>)
      requires Invariant() && InBounds(i, j) && firstClick
      requires forall k | 0 <= k < |samples| :: InBounds(samples[k].0, samples[k].1)
      modifies this`firstClick, this`firstCell, mineGrid
      ensures Invariant() && !firstClick && firstCell == (i, j)
      ensures Mines() == Sampled({}, samples, i, j, TOTAL_MINES)
      ensures Revealed() == {} && Flagged() == {} && !gameOver
    {
      PlaceMines(i, j, samples);
      FirstPlacement(samples, i, j);
      ghost var mines := Mines();
      assert mines == Sampled({}, samples, i, j, TOTAL_MINES);
      assert Revealed() == {} && Flagged() == {};
      firstClick := false;
      firstCell := (i, j);
      assert Mines() == mines && Revealed() == {} && Flagged() == {};
    }

    /** The pickaxe branch of a click: an unrevealed, unflagged cell is
        revealed, and the game is over when it is a mine. */
    method Dig(i: int, j: int) returns (ghost order: seq<(int, int)>)
      requires Invariant() && InBounds(i, j) && !firstClick && !gameOver
      modifies this`gameOver, revealedGrid
      ensures Invariant()
      ensures (i, j) in old(Revealed()) || (i, j) in Flagged() ==> unchanged(revealedGrid) && !gameOver
      ensures (i, j) !in old(Revealed()) && (i, j) !in Flagged() ==>
                (i, j) in Revealed() && old(Revealed()) <= Revealed() &&
                (gameOver <==> (i, j) in Mines()) &&
                ((i, j) in Mines() ==> Revealed() == old(Revealed()) + {(i, j)}) &&
                ((i, j) !in Blanks() ==> Revealed() == old(Revealed()) + {(i, j)}) &&
                ClosedFrom(old(Revealed()), Revealed(), Blanks())
      ensures FillOrder(order, old(Revealed()), Revealed(), Blanks(), {(i, j)})
    {
      order := [];
      if !revealedGrid[i, j] && !flaggedGrid[i, j] {
        ghost var before := Revealed();
        order := RevealCell(i, j);
        MineRevealedIff(before, Revealed(), Mines(), (i, j));
        if mineGrid[i, j] {
          gameOver := true;
        }
      }
    }

    /** The flag branch of a click: the flag of an unrevealed cell is
        toggled. */
    method Flag(i: int, j: int)
      requires Invariant() && InBounds(i, j) && !firstClick
      modifies flaggedGrid
      ensures Invariant()
      ensures Flagged() == FlagClick(old(Flagged()), Revealed(), (i, j))
    {
      if !revealedGrid[i, j] {
        ghost var before := Flagged();
        if flaggedGrid[i, j] {
          flaggedGrid[i, j] := false;
          assert Flagged() == before - {(i, j)};
        } else {
          flaggedGrid[i, j] := true;
          assert Flagged() == before + {(i, j)};
        }
      }
    }

    /** The number of mines in the 3x3 window around (row, col), clipped at
        the edges. */
    method CountSurroundingMines(row: int, col: int) returns (count: int)
      requires Valid()
      ensures count == SurroundingMines(mineGrid, row, col)
    {
      count := 0;
      var i := row - 1;
      while i <= row + 1
        invariant row - 1 <= i <= row + 2
        invariant count == BlockMines(mineGrid, row - 1, i, col - 1, col + 2)
      {
        var j := col - 1;
        while j <= col + 1
          invariant col - 1 <= j <= col + 2
          invariant count == BlockMines(mineGrid, row - 1, i, col - 1, col + 2) + RowMines(mineGrid, i, col - 1, j)
        {
          if i >= 0 && i < ROWS && j >= 0 && j < COLS {
            if mineGrid[i, j] {
              count := count + 1;
            }
          }
          j := j + 1;
        }
        i := i + 1;
      }
    }

    /** Rejection sampling over the draws in `samples`: a draw becomes a mine
        when it is not one already and lies outside the 3x3 zone around
        (excludeRow, excludeCol), until TOTAL_MINES draws have been accepted
        or the draws run out. */
    method PlaceMines(excludeRow: int, excludeCol: int, samples: seq<(int, int)>)
      requires Valid()
      requires forall k | 0 <= k < |samples| :: InBounds(samples[k].0, samples[k].1)
      modifies mineGrid
      ensures Mines() == Sampled(old(Mines()), samples, excludeRow, excludeCol, TOTAL_MINES)
    {
      var count := 0;
      var k := 0;
      while count < TOTAL_MINES && k < |samples|
        invariant 0 <= count <= TOTAL_MINES && 0 <= k <= |samples|
        invariant Sampled(Mines(), samples[k..], excludeRow, excludeCol, TOTAL_MINES - count) ==
                  Sampled(old(Mines()), samples, excludeRow, excludeCol, TOTAL_MINES)
      {
        var row, col := samples[k].0, samples[k].1;
        var inFirstClickArea := Abs(row - excludeRow) <= 1 && Abs(col - excludeCol) <= 1;
        assert samples[k..][1..] == samples[k + 1..];
        if !mineGrid[row, col] && !inFirstClickArea {
          ghost var before := Mines();
          mineGrid[row, col] := true;
          assert Mines() == before + {(row, col)};
          count := count + 1;
        }
        k := k + 1;
      }
    }

    /** Reveals (row, col); a safe cell with no surrounding mine also reveals
        its neighbours, recursively. */
    method RevealCell(row: int, col: int) returns (ghost order: seq<(int, int)>)
      requires Valid() && InBounds(row, col)
      modifies revealedGrid
      decreases |Unmarked(revealedGrid)|, 0
      ensures (row, col) in Revealed()
      ensures (row, col) in old(Revealed()) ==> unchanged(revealedGrid)
      ensures old(Revealed()) <= Revealed()
      ensures |Unmarked(revealedGrid)| <= old(|Unmarked(revealedGrid)|)
      ensures (row, col) in Mines() ==> Revealed() == old(Revealed()) + {(row, col)}
      ensures (row, col) !in Mines() ==> (Revealed() - old(Revealed())) * Mines() == {}
      ensures (row, col) !in old(Revealed()) && (row, col) !in Blanks() ==>
                Revealed() == old(Revealed()) + {(row, col)}
      ensures ClosedFrom(old(Revealed()), Revealed(), Blanks())
      ensures FillOrder(order, old(Revealed()), Revealed(), Blanks(), {(row, col)})
    {
      order := [];
      if revealedGrid[row, col] {
        return;
      }
      ghost var before := Revealed();
      ghost var hidden := Unmarked(revealedGrid);
      revealedGrid[row, col] := true;
      assert Revealed() == before + {(row, col)};
      assert (row, col) !in Unmarked(revealedGrid);
      assert Unmarked(revealedGrid) + {(row, col)} == hidden;
      assert |Unmarked(revealedGrid)| < |hidden|;
      ghost var u := Unmarked(revealedGrid);

      if mineGrid[row, col] {
        assert (row, col) !in Blanks();
        RevealStep(before, (row, col), Revealed(), Blanks(), []);
        order := [(row, col)];
      } else {
        var surroundingMines := CountSurroundingMines(row, col);
        assert Unmarked(revealedGrid) == u;
        if surroundingMines == 0 {
          NoMinesNear(mineGrid, row, col);
          assert Unmarked(revealedGrid) == u;
          assert (row, col) in Blanks();
          ghost var mid := Revealed();
          assert mid == before + {(row, col)};
          ghost var rest: seq<(int, int)>;
          rest := RevealAdjacentCells(row, col);
          assert Neighbourhood(row, col) <= Revealed();
          assert ClosedFrom(mid, Revealed(), Blanks());
          assert FillOrder(rest, mid, Revealed(), Blanks(), Neighbourhood(row, col));
          RevealStep(before, (row, col), Revealed(), Blanks(), rest);
          order := [(row, col)] + rest;
        } else {
          assert (row, col) !in Blanks();
          RevealStep(before, (row, col), Revealed(), Blanks(), []);
          order := [(row, col)];
        }
      }
    }

    /** Reveals every in-bounds, not yet revealed neighbour of (row, col). */
    method RevealAdjacentCells(row: int, col: int) returns (ghost order: seq<(int, int)>)
      requires Valid() && InBounds(row, col)
      modifies revealedGrid
      decreases |Unmarked(revealedGrid)|, 1
      ensures old(Revealed()) <= Revealed()
      ensures |Unmarked(revealedGrid)| <= old(|Unmarked(revealedGrid)|)
      ensures Neighbourhood(row, col) - {(row, col)} <= Revealed()
      ensures Neighbourhood(row, col) * Mines() == {} ==> (Revealed() - old(Revealed())) * Mines() == {}
      ensures ClosedFrom(old(Revealed()), Revealed(), Blanks())
      ensures FillOrder(order, old(Revealed()), Revealed(), Blanks(), Neighbourhood(row, col))
    {
      order := [];
      ghost var start, blank, mines, nbrs := Revealed(), Blanks(), Mines(), Neighbourhood(row, col);
      ghost var done := start;
      var i := row - 1;
      ScannedEnds(row, col);
      while i <= row + 1
        invariant row - 1 <= i <= row + 2
        invariant Blanks() == blank && Mines() == mines
        invariant done == Revealed() && start <= done
        invariant |Unmarked(revealedGrid)| <= old(|Unmarked(revealedGrid)|)
        invariant Scanned(row, col, i, col - 1) <= done
        invariant nbrs * mines == {} ==> (done - start) * mines == {}
        invariant ClosedFrom(start, done, blank)
        invariant FillOrder(order, start, done, blank, nbrs)
      {
        var j := col - 1;
        while j <= col + 1
          invariant col - 1 <= j <= col + 2
          invariant Blanks() == blank && Mines() == mines
          invariant done == Revealed() && start <= done
          invariant |Unmarked(revealedGrid)| <= old(|Unmarked(revealedGrid)|)
          invariant Scanned(row, col, i, j) <= done
          invariant nbrs * mines == {} ==> (done - start) * mines == {}
          invariant ClosedFrom(start, done, blank)
          invariant FillOrder(order, start, done, blank, nbrs)
        {
          ScannedStep(row, col, i, j);
          if i >= 0 && i < ROWS && j >= 0 && j < COLS && !(i == row && j == col) {
            if !revealedGrid[i, j] {
              assert (i, j) in nbrs;
              ghost var sub: seq<(int, int)>;
              sub := RevealCell(i, j);
              ExtendFill(start, done, Revealed(), blank, mines, nbrs, (i, j), order, sub);
              order, done := order + sub, Revealed();
            }
            assert (i, j) in done;
          }
          assert Scanned(row, col, i, j + 1) <= done;
          j := j + 1;
        }
        ScannedRow(row, col, i);
        i := i + 1;
      }
    }
  }
}
