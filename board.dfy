/** The board engine: a square grid of cells updated in place by mine
    placement, neighbour counting, reveal with its flood fill, and the win
    check. Randomness is injected: a sequence of coordinate draws for
    placement and one survival bit per reveal of a mine. */
module Engine {
  import opened Rules

  /** One square of the grid with its three pieces of game state. */
  datatype Cell = Cell(hasMine: bool, isOpened: bool, neighborMines: int)

  /** What one reveal did, in place of the source's dialogs. */
  datatype Outcome = AlreadyOpen | Opened | SurvivedMine | Exploded

  /** The cell that the mined and the open positions prescribe at c. A mined
      cell keeps the number 0 it was created with. */
  function CellAt(mines: set<Coord>, open: set<Coord>, c: Coord): Cell {
    Cell(c in mines, c in open, if c in mines then 0 else |NeighborMines(mines, c.0, c.1)|)
  }

  class Board {
    /** grid[x, y] is the cell at column x, row y. */
    const grid: array2<Cell>
    /** The mined positions; fixed once placement is done. */
    ghost var mines: set<Coord>
    /** The open positions. */
    ghost var open: set<Coord>

    ghost predicate Shaped()
      reads this
    {
      grid.Length0 == GridSize && grid.Length1 == GridSize
    }

    /** The hasMine flags are exactly the positions in mines. */
    ghost predicate MinesAgree()
      reads this, grid
    {
      Shaped() && mines <= Cells() &&
      forall x, y :: IsValid(x, y) ==> (grid[x, y].hasMine <==> (x, y) in mines)
    }

    /** Every cell is the one that mines and open prescribe. */
    ghost predicate Agree()
      reads this, grid
    {
      Shaped() && mines <= Cells() && open <= Cells() &&
      forall x, y :: IsValid(x, y) ==> grid[x, y] == CellAt(mines, open, (x, y))
    }

    /** A board in play: MineCount mines, correct numbers, and every open
        cell with number 0 has all its safe neighbours open. */
    ghost predicate Valid()
      reads this, grid
    {
      Agree() && |mines| == MineCount && ZeroClosed(open, mines)
    }

    /** A fresh board: all cells closed and empty, then placeMines and calculateNumbers. */
    constructor (draws: seq<Coord>)
      requires forall i :: 0 <= i < |draws| ==> IsValid(draws[i].0, draws[i].1)
      requires |Elems(draws)| >= MineCount
      ensures Valid() && fresh(grid)
      ensures mines == Fill({}, draws) && open == {}
    {
      grid := new Cell[GridSize, GridSize]((x, y) => Cell(false, false, 0));
      mines := {};
      open := {};
      new;
      PlaceMines(draws);
      CalculateNumbers();
      FillCount({}, draws);
    }

    /** placeMines: mine draws one after another until MineCount distinct
        cells are mined; a draw that hits a mined cell is not counted. */
    method PlaceMines(draws: seq<Coord>)
      requires Shaped() && mines == {}
      requires forall x, y :: IsValid(x, y) ==> grid[x, y] == Cell(false, (x, y) in open, 0)
      requires forall i :: 0 <= i < |draws| ==> IsValid(draws[i].0, draws[i].1)
      modifies this, grid
      ensures mines == Fill({}, draws) && mines <= Cells() && open == old(open)
      ensures forall x, y :: IsValid(x, y) ==> grid[x, y] == Cell((x, y) in mines, (x, y) in open, 0)
    {
      var placedMines := 0;
      var i := 0;
      while placedMines < MineCount && i < |draws|
        invariant 0 <= i <= |draws|
        invariant mines <= Cells() && open == old(open)
        invariant forall x, y :: IsValid(x, y) ==> grid[x, y] == Cell((x, y) in mines, (x, y) in open, 0)
        invariant placedMines == |mines|
        invariant Fill(mines, draws[i..]) == Fill({}, draws)
      {
        var (x, y) := draws[i];
        assert draws[i..][1..] == draws[i + 1..];
        assert Fill(mines, draws[i..]) == Fill(mines + {(x, y)}, draws[i + 1..]);
        if grid[x, y].hasMine {
          assert mines + {(x, y)} == mines;
        } else {
          grid[x, y] := grid[x, y].(hasMine := true);
          mines := mines + {(x, y)};
          placedMines := placedMines + 1;
        }
        i := i + 1;
      }
    }

    /** calculateNumbers: every cell without a mine gets its neighbour count;
        mined cells keep their number 0 and no flag changes. */
    method CalculateNumbers()
      requires Shaped() && mines <= Cells() && open <= Cells()
      requires forall x, y :: IsValid(x, y) ==> grid[x, y] == Cell((x, y) in mines, (x, y) in open, 0)
      modifies grid
      ensures Agree()
    {
      for y := 0 to GridSize
        invariant forall i, j :: IsValid(i, j) ==>
          grid[i, j] == if j < y then CellAt(mines, open, (i, j)) else Cell((i, j) in mines, (i, j) in open, 0)
      {
        for x := 0 to GridSize
          invariant forall i, j :: IsValid(i, j) ==>
            grid[i, j] == if j < y || (j == y && i < x) then CellAt(mines, open, (i, j))
                          else Cell((i, j) in mines, (i, j) in open, 0)
        {
          if !grid[x, y].hasMine {
            var count := CalculateSingleCell(x, y);
            grid[x, y] := grid[x, y].(neighborMines := count);
          }
        }
      }
    }

    /** calculateSingleCell: scan the nine offsets around (x, y), skipping
        positions off the board, and count the mined ones. The centre is
        scanned too; it adds one only when (x, y) itself is mined. */
    method CalculateSingleCell(x: int, y: int) returns (count: int)
      requires MinesAgree()
      ensures count == |NeighborMines(mines, x, y)| + (if (x, y) in mines then 1 else 0)
      ensures (x, y) !in mines ==> 0 <= count <= 8
    {
      count := 0;
      ScanBounds(mines, (x, y), -1);
      for dx := -1 to 2
        invariant count == |Scanned(mines, (x, y), dx, -1)|
      {
        for dy := -1 to 2
          invariant count == |Scanned(mines, (x, y), dx, dy)|
        {
          var newX, newY := x + dx, y + dy;
          MineScanStep(mines, (x, y), dx, dy);
          if IsValid(newX, newY) && grid[newX, newY].hasMine {
            count := count + 1;
          }
        }
        ScanBounds(mines, (x, y), dx);
      }
      ScanBounds(mines, (x, y), 2);
      BoxMinesSplit(mines, x, y);
      NeighborMinesAtMostEight(mines, x, y);
    }

    /** open: reveal (x, y). An open cell is left alone. Otherwise the cell
        is opened; a mine then survives or explodes on the injected coin flip,
        a numbered cell stays alone, and a cell with number 0 starts the flood
        fill. Every outcome but Exploded and AlreadyOpen runs the win check. */
    method Open(x: int, y: int, survive: bool) returns (outcome: Outcome, won: bool)
      requires Valid() && IsValid(x, y)
      modifies this, grid
      ensures Valid() && mines == old(mines)
      ensures old(open) <= open && (x, y) in open
      ensures outcome == AlreadyOpen <==> (x, y) in old(open)
      ensures outcome == Opened <==> (x, y) !in old(open) && (x, y) !in mines
      ensures outcome == SurvivedMine <==> (x, y) !in old(open) && (x, y) in mines && survive
      ensures outcome == Exploded <==> (x, y) !in old(open) && (x, y) in mines && !survive
      ensures outcome != Opened || !Zero(mines, (x, y)) ==> open == old(open) + {(x, y)}
      ensures outcome == AlreadyOpen ==> unchanged(this, grid)
      ensures outcome != Opened || !Zero(mines, (x, y)) ==>
        forall i, j :: IsValid(i, j) && (i, j) != (x, y) ==> grid[i, j] == old(grid[i, j])
      ensures (open - old(open) - {(x, y)}) !! mines
      ensures forall c :: c in open - old(open) ==> ReachedFrom(mines, (x, y), open - old(open), c)
      ensures won <==> (outcome == Opened || outcome == SurvivedMine) && AllSafeOpen(open, mines)
      ensures AllSafeOpen(old(open), mines) ==> AllSafeOpen(open, mines)
    {
      if grid[x, y].isOpened {
        return AlreadyOpen, false;
      }
      ghost var before := open;
      MarkOpen(x, y);
      if grid[x, y].hasMine {
        ZeroClosedAddCell(before, mines, (x, y));
        SeedReached(mines, (x, y), open - before);
        if !survive {
          return Exploded, false;
        }
        outcome := SurvivedMine;
      } else if grid[x, y].neighborMines > 0 {
        ZeroClosedAddCell(before, mines, (x, y));
        SeedReached(mines, (x, y), open - before);
        outcome := Opened;
      } else {
        assert forall c :: c in open && Zero(mines, c) && c != (x, y) ==> Settled(open, mines, c) by {
          forall c | c in open && Zero(mines, c) && c != (x, y)
            ensures Settled(open, mines, c)
          {
            assert c in before && Settled(before, mines, c);
          }
        }
        ghost var seeded := open;
        OpenSurroundingCells(x, y);
        forall c | c in open - before
          ensures ReachedFrom(mines, (x, y), open - before, c)
        {
          if c == (x, y) {
            SeedReached(mines, (x, y), open - before);
          } else {
            ReachedWithin(mines, (x, y), open - seeded + {(x, y)}, open - before, c);
          }
        }
        outcome := Opened;
      }
      won := CheckWin();
    }

    /** openSurroundingCells: breadth-first flood fill from the opened seed
        (sx, sy), whose number is 0. A dequeued cell with number 0 has its
        closed, unmined neighbours opened and queued; the queue is a sequence.
        Cells are marked open when they are queued, so none is queued twice. */
    method OpenSurroundingCells(sx: int, sy: int)
      requires Agree() && |mines| == MineCount
      requires IsValid(sx, sy) && (sx, sy) in open && Zero(mines, (sx, sy))
      requires forall c :: c in open && Zero(mines, c) && c != (sx, sy) ==> Settled(open, mines, c)
      modifies this, grid
      ensures Valid() && mines == old(mines) && old(open) <= open
      ensures (open - old(open)) !! mines
      ensures forall c :: c in open - old(open) ==> ReachedFrom(mines, (sx, sy), open - old(open) + {(sx, sy)}, c)
    {
      var queue := [(sx, sy)];
      ghost var parent: map<Coord, Coord> := map[];
      ghost var rank: map<Coord, nat> := map[];
      FloodInvInit(open, mines, (sx, sy));
      while queue != []
        invariant Agree() && mines == old(mines)
        invariant FloodInv(old(open), open, mines, (sx, sy), queue, parent, rank)
        decreases Cells() - open, |queue|
      {
        var (cx, cy) := queue[0];
        if grid[cx, cy].neighborMines == 0 {
          ghost var before := open;
          var added := OpenNeighbours(cx, cy);
          FloodInvExpand(old(open), before, mines, (sx, sy), queue, parent, rank, added);
          parent := parent + map c | c in added :: (cx, cy);
          rank := rank + map c | c in added :: ChildRank(rank, (cx, cy));
          queue := queue[1..] + added;
        } else {
          FloodInvSkip(old(open), open, mines, (sx, sy), queue, parent, rank);
          queue := queue[1..];
        }
      }
      forall c | c in open - old(open)
        ensures ReachedFrom(mines, (sx, sy), open - old(open) + {(sx, sy)}, c)
      {
        TracedChain(old(open), open, mines, (sx, sy), parent, rank, c);
      }
    }

    /** The neighbour loop of openSurroundingCells for one dequeued cell:
        every in-range neighbour that is neither open nor mined is opened and
        handed back, in scan order, to be queued. */
    method OpenNeighbours(cx: int, cy: int) returns (added: seq<Coord>)
      requires Agree() && IsValid(cx, cy) && (cx, cy) in open
      modifies this, grid
      ensures Agree() && mines == old(mines)
      ensures Elems(added) == ClosedNeighbours(old(open), mines, (cx, cy))
      ensures open == old(open) + Elems(added)
    {
      added := [];
      ghost var closed := ClosedNeighbours(open, mines, (cx, cy));
      ScanBounds(closed, (cx, cy), -1);
      for dx := -1 to 2
        invariant Agree() && mines == old(mines)
        invariant Elems(added) == Scanned(closed, (cx, cy), dx, -1)
        invariant open == old(open) + Elems(added)
      {
        added := OpenNeighbourColumn(cx, cy, dx, old(open), added);
        ScanBounds(closed, (cx, cy), dx);
      }
      ScanBounds(closed, (cx, cy), 2);
    }

    /** The inner loop of the neighbour scan, over the offsets (dx, -1),
        (dx, 0) and (dx, 1); base is the open set before the scan began. */
    method OpenNeighbourColumn(cx: int, cy: int, dx: int, ghost base: set<Coord>, added: seq<Coord>)
      returns (more: seq<Coord>)
      requires Agree() && IsValid(cx, cy) && (cx, cy) in base && -1 <= dx <= 1
      requires open == base + Elems(added)
      requires Elems(added) == Scanned(ClosedNeighbours(base, mines, (cx, cy)), (cx, cy), dx, -1)
      modifies this, grid
      ensures Agree() && mines == old(mines)
      ensures open == base + Elems(more)
      ensures Elems(more) == Scanned(ClosedNeighbours(base, mines, (cx, cy)), (cx, cy), dx, 2)
    {
      more := added;
      ghost var closed := ClosedNeighbours(base, mines, (cx, cy));
      for dy := -1 to 2
        invariant Agree() && mines == old(mines)
        invariant Elems(more) == Scanned(closed, (cx, cy), dx, dy)
        invariant open == base + Elems(more)
      {
        var newX, newY := cx + dx, cy + dy;
        ClosedScanStep(base, mines, (cx, cy), dx, dy, more);
        var didOpen := OpenIfClosed(newX, newY);
        if didOpen {
          more := more + [(newX, newY)];
        }
      }
    }

    /** The test inside the neighbour loop: a position on the board that is
        neither open nor mined gets opened. */
    method OpenIfClosed(x: int, y: int) returns (didOpen: bool)
      requires Agree()
      modifies this, grid
      ensures Agree() && mines == old(mines)
      ensures didOpen <==> IsValid(x, y) && (x, y) !in old(open) && (x, y) !in mines
      ensures open == old(open) + (if didOpen then {(x, y)} else {})
    {
      didOpen := false;
      if IsValid(x, y) {
        var neighbor := grid[x, y];
        if !neighbor.isOpened && !neighbor.hasMine {
          MarkOpen(x, y);
          didOpen := true;
        }
      }
    }

    /** Set the isOpened flag of one cell; nothing else changes. */
    method MarkOpen(x: int, y: int)
      requires Agree() && IsValid(x, y)
      modifies this, grid
      ensures Agree() && mines == old(mines) && open == old(open) + {(x, y)}
    {
      grid[x, y] := grid[x, y].(isOpened := true);
      open := open + {(x, y)};
    }

    /** checkWin: scan the grid row by row; an unopened cell without a mine
        clears the flag and leaves the current row. */
    method CheckWin() returns (won: bool)
      requires Agree()
      ensures won <==> AllSafeOpen(open, mines)
    {
      won := true;
      ghost var unopened: Coord := (0, 0);
      for y := 0 to GridSize
        invariant won ==> forall i, j :: IsValid(i, j) && j < y ==> (i, j) in mines || (i, j) in open
        invariant !won ==> unopened in Cells() && unopened !in mines && unopened !in open
      {
        for x := 0 to GridSize
          invariant won ==> forall i, j :: IsValid(i, j) && (j < y || (j == y && i < x)) ==> (i, j) in mines || (i, j) in open
          invariant !won ==> unopened in Cells() && unopened !in mines && unopened !in open
        {
          if !grid[x, y].hasMine && !grid[x, y].isOpened {
            won := false;
            unopened := (x, y);
            break;
          }
        }
      }
    }
  }
}
