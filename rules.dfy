/** The pure rules of the board: the fixed configuration, coordinates and
    their range check, the Moore neighbourhood with its reference mine count,
    and the mine placement walk over a sequence of random draws. */
module Rules {

  /** Side of the square board (GRID_SIZE). */
  const GridSize: int := 6

  /** Number of distinct mined cells on a fresh board (MINE_COUNT). */
  const MineCount: int := 8

  /** A cell position (x, y); the grid is indexed grid[x][y]. */
  type Coord = (int, int)

  /** isValid: the position lies on the board. */
  predicate IsValid(x: int, y: int) {
    0 <= x < GridSize && 0 <= y < GridSize
  }

  /** The positions (x, y) with 0 <= x < w and 0 <= y < h. */
  function Rect(w: nat, h: nat): set<Coord> {
    set x, y | 0 <= x < w && 0 <= y < h :: (x, y)
  }

  /** The positions (x, y) with 0 <= y < h. */
  function Column(x: int, h: nat): set<Coord> {
    set y | 0 <= y < h :: (x, y)
  }

  lemma {:induction false} ColumnSize(x: int, h: nat)
    ensures |Column(x, h)| == h
  {
    if h > 0 {
      assert Column(x, h) == Column(x, h - 1) + {(x, h - 1)};
      ColumnSize(x, h - 1);
    } else {
      assert Column(x, h) == {};
    }
  }

  lemma {:induction false} RectSize(w: nat, h: nat)
    ensures |Rect(w, h)| == w * h
  {
    if w > 0 {
      var rest, col := Rect(w - 1, h), Column(w - 1, h);
      assert Rect(w, h) == rest + col;
      assert rest !! col;
      RectSize(w - 1, h);
      ColumnSize(w - 1, h);
      assert |rest + col| == |rest| + |col|;
      assert (w - 1) * h + h == w * h;
    } else {
      assert Rect(w, h) == {};
    }
  }

  /** Every position of the board: GRID_SIZE * GRID_SIZE of them, each one
      accepted by isValid. */
  function Cells(): (s: set<Coord>)
    ensures forall c :: c in s <==> IsValid(c.0, c.1)
    ensures |s| == GridSize * GridSize
  {
    RectSize(GridSize, GridSize);
    Rect(GridSize, GridSize)
  }

  /** Moore adjacency: a different position at most one step away on each axis. */
  predicate Adjacent(a: Coord, b: Coord) {
    a != b && -1 <= a.0 - b.0 <= 1 && -1 <= a.1 - b.1 <= 1
  }

  /** The set of positions a sequence of draws mentions. */
  function Elems(draws: seq<Coord>): set<Coord> {
    set c | c in draws
  }

  /** Reference definition of a cell's number: scan the whole board and keep
      the mined positions adjacent to (x, y). */
  function NeighborMines(mines: set<Coord>, x: int, y: int): set<Coord> {
    set c | c in Cells() && c in mines && Adjacent(c, (x, y))
  }

  /** The members of s inside the 3x3 box centred on c, the centre included:
      the positions the nested offset loops of the source look at. */
  function Box(s: set<Coord>, c: Coord): set<Coord> {
    set n | n in s && -1 <= n.0 - c.0 <= 1 && -1 <= n.1 - c.1 <= 1
  }

  /** The part of Box(s, c) that the offset loops have visited before
      reaching offset (dx, dy); offsets are visited dx-major. */
  function Scanned(s: set<Coord>, c: Coord, dx: int, dy: int): set<Coord> {
    set n | n in Box(s, c) && (n.0 - c.0 < dx || (n.0 - c.0 == dx && n.1 - c.1 < dy))
  }

  /** Visiting offset (dx, dy) adds that position when it is in s, and it was not visited before. */
  lemma ScanStep(s: set<Coord>, c: Coord, dx: int, dy: int)
    requires -1 <= dx <= 1 && -1 <= dy <= 1
    ensures (c.0 + dx, c.1 + dy) !in Scanned(s, c, dx, dy)
    ensures Scanned(s, c, dx, dy + 1) ==
            Scanned(s, c, dx, dy) + (if (c.0 + dx, c.1 + dy) in s then {(c.0 + dx, c.1 + dy)} else {})
    ensures |Scanned(s, c, dx, dy + 1)| == |Scanned(s, c, dx, dy)| + (if (c.0 + dx, c.1 + dy) in s then 1 else 0)
  {
  }

  /** The mine count of the offset scan grows by one exactly when the
      position at offset (dx, dy) is on the board and mined. */
  lemma MineScanStep(mines: set<Coord>, c: Coord, dx: int, dy: int)
    requires mines <= Cells() && -1 <= dx <= 1 && -1 <= dy <= 1
    ensures |Scanned(mines, c, dx, dy + 1)| ==
            |Scanned(mines, c, dx, dy)| + (if IsValid(c.0 + dx, c.1 + dy) && (c.0 + dx, c.1 + dy) in mines then 1 else 0)
  {
    ScanStep(mines, c, dx, dy);
  }

  /** The end of one column of offsets is the start of the next; the scan
      starts empty and ends with the whole box. */
  lemma ScanBounds(s: set<Coord>, c: Coord, dx: int)
    ensures Scanned(s, c, dx, 2) == Scanned(s, c, dx + 1, -1)
    ensures Scanned(s, c, -1, -1) == {}
    ensures Scanned(s, c, 2, -1) == Box(s, c)
  {
  }

  lemma ElemsAppend(s: seq<Coord>, c: Coord)
    ensures Elems(s + [c]) == Elems(s) + {c}
  {
    assert forall d :: d in s + [c] <==> d in s || d == c;
  }

  /** The placement walk: while fewer than MineCount cells are mined, take
      the next draw and mine it (a draw that is already mined adds nothing).
      Stops early when the draws run out. */
  function Fill(mines: set<Coord>, draws: seq<Coord>): set<Coord>
    decreases |draws|
  {
    if |mines| >= MineCount || draws == [] then mines
    else Fill(mines + {draws[0]}, draws[1..])
  }

  lemma SubsetCardinality<T>(a: set<T>, b: set<T>)
    requires a <= b
    ensures |a| <= |b|
  {
    assert b * a == a;
    assert |b - a| == |b| - |a|;
  }

  /** Placement never removes a mine, and every mine it adds is one of the draws. */
  lemma {:induction false} FillBounds(mines: set<Coord>, draws: seq<Coord>)
    ensures mines <= Fill(mines, draws)
    ensures Fill(mines, draws) <= mines + Elems(draws)
    decreases |draws|
  {
    if |mines| >= MineCount || draws == [] {
    } else {
      assert draws == [draws[0]] + draws[1..];
      assert Elems(draws) == {draws[0]} + Elems(draws[1..]);
      FillBounds(mines + {draws[0]}, draws[1..]);
    }
  }

  /** Starting below the target, placement never overshoots MineCount, and it
      reaches exactly MineCount iff the draws supply enough distinct cells. */
  lemma {:induction false} FillCount(mines: set<Coord>, draws: seq<Coord>)
    requires |mines| <= MineCount
    ensures |Fill(mines, draws)| <= MineCount
    ensures |Fill(mines, draws)| == MineCount <==> |mines + Elems(draws)| >= MineCount
    decreases |draws|
  {
    var r := Fill(mines, draws);
    FillBounds(mines, draws);
    SubsetCardinality(r, mines + Elems(draws));
    if |mines| >= MineCount {
      SubsetCardinality(mines, mines + Elems(draws));
    } else if draws == [] {
      assert mines + Elems(draws) == mines;
    } else {
      var next := mines + {draws[0]};
      assert draws == [draws[0]] + draws[1..];
      assert next + Elems(draws[1..]) == mines + Elems(draws);
      FillCount(next, draws[1..]);
    }
  }

  /** A cell has at most eight neighbours, so its number is at most 8. */
  lemma NeighborMinesAtMostEight(mines: set<Coord>, x: int, y: int)
    ensures |NeighborMines(mines, x, y)| <= 8
  {
    var ring := {(x - 1, y - 1), (x - 1, y), (x - 1, y + 1), (x, y - 1),
                 (x, y + 1), (x + 1, y - 1), (x + 1, y), (x + 1, y + 1)};
    var n := NeighborMines(mines, x, y);
    assert n <= ring;
    SubsetCardinality(n, ring);
  }

  /** The 3x3 box count of the source equals the reference count plus one
      when the centre itself is mined; for a cell without a mine the centre
      offset contributes nothing. */
  lemma BoxMinesSplit(mines: set<Coord>, x: int, y: int)
    requires mines <= Cells()
    ensures |Box(mines, (x, y))| == |NeighborMines(mines, x, y)| + (if (x, y) in mines then 1 else 0)
  {
    var box, n := Box(mines, (x, y)), NeighborMines(mines, x, y);
    if (x, y) in mines {
      assert box == n + {(x, y)};
    } else {
      assert box == n;
    }
  }

  /** A cell without a mine whose number is 0: revealing it starts a flood fill. */
  predicate Zero(mines: set<Coord>, c: Coord) {
    c !in mines && |NeighborMines(mines, c.0, c.1)| == 0
  }

  /** Every in-range neighbour of c that has no mine is open. */
  predicate Settled(open: set<Coord>, mines: set<Coord>, c: Coord) {
    forall n :: n in Cells() && Adjacent(n, c) && n !in mines ==> n in open
  }

  /** The closure a flood fill leaves behind: every open cell with number 0
      has all its safe neighbours open. */
  predicate ZeroClosed(open: set<Coord>, mines: set<Coord>) {
    forall c :: c in open && Zero(mines, c) ==> Settled(open, mines, c)
  }

  /** What the flood fill opens around a dequeued cell c with number 0: its
      in-range neighbours that are neither open nor mined. */
  function ClosedNeighbours(open: set<Coord>, mines: set<Coord>, c: Coord): (r: set<Coord>)
    ensures Box(r, c) == r
  {
    set n | n in Cells() && Adjacent(n, c) && n !in mines && n !in open
  }

  /** One step of the neighbour scan around an open cell c: the position at
      offset (dx, dy) is still closed exactly when it is on the board, neither
      open nor mined, and then it extends the scanned part by itself. */
  lemma ClosedScanStep(open: set<Coord>, mines: set<Coord>, c: Coord, dx: int, dy: int, added: seq<Coord>)
    requires c in open && -1 <= dx <= 1 && -1 <= dy <= 1
    requires Elems(added) == Scanned(ClosedNeighbours(open, mines, c), c, dx, dy)
    ensures (c.0 + dx, c.1 + dy) !in Elems(added)
    ensures (c.0 + dx, c.1 + dy) in ClosedNeighbours(open, mines, c) <==>
      IsValid(c.0 + dx, c.1 + dy) && (c.0 + dx, c.1 + dy) !in open && (c.0 + dx, c.1 + dy) !in mines
    ensures (c.0 + dx, c.1 + dy) in ClosedNeighbours(open, mines, c) ==>
      Elems(added + [(c.0 + dx, c.1 + dy)]) == Scanned(ClosedNeighbours(open, mines, c), c, dx, dy + 1)
    ensures (c.0 + dx, c.1 + dy) !in ClosedNeighbours(open, mines, c) ==>
      Elems(added) == Scanned(ClosedNeighbours(open, mines, c), c, dx, dy + 1)
  {
    var n := (c.0 + dx, c.1 + dy);
    ScanStep(ClosedNeighbours(open, mines, c), c, dx, dy);
    ElemsAppend(added, n);
  }

  /** Opening a cell that is mined or has a nonzero number keeps the closure. */
  lemma ZeroClosedAddCell(open: set<Coord>, mines: set<Coord>, c: Coord)
    requires ZeroClosed(open, mines) && !Zero(mines, c)
    ensures ZeroClosed(open + {c}, mines)
  {
    forall d | d in open + {c} && Zero(mines, d)
      ensures Settled(open + {c}, mines, d)
    {
      assert d in open && Settled(open, mines, d);
    }
  }

  /** One turn of the flood-fill loop keeps its closure invariant: every open
      zero cell that is not waiting in the queue is settled. The dequeued
      zero cell cur becomes settled by opening its closed safe neighbours,
      which join the queue. */
  lemma FloodStepClosed(open: set<Coord>, mines: set<Coord>, cur: Coord, rest: seq<Coord>, added: seq<Coord>)
    requires forall c :: c in open && Zero(mines, c) && c != cur && c !in rest ==> Settled(open, mines, c)
    requires Elems(added) == ClosedNeighbours(open, mines, cur)
    ensures forall c :: c in open + Elems(added) && Zero(mines, c) && c !in rest + added ==>
      Settled(open + Elems(added), mines, c)
  {
    var open' := open + Elems(added);
    forall c | c in open' && Zero(mines, c) && c !in rest + added
      ensures Settled(open', mines, c)
    {
      if c == cur {
        forall n | n in Cells() && Adjacent(n, c) && n !in mines
          ensures n in open'
        {
          if n !in open {
            assert n in ClosedNeighbours(open, mines, cur);
          }
        }
      } else {
        assert c !in added;
        assert c !in rest;
        assert Settled(open, mines, c);
      }
    }
  }

  /** A chain of adjacent board positions, each one a zero cell except
      possibly the last: the flood fill can walk it from its first position. */
  predicate ZeroChain(mines: set<Coord>, path: seq<Coord>) {
    |path| >= 1 &&
    (forall k :: 0 <= k < |path| ==> path[k] in Cells()) &&
    (forall k :: 0 <= k < |path| - 1 ==> Adjacent(path[k + 1], path[k]) && Zero(mines, path[k]))
  }

  /** c is the end of a zero chain from seed that stays inside area. */
  ghost predicate ReachedFrom(mines: set<Coord>, seed: Coord, area: set<Coord>, c: Coord) {
    exists path :: ZeroChain(mines, path) && path[0] == seed && path[|path| - 1] == c &&
      forall k :: 0 <= k < |path| ==> path[k] in area
  }

  /** The seed itself is reached by the one-element chain. */
  lemma SeedReached(mines: set<Coord>, seed: Coord, area: set<Coord>)
    requires seed in Cells() && seed in area
    ensures ReachedFrom(mines, seed, area, seed)
  {
    assert ZeroChain(mines, [seed]);
  }

  /** A chain inside an area stays inside any larger area. */
  lemma ReachedWithin(mines: set<Coord>, seed: Coord, area: set<Coord>, larger: set<Coord>, c: Coord)
    requires ReachedFrom(mines, seed, area, c) && area <= larger
    ensures ReachedFrom(mines, seed, larger, c)
  {
    var path :| ZeroChain(mines, path) && path[0] == seed && path[|path| - 1] == c &&
      forall k :: 0 <= k < |path| ==> path[k] in area;
    assert forall k :: 0 <= k < |path| ==> path[k] in larger;
  }

  /** Provenance of a flood fill from seed: every cell it opened beyond base
      has a recorded parent that is an adjacent zero cell, either the seed or
      another such cell of smaller rank, so following parents reaches the seed. */
  predicate Traced(base: set<Coord>, open: set<Coord>, mines: set<Coord>, seed: Coord,
                   parent: map<Coord, Coord>, rank: map<Coord, nat>)
  {
    forall c :: c in open - base ==>
      c in parent && c in rank && Adjacent(c, parent[c]) && Zero(mines, parent[c]) &&
      (parent[c] == seed || (parent[c] in open - base && parent[c] in rank && rank[parent[c]] < rank[c]))
  }

  /** The rank given to the cells a dequeued cell cur opens. */
  function ChildRank(rank: map<Coord, nat>, cur: Coord): nat {
    if cur in rank then rank[cur] + 1 else 0
  }

  /** Following recorded parents from an opened cell back to the seed gives
      a zero chain through the seed and the cells the fill opened. */
  lemma {:induction false} TracedChain(base: set<Coord>, open: set<Coord>, mines: set<Coord>, seed: Coord,
                                      parent: map<Coord, Coord>, rank: map<Coord, nat>, c: Coord)
    requires Traced(base, open, mines, seed, parent, rank)
    requires Zero(mines, seed) && seed in Cells() && open <= Cells()
    requires c in open - base
    ensures ReachedFrom(mines, seed, open - base + {seed}, c)
    decreases rank[c]
  {
    var p, area := parent[c], open - base + {seed};
    if p == seed {
      var path := [seed, c];
      assert ZeroChain(mines, path);
      assert forall k :: 0 <= k < |path| ==> path[k] in area;
    } else {
      TracedChain(base, open, mines, seed, parent, rank, p);
      var path :| ZeroChain(mines, path) && path[0] == seed && path[|path| - 1] == p &&
        forall k :: 0 <= k < |path| ==> path[k] in area;
      var path' := path + [c];
      assert ZeroChain(mines, path');
      assert forall k :: 0 <= k < |path'| ==> path'[k] in area;
      assert path'[0] == seed && path'[|path'| - 1] == c;
    }
  }

  /** The invariant of the flood-fill loop over the open set, the queue and
      the ghost parent map: only safe cells are opened, queued cells are open
      and are the seed or opened by the fill, every opened cell is traced,
      and every open zero cell not waiting in the queue is settled. */
  predicate FloodInv(base: set<Coord>, open: set<Coord>, mines: set<Coord>, seed: Coord,
                     queue: seq<Coord>, parent: map<Coord, Coord>, rank: map<Coord, nat>)
  {
    base <= open && (open - base) !! mines &&
    (forall c :: c in queue ==> c in open && (c == seed || c in open - base)) &&
    Traced(base, open, mines, seed, parent, rank) &&
    (forall c :: c in open && Zero(mines, c) && c !in queue ==> Settled(open, mines, c))
  }

  /** The loop starts with the seed alone in the queue. */
  lemma FloodInvInit(open: set<Coord>, mines: set<Coord>, seed: Coord)
    requires seed in open && Zero(mines, seed)
    requires forall c :: c in open && Zero(mines, c) && c != seed ==> Settled(open, mines, c)
    ensures FloodInv(open, open, mines, seed, [seed], map[], map[])
  {
  }

  /** A dequeued cell with a nonzero number is dropped. */
  lemma FloodInvSkip(base: set<Coord>, open: set<Coord>, mines: set<Coord>, seed: Coord,
                     queue: seq<Coord>, parent: map<Coord, Coord>, rank: map<Coord, nat>)
    requires FloodInv(base, open, mines, seed, queue, parent, rank)
    requires queue != [] && !Zero(mines, queue[0])
    ensures FloodInv(base, open, mines, seed, queue[1..], parent, rank)
  {
    forall c | c in open && Zero(mines, c) && c !in queue[1..]
      ensures Settled(open, mines, c)
    {
      assert c !in queue by {
        assert queue == [queue[0]] + queue[1..];
      }
    }
  }

  /** A dequeued zero cell has its closed safe neighbours opened, traced to it,
      and queued; the open set grows when anything is added. */
  lemma FloodInvExpand(base: set<Coord>, open: set<Coord>, mines: set<Coord>, seed: Coord,
                       queue: seq<Coord>, parent: map<Coord, Coord>, rank: map<Coord, nat>,
                       added: seq<Coord>)
    requires FloodInv(base, open, mines, seed, queue, parent, rank)
    requires queue != [] && Zero(mines, queue[0])
    requires Elems(added) == ClosedNeighbours(open, mines, queue[0])
    ensures FloodInv(base, open + Elems(added), mines, seed, queue[1..] + added,
                     parent + map c | c in added :: queue[0],
                     rank + map c | c in added :: ChildRank(rank, queue[0]))
    ensures added != [] ==> Cells() - (open + Elems(added)) < Cells() - open
  {
    var cur, open' := queue[0], open + Elems(added);
    var parent', rank' := parent + map c | c in added :: cur, rank + map c | c in added :: ChildRank(rank, cur);
    assert queue == [cur] + queue[1..];
    FloodStepClosed(open, mines, cur, queue[1..], added);
    forall c | c in open' - base
      ensures c in parent' && c in rank' && Adjacent(c, parent'[c]) && Zero(mines, parent'[c])
      ensures parent'[c] == seed ||
        (parent'[c] in open' - base && parent'[c] in rank' && rank'[parent'[c]] < rank'[c])
    {
      if c in Elems(added) {
        assert c in ClosedNeighbours(open, mines, cur);
      }
    }
    if added != [] {
      assert added[0] in ClosedNeighbours(open, mines, cur);
    }
  }

  /** Flood-fill completeness: when the closure holds, a chain of adjacent
      cells that starts at an open cell and passes only through zero cells
      ends at an open cell, provided that last cell has no mine. */
  lemma {:induction false} ZeroChainOpened(open: set<Coord>, mines: set<Coord>, path: seq<Coord>)
    requires ZeroClosed(open, mines)
    requires ZeroChain(mines, path) && path[0] in open
    requires path[|path| - 1] !in mines
    ensures path[|path| - 1] in open
    decreases |path|
  {
    if |path| > 1 {
      assert Settled(open, mines, path[0]);
      assert path[1] !in mines by {
        if |path| > 2 {
          assert Zero(mines, path[1]);
        }
      }
      ZeroChainOpened(open, mines, path[1..]);
    }
  }

  /** The flood fill's result, exactly: when the board is closed over zero
      cells and every newly opened cell is reached from the open seed, a safe
      position is open iff it was open before or some zero chain from the seed
      reaches it. */
  lemma FloodRegionExact(before: set<Coord>, open: set<Coord>, mines: set<Coord>, seed: Coord)
    requires ZeroClosed(open, mines) && before <= open && open <= Cells() && seed in open
    requires forall c :: c in open - before ==> ReachedFrom(mines, seed, open - before, c)
    ensures forall c :: c !in mines ==> (c in open <==> c in before || ReachedFrom(mines, seed, Cells(), c))
  {
    forall c | c !in mines
      ensures c in open <==> c in before || ReachedFrom(mines, seed, Cells(), c)
    {
      if c in open - before {
        ReachedWithin(mines, seed, open - before, Cells(), c);
      }
      if ReachedFrom(mines, seed, Cells(), c) {
        var path :| ZeroChain(mines, path) && path[0] == seed && path[|path| - 1] == c &&
          forall k :: 0 <= k < |path| ==> path[k] in Cells();
        ZeroChainOpened(open, mines, path);
      }
    }
  }

  /** The win condition: every position without a mine is open. */
  predicate AllSafeOpen(open: set<Coord>, mines: set<Coord>) {
    forall c :: c in Cells() && c !in mines ==> c in open
  }

  /** With MineCount mines on the board some cell is safe, so a board with
      nothing open is never already won. */
  lemma FreshBoardNotWon(mines: set<Coord>)
    requires |mines| == MineCount
    ensures !AllSafeOpen({}, mines)
  {
    if AllSafeOpen({}, mines) {
      assert Cells() <= mines;
      SubsetCardinality(Cells(), mines);
    }
  }
}
