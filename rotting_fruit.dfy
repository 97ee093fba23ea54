/** The rotting-fruit visualizer's simulation: the constructor loads a grid,
    queues the rotten cells, runs a level-by-level breadth-first flood on a
    copy of the grid and records one snapshot per minute that changed
    something. */
module RottingFruit {
  import opened RotSpread

  /** Right, down, left, up. */
  const Directions: seq<(int, int)> := [(0, 1), (1, 0), (0, -1), (-1, 0)]

  /** The contents of a 2-D array as a grid value (a copy of it). */
  function Snapshot(a: array2<int>): (g: Grid)
    reads a
    ensures IsShape(g, a.Length0, a.Length1)
    ensures forall r, c :: 0 <= r < a.Length0 && 0 <= c < a.Length1 ==> g[r][c] == a[r, c]
  {
    seq(a.Length0, r requires 0 <= r < a.Length0 reads a =>
      seq(a.Length1, c requires 0 <= c < a.Length1 reads a => a[r, c]))
  }

  /** a before b in row-major order. */
  predicate RowMajorBefore(a: Cell, b: Cell) {
    a.0 < b.0 || (a.0 == b.0 && a.1 < b.1)
  }

  /** q lists exactly the rotten cells of g, in row-major order. */
  ghost predicate IsRottenListing(g: Grid, q: seq<Cell>) {
    && (forall i :: 0 <= i < |q| ==> RottenAt(g, q[i].0, q[i].1))
    && (forall r, c :: RottenAt(g, r, c) ==> (r, c) in q)
    && (forall i, j :: 0 <= i < j < |q| ==> RowMajorBefore(q[i], q[j]))
  }

  function Untag(q: seq<(int, int, int)>): seq<Cell> {
    seq(|q|, i requires 0 <= i < |q| => (q[i].0, q[i].1))
  }

  /** The visualizer's own queue: the rotten cells of g in row-major order,
      each tagged with minute 0. */
  ghost predicate IsInitialQueue(g: Grid, q: seq<(int, int, int)>) {
    IsRottenListing(g, Untag(q)) && forall i :: 0 <= i < |q| ==> q[i].2 == 0
  }

  /** The scan for rotten cells, row by row and column by column. */
  method CollectRotten(g: Grid, rows: nat, cols: nat) returns (q: seq<Cell>)
    requires IsShape(g, rows, cols)
    ensures IsRottenListing(g, q)
  {
    q := [];
    for i := 0 to rows
      invariant forall k :: 0 <= k < |q| ==> RottenAt(g, q[k].0, q[k].1) && q[k].0 < i
      invariant forall r, c :: 0 <= r < i && RottenAt(g, r, c) ==> (r, c) in q
      invariant forall k, l :: 0 <= k < l < |q| ==> RowMajorBefore(q[k], q[l])
    {
      for j := 0 to cols
        invariant forall k :: 0 <= k < |q| ==> RottenAt(g, q[k].0, q[k].1) && RowMajorBefore(q[k], (i, j))
        invariant forall r, c :: (r < i || (r == i && c < j)) && RottenAt(g, r, c) ==> (r, c) in q
        invariant forall k, l :: 0 <= k < l < |q| ==> RowMajorBefore(q[k], q[l])
      {
        if g[i][j] == Rotten {
          q := q + [(i, j)];
        }
      }
    }
  }

  /** The neighbour of x in direction e. */
  function Neighbour(x: Cell, e: nat): Cell
    requires e < |Directions|
  {
    (x.0 + Directions[e].0, x.1 + Directions[e].1)
  }

  /** The cells reached from x by the first d directions. */
  function Reached(x: Cell, d: nat): set<Cell>
    requires d <= |Directions|
  {
    if d == 0 then {} else Reached(x, d - 1) + {Neighbour(x, d - 1)}
  }

  /** The four directions reach exactly the cells that share a side with x. */
  lemma AllDirectionsReachAdjacent(x: Cell)
    ensures forall y :: y in Reached(x, 4) <==> Adjacent(x, y)
  {
    assert Reached(x, 1) == {Neighbour(x, 0)};
    assert Reached(x, 2) == {Neighbour(x, 0), Neighbour(x, 1)};
    assert Reached(x, 3) == {Neighbour(x, 0), Neighbour(x, 1), Neighbour(x, 2)};
    assert Reached(x, 4) == {Neighbour(x, 0), Neighbour(x, 1), Neighbour(x, 2), Neighbour(x, 3)};
  }

  /** One dequeued cell (row, col) rots every fresh in-bounds neighbour and
      queues it for the next minute, in direction order. */
  method SpreadFrom(grid: array2<int>, directions: seq<(int, int)>, row: int, col: int, next: seq<Cell>)
    returns (next': seq<Cell>)
    requires directions == Directions
    modifies grid
    ensures forall r, c :: 0 <= r < grid.Length0 && 0 <= c < grid.Length1 ==>
              grid[r, c] == if old(grid[r, c]) == Fresh && Adjacent((row, col), (r, c)) then Rotten else old(grid[r, c])
    ensures |next'| >= |next| && next'[..|next|] == next
    ensures forall y :: y in next' <==> (y in next ||
              (0 <= y.0 < grid.Length0 && 0 <= y.1 < grid.Length1 &&
               old(grid[y.0, y.1]) == Fresh && Adjacent((row, col), y)))
  {
    next' := next;
    for d := 0 to |directions|
      invariant forall r, c :: 0 <= r < grid.Length0 && 0 <= c < grid.Length1 ==>
                  grid[r, c] == if old(grid[r, c]) == Fresh && (r, c) in Reached((row, col), d) then Rotten else old(grid[r, c])
      invariant |next'| >= |next| && next'[..|next|] == next
      invariant forall y :: y in next' <==> (y in next ||
                  (0 <= y.0 < grid.Length0 && 0 <= y.1 < grid.Length1 &&
                   old(grid[y.0, y.1]) == Fresh && y in Reached((row, col), d)))
    {
      var (dr, dc) := directions[d];
      var newRow, newCol := row + dr, col + dc;
      assert Reached((row, col), d + 1) == Reached((row, col), d) + {(newRow, newCol)};
      if 0 <= newRow < grid.Length0 && 0 <= newCol < grid.Length1 {
        if grid[newRow, newCol] == Fresh {
          grid[newRow, newCol] := Rotten;
          next' := next' + [(newRow, newCol)];
        }
      }
    }
    AllDirectionsReachAdjacent((row, col));
  }

  /** y shares a side with some cell of q. */
  ghost predicate NearAny(q: seq<Cell>, y: Cell) {
    exists i :: 0 <= i < |q| && Adjacent(q[i], y)
  }

  lemma NearAnyAppend(q: seq<Cell>, x: Cell, y: Cell)
    ensures NearAny(q + [x], y) <==> NearAny(q, y) || Adjacent(x, y)
  {
    if NearAny(q, y) {
      var i :| 0 <= i < |q| && Adjacent(q[i], y);
      assert (q + [x])[i] == q[i];
    }
    if Adjacent(x, y) {
      assert (q + [x])[|q|] == x;
    }
    if NearAny(q + [x], y) {
      var i :| 0 <= i < |q| + 1 && Adjacent((q + [x])[i], y);
      if i < |q| {
        assert (q + [x])[i] == q[i];
      }
    }
  }

  /** g1 is g0 with every fresh cell next to a cell of q turned rotten. */
  ghost predicate RotsNear(g0: Grid, q: seq<Cell>, g1: Grid) {
    && |g1| == |g0|
    && (forall r :: 0 <= r < |g0| ==> |g1[r]| == |g0[r]|)
    && (forall r, c :: InGrid(g0, r, c) ==>
          g1[r][c] == if g0[r][c] == Fresh && NearAny(q, (r, c)) then Rotten else g0[r][c])
  }

  /** next holds exactly the cells that are fresh in g0 and rotten in g1. */
  ghost predicate NewlyRotten(g0: Grid, g1: Grid, next: seq<Cell>) {
    forall y :: y in next <==>
      InGrid(g0, y.0, y.1) && InGrid(g1, y.0, y.1) && g0[y.0][y.1] == Fresh && g1[y.0][y.1] == Rotten
  }

  /** One minute: empty the frontier queue, spreading from each cell, and
      collect the cells that rotted in next, the frontier of the next
      minute. */
  method RotFrontier(grid: array2<int>, directions: seq<(int, int)>, frontier: seq<Cell>)
    returns (next: seq<Cell>)
    requires directions == Directions
    modifies grid
    ensures RotsNear(old(Snapshot(grid)), frontier, Snapshot(grid))
    ensures NewlyRotten(old(Snapshot(grid)), Snapshot(grid), next)
  {
    var queue := frontier;
    next := [];
    ghost var done: seq<Cell> := [];
    while queue != []
      invariant frontier == done + queue
      invariant forall r, c :: 0 <= r < grid.Length0 && 0 <= c < grid.Length1 ==>
                  grid[r, c] == if old(grid[r, c]) == Fresh && NearAny(done, (r, c)) then Rotten else old(grid[r, c])
      invariant forall y :: y in next <==>
                  0 <= y.0 < grid.Length0 && 0 <= y.1 < grid.Length1 &&
                  old(grid[y.0, y.1]) == Fresh && grid[y.0, y.1] == Rotten
      decreases |queue|
    {
      var (row, col) := queue[0];
      queue := queue[1..];
      next := SpreadFrom(grid, directions, row, col, next);
      forall y { NearAnyAppend(done, (row, col), y); }
      done := done + [(row, col)];
    }
    assert done == frontier;
  }

  /** q is a frontier of g: its cells are rotten in g, and every fresh cell
      of g with a rotten neighbour shares a side with one of them. */
  ghost predicate IsFrontier(g: Grid, q: seq<Cell>) {
    && (forall i :: 0 <= i < |q| ==> RottenAt(g, q[i].0, q[i].1))
    && (forall r, c :: InGrid(g, r, c) && g[r][c] == Fresh && HasRottenNeighbour(g, r, c) ==> NearAny(q, (r, c)))
  }

  /** Rotting the neighbours of a frontier is exactly one minute of spreading. */
  lemma FrontierRoundIsSpread(g0: Grid, q: seq<Cell>, g1: Grid)
    requires IsFrontier(g0, q) && RotsNear(g0, q, g1)
    ensures g1 == Spread(g0)
  {
    var n := Spread(g0);
    forall r, c | InGrid(g0, r, c) ensures g1[r][c] == n[r][c] {
      if g0[r][c] == Fresh && NearAny(q, (r, c)) {
        var i :| 0 <= i < |q| && Adjacent(q[i], (r, c));
        assert RottenAt(g0, q[i].0, q[i].1);
        assert HasRottenNeighbour(g0, r, c);
      }
    }
    SameCellsSameGrid(g1, n);
  }

  /** The cells that rotted in a minute form the frontier of the next one. */
  lemma FrontierAdvances(g0: Grid, q: seq<Cell>, next: seq<Cell>)
    requires IsFrontier(g0, q) && NewlyRotten(g0, Spread(g0), next)
    ensures IsFrontier(Spread(g0), next)
  {
    var g1 := Spread(g0);
    forall i | 0 <= i < |next| ensures RottenAt(g1, next[i].0, next[i].1) {
      assert next[i] in next;
    }
    forall r, c | InGrid(g1, r, c) && g1[r][c] == Fresh && HasRottenNeighbour(g1, r, c)
      ensures NearAny(next, (r, c))
    {
      HasRottenNeighbourWitness(g1, r, c);
      var x :| Adjacent(x, (r, c)) && RottenAt(g1, x.0, x.1);
      NewRottenNeighbour(g0, r, c, x);
      assert x in next;
      var i :| 0 <= i < |next| && next[i] == x;
    }
  }

  /** The listing of all rotten cells is a frontier of the grid. */
  lemma RottenListingIsFrontier(g: Grid, q: seq<Cell>)
    requires IsRottenListing(g, q)
    ensures IsFrontier(g, q)
  {
    forall r, c | InGrid(g, r, c) && g[r][c] == Fresh && HasRottenNeighbour(g, r, c)
      ensures NearAny(q, (r, c))
    {
      HasRottenNeighbourWitness(g, r, c);
      var x :| Adjacent(x, (r, c)) && RottenAt(g, x.0, x.1);
      var i :| 0 <= i < |q| && q[i] == x;
    }
  }

  /** The frontier of the next minute is empty exactly when the minute
      changed nothing. */
  lemma EmptyFrontierMeansFixpoint(g0: Grid, next: seq<Cell>)
    requires NewlyRotten(g0, Spread(g0), next)
    ensures next == [] <==> Spread(g0) == g0
  {
    if next != [] {
      assert next[0] in next;
    } else {
      forall r, c | InGrid(g0, r, c) ensures Spread(g0)[r][c] == g0[r][c] {
        assert (r, c) !in next;
      }
      SameCellsSameGrid(Spread(g0), g0);
    }
  }

  /** The states recorded so far, whose last one is g, are the history of
      orig up to g. */
  ghost predicate RecordedUpTo(orig: Grid, states: seq<Grid>, g: Grid) {
    |states| >= 1 && Last(states) == g && Trace(orig) == states[..|states| - 1] + Trace(g)
  }

  lemma ConcatStep(whole: seq<Grid>, states: seq<Grid>, rest: seq<Grid>, g0: Grid, tail: seq<Grid>)
    requires |states| >= 1 && Last(states) == g0
    requires whole == states[..|states| - 1] + rest && rest == [g0] + tail
    ensures whole == states + tail
  {
    assert states == states[..|states| - 1] + [g0];
  }

  /** Recording a minute that changed the grid extends the recorded states
      along the history. */
  lemma RecordedStatesAdvance(orig: Grid, states: seq<Grid>, g0: Grid)
    requires RecordedUpTo(orig, states, g0)
    requires Spread(g0) != g0
    ensures RecordedUpTo(orig, states + [Spread(g0)], Spread(g0))
  {
    TraceUnfold(g0);
    ConcatStep(Trace(orig), states, Trace(g0), g0, Trace(Spread(g0)));
    assert (states + [Spread(g0)])[..|states|] == states;
  }

  /** With an empty frontier the recorded states are the whole history. */
  lemma RecordedStatesComplete(orig: Grid, states: seq<Grid>, g: Grid)
    requires RecordedUpTo(orig, states, g)
    requires IsFrontier(g, [])
    ensures states == Trace(orig)
  {
    SpreadFixpoint(g);
    TraceUnfold(g);
    ConcatStep(Trace(orig), states, Trace(g), g, []);
  }

  class Visualizer {
    var originalGrid: Grid
    var grid: Grid
    var rows: nat
    var cols: nat
    var directions: seq<(int, int)>
    var queue: seq<(int, int, int)>
    var allStates: seq<Grid>
    var maxMinutes: int

    ghost predicate Valid()
      reads this
    {
      && rows > 0 && IsShape(originalGrid, rows, cols)
      && grid == originalGrid
      && directions == Directions
      && IsInitialQueue(grid, queue)
      && allStates == Trace(originalGrid)
      && maxMinutes == |allStates| - 1
    }

    /** Loads a rectangular grid of at least one row, queues its rotten
        cells and records the whole simulation. */
    constructor (g: Grid)
      requires |g| > 0 && IsShape(g, |g|, |g[0]|)
      ensures Valid()
      ensures originalGrid == g && rows == |g| && cols == |g[0]|
    {
      originalGrid := g;
      grid := g;
      rows, cols := |g|, |g[0]|;
      directions := Directions;
      queue := [];
      allStates := [];
      maxMinutes := 0;
      new;
      InitializeRottenQueue();
      allStates := SimulateAllStates();
      maxMinutes := |allStates| - 1;
    }

    /** Queues every rotten cell of the grid, tagged with minute 0. */
    method InitializeRottenQueue()
      requires IsShape(grid, rows, cols)
      modifies this`queue
      ensures IsInitialQueue(grid, queue)
    {
      var cells := CollectRotten(grid, rows, cols);
      queue := seq(|cells|, i requires 0 <= i < |cells| => (cells[i].0, cells[i].1, 0));
      assert Untag(queue) == cells;
    }

    /** Runs the flood on a copy of the original grid: the recorded states
        are the original grid followed by one state per minute that rotted
        something, which is the history Trace defines. */
    method SimulateAllStates() returns (states: seq<Grid>)
      requires IsShape(originalGrid, rows, cols) && directions == Directions
      ensures states == Trace(originalGrid)
      ensures states[0] == originalGrid
    {
      var original := originalGrid;
      var grid := new int[rows, cols]((r, c) => if 0 <= r < |original| && 0 <= c < |original[r]| then original[r][c] else 0);
      ghost var cur := Snapshot(grid);
      SameCellsSameGrid(cur, original);
      states := [Snapshot(grid)];
      var queue := CollectRotten(original, rows, cols);
      RottenListingIsFrontier(original, queue);
      var minute := 0;
      while queue != []
        invariant cur == Snapshot(grid)
        invariant RecordedUpTo(original, states, cur)
        invariant IsFrontier(cur, queue)
        decreases CellsWith(cur, Fresh), |queue|
      {
        minute := minute + 1;
        var next := RotFrontier(grid, directions, queue);
        ghost var g1 := Snapshot(grid);
        FrontierRoundIsSpread(cur, queue, g1);
        FrontierAdvances(cur, queue, next);
        EmptyFrontierMeansFixpoint(cur, next);
        if next != [] {
          RecordedStatesAdvance(original, states, cur);
          SpreadShrinksFresh(cur);
          states := states + [Snapshot(grid)];
        }
        queue := next;
        cur := g1;
      }
      RecordedStatesComplete(original, states, cur);
    }

    /** Minutes until no fresh fruit is left, or -1 when some fresh fruit
        can never rot. The first branch, for an empty history, cannot be
        taken once the constructor has run (see HistoryNeverEmpty). */
    function TimeToRotAll(): (m: int)
      reads this
      ensures allStates == [] ==> m == 0
      ensures Valid() ==> (m == -1 <==> CellsWith(Last(allStates), Fresh) != {})
      ensures Valid() && m == -1 ==> forall k :: 0 <= k < |allStates| ==>
                CellsWith(Last(allStates), Fresh) <= CellsWith(allStates[k], Fresh)
      ensures Valid() && m != -1 ==> m == maxMinutes && CellsWith(allStates[m], Fresh) == {}
      ensures Valid() && m != -1 ==> forall k :: 0 <= k < m ==> CellsWith(allStates[k], Fresh) != {}
      ensures Valid() ==> m <= |CellsWith(originalGrid, Fresh)|
    {
      HistoryFreshFacts(originalGrid);
      TraceLengthBound(originalGrid);
      if allStates == [] then 0
      else if CellsWith(Last(allStates), Fresh) != {} then -1
      else |allStates| - 1
    }

    /** The recorded history always holds at least the original grid. */
    lemma HistoryNeverEmpty()
      requires Valid()
      ensures allStates != [] && allStates[0] == originalGrid
    {
    }
  }
}

/** The visualizer's documented example grids as concrete histories. */
module RottingFruitExamples {
  import opened RotSpread
  import opened RottingFruit

  /** Example 1: a 3 x 3 grid with one rotten corner. */
  const Corner: Grid := [[2, 1, 1], [1, 1, 1], [1, 1, 1]]
  const CornerOne: Grid := [[2, 2, 1], [2, 1, 1], [1, 1, 1]]
  const CornerTwo: Grid := [[2, 2, 2], [2, 2, 1], [2, 1, 1]]
  const CornerThree: Grid := [[2, 2, 2], [2, 2, 2], [2, 2, 1]]
  const CornerFour: Grid := [[2, 2, 2], [2, 2, 2], [2, 2, 2]]

  lemma CornerMinuteOne()
    ensures Spread(Corner) == CornerOne
  {
    var n := Spread(Corner);
    assert n[0] == [2, 2, 1];
    assert n[1] == [2, 1, 1];
    assert n[2] == [1, 1, 1];
  }

  lemma CornerMinuteTwo()
    ensures Spread(CornerOne) == CornerTwo
  {
    var n := Spread(CornerOne);
    assert n[0] == [2, 2, 2];
    assert n[1] == [2, 2, 1];
    assert n[2] == [2, 1, 1];
  }

  lemma CornerMinuteThree()
    ensures Spread(CornerTwo) == CornerThree
  {
    var n := Spread(CornerTwo);
    assert n[0] == [2, 2, 2];
    assert n[1] == [2, 2, 2];
    assert n[2] == [2, 2, 1];
  }

  lemma CornerMinuteFour()
    ensures Spread(CornerThree) == CornerFour
  {
    var n := Spread(CornerThree);
    assert n[0] == [2, 2, 2];
    assert n[1] == [2, 2, 2];
    assert n[2] == [2, 2, 2];
  }

  lemma CornerSettles()
    ensures Spread(CornerFour) == CornerFour
  {
    var n := Spread(CornerFour);
    assert n[0] == [2, 2, 2];
    assert n[1] == [2, 2, 2];
    assert n[2] == [2, 2, 2];
  }

  lemma CornerFromThree()
    ensures Trace(CornerThree) == [CornerThree, CornerFour]
  {
    CornerMinuteFour();
    CornerSettles();
    TraceUnfold(CornerThree);
    TraceUnfold(CornerFour);
  }

  lemma CornerFromOne()
    ensures Trace(CornerOne) == [CornerOne, CornerTwo, CornerThree, CornerFour]
  {
    CornerMinuteTwo();
    CornerMinuteThree();
    CornerFromThree();
    TraceUnfold(CornerOne);
    TraceUnfold(CornerTwo);
  }

  /** Rot reaches the far corner in four minutes, and nothing fresh is
      left. */
  lemma CornerHistory()
    ensures Trace(Corner) == [Corner, CornerOne, CornerTwo, CornerThree, CornerFour]
    ensures CellsWith(Last(Trace(Corner)), Fresh) == {}
  {
    CornerMinuteOne();
    CornerFromOne();
    TraceUnfold(Corner);
    forall y | y in CellsWith(CornerFour, Fresh) ensures false {
      CellsWithMember(CornerFour, Fresh, y.0, y.1);
    }
  }

  /** The visualizer built on example 1 reports four minutes. */
  method CornerTimeToRot() returns (m: int)
    ensures m == 4
  {
    var v := new Visualizer(Corner);
    CornerHistory();
    m := v.TimeToRotAll();
  }

  /** Example 3: an empty middle row cuts the bottom row off. */
  const Blocked: Grid := [[2, 1, 1], [0, 0, 0], [1, 1, 1]]

  const BlockedOne: Grid := [[2, 2, 1], [0, 0, 0], [1, 1, 1]]
  const BlockedTwo: Grid := [[2, 2, 2], [0, 0, 0], [1, 1, 1]]

  lemma BlockedMinuteOne()
    ensures Spread(Blocked) == BlockedOne
  {
    var n := Spread(Blocked);
    assert n[0] == [2, 2, 1];
    assert n[1] == [0, 0, 0];
    assert n[2] == [1, 1, 1];
  }

  lemma BlockedMinuteTwo()
    ensures Spread(BlockedOne) == BlockedTwo
  {
    var n := Spread(BlockedOne);
    assert n[0] == [2, 2, 2];
    assert n[1] == [0, 0, 0];
    assert n[2] == [1, 1, 1];
  }

  lemma BlockedSettles()
    ensures Spread(BlockedTwo) == BlockedTwo
  {
    var n := Spread(BlockedTwo);
    assert n[0] == [2, 2, 2];
    assert n[1] == [0, 0, 0];
    assert n[2] == [1, 1, 1];
  }

  /** Rot spreads along the top row in two minutes and stops there: the
      bottom row stays fresh. */
  lemma BlockedHistory()
    ensures Trace(Blocked) == [Blocked, BlockedOne, BlockedTwo]
    ensures CellsWith(Last(Trace(Blocked)), Fresh) != {}
  {
    BlockedMinuteOne();
    BlockedMinuteTwo();
    BlockedSettles();
    TraceUnfold(Blocked);
    TraceUnfold(BlockedOne);
    TraceUnfold(BlockedTwo);
    CellsWithMember(BlockedTwo, Fresh, 2, 0);
  }

  /** The visualizer built on example 3 reports that not every fruit rots. */
  method BlockedTimeToRot() returns (m: int)
    ensures m == -1
  {
    var v := new Visualizer(Blocked);
    BlockedHistory();
    m := v.TimeToRotAll();
  }
}
