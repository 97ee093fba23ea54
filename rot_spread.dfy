/** The minute-by-minute meaning of the rotting-fruit simulation, stated
    without queues: in one minute every fresh fruit that shares a side with
    a rotten one turns rotten, and the recorded history repeats that minute
    until nothing changes. */
module RotSpread {

  /** Cell values. */
  const Empty := 0
  const Fresh := 1
  const Rotten := 2

  type Grid = seq<seq<int>>
  type Cell = (int, int)

  /** g has `rows` rows of `cols` cells each. */
  predicate IsShape(g: Grid, rows: nat, cols: nat) {
    |g| == rows && forall r :: 0 <= r < rows ==> |g[r]| == cols
  }

  predicate InGrid(g: Grid, r: int, c: int) {
    0 <= r < |g| && 0 <= c < |g[r]|
  }

  predicate RottenAt(g: Grid, r: int, c: int) {
    InGrid(g, r, c) && g[r][c] == Rotten
  }

  /** y is the right, down, left or up neighbour of x. */
  predicate Adjacent(x: Cell, y: Cell) {
    y == (x.0, x.1 + 1) || y == (x.0 + 1, x.1) || y == (x.0, x.1 - 1) || y == (x.0 - 1, x.1)
  }

  /** Some cell that shares a side with (r, c) is rotten. */
  predicate HasRottenNeighbour(g: Grid, r: int, c: int) {
    RottenAt(g, r, c + 1) || RottenAt(g, r + 1, c) || RottenAt(g, r, c - 1) || RottenAt(g, r - 1, c)
  }

  /** The cells of g holding value v. */
  function CellsWith(g: Grid, v: int): set<Cell> {
    set r, c | 0 <= r < |g| && 0 <= c < |g[r]| && g[r][c] == v :: (r, c)
  }

  function SpreadCell(g: Grid, r: int, c: int): int
    requires InGrid(g, r, c)
  {
    if g[r][c] == Fresh && HasRottenNeighbour(g, r, c) then Rotten else g[r][c]
  }

  /** b has the shape of a, and each cell of b either keeps its value in a
      or went from fresh to rotten. */
  ghost predicate OnlyRots(a: Grid, b: Grid) {
    && |b| == |a|
    && (forall r :: 0 <= r < |a| ==> |b[r]| == |a[r]|)
    && (forall r, c :: InGrid(a, r, c) ==>
          b[r][c] == a[r][c] || (a[r][c] == Fresh && b[r][c] == Rotten))
  }

  /** One minute of spreading: only fresh cells change, and only to rotten. */
  function Spread(g: Grid): (n: Grid)
    ensures OnlyRots(g, n)
  {
    seq(|g|, r requires 0 <= r < |g| =>
      seq(|g[r]|, c requires 0 <= c < |g[r]| => SpreadCell(g, r, c)))
  }

  /** Grids of the same shape that agree on every cell are equal. */
  lemma SameCellsSameGrid(a: Grid, b: Grid)
    requires |a| == |b| && forall r :: 0 <= r < |a| ==> |a[r]| == |b[r]|
    requires forall r, c :: InGrid(a, r, c) ==> a[r][c] == b[r][c]
    ensures a == b
  {
    forall r | 0 <= r < |a| ensures a[r] == b[r] {
      assert forall c :: 0 <= c < |a[r]| ==> a[r][c] == b[r][c];
    }
  }

  lemma CellsWithMember(g: Grid, v: int, r: int, c: int)
    ensures (r, c) in CellsWith(g, v) <==> InGrid(g, r, c) && g[r][c] == v
  {
    if InGrid(g, r, c) && g[r][c] == v {
      assert (r, c) in CellsWith(g, v);
    }
  }

  /** A minute that changes the grid rots at least one fresh cell: fewer
      cells are fresh and more are rotten afterwards. */
  lemma SpreadShrinksFresh(g: Grid)
    requires Spread(g) != g
    ensures CellsWith(Spread(g), Fresh) < CellsWith(g, Fresh)
    ensures CellsWith(g, Rotten) < CellsWith(Spread(g), Rotten)
  {
    var n := Spread(g);
    forall y | y in CellsWith(n, Fresh) ensures y in CellsWith(g, Fresh) {
      CellsWithMember(n, Fresh, y.0, y.1);
      CellsWithMember(g, Fresh, y.0, y.1);
    }
    forall y | y in CellsWith(g, Rotten) ensures y in CellsWith(n, Rotten) {
      CellsWithMember(n, Rotten, y.0, y.1);
      CellsWithMember(g, Rotten, y.0, y.1);
    }
    if forall r, c :: InGrid(g, r, c) ==> n[r][c] == g[r][c] {
      SameCellsSameGrid(n, g);
    }
    var r, c :| InGrid(g, r, c) && n[r][c] != g[r][c];
    CellsWithMember(n, Fresh, r, c);
    CellsWithMember(g, Fresh, r, c);
    CellsWithMember(n, Rotten, r, c);
    CellsWithMember(g, Rotten, r, c);
  }

  /** A minute changes nothing exactly when no fresh cell has a rotten
      neighbour. */
  lemma SpreadFixpoint(g: Grid)
    ensures Spread(g) == g <==>
            forall r, c :: InGrid(g, r, c) && g[r][c] == Fresh ==> !HasRottenNeighbour(g, r, c)
  {
    var n := Spread(g);
    if forall r, c :: InGrid(g, r, c) && g[r][c] == Fresh ==> !HasRottenNeighbour(g, r, c) {
      SameCellsSameGrid(n, g);
    } else {
      var r, c :| InGrid(g, r, c) && g[r][c] == Fresh && HasRottenNeighbour(g, r, c);
      assert n[r][c] == Rotten;
    }
  }

  /** Spreading moves cells only from fresh to rotten: the empty cells, the
      fresh-or-rotten cells and the cells of any other value are the same
      set before and after. */
  lemma SpreadKeepsKinds(g: Grid)
    ensures CellsWith(Spread(g), Empty) == CellsWith(g, Empty)
    ensures CellsWith(Spread(g), Fresh) + CellsWith(Spread(g), Rotten)
         == CellsWith(g, Fresh) + CellsWith(g, Rotten)
    ensures forall v :: v != Fresh && v != Rotten ==> CellsWith(Spread(g), v) == CellsWith(g, v)
  {
    var n := Spread(g);
    forall v, y | v != Fresh && v != Rotten ensures y in CellsWith(n, v) <==> y in CellsWith(g, v) {
      CellsWithMember(n, v, y.0, y.1);
      CellsWithMember(g, v, y.0, y.1);
    }
    forall y ensures y in CellsWith(n, Fresh) + CellsWith(n, Rotten) <==> y in CellsWith(g, Fresh) + CellsWith(g, Rotten) {
      CellsWithMember(n, Fresh, y.0, y.1);
      CellsWithMember(g, Fresh, y.0, y.1);
      CellsWithMember(n, Rotten, y.0, y.1);
      CellsWithMember(g, Rotten, y.0, y.1);
    }
  }

  /** The recorded history of a grid: the grid itself, then one grid per
      minute that changed something. */
  function Trace(g: Grid): (t: seq<Grid>)
    ensures |t| >= 1 && t[0] == g
    decreases CellsWith(g, Fresh)
  {
    var n := Spread(g);
    if n == g then [g]
    else
      SpreadShrinksFresh(g);
      [g] + Trace(n)
  }

  /** One step of the history's definition. */
  lemma TraceUnfold(g: Grid)
    ensures Spread(g) == g ==> Trace(g) == [g]
    ensures Spread(g) != g ==> Trace(g) == [g] + Trace(Spread(g))
  {
  }

  function Last(t: seq<Grid>): Grid
    requires |t| > 0
  {
    t[|t| - 1]
  }

  /** Each state of the history is one minute after the one before it, and
      differs from it. */
  lemma {:induction false} TraceStep(g: Grid, k: nat)
    requires k + 1 < |Trace(g)|
    ensures Trace(g)[k + 1] == Spread(Trace(g)[k])
    ensures Trace(g)[k + 1] != Trace(g)[k]
    decreases k
  {
    var n := Spread(g);
    assert n != g;
    assert Trace(g) == [g] + Trace(n);
    if k > 0 {
      TraceStep(n, k - 1);
    }
  }

  /** The last state of the history is a fixpoint: no fresh cell in it has
      a rotten neighbour. */
  lemma {:induction false} TraceEndsAtFixpoint(g: Grid)
    ensures Spread(Last(Trace(g))) == Last(Trace(g))
    ensures forall r, c :: InGrid(Last(Trace(g)), r, c) && Last(Trace(g))[r][c] == Fresh ==>
              !HasRottenNeighbour(Last(Trace(g)), r, c)
    decreases CellsWith(g, Fresh)
  {
    var n := Spread(g);
    if n != g {
      SpreadShrinksFresh(g);
      assert Trace(g) == [g] + Trace(n);
      TraceEndsAtFixpoint(n);
    }
    SpreadFixpoint(Last(Trace(g)));
  }

  /** Every minute recorded rots at least one cell, so the history holds at
      most one state more than the grid has fresh cells. */
  lemma {:induction false} TraceLengthBound(g: Grid)
    ensures |Trace(g)| <= |CellsWith(g, Fresh)| + 1
    decreases CellsWith(g, Fresh)
  {
    var n := Spread(g);
    if n != g {
      SpreadShrinksFresh(g);
      assert Trace(g) == [g] + Trace(n);
      TraceLengthBound(n);
      assert |CellsWith(g, Fresh)| == |CellsWith(n, Fresh)| + |CellsWith(g, Fresh) - CellsWith(n, Fresh)|;
    }
  }

  /** Every state of the history has the shape of the original grid. */
  lemma {:induction false} TraceKeepsShape(g: Grid, rows: nat, cols: nat, k: nat)
    requires IsShape(g, rows, cols) && k < |Trace(g)|
    ensures IsShape(Trace(g)[k], rows, cols)
    decreases k
  {
    if k > 0 {
      TraceStep(g, k - 1);
      TraceKeepsShape(g, rows, cols, k - 1);
    }
  }

  /** Between consecutive states the only change is fresh to rotten, and
      each recorded minute strictly grows the set of rotten cells. */
  lemma ConsecutiveStates(g: Grid, k: nat)
    requires k + 1 < |Trace(g)|
    ensures OnlyRots(Trace(g)[k], Trace(g)[k + 1])
    ensures CellsWith(Trace(g)[k], Rotten) < CellsWith(Trace(g)[k + 1], Rotten)
    ensures |CellsWith(Trace(g)[k], Rotten)| < |CellsWith(Trace(g)[k + 1], Rotten)|
  {
    var a, b := Trace(g)[k], Trace(g)[k + 1];
    TraceStep(g, k);
    SpreadShrinksFresh(a);
    assert |CellsWith(b, Rotten)| == |CellsWith(a, Rotten)| + |CellsWith(b, Rotten) - CellsWith(a, Rotten)|;
  }

  /** Across the whole history the empty cells, the fresh-or-rotten cells
      and the cells of any other value never change. */
  lemma {:induction false} TraceKeepsKinds(g: Grid, k: nat)
    requires k < |Trace(g)|
    ensures CellsWith(Trace(g)[k], Empty) == CellsWith(g, Empty)
    ensures CellsWith(Trace(g)[k], Fresh) + CellsWith(Trace(g)[k], Rotten)
         == CellsWith(g, Fresh) + CellsWith(g, Rotten)
    ensures forall v :: v != Fresh && v != Rotten ==> CellsWith(Trace(g)[k], v) == CellsWith(g, v)
    decreases k
  {
    if k > 0 {
      TraceStep(g, k - 1);
      SpreadKeepsKinds(Trace(g)[k - 1]);
      TraceKeepsKinds(g, k - 1);
    }
  }

  /** A cell never becomes fresh again: a cell fresh in a later state is
      fresh in every earlier one. */
  lemma {:induction false} FreshOnlyShrinks(g: Grid, i: nat, j: nat)
    requires i <= j < |Trace(g)|
    ensures CellsWith(Trace(g)[j], Fresh) <= CellsWith(Trace(g)[i], Fresh)
    decreases j - i
  {
    if i < j {
      TraceStep(g, i);
      SpreadShrinksFresh(Trace(g)[i]);
      FreshOnlyShrinks(g, i + 1, j);
    }
  }

  /** Only the last state of the history can be free of fresh cells. */
  lemma NoFreshOnlyAtEnd(g: Grid, k: nat)
    requires k + 1 < |Trace(g)|
    ensures CellsWith(Trace(g)[k], Fresh) != {}
  {
    TraceStep(g, k);
    SpreadShrinksFresh(Trace(g)[k]);
  }

  /** Every state before the last still has a fresh cell, and the fresh
      cells left at the end were fresh in every state. */
  lemma HistoryFreshFacts(g: Grid)
    ensures forall k :: 0 <= k < |Trace(g)| - 1 ==> CellsWith(Trace(g)[k], Fresh) != {}
    ensures forall k :: 0 <= k < |Trace(g)| ==>
              CellsWith(Last(Trace(g)), Fresh) <= CellsWith(Trace(g)[k], Fresh)
  {
    forall k | 0 <= k < |Trace(g)| - 1 ensures CellsWith(Trace(g)[k], Fresh) != {} {
      NoFreshOnlyAtEnd(g, k);
    }
    forall k | 0 <= k < |Trace(g)|
      ensures CellsWith(Last(Trace(g)), Fresh) <= CellsWith(Trace(g)[k], Fresh)
    {
      FreshOnlyShrinks(g, k, |Trace(g)| - 1);
    }
  }

  lemma HasRottenNeighbourWitness(g: Grid, r: int, c: int)
    requires HasRottenNeighbour(g, r, c)
    ensures exists x :: Adjacent(x, (r, c)) && RottenAt(g, x.0, x.1)
  {
    if RottenAt(g, r, c + 1) {
      assert Adjacent((r, c + 1), (r, c));
    } else if RottenAt(g, r + 1, c) {
      assert Adjacent((r + 1, c), (r, c));
    } else if RottenAt(g, r, c - 1) {
      assert Adjacent((r, c - 1), (r, c));
    } else {
      assert Adjacent((r - 1, c), (r, c));
    }
  }

  /** A fresh cell that stays fresh over a minute has no rotten neighbour
      before it, so any rotten neighbour it has afterwards rotted during
      that minute. */
  lemma NewRottenNeighbour(p: Grid, r: int, c: int, x: Cell)
    requires InGrid(p, r, c) && p[r][c] == Fresh && Spread(p)[r][c] == Fresh
    requires Adjacent(x, (r, c)) && RottenAt(Spread(p), x.0, x.1)
    ensures InGrid(p, x.0, x.1) && p[x.0][x.1] == Fresh
  {
    assert !HasRottenNeighbour(p, r, c);
    assert !RottenAt(p, x.0, x.1);
  }

  /** A cell that rots in minute k + 1 shares a side with a cell of that
      minute's frontier: a cell that was rotten at the start (k = 0) or
      that rotted in minute k. */
  lemma RotComesFromFrontier(g: Grid, k: nat, r: int, c: int)
    requires k + 1 < |Trace(g)| && InGrid(Trace(g)[k], r, c) && InGrid(Trace(g)[k + 1], r, c)
    requires Trace(g)[k][r][c] == Fresh && Trace(g)[k + 1][r][c] == Rotten
    ensures exists x :: Adjacent(x, (r, c)) && RottenAt(Trace(g)[k], x.0, x.1) &&
              (k == 0 || (InGrid(Trace(g)[k - 1], x.0, x.1) && Trace(g)[k - 1][x.0][x.1] == Fresh))
  {
    var t := Trace(g);
    var cur := t[k];
    TraceStep(g, k);
    assert Spread(cur)[r][c] == SpreadCell(cur, r, c);
    HasRottenNeighbourWitness(cur, r, c);
    var x :| Adjacent(x, (r, c)) && RottenAt(cur, x.0, x.1);
    if k > 0 {
      TraceStep(g, k - 1);
      var p := t[k - 1];
      assert Spread(p) == cur;
      NewRottenNeighbour(p, r, c, x);
    }
  }
}
