/** Growing a cluster of free cells from a seed, one queued cell at a time. */
module Clusters {
  import opened Grids
  import opened BinaryMatrices

  // ---- the region a seed can reach ---------------------------------------------------

  ghost function ToSet(s: seq<Cell>): set<Cell> {
    set x | x in s
  }

  /** Neighbours in the four directions, or in all eight. */
  predicate Adjacent(x: Cell, y: Cell, top: int) {
    if top == 8 then Touches(x, y) else Touches(x, y) && Straight(x, y)
  }

  /** A walk from `p[0]` whose later cells are all open. */
  ghost predicate Walk(open: set<Cell>, top: int, p: seq<Cell>) {
    && |p| >= 1
    && forall i :: 0 < i < |p| ==> p[i] in open && Adjacent(p[i - 1], p[i], top)
  }

  /** `y` can be reached from `x` in one or more steps through open cells. */
  ghost predicate Reaches(open: set<Cell>, top: int, x: Cell, y: Cell) {
    exists p :: Walk(open, top, p) && |p| >= 2 && p[0] == x && p[|p| - 1] == y
  }

  ghost function Region(open: set<Cell>, top: int, seed: Cell): set<Cell> {
    set y | y in open && Reaches(open, top, seed, y)
  }

  lemma ReachesStep(open: set<Cell>, top: int, seed: Cell, x: Cell, y: Cell)
    requires x == seed || Reaches(open, top, seed, x)
    requires y in open && Adjacent(x, y, top)
    ensures Reaches(open, top, seed, y)
  {
    if x == seed && !Reaches(open, top, seed, x) {
      assert Walk(open, top, [x, y]);
    } else {
      var p :| Walk(open, top, p) && |p| >= 2 && p[0] == seed && p[|p| - 1] == x;
      assert Walk(open, top, p + [y]);
    }
  }

  lemma {:induction false} ClosedContainsWalk(open: set<Cell>, top: int, closed: set<Cell>, p: seq<Cell>)
    requires Walk(open, top, p) && |p| >= 2
    requires forall y :: y in open && Adjacent(p[0], y, top) ==> y in closed
    requires forall x, y :: x in closed && y in open && Adjacent(x, y, top) ==> y in closed
    ensures p[|p| - 1] in closed
  {
    var n := |p| - 1;
    if n == 1 {
      assert Adjacent(p[0], p[1], top);
    } else {
      ClosedContainsWalk(open, top, closed, p[..n]);
      assert p[..n][n - 1] == p[n - 1];
      assert Adjacent(p[n - 1], p[n], top);
    }
  }

  /** Marks that are all reachable and closed under open neighbours are exactly the region. */
  lemma ClosedIsRegion(open: set<Cell>, top: int, seed: Cell, marks: set<Cell>)
    requires marks <= open
    requires forall x :: x in marks ==> Reaches(open, top, seed, x)
    requires forall y :: y in open && Adjacent(seed, y, top) ==> y in marks
    requires forall x, y :: x in marks && y in open && Adjacent(x, y, top) ==> y in marks
    ensures marks == Region(open, top, seed)
  {
    forall y | y in Region(open, top, seed)
      ensures y in marks
    {
      var p :| Walk(open, top, p) && |p| >= 2 && p[0] == seed && p[|p| - 1] == y;
      ClosedContainsWalk(open, top, marks, p);
    }
  }

  // ---- one growth step ---------------------------------------------------------------

  /** The cell examined in round `it`. */
  function Neighbour(x: Cell, it: int): Cell {
    match it
    case 0 => Cell(x.r - 1, x.c)
    case 1 => Cell(x.r + 1, x.c)
    case 2 => Cell(x.r, x.c - 1)
    case 3 => Cell(x.r, x.c + 1)
    case 4 => Cell(x.r + 1, x.c + 1)
    case 5 => Cell(x.r - 1, x.c + 1)
    case 6 => Cell(x.r - 1, x.c - 1)
    case _ => Cell(x.r + 1, x.c - 1)
  }

  /** The rounds examine exactly the adjacent cells. */
  lemma RoundsAreNeighbours(x: Cell, y: Cell, top: int)
    requires top == 4 || top == 8
    ensures Adjacent(x, y, top) <==> exists it :: 0 <= it < top && y == Neighbour(x, it)
    ensures (exists it :: 0 <= it < top && y == Neighbour(x, it)) <==>
            || y == Cell(x.r - 1, x.c) || y == Cell(x.r + 1, x.c) || y == Cell(x.r, x.c - 1) || y == Cell(x.r, x.c + 1)
            || (top == 8 && (y == Cell(x.r - 1, x.c - 1) || y == Cell(x.r - 1, x.c + 1)
                             || y == Cell(x.r + 1, x.c - 1) || y == Cell(x.r + 1, x.c + 1)))
  {
    if Adjacent(x, y, top) {
      var dr, dc := y.r - x.r, y.c - x.c;
      var it := if dr == -1 && dc == 0 then 0 else if dr == 1 && dc == 0 then 1
                else if dr == 0 && dc == -1 then 2 else if dr == 0 && dc == 1 then 3
                else if dr == 1 && dc == 1 then 4 else if dr == -1 && dc == 1 then 5
                else if dr == -1 && dc == -1 then 6 else 7;
      assert y == Neighbour(x, it);
    }
  }

  /** How the two matrices stand once `marks` have been made: `grid` and `visited` may be one matrix. */
  ghost predicate Standing(grid: BinaryMatrix, visited: BinaryMatrix, open: set<Cell>, first: set<Cell>,
                           marks: set<Cell>)
    requires grid.Valid() && visited.Valid()
    reads grid, grid.AllocatedMatrix, visited, visited.AllocatedMatrix
  {
    && marks <= open
    && (forall x :: x in open ==> 0 <= x.r < grid.Rows && 0 <= x.c < grid.Columns)
    && (forall r, c :: 0 <= r < grid.Rows && 0 <= c < grid.Columns ==>
          (!visited.At(r, c) && !grid.At(r, c) <==> Cell(r, c) in open && Cell(r, c) !in marks))
    && (forall r, c :: 0 <= r < grid.Rows && 0 <= c < grid.Columns ==>
          (visited.At(r, c) <==> Cell(r, c) in first || Cell(r, c) in marks))
  }

  ghost predicate Growable(grid: BinaryMatrix, visited: BinaryMatrix)
    reads grid, visited
  {
    && grid.Valid() && grid.WindowInside() && visited.Valid() && visited.WindowInside()
    && (grid == visited || grid.AllocatedMatrix != visited.AllocatedMatrix)
    && grid.Rows == visited.Rows && grid.Columns == visited.Columns
    && grid.Rows <= 32767 && grid.Columns <= 32767
  }

  method MarkCell(grid: BinaryMatrix, visited: BinaryMatrix, r: int, c: int,
                  ghost open: set<Cell>, ghost first: set<Cell>, ghost marks: set<Cell>)
    requires Growable(grid, visited) && Standing(grid, visited, open, first, marks)
    requires 0 <= r < grid.Rows && 0 <= c < grid.Columns && !visited.At(r, c) && !grid.At(r, c)
    modifies visited.AllocatedMatrix
    ensures Standing(grid, visited, open, first, marks + {Cell(r, c)})
  {
    hide BinaryMatrix.At;
    visited.WriteCell(r, c, true);
  }

  lemma TestMeans(grid: BinaryMatrix, visited: BinaryMatrix, r: int, c: int,
                  open: set<Cell>, first: set<Cell>, marks: set<Cell>)
    requires Growable(grid, visited) && Standing(grid, visited, open, first, marks)
    ensures 0 <= r < grid.Rows && 0 <= c < grid.Columns && !visited.At(r, c) && !grid.At(r, c) <==>
            Cell(r, c) in open && Cell(r, c) !in marks
  {
    hide BinaryMatrix.At;
  }

  /** Takes the first cell off the queue and appends its open neighbours, marking each of them. */
  method ClusterGrowth(grid: BinaryMatrix, cells: seq<Cell>, visited: BinaryMatrix, top: int,
                       ghost open: set<Cell>, ghost first: set<Cell>, ghost marks: set<Cell>)
    returns (more: bool, queue: seq<Cell>, ghost added: seq<Cell>)
    requires Growable(grid, visited) && (top == 4 || top == 8)
    requires Standing(grid, visited, open, first, marks)
    modifies visited.AllocatedMatrix
    ensures more <==> cells != []
    ensures !more ==> queue == cells && added == [] && visited.AllocatedMatrix[..] == old(visited.AllocatedMatrix[..])
    ensures more ==> queue == cells[1..] + added
    ensures forall i, j :: 0 <= i < j < |added| ==> added[i] != added[j]
    ensures forall y :: y in added ==> y in open && y !in marks && Adjacent(cells[0], y, top)
    ensures Standing(grid, visited, open, first, marks + ToSet(added))
    ensures more ==> forall y :: y in open && Adjacent(cells[0], y, top) ==> y in marks || y in added
  {
    hide BinaryMatrix.At, Standing, Adjacent;
    queue, added := cells, [];
    if |cells| < 1 {
      assert marks + ToSet([]) == marks;
      return false, cells, [];
    }
    assert marks + ToSet([]) == marks;
    var x := cells[0];
    var r, c := x.r - 1, x.c;
    var it := 0;
    while it < top
      invariant 0 <= it <= top
      invariant it < top ==> Cell(r, c) == Neighbour(x, it)
      invariant queue == cells + added
      invariant forall i, j :: 0 <= i < j < |added| ==> added[i] != added[j]
      invariant forall y :: y in added ==> y in open && y !in marks && Adjacent(x, y, top)
      invariant Standing(grid, visited, open, first, marks + ToSet(added))
      invariant forall k :: 0 <= k < it && Neighbour(x, k) in open ==>
                              Neighbour(x, k) in marks || Neighbour(x, k) in added
    {
      TestMeans(grid, visited, r, c, open, first, marks + ToSet(added));
      if 0 <= r < grid.Rows && 0 <= c < grid.Columns {
        if !visited.At(r, c) && !grid.At(r, c) {
          RoundsAreNeighbours(x, Cell(r, c), top);
          MarkCell(grid, visited, r, c, open, first, marks + ToSet(added));
          assert marks + ToSet(added) + {Cell(r, c)} == marks + ToSet(added + [Cell(r, c)]);
          queue, added := queue + [Cell(r, c)], added + [Cell(r, c)];
        }
      }
      if it == 0 { r := r + 2; }
      else if it == 1 { r := r - 1; c := c - 1; }
      else if it == 2 { c := c + 2; }
      else if it == 3 { r := r + 1; }
      else if it == 4 { r := r - 2; }
      else if it == 5 { c := c - 2; }
      else { r := r + 2; }
      it := it + 1;
    }
    forall y | y in open && Adjacent(x, y, top)
      ensures y in marks || y in added
    {
      RoundsAreNeighbours(x, y, top);
    }
    queue := queue[1..];
    more := true;
  }

  // ---- growing until nothing is left -------------------------------------------------

  /** After some steps: `cells` are the queued cells, all others reached so far have been expanded. */
  ghost predicate Grown(open: set<Cell>, top: int, seed: Cell, cells: seq<Cell>, log: seq<Cell>, steps: nat,
                        marks: set<Cell>)
  {
    && marks <= open
    && (forall x :: x in marks ==> Reaches(open, top, seed, x))
    && (forall i, j :: 0 <= i < j < |log| ==> log[i] != log[j])
    && marks == ToSet(log)
    && steps <= 1 + |log| && cells == ([seed] + log)[steps..]
    && (forall i, y :: 0 <= i < steps && y in open && Adjacent(([seed] + log)[i], y, top) ==> y in marks)
  }

  lemma {:induction false} DistinctCount(log: seq<Cell>)
    requires forall i, j :: 0 <= i < j < |log| ==> log[i] != log[j]
    ensures |ToSet(log)| == |log|
  {
    if log != [] {
      var last := |log| - 1;
      DistinctCount(log[..last]);
      assert ToSet(log) == ToSet(log[..last]) + {log[last]};
    }
  }

  lemma DistinctConcat(log: seq<Cell>, added: seq<Cell>)
    requires forall i, j :: 0 <= i < j < |log| ==> log[i] != log[j]
    requires forall i, j :: 0 <= i < j < |added| ==> added[i] != added[j]
    requires forall y :: y in added ==> y !in log
    ensures forall i, j :: 0 <= i < j < |log + added| ==> (log + added)[i] != (log + added)[j]
    ensures ToSet(log + added) == ToSet(log) + ToSet(added)
  {
    forall i, j | 0 <= i < j < |log + added|
      ensures (log + added)[i] != (log + added)[j]
    {
      if i < |log| <= j {
        assert added[j - |log|] !in log;
      }
    }
  }

  /** One growth step keeps the invariant of the whole run. */
  lemma GrownStep(open: set<Cell>, top: int, seed: Cell, cells: seq<Cell>, log: seq<Cell>, steps: nat, marks: set<Cell>,
                  added: seq<Cell>)
    requires Grown(open, top, seed, cells, log, steps, marks) && cells != []
    requires forall i, j :: 0 <= i < j < |added| ==> added[i] != added[j]
    requires forall y :: y in added ==> y in open && y !in marks && Adjacent(cells[0], y, top)
    requires forall y :: y in open && Adjacent(cells[0], y, top) ==> y in marks || y in added
    ensures Grown(open, top, seed, cells[1..] + added, log + added, steps + 1, marks + ToSet(added))
  {
    hide Adjacent, Reaches;
    DistinctConcat(log, added);
    var all, all' := [seed] + log, [seed] + (log + added);
    assert all' == all + added;
    assert cells[0] == all[steps];
    assert cells[0] == seed || cells[0] in marks by {
      if steps > 0 { assert all[steps] == log[steps - 1]; }
    }
    forall y | y in added
      ensures Reaches(open, top, seed, y)
    {
      ReachesStep(open, top, seed, cells[0], y);
    }
    assert cells[1..] + added == all'[steps + 1..];
    forall i, y | 0 <= i < steps + 1 && y in open && Adjacent(all'[i], y, top)
      ensures y in marks + ToSet(added)
    {
      assert all'[i] == all[i];
    }
  }

  /** With the queue empty every reachable cell is marked, each having been queued once. */
  lemma GrownDone(open: set<Cell>, top: int, seed: Cell, log: seq<Cell>, steps: nat, marks: set<Cell>)
    requires Grown(open, top, seed, [], log, steps, marks)
    ensures marks == Region(open, top, seed)
    ensures steps == 1 + |Region(open, top, seed)|
  {
    var all := [seed] + log;
    assert steps == |all| by { assert |all[steps..]| == 0; }
    forall y | y in open && Adjacent(seed, y, top)
      ensures y in marks
    {
      assert all[0] == seed;
    }
    forall x, y | x in marks && y in open && Adjacent(x, y, top)
      ensures y in marks
    {
      var i :| 0 <= i < |log| && log[i] == x;
      assert all[i + 1] == x;
    }
    ClosedIsRegion(open, top, seed, marks);
    DistinctCount(log);
  }

  ghost function FreeCells(grid: BinaryMatrix, visited: BinaryMatrix): set<Cell>
    requires grid.Valid() && visited.Valid()
    reads grid, grid.AllocatedMatrix, visited, visited.AllocatedMatrix
  {
    set r, c | 0 <= r < grid.Rows && 0 <= c < grid.Columns && !grid.At(r, c) && !visited.At(r, c) :: Cell(r, c)
  }

  ghost function Ones(m: BinaryMatrix): set<Cell>
    requires m.Valid()
    reads m, m.AllocatedMatrix
  {
    set r, c | 0 <= r < m.Rows && 0 <= c < m.Columns && m.At(r, c) :: Cell(r, c)
  }

  /** A cell of the window is free if it is neither occupied nor marked; there are no others. */
  lemma FreeOrMarked(grid: BinaryMatrix, visited: BinaryMatrix, r: int, c: int)
    requires grid.Valid() && visited.Valid()
    ensures Cell(r, c) in FreeCells(grid, visited) <==>
            0 <= r < grid.Rows && 0 <= c < grid.Columns && !grid.At(r, c) && !visited.At(r, c)
    ensures Cell(r, c) in Ones(visited) <==> 0 <= r < visited.Rows && 0 <= c < visited.Columns && visited.At(r, c)
  {
  }

  lemma OnesInRange(m: BinaryMatrix)
    requires m.Valid()
    ensures forall x :: x in Ones(m) ==> 0 <= x.r < m.Rows && 0 <= x.c < m.Columns
  {
    hide BinaryMatrix.At;
  }

  lemma GrownAtFirst(open: set<Cell>, top: int, seed: Cell)
    ensures Grown(open, top, seed, [seed], [], 0, {})
  {
    assert [seed] == ([seed] + [])[0..];
  }

  lemma StandingAtFirst(grid: BinaryMatrix, visited: BinaryMatrix)
    requires Growable(grid, visited)
    ensures Standing(grid, visited, FreeCells(grid, visited), Ones(visited), {})
  {
    hide BinaryMatrix.At;
  }

  lemma StandingAtLast(grid: BinaryMatrix, visited: BinaryMatrix, open: set<Cell>, first: set<Cell>, marks: set<Cell>)
    requires Growable(grid, visited) && Standing(grid, visited, open, first, marks)
    requires forall x :: x in first ==> 0 <= x.r < grid.Rows && 0 <= x.c < grid.Columns
    ensures Ones(visited) == first + marks
  {
    hide BinaryMatrix.At;
  }

  lemma MarksGrow(open: set<Cell>, marks: set<Cell>, added: seq<Cell>)
    requires forall y :: y in added ==> y in open && y !in marks
    ensures added == [] ==> marks + ToSet(added) == marks
    ensures added != [] ==> open - (marks + ToSet(added)) < open - marks
  {
    if added != [] {
      assert added[0] in open - marks && added[0] !in open - (marks + ToSet(added));
    }
  }

  /** Grows from a seed until the queue is empty. */
  method GrowAll(grid: BinaryMatrix, visited: BinaryMatrix, top: int, r: int, c: int) returns (filled: nat)
    requires Growable(grid, visited) && (top == 4 || top == 8)
    modifies visited.AllocatedMatrix
    ensures var region := Region(old(FreeCells(grid, visited)), top, Cell(r, c));
            && Ones(visited) == old(Ones(visited)) + region
            && filled == 1 + |region|
  {
    hide Standing, Grown, Ones, FreeCells, Region, BinaryMatrix.At;
    ghost var open, first := FreeCells(grid, visited), Ones(visited);
    assert forall x :: x in first ==> 0 <= x.r < grid.Rows && 0 <= x.c < grid.Columns by { OnesInRange(visited); }
    StandingAtFirst(grid, visited);
    ghost var seed := Cell(r, c);
    var cells := [Cell(r, c)];
    ghost var log: seq<Cell>, marks: set<Cell> := [], {};
    GrownAtFirst(open, top, seed);
    var i := 0;
    var more := true;
    while more
      invariant Standing(grid, visited, open, first, marks)
      invariant Grown(open, top, seed, cells, log, i, marks)
      invariant !more ==> cells == []
      decreases open - marks, |cells|, more
    {
      ghost var before, added := cells, [];
      more, cells, added := ClusterGrowth(grid, cells, visited, top, open, first, marks);
      MarksGrow(open, marks, added);
      if more {
        GrownStep(open, top, seed, before, log, i, marks, added);
        log, marks := log + added, marks + ToSet(added);
        i := i + 1;
      }
    }
    GrownDone(open, top, seed, log, i, marks);
    StandingAtLast(grid, visited, open, first, marks);
    filled := i;
  }

  predicate SameSize(grid: BinaryMatrix, visited: BinaryMatrix)
    reads grid, visited
  {
    grid.Rows == visited.Rows && grid.Columns == visited.Columns
  }

  /** What the driver needs: its grid fits the 16-bit indices, and the marks are made in the grid itself or in a
      store of their own. A matrix of marks of another size is set up anew. */
  ghost predicate Fillable(grid: BinaryMatrix, visited: BinaryMatrix)
    reads grid, visited
  {
    && grid.Valid() && grid.WindowInside() && visited.Valid() && 0 <= grid.Rows <= 32767 && 0 <= grid.Columns <= 32767
    && (SameSize(grid, visited) ==> visited.WindowInside())
    && (grid == visited || grid.AllocatedMatrix != visited.AllocatedMatrix)
  }

  method SetUp(grid: BinaryMatrix, visited: BinaryMatrix)
    requires Fillable(grid, visited)
    modifies visited, visited.AllocatedMatrix
    ensures visited.AllocatedMatrix == old(visited.AllocatedMatrix) || fresh(visited.AllocatedMatrix)
    ensures Growable(grid, visited)
    ensures Ones(visited) == if old(SameSize(grid, visited)) then old(Ones(visited)) else {}
    ensures FreeCells(grid, visited)
            == if old(SameSize(grid, visited)) then old(FreeCells(grid, visited)) else old(FreeCells(grid, grid))
  {
    visited.Reallocate(grid.Rows, grid.Columns);
  }

  /** Marks exactly the free cells the seed reaches, on top of the marks there were if the matrix of marks has
      the grid's size, and on none otherwise; the number returned is one more than the count of those cells. */
  method FloodFill(grid: BinaryMatrix, visited: BinaryMatrix, eightneighbor: bool, r: int, c: int)
    returns (filled: nat)
    requires Fillable(grid, visited)
    modifies visited, visited.AllocatedMatrix
    ensures visited.Valid() && SameSize(grid, visited)
    ensures var same, top := old(SameSize(grid, visited)), if eightneighbor then 8 else 4;
            var open := if same then old(FreeCells(grid, visited)) else old(FreeCells(grid, grid));
            var region := Region(open, top, Cell(r, c));
            && Ones(visited) == (if same then old(Ones(visited)) else {}) + region
            && filled == 1 + |region|
  {
    hide FreeCells, Ones, Region;
    var top := if eightneighbor then 8 else 4;
    SetUp(grid, visited);
    filled := GrowAll(grid, visited, top, r, c);
  }

  /** The seed itself is in its region exactly when it was free and has a free neighbour. */
  lemma SeedInRegion(open: set<Cell>, top: int, seed: Cell)
    requires top == 4 || top == 8
    ensures seed in Region(open, top, seed) <==> seed in open && exists y :: y in open && Adjacent(seed, y, top)
  {
    if seed in Region(open, top, seed) {
      var p :| Walk(open, top, p) && |p| >= 2 && p[0] == seed && p[|p| - 1] == seed;
      assert p[1] in open && Adjacent(p[0], p[1], top);
    } else if seed in open && exists y :: y in open && Adjacent(seed, y, top) {
      var y :| y in open && Adjacent(seed, y, top);
      ReachesStep(open, top, seed, seed, y);
      ReachesStep(open, top, seed, y, seed);
    }
  }

  /** The number FloodFill returns counts the seed's cluster only when the seed was not free or stands alone;
      otherwise the seed is counted twice, because the driver never marks it before growing. */
  lemma CountIsExact(open: set<Cell>, top: int, seed: Cell)
    requires top == 4 || top == 8
    ensures 1 + |Region(open, top, seed)| == |Region(open, top, seed) + {seed}| <==>
            seed !in open || forall y :: y in open ==> !Adjacent(seed, y, top)
  {
    SeedInRegion(open, top, seed);
    if seed in Region(open, top, seed) {
      assert Region(open, top, seed) + {seed} == Region(open, top, seed);
    }
  }
}
