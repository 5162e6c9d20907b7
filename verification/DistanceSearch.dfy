/** Propagating distances over a grid, from one end of a path and from both. */
module DistanceSearch {
  import opened BinaryMatrices
  import opened DistancePaths
  import opened DistanceTables
  import opened Grids

  /** The table that a matrix of distances holds. */
  ghost function Values(a: array2<real>): Table
    reads a
  {
    map x | x in Range(a.Length0, a.Length1) :: a[x.r, x.c]
  }

  lemma ValueAt(a: array2<real>, i: int, j: int)
    ensures Cell(i, j) in Values(a) <==> InRange(a, i, j)
    ensures InRange(a, i, j) ==> Values(a)[Cell(i, j)] == a[i, j]
  {
  }

  predicate InRange(a: array2<real>, i: int, j: int) {
    0 <= i < a.Length0 && 0 <= j < a.Length1
  }

  /** The table so far in the loop around `s`, before round `it`. */
  ghost predicate Sweeping(t0: Table, t: Table, diagonal: real, s: Cell, it: int) {
    && Lowered(t0, t) && OnlyOldUnrelaxed(t0, t, diagonal) && KeepsRealized(t0, t, diagonal)
    && RoundsRelaxed(t, diagonal, s, it)
  }

  /** Lowers the cell just examined, or the centre; either way the matrix then holds the lowered table. */
  method Lower(celldis: array2<real>, i: int, j: int, v: real)
    requires InRange(celldis, i, j)
    modifies celldis
    ensures celldis[i, j] == v
    ensures Values(celldis) == old(Values(celldis))[Cell(i, j) := v]
  {
    celldis[i, j] := v;
    assert Values(celldis) == old(Values(celldis))[Cell(i, j) := v];
  }

  lemma FinishedThroughCentre(t0: Table, t: Table, t1: Table, t2: Table, diagonal: real, s: Cell, n: Cell, it: int)
    requires Sweeping(t0, t, diagonal, s, it) && diagonal > 0.0
    requires Seen(t, s) && Seen(t, n) && Touches(n, s) && t[n] + Step(n, s, diagonal) < t[s]
    requires t1 == t[s := t[n] + Step(n, s, diagonal)]
    requires Propagated(t1, t2, diagonal, s) && KeepsRealized(t1, t2, diagonal)
    ensures Propagated(t0, t2, diagonal, s) && KeepsRealized(t0, t2, diagonal)
  {
    LowerAndPropagate(t0, t, t1, t2, diagonal, s, t1[s]);
    LoweringKeepsRealized(t, diagonal, n, s);
  }

  lemma NextRoundThroughNeighbour(t0: Table, t: Table, t1: Table, t2: Table, diagonal: real, s: Cell, n: Cell, it: int)
    requires Sweeping(t0, t, diagonal, s, it) && 0 <= it < 8 && n == Around(s, it) && diagonal > 0.0
    requires Seen(t, s) && Seen(t, n) && t[s] + Step(s, n, diagonal) < t[n]
    requires t1 == t[n := t[s] + Step(s, n, diagonal)]
    requires Propagated(t1, t2, diagonal, n) && KeepsRealized(t1, t2, diagonal)
    ensures Sweeping(t0, t2, diagonal, s, it + 1) && Seen(t2, s)
  {
    AroundTouches(s, it);
    LowerAndPropagate(t0, t, t1, t2, diagonal, n, t1[n]);
    LoweringKeepsRealized(t, diagonal, s, n);
  }

  /** Propagates a change of cell (r,c) through the whole table. */
  method Checkdis(celldis: array2<real>, r: int, c: int, diagonal: real, ghost lat: set<real>, ghost bound: real)
    requires diagonal > 0.0 && InRange(celldis, r, c) && celldis[r, c] > 0.0
    requires Lattice(lat, bound, diagonal) && Covers(lat, bound, Values(celldis))
    modifies celldis
    ensures Propagated(old(Values(celldis)), Values(celldis), diagonal, Cell(r, c))
    ensures KeepsRealized(old(Values(celldis)), Values(celldis), diagonal)
    ensures Covers(lat, bound, Values(celldis))
    decreases Room(Values(celldis), lat)
  {
    hide Sweeping, Around, KeepsRealized, Propagated, Covers, Room, Lattice, Values;
    ghost var t0 := Values(celldis);
    ghost var s := Cell(r, c);
    var i, j, d := r - 1, c, STRAIGHT;
    assert Cell(i, j) == Around(s, 0) by { FirstAround(s); }
    AroundTouches(s, 0);
    ValueAt(celldis, r, c);
    SweepStarts(t0, diagonal, s);
    for it := 0 to 8
      invariant it < 8 ==> Cell(i, j) == Around(s, it)
      invariant d == if it < 4 then STRAIGHT else diagonal
      invariant Sweeping(t0, Values(celldis), diagonal, s, it) && Seen(Values(celldis), s)
      invariant Covers(lat, bound, Values(celldis))
    {
      ghost var t := Values(celldis);
      ghost var n := Cell(i, j);
      ValueAt(celldis, r, c);
      ValueAt(celldis, i, j);
      AroundTouches(s, it);
      SweepingHasLessRoom(t0, t, diagonal, s, it, lat);
      if InRange(celldis, i, j) && celldis[i, j] > 0.0 {
        if celldis[i, j] + d < celldis[r, c] {
          LoweringUsesRoom(t, lat, bound, diagonal, n, s);
          Lower(celldis, r, c, celldis[i, j] + d);
          ghost var t1 := Values(celldis);
          Checkdis(celldis, r, c, diagonal, lat, bound);
          FinishedThroughCentre(t0, t, t1, Values(celldis), diagonal, s, n, it);
          return;
        } else if celldis[i, j] > celldis[r, c] + d {
          LoweringUsesRoom(t, lat, bound, diagonal, s, n);
          Lower(celldis, i, j, celldis[r, c] + d);
          ghost var t1 := Values(celldis);
          Checkdis(celldis, i, j, diagonal, lat, bound);
          NextRoundThroughNeighbour(t0, t, t1, Values(celldis), diagonal, s, n, it);
        } else {
          NextRoundRelaxed(t0, t, diagonal, s, it);
        }
      } else {
        NextRoundRelaxed(t0, t, diagonal, s, it);
      }
      i, j := NextAround(s, it, i, j);
      if it == 3 { d := diagonal; }
    }
    SweepEnds(t0, Values(celldis), diagonal, s);
  }

  /** Whatever the table holds, propagation ends; a table that was consistent but for steps at (r,c) is
      consistent everywhere afterwards, and entries that were lengths of walks still are. */
  method Propagate(celldis: array2<real>, r: int, c: int, diagonal: real)
    requires diagonal > 0.0 && InRange(celldis, r, c) && celldis[r, c] > 0.0
    modifies celldis
    ensures Propagated(old(Values(celldis)), Values(celldis), diagonal, Cell(r, c))
    ensures KeepsRealized(old(Values(celldis)), Values(celldis), diagonal)
    ensures RelaxedExceptAt(old(Values(celldis)), diagonal, Cell(r, c)) ==> Relaxed(Values(celldis), diagonal)
  {
    hide *;
    ghost var lat, bound := FiniteLattice(Values(celldis), diagonal);
    Checkdis(celldis, r, c, diagonal, lat, bound);
    if RelaxedExceptAt(old(Values(celldis)), diagonal, Cell(r, c)) {
      PropagationRelaxes(old(Values(celldis)), Values(celldis), diagonal, Cell(r, c));
    }
  }

  lemma FirstAround(s: Cell)
    ensures Cell(s.r - 1, s.c) == Around(s, 0)
  {
  }

  /** Moves from the cell of round `it` to the next. */
  method NextAround(ghost s: Cell, it: int, i: int, j: int) returns (i': int, j': int)
    requires 0 <= it < 8 && Cell(i, j) == Around(s, it)
    ensures it + 1 < 8 ==> Cell(i', j') == Around(s, it + 1)
  {
    i', j' := i, j;
    if it == 0 { i' := i + 2; }
    else if it == 1 { i' := i - 1; j' := j - 1; }
    else if it == 2 { j' := j + 2; }
    else if it == 3 { i' := i - 1; }
    else if it == 4 { i' := i + 2; }
    else if it == 5 { j' := j - 2; }
    else { i' := i - 2; }
  }

  lemma SweepingHasLessRoom(t0: Table, t: Table, diagonal: real, s: Cell, it: int, lat: set<real>)
    requires Sweeping(t0, t, diagonal, s, it)
    ensures Room(t, lat) <= Room(t0, lat)
  {
    LoweredHasLessRoom(t0, t, lat);
  }

  lemma SweepStarts(t0: Table, diagonal: real, s: Cell)
    ensures Sweeping(t0, t0, diagonal, s, 0)
  {
  }

  lemma SweepEnds(t0: Table, t: Table, diagonal: real, s: Cell)
    requires Sweeping(t0, t, diagonal, s, 8)
    ensures Propagated(t0, t, diagonal, s) && KeepsRealized(t0, t, diagonal)
  {
    AllRoundsRelaxed(t, diagonal, s);
  }

  /** A neighbour that is out of range, unvisited or already consistent needs nothing. */
  lemma NextRoundRelaxed(t0: Table, t: Table, diagonal: real, s: Cell, it: int)
    requires Sweeping(t0, t, diagonal, s, it) && 0 <= it < 8
    requires var n := Around(s, it);
             !Seen(t, n) || !Seen(t, s) ||
             (t[n] + Step(s, n, diagonal) >= t[s] && t[n] <= t[s] + Step(s, n, diagonal))
    ensures Sweeping(t0, t, diagonal, s, it + 1)
  {
    AroundTouches(s, it);
  }

  // ---- propagating while two searches meet -------------------------------------------

  lemma MeetsAfterLowering(t: Table, t2: Table, n: Cell, v: real, m: Cell, mindist: real, far: real)
    requires Meets(t, t2, m, mindist, far) && n in t && t[n] >= 0.0 && v > 0.0 && (Seen(t, n) ==> v < t[n])
    ensures var t1 := t[n := v];
            if Seen(t2, n) && t2[n] + v < mindist then Meets(t1, t2, n, t2[n] + v, far)
            else Meets(t1, t2, m, mindist, far)
  {
    var t1 := t[n := v];
    forall x | Common(t1, t2, x)
      ensures x == n || Common(t, t2, x)
    {
    }
  }

  /** Writes an entry and keeps the meeting cell up to date. */
  method LowerAndMeet(celldis: array2<real>, i: int, j: int, v: real, celldis2: array2<real>,
                      m: Cell, mindist: real, ghost far: real)
    returns (m': Cell, mindist': real)
    requires celldis != celldis2 && InRange(celldis, i, j) && InRange(celldis2, i, j)
    requires celldis[i, j] >= 0.0 && v > 0.0 && (celldis[i, j] > 0.0 ==> v < celldis[i, j])
    requires Meets(Values(celldis), Values(celldis2), m, mindist, far)
    modifies celldis
    ensures celldis[i, j] == v && Values(celldis) == old(Values(celldis))[Cell(i, j) := v]
    ensures Meets(Values(celldis), Values(celldis2), m', mindist', far) && mindist' <= mindist
  {
    hide Meets, Values;
    ValueAt(celldis, i, j);
    ValueAt(celldis2, i, j);
    MeetsAfterLowering(Values(celldis), Values(celldis2), Cell(i, j), v, m, mindist, far);
    m', mindist' := m, mindist;
    Lower(celldis, i, j, v);
    if celldis2[i, j] > 0.0 {
      var dis := celldis2[i, j] + celldis[i, j];
      if dis < mindist {
        mindist' := dis;
        m' := Cell(i, j);
      }
    }
  }

  /** Propagates a change of cell (r,c) and keeps, through all the recursion, the least meeting distance. */
  method CheckdisMeet(celldis: array2<real>, r: int, c: int, celldis2: array2<real>, minindex: Cell, mindist: real,
                      diagonal: real, ghost lat: set<real>, ghost bound: real, ghost far: real)
    returns (minindex': Cell, mindist': real)
    requires diagonal > 0.0 && InRange(celldis, r, c) && celldis[r, c] > 0.0
    requires celldis != celldis2 && celldis.Length0 == celldis2.Length0 && celldis.Length1 == celldis2.Length1
    requires Lattice(lat, bound, diagonal) && Covers(lat, bound, Values(celldis))
    requires Meets(Values(celldis), Values(celldis2), minindex, mindist, far)
    modifies celldis
    ensures Propagated(old(Values(celldis)), Values(celldis), diagonal, Cell(r, c))
    ensures KeepsRealized(old(Values(celldis)), Values(celldis), diagonal)
    ensures Covers(lat, bound, Values(celldis))
    ensures Meets(Values(celldis), Values(celldis2), minindex', mindist', far) && mindist' <= mindist
    decreases Room(Values(celldis), lat)
  {
    hide Sweeping, Around, KeepsRealized, Propagated, Covers, Room, Lattice, Meets, Values;
    ghost var t0, u := Values(celldis), Values(celldis2);
    ghost var s := Cell(r, c);
    minindex', mindist' := minindex, mindist;
    var i, j, d := r - 1, c, STRAIGHT;
    assert Cell(i, j) == Around(s, 0) by { FirstAround(s); }
    AroundTouches(s, 0);
    ValueAt(celldis, r, c);
    SweepStarts(t0, diagonal, s);
    for it := 0 to 8
      invariant it < 8 ==> Cell(i, j) == Around(s, it)
      invariant d == if it < 4 then STRAIGHT else diagonal
      invariant Sweeping(t0, Values(celldis), diagonal, s, it) && Seen(Values(celldis), s)
      invariant Covers(lat, bound, Values(celldis))
      invariant Values(celldis2) == u && Meets(Values(celldis), u, minindex', mindist', far) && mindist' <= mindist
    {
      ghost var t := Values(celldis);
      ghost var n := Cell(i, j);
      ValueAt(celldis, r, c);
      ValueAt(celldis, i, j);
      AroundTouches(s, it);
      SweepingHasLessRoom(t0, t, diagonal, s, it, lat);
      if InRange(celldis, i, j) && celldis[i, j] > 0.0 {
        if celldis[i, j] + d < celldis[r, c] {
          LoweringUsesRoom(t, lat, bound, diagonal, n, s);
          minindex', mindist' := LowerAndMeet(celldis, r, c, celldis[i, j] + d, celldis2, minindex', mindist', far);
          ghost var t1 := Values(celldis);
          minindex', mindist' := CheckdisMeet(celldis, r, c, celldis2, minindex', mindist', diagonal, lat, bound, far);
          FinishedThroughCentre(t0, t, t1, Values(celldis), diagonal, s, n, it);
          return;
        } else if celldis[i, j] > celldis[r, c] + d {
          LoweringUsesRoom(t, lat, bound, diagonal, s, n);
          minindex', mindist' := LowerAndMeet(celldis, i, j, celldis[r, c] + d, celldis2, minindex', mindist', far);
          ghost var t1 := Values(celldis);
          minindex', mindist' := CheckdisMeet(celldis, i, j, celldis2, minindex', mindist', diagonal, lat, bound, far);
          NextRoundThroughNeighbour(t0, t, t1, Values(celldis), diagonal, s, n, it);
        } else {
          NextRoundRelaxed(t0, t, diagonal, s, it);
        }
      } else {
        NextRoundRelaxed(t0, t, diagonal, s, it);
      }
      i, j := NextAround(s, it, i, j);
      if it == 3 { d := diagonal; }
    }
    SweepEnds(t0, Values(celldis), diagonal, s);
  }

  // ---- one step of a search ----------------------------------------------------------

  /** The queue lists the visited cells. */
  ghost predicate Queued(cells: seq<Cell>, t: Table) {
    (forall x :: x in cells <==> x in SeenCells(t)) && forall i, j :: 0 <= i < j < |cells| ==> cells[i] != cells[j]
  }

  /** One end of a search: its queue and its table. */
  ghost predicate Searching(cells: seq<Cell>, t: Table, diagonal: real, seed: Cell, base: real) {
    Searched(t, diagonal, seed, base) && Queued(cells, t)
  }

  /** Visits one free cell next to `from` and propagates from it. */
  method Visit(celldis: array2<real>, n: Cell, dis: real, celldis2: array2<real>, minindex: Cell, mindist: real,
               diagonal: real, cells: seq<Cell>, ghost seed: Cell, ghost base: real, ghost far: real,
               ghost from: Cell, ghost d: real)
    returns (minindex': Cell, mindist': real, cells': seq<Cell>)
    requires diagonal > 0.0 && InRange(celldis, n.r, n.c) && celldis[n.r, n.c] == 0.0
    requires celldis != celldis2 && celldis.Length0 == celldis2.Length0 && celldis.Length1 == celldis2.Length1
    requires Searching(cells, Values(celldis), diagonal, seed, base)
    requires WalkOfLength(SeenCells(Values(celldis)), diagonal, seed, from, d - base)
    requires Touches(from, n) && dis == d + Step(from, n, diagonal) > 0.0
    requires Meets(Values(celldis), Values(celldis2), minindex, mindist, far)
    modifies celldis
    ensures Searching(cells', Values(celldis), diagonal, seed, base) && cells' == cells + [n]
    ensures WalkOfLength(SeenCells(Values(celldis)), diagonal, seed, from, d - base)
    ensures Meets(Values(celldis), Values(celldis2), minindex', mindist', far) && mindist' <= mindist
  {
    hide Searched, WalkOfLength, Meets, SeenCells, Pending, Propagated, KeepsRealized, Lattice, Covers, Values;
    ValueAt(celldis, n.r, n.c);
    ghost var t := Values(celldis);
    VisitIsPending(t, diagonal, seed, base, from, d, n);
    assert t[n] == 0.0;
    minindex', mindist' := LowerAndMeet(celldis, n.r, n.c, dis, celldis2, minindex, mindist, far);
    cells' := cells + [n];
    ghost var t1 := Values(celldis);
    ghost var lat, bound := FiniteLattice(t1, diagonal);
    minindex', mindist' := CheckdisMeet(celldis, n.r, n.c, celldis2, minindex', mindist', diagonal, lat, bound, far);
    PropagationCompletes(t1, Values(celldis), diagonal, seed, base, n);
    WidenWalk(SeenCells(t), SeenCells(Values(celldis)), diagonal, seed, from, d - base);
    QueuedOneMore(cells, t, Values(celldis), n);
  }

  lemma QueuedOneMore(cells: seq<Cell>, t: Table, t2: Table, n: Cell)
    requires Queued(cells, t) && SeenCells(t2) == SeenCells(t) + {n} && !Seen(t, n)
    ensures Queued(cells + [n], t2)
  {
    var cells' := cells + [n];
    assert n !in SeenCells(t);
    forall x ensures x in cells' <==> x in SeenCells(t2) {
      assert x in cells' <==> x in cells || x == n;
    }
  }

  /** The two ends of a path search over one grid. */
  ghost predicate Tables(grid: BinaryMatrix, celldis: array2<real>, celldis2: array2<real>)
    reads grid
  {
    && grid.Valid() && celldis != celldis2
    && celldis.Length0 == grid.Rows && celldis.Length1 == grid.Columns
    && celldis2.Length0 == grid.Rows && celldis2.Length1 == grid.Columns
  }

  /** The free neighbours of `s`, all of them and nothing else, have been queued. */
  ghost predicate Spread(grid: BinaryMatrix, celldis: array2<real>, cells: seq<Cell>, cells': seq<Cell>, s: Cell)
    requires grid.Valid()
    reads grid, grid.AllocatedMatrix
  {
    && FreeNeighbours(grid, celldis, cells, cells', s)
    && forall y :: Touches(s, y) ==> Examined(grid, celldis, cells', y)
  }

  ghost predicate FreeNeighbours(grid: BinaryMatrix, celldis: array2<real>, cells: seq<Cell>, cells': seq<Cell>,
                                 s: Cell)
    requires grid.Valid()
    reads grid, grid.AllocatedMatrix
  {
    forall x :: x in cells' && x !in cells ==> InRange(celldis, x.r, x.c) && !grid.At(x.r, x.c) && Touches(s, x)
  }

  /** If it is free and in range, `y` has been queued. */
  ghost predicate Examined(grid: BinaryMatrix, celldis: array2<real>, cells: seq<Cell>, y: Cell)
    requires grid.Valid()
    reads grid, grid.AllocatedMatrix
  {
    InRange(celldis, y.r, y.c) && !grid.At(y.r, y.c) ==> y in cells
  }

  lemma AllExamined(grid: BinaryMatrix, celldis: array2<real>, cells: seq<Cell>, s: Cell)
    requires grid.Valid() && forall k :: 0 <= k < 8 ==> Examined(grid, celldis, cells, Around(s, k))
    ensures forall y :: Touches(s, y) ==> Examined(grid, celldis, cells, y)
  {
    hide Examined;
    forall y | Touches(s, y)
      ensures Examined(grid, celldis, cells, y)
    {
      TouchesIsAround(s, y);
    }
  }

  /** Visits `n` if it is in range, free and not yet visited. */
  method VisitIfFree(grid: BinaryMatrix, celldis: array2<real>, n: Cell, dis: real, celldis2: array2<real>,
                     minindex: Cell, mindist: real, diagonal: real, cells: seq<Cell>,
                     ghost seed: Cell, ghost base: real, ghost far: real, ghost from: Cell, ghost d: real)
    returns (minindex': Cell, mindist': real, cells': seq<Cell>)
    requires Tables(grid, celldis, celldis2) && diagonal > 0.0
    requires Searching(cells, Values(celldis), diagonal, seed, base)
    requires WalkOfLength(SeenCells(Values(celldis)), diagonal, seed, from, d - base)
    requires Touches(from, n) && dis == d + Step(from, n, diagonal) > 0.0
    requires Meets(Values(celldis), Values(celldis2), minindex, mindist, far)
    modifies celldis
    ensures Searching(cells', Values(celldis), diagonal, seed, base)
    ensures WalkOfLength(SeenCells(Values(celldis)), diagonal, seed, from, d - base)
    ensures Meets(Values(celldis), Values(celldis2), minindex', mindist', far) && mindist' <= mindist
    ensures cells' == cells || (cells' == cells + [n] && InRange(celldis, n.r, n.c) && !grid.At(n.r, n.c))
    ensures Examined(grid, celldis, cells', n)
  {
    hide Searching, WalkOfLength, Meets, SeenCells, BinaryMatrix.At, Values;
    ValueAt(celldis, n.r, n.c);
    minindex', mindist', cells' := minindex, mindist, cells;
    if InRange(celldis, n.r, n.c) {
      if celldis[n.r, n.c] == 0.0 {
        if !grid.At(n.r, n.c) {
          minindex', mindist', cells' := Visit(celldis, n, dis, celldis2, minindex, mindist, diagonal, cells,
                                               seed, base, far, from, d);
        }
      } else {
        SeenIsQueued(cells, Values(celldis), diagonal, seed, base, n);
      }
    }
  }

  /** Visits the free neighbours of queued cell `next`; the table is exact again afterwards. */
  method PathSearchStep(grid: BinaryMatrix, cells: seq<Cell>, next: nat, celldis: array2<real>, celldis2: array2<real>,
                        minindex: Cell, mindist: real, diagonal: real,
                        ghost seed: Cell, ghost base: real, ghost far: real)
    returns (more: int, cells': seq<Cell>, minindex': Cell, mindist': real)
    requires Tables(grid, celldis, celldis2) && diagonal > 0.0
    requires Searching(cells, Values(celldis), diagonal, seed, base)
    requires Meets(Values(celldis), Values(celldis2), minindex, mindist, far)
    modifies celldis
    ensures Searching(cells', Values(celldis), diagonal, seed, base) && cells <= cells'
    ensures Meets(Values(celldis), Values(celldis2), minindex', mindist', far) && mindist' <= mindist
    ensures more == if next < |cells| then 1 else 0
    ensures more == 0 ==> cells' == cells && Values(celldis) == old(Values(celldis))
    ensures more == 1 ==> Spread(grid, celldis, cells, cells', cells[next])
  {
    hide Searching, WalkOfLength, Meets, SeenCells, BinaryMatrix.At, Around, Touches, Values;
    cells', minindex', mindist' := cells, minindex, mindist;
    if next >= |cells| { return 0, cells, minindex, mindist; }
    ghost var s := cells[next];
    QueuedIsSeen(cells, Values(celldis), diagonal, seed, base, s);
    var r, c := cells[next].r, cells[next].c;
    ValueAt(celldis, r, c);
    ghost var d0 := celldis[r, c];
    var dis := celldis[r, c] + STRAIGHT;
    r := r - 1;
    FirstAround(s);
    AroundTouches(s, 0);
    for it := 0 to 8
      invariant it < 8 ==> Cell(r, c) == Around(s, it)
      invariant d0 > 0.0 && dis == d0 + if it < 4 then STRAIGHT else diagonal
      invariant Searching(cells', Values(celldis), diagonal, seed, base) && cells <= cells'
      invariant WalkOfLength(SeenCells(Values(celldis)), diagonal, seed, s, d0 - base)
      invariant Meets(Values(celldis), Values(celldis2), minindex', mindist', far) && mindist' <= mindist
      invariant FreeNeighbours(grid, celldis, cells, cells', s)
      invariant forall k :: 0 <= k < it ==> Examined(grid, celldis, cells', Around(s, k))
    {
      AroundTouches(s, it);
      minindex', mindist', cells' := VisitIfFree(grid, celldis, Cell(r, c), dis, celldis2, minindex', mindist',
                                                 diagonal, cells', seed, base, far, s, d0);
      r, c := NextAround(s, it, r, c);
      if it == 3 { dis := dis + (diagonal - STRAIGHT); }
    }
    AllExamined(grid, celldis, cells', s);
    more := 1;
  }

  lemma QueuedIsSeen(cells: seq<Cell>, t: Table, diagonal: real, seed: Cell, base: real, x: Cell)
    requires Searching(cells, t, diagonal, seed, base) && x in cells
    ensures Seen(t, x) && WalkOfLength(SeenCells(t), diagonal, seed, x, t[x] - base)
  {
    assert x in SeenCells(t);
  }

  lemma SeenIsQueued(cells: seq<Cell>, t: Table, diagonal: real, seed: Cell, base: real, x: Cell)
    requires Searching(cells, t, diagonal, seed, base) && x in t && t[x] != 0.0
    ensures x in cells
  {
    assert x in SeenCells(t);
  }

  // ---- whole runs --------------------------------------------------------------------

  /** The first value of the meeting distance, 10 to the power 50. */
  const FAR: real := 1_0000000000_0000000000_0000000000_0000000000_0000000000.0

  /** A table of zeros but for the seed, which holds 1. */
  method SeedTable(rows: int, columns: int, seed: Cell, diagonal: real)
    returns (celldis: array2<real>, cells: seq<Cell>)
    requires 0 <= seed.r < rows && 0 <= seed.c < columns && diagonal > 0.0
    ensures fresh(celldis) && celldis.Length0 == rows && celldis.Length1 == columns
    ensures Searching(cells, Values(celldis), diagonal, seed, 1.0)
    ensures SeenCells(Values(celldis)) == {seed} && cells == [seed]
  {
    celldis := new real[rows, columns]((_, _) => 0.0);
    celldis[seed.r, seed.c] := 1.0;
    cells := [seed];
    SeedOnly(Values(celldis), diagonal, seed, 1.0);
    assert SeenCells(Values(celldis)) == {seed};
  }

  /** Walks from the two seeds, inside their regions, that end in one cell. */
  ghost predicate Joined(region: set<Cell>, region2: set<Cell>, seed: Cell, seed2: Cell, p: seq<Cell>, q: seq<Cell>) {
    && Walk(region, p) && Walk(region2, q)
    && p[0] == seed && q[0] == seed2 && p[|p| - 1] == q[|q| - 1]
  }

  /** `d` is the length of the shortest pair of joined walks. */
  ghost predicate ShortestMeeting(region: set<Cell>, region2: set<Cell>, diagonal: real, seed: Cell, seed2: Cell,
                                  d: real)
  {
    && (exists p, q :: Joined(region, region2, seed, seed2, p, q) && Length(p, diagonal) + Length(q, diagonal) == d)
    && (forall p, q :: Joined(region, region2, seed, seed2, p, q) ==> d <= Length(p, diagonal) + Length(q, diagonal))
  }

  // ---- what the expanded queue entries cover -----------------------------------------

  ghost function FreeCells(grid: BinaryMatrix): set<Cell>
    requires grid.Valid()
    reads grid, grid.AllocatedMatrix
  {
    set r, c | 0 <= r < grid.Rows && 0 <= c < grid.Columns && !grid.At(r, c) :: Cell(r, c)
  }

  /** The steps of one end that found their entry there have expanded it; the seed's entry is always there, and
      an entry that was there is there in every later step. */
  ghost predicate Answered(free: set<Cell>, t: Table, cells: seq<Cell>, schedule: seq<(bool, nat)>, codes: seq<int>,
                           end: bool)
    requires |codes| <= |schedule|
  {
    && cells != []
    && (forall i :: 0 <= i < |codes| && schedule[i].0 == end && codes[i] == 1 ==>
          schedule[i].1 < |cells| && Expanded(free, t, cells[schedule[i].1]))
    && (forall i :: 0 <= i < |codes| && schedule[i].0 == end && codes[i] != 1 ==> codes[i] == 0 < schedule[i].1)
    && (forall i, j :: 0 <= i < j < |codes| && schedule[i].0 == schedule[j].0 == end && codes[i] == 1 && codes[j] == 0
                       ==> schedule[i].1 < schedule[j].1)
  }

  /** Some step of that end found the n-th entry there. */
  predicate Asked(schedule: seq<(bool, nat)>, codes: seq<int>, end: bool, n: nat)
    requires |codes| <= |schedule|
  {
    exists i :: 0 <= i < |codes| && schedule[i] == (end, n) && codes[i] == 1
  }

  predicate AllAsked(schedule: seq<(bool, nat)>, codes: seq<int>, end: bool, n: nat)
    requires |codes| <= |schedule|
  {
    forall k :: 0 <= k < n ==> Asked(schedule, codes, end, k)
  }

  /** The seed's region: what it reaches through free cells, each cell with its shortest distance. */
  ghost predicate HoldsRegion(free: set<Cell>, t: Table, diagonal: real, seed: Cell) {
    && (forall x :: Seen(t, x) <==> exists p :: Path(free + {seed}, seed, x, p))
    && (forall x :: Seen(t, x) ==> Shortest(free + {seed}, diagonal, seed, x, t[x] - 1.0))
  }

  lemma AskedAllIsExhausted(free: set<Cell>, t: Table, cells: seq<Cell>, schedule: seq<(bool, nat)>, codes: seq<int>,
                            end: bool)
    requires |codes| <= |schedule| && Answered(free, t, cells, schedule, codes, end)
    requires Queued(cells, t) && AllAsked(schedule, codes, end, |cells|)
    ensures Exhausted(free, t)
  {
    hide Expanded;
    forall x | Seen(t, x) ensures Expanded(free, t, x) {
      assert x in SeenCells(t);
      var k :| 0 <= k < |cells| && cells[k] == x;
      assert Asked(schedule, codes, end, k);
    }
  }

  lemma AskedIsExpanded(free: set<Cell>, t: Table, cells: seq<Cell>, schedule: seq<(bool, nat)>, codes: seq<int>,
                        end: bool, n: nat)
    requires |codes| <= |schedule| && Answered(free, t, cells, schedule, codes, end) && Asked(schedule, codes, end, n)
    ensures n < |cells| && Expanded(free, t, cells[n])
  {
  }

  /** One more step of this end. */
  lemma AnsweredGoesOn(free: set<Cell>, t: Table, t': Table, cells: seq<Cell>, cells': seq<Cell>,
                       schedule: seq<(bool, nat)>, codes: seq<int>, code: int, end: bool)
    requires |codes| < |schedule| && schedule[|codes|].0 == end && Answered(free, t, cells, schedule, codes, end)
    requires cells <= cells' && SeenCells(t) <= SeenCells(t')
    requires code == if schedule[|codes|].1 < |cells| then 1 else 0
    requires code == 1 ==> Expanded(free, t', cells[schedule[|codes|].1])
    ensures Answered(free, t', cells', schedule, codes + [code], end)
  {
    forall x | Expanded(free, t, x) ensures Expanded(free, t', x) { ExpandedStays(free, t, t', x); }
    hide Expanded, SeenCells;
  }

  lemma ExpandedStays(free: set<Cell>, t: Table, t': Table, x: Cell)
    requires Expanded(free, t, x) && SeenCells(t) <= SeenCells(t')
    ensures Expanded(free, t', x)
  {
    forall y | y in free && Touches(x, y) ensures Seen(t', y) { assert y in SeenCells(t); }
  }

  /** A step of the other end. */
  lemma AnsweredElsewhere(free: set<Cell>, t: Table, cells: seq<Cell>, schedule: seq<(bool, nat)>, codes: seq<int>,
                          code: int, end: bool)
    requires |codes| < |schedule| && schedule[|codes|].0 != end && Answered(free, t, cells, schedule, codes, end)
    ensures Answered(free, t, cells, schedule, codes + [code], end)
  {
    hide Expanded;
  }

  /** What a step adds to the queue is free, and it covers the free cells around the entry it expands. */
  lemma StepCovers(grid: BinaryMatrix, celldis: array2<real>, cells: seq<Cell>, cells': seq<Cell>,
                   t: Table, t': Table, seed: Cell, code: int, n: nat)
    requires grid.Valid() && celldis.Length0 == grid.Rows && celldis.Length1 == grid.Columns
    requires Queued(cells, t) && Queued(cells', t') && cells <= cells'
    requires Inside(FreeCells(grid), t, seed)
    requires code == if n < |cells| then 1 else 0
    requires code == 0 ==> cells' == cells
    requires code == 1 ==> Spread(grid, celldis, cells, cells', cells[n])
    ensures SeenCells(t) <= SeenCells(t') && Inside(FreeCells(grid), t', seed)
    ensures code == 1 ==> Expanded(FreeCells(grid), t', cells[n])
  {
    hide BinaryMatrix.At;
    forall x | x in SeenCells(t') ensures x in FreeCells(grid) + {seed} {
      if x in cells { assert x in SeenCells(t); }
    }
    if code == 1 {
      forall y | y in FreeCells(grid) && Touches(cells[n], y) ensures Seen(t', y) {
        assert Examined(grid, celldis, cells', y);
        assert y in SeenCells(t');
      }
    }
  }

  /** One end is exhausted and the other has expanded its seed. */
  predicate Done(schedule: seq<(bool, nat)>, codes: seq<int>, n: nat, n2: nat)
    requires |codes| <= |schedule|
  {
    || (AllAsked(schedule, codes, true, n) && Asked(schedule, codes, false, 0))
    || (AllAsked(schedule, codes, false, n2) && Asked(schedule, codes, true, 0))
  }

  /** One end of the search after the steps that were answered. */
  ghost predicate OneEnd(free: set<Cell>, t: Table, cells: seq<Cell>, schedule: seq<(bool, nat)>, codes: seq<int>,
                         diagonal: real, seed: Cell, end: bool)
    requires |codes| <= |schedule|
  {
    && Searching(cells, t, diagonal, seed, 1.0) && Inside(free, t, seed)
    && Answered(free, t, cells, schedule, codes, end)
  }

  lemma SeedUnanswered(free: set<Cell>, t: Table, cells: seq<Cell>, schedule: seq<(bool, nat)>, diagonal: real,
                       seed: Cell, end: bool)
    requires Searching(cells, t, diagonal, seed, 1.0) && SeenCells(t) == {seed} && cells == [seed]
    ensures OneEnd(free, t, cells, schedule, [], diagonal, seed, end)
  {
  }

  lemma OtherEnd(free: set<Cell>, t: Table, cells: seq<Cell>, schedule: seq<(bool, nat)>, codes: seq<int>, code: int,
                 diagonal: real, seed: Cell, end: bool)
    requires |codes| < |schedule| && schedule[|codes|].0 != end
    requires OneEnd(free, t, cells, schedule, codes, diagonal, seed, end)
    ensures OneEnd(free, t, cells, schedule, codes + [code], diagonal, seed, end)
  {
    hide Searching, Inside, Answered;
    AnsweredElsewhere(free, t, cells, schedule, codes, code, end);
  }

  lemma TablesStand(grid: BinaryMatrix, celldis: array2<real>, celldis2: array2<real>)
    requires grid.Valid() && celldis != celldis2
    requires celldis.Length0 == celldis2.Length0 == grid.Rows && celldis.Length1 == celldis2.Length1 == grid.Columns
    ensures Tables(grid, celldis, celldis2) && Tables(grid, celldis2, celldis)
  {
  }

  lemma EndHolds(free: set<Cell>, t: Table, cells: seq<Cell>, schedule: seq<(bool, nat)>, codes: seq<int>,
                 diagonal: real, seed: Cell, end: bool)
    requires |codes| <= |schedule| && diagonal > 0.0
    requires OneEnd(free, t, cells, schedule, codes, diagonal, seed, end)
    ensures Searched(t, diagonal, seed, 1.0) && Queued(cells, t) && Inside(free, t, seed)
    ensures Answered(free, t, cells, schedule, codes, end) && Exact(t, diagonal, seed, 1.0)
    ensures AllAsked(schedule, codes, end, |cells|) ==> HoldsRegion(free, t, diagonal, seed) && Exhausted(free, t)
  {
    hide Searched, Queued, Inside, Answered, Exact, AllAsked, Exhausted, Path, Shortest;
    SearchedIsExact(t, diagonal, seed, 1.0);
    if AllAsked(schedule, codes, end, |cells|) {
      AskedAllIsExhausted(free, t, cells, schedule, codes, end);
      ExhaustedIsReach(free, t, diagonal, seed);
    }
  }

  lemma Finish(free: set<Cell>, t: Table, t2: Table, cells: seq<Cell>, cells2: seq<Cell>,
               schedule: seq<(bool, nat)>, codes: seq<int>, diagonal: real, seed: Cell, seed2: Cell,
               m: Cell, mindist: real, rows: int, columns: int)
    requires |codes| <= |schedule| && diagonal > 0.0 && seed != seed2
    requires free <= Range(rows, columns) && seed in Range(rows, columns) && seed2 in Range(rows, columns)
    requires Searched(t, diagonal, seed, 1.0) && Searched(t2, diagonal, seed2, 1.0)
    requires Inside(free, t, seed) && Inside(free, t2, seed2)
    requires Answered(free, t, cells, schedule, codes, true) && Answered(free, t2, cells2, schedule, codes, false)
    requires Meets(t, t2, m, mindist, FAR) && cells != [] && cells2 != [] && cells[0] == seed && cells2[0] == seed2
    requires AllAsked(schedule, codes, true, |cells|) ==> Exhausted(free, t)
    requires AllAsked(schedule, codes, false, |cells2|) ==> Exhausted(free, t2)
    ensures BothEnds(free, t, t2, diagonal, seed, seed2)
    ensures Done(schedule, codes, |cells|, |cells2|) && Apart(free, seed, seed2) ==>
              NoneShorter(free + {seed, seed2}, diagonal, seed, seed2, mindist - 2.0)
    ensures Done(schedule, codes, |cells|, |cells2|) && mindist != FAR && STRAIGHT < diagonal < 2.0 ==>
              (Shortest(free + {seed, seed2}, diagonal, seed, seed2, mindist - 2.0) <==> Apart(free, seed, seed2))
    ensures Done(schedule, codes, |cells|, |cells2|) && Apart(free, seed, seed2) && diagonal < 2.0 ==>
              (rows <= 32767 && columns <= 32767 ==>
                 (mindist != FAR <==> exists p :: Path(free + {seed, seed2}, seed, seed2, p)))
  {
    hide Path, Range;
    hide Searched, Inside, Answered, Meets, AllAsked, Asked, Exhausted, Expanded, ExpandedWithin, Apart, NoneShorter,
         Shortest;
    if Done(schedule, codes, |cells|, |cells2|) {
      if Asked(schedule, codes, true, 0) { AskedIsExpanded(free, t, cells, schedule, codes, true, 0); }
      if Asked(schedule, codes, false, 0) { AskedIsExpanded(free, t2, cells2, schedule, codes, false, 0); }
      if Apart(free, seed, seed2) { EnoughFindsAll(free, t, t2, diagonal, seed, seed2, m, mindist, FAR); }
      if mindist != FAR && STRAIGHT < diagonal < 2.0 {
        ShortestPathIff(free, t, t2, diagonal, seed, seed2, m, mindist, FAR);
      }
      if Apart(free, seed, seed2) && diagonal < 2.0 && rows <= 32767 && columns <= 32767 {
        NotEmptyRange(seed, rows, columns);
        FoundIff(free, t, t2, diagonal, seed, seed2, m, mindist, FAR, rows, columns);
      }
    }
  }

  lemma NotEmptyRange(x: Cell, rows: int, columns: int)
    requires x in Range(rows, columns)
    ensures rows > 0 && columns > 0
  {
  }

  lemma FreeInRange(grid: BinaryMatrix, seed: Cell, seed2: Cell)
    requires grid.Valid()
    requires 0 <= seed.r < grid.Rows && 0 <= seed.c < grid.Columns
    requires 0 <= seed2.r < grid.Rows && 0 <= seed2.c < grid.Columns
    ensures FreeCells(grid) <= Range(grid.Rows, grid.Columns)
    ensures seed in Range(grid.Rows, grid.Columns) && seed2 in Range(grid.Rows, grid.Columns)
  {
  }

  /** The next step of the schedule, for the end whose turn it is. */
  method SearchOn(grid: BinaryMatrix, cells: seq<Cell>, celldis: array2<real>, celldis2: array2<real>,
                  minindex: Cell, mindist: real, diagonal: real, schedule: seq<(bool, nat)>, codes: seq<int>,
                  end: bool, ghost seed: Cell)
    returns (code: int, cells': seq<Cell>, minindex': Cell, mindist': real)
    requires Tables(grid, celldis, celldis2) && diagonal > 0.0
    requires |codes| < |schedule| && schedule[|codes|].0 == end
    requires grid.Valid() && OneEnd(FreeCells(grid), Values(celldis), cells, schedule, codes, diagonal, seed, end)
    requires Meets(Values(celldis), Values(celldis2), minindex, mindist, FAR)
    modifies celldis
    ensures grid.Valid()
    ensures OneEnd(FreeCells(grid), Values(celldis), cells', schedule, codes + [code], diagonal, seed, end)
    ensures cells <= cells' && code == if schedule[|codes|].1 < |cells| then 1 else 0
    ensures Meets(Values(celldis), Values(celldis2), minindex', mindist', FAR) && mindist' <= mindist
  {
    hide Values, Searched, Queued, Inside, Answered, Meets, Spread, FreeCells, SeenCells, BinaryMatrix.At, Expanded;
    ghost var t := Values(celldis);
    code, cells', minindex', mindist' :=
      PathSearchStep(grid, cells, schedule[|codes|].1, celldis, celldis2, minindex, mindist, diagonal, seed, 1.0, FAR);
    StepCovers(grid, celldis, cells, cells', t, Values(celldis), seed, code, schedule[|codes|].1);
    AnsweredGoesOn(FreeCells(grid), t, Values(celldis), cells, cells', schedule, codes, code, end);
  }

  lemma NotYetMet(t: Table, t2: Table, seed: Cell, seed2: Cell, m: Cell)
    requires SeenCells(t) == {seed} && SeenCells(t2) == {seed2} && seed != seed2
    ensures Meets(t, t2, m, FAR, FAR)
  {
    forall x
      ensures !Common(t, t2, x)
    {
      assert Seen(t, x) <==> x in SeenCells(t);
      assert Seen(t2, x) <==> x in SeenCells(t2);
    }
  }

  lemma SearchingIsExact(cells: seq<Cell>, t: Table, diagonal: real, seed: Cell)
    requires Searching(cells, t, diagonal, seed, 1.0)
    ensures Exact(t, diagonal, seed, 1.0)
  {
    SearchedIsExact(t, diagonal, seed, 1.0);
  }

  lemma MeetingFound(t: Table, t2: Table, diagonal: real, seed: Cell, seed2: Cell, m: Cell, mindist: real)
    requires Exact(t, diagonal, seed, 1.0) && Exact(t2, diagonal, seed2, 1.0)
    requires Meets(t, t2, m, mindist, FAR)
    ensures mindist == FAR ==> forall x :: Common(t, t2, x) ==> t[x] + t2[x] >= FAR
    ensures mindist != FAR ==>
              ShortestMeeting(SeenCells(t), SeenCells(t2), diagonal, seed, seed2, mindist - 2.0)
  {
    if mindist != FAR {
      var p :| Walk(SeenCells(t), p) && p[0] == seed && p[|p| - 1] == m && Length(p, diagonal) == t[m] - 1.0;
      var q :| Walk(SeenCells(t2), q) && q[0] == seed2 && q[|q| - 1] == m && Length(q, diagonal) == t2[m] - 1.0;
      assert Joined(SeenCells(t), SeenCells(t2), seed, seed2, p, q);
      forall p, q | Joined(SeenCells(t), SeenCells(t2), seed, seed2, p, q)
        ensures mindist - 2.0 <= Length(p, diagonal) + Length(q, diagonal)
      {
        assert Common(t, t2, p[|p| - 1]);
      }
    }
  }

  /** A search from both ends of a path, whatever queue entries are expanded in whatever order: both tables
      stay exact, and once the ends have met `mindist` - 2 is the shortest meeting distance. An end whose queue
      entries were all expanded holds the region of its seed; if the other has expanded its seed at least, and
      the ends have met, `mindist` - 2 is the length of the shortest path between the seeds, unless these are
      occupied cells that touch; and on a grid that 16-bit indices can address they have met exactly if there is a
      path. */
  method SearchFromBothEnds(grid: BinaryMatrix, seed: Cell, seed2: Cell, diagonal: real, schedule: seq<(bool, nat)>)
    returns (celldis: array2<real>, celldis2: array2<real>, cells: seq<Cell>, cells2: seq<Cell>,
             codes: seq<int>, index: Cell, mindist: real)
    requires grid.Valid() && diagonal > 0.0 && seed != seed2
    requires 0 <= seed.r < grid.Rows && 0 <= seed.c < grid.Columns
    requires 0 <= seed2.r < grid.Rows && 0 <= seed2.c < grid.Columns
    ensures fresh(celldis) && fresh(celldis2) && |codes| == |schedule|
    ensures BothEnds(FreeCells(grid), Values(celldis), Values(celldis2), diagonal, seed, seed2)
    ensures Exact(Values(celldis), diagonal, seed, 1.0) && Exact(Values(celldis2), diagonal, seed2, 1.0)
    ensures Meets(Values(celldis), Values(celldis2), index, mindist, FAR)
    ensures mindist != FAR ==>
              ShortestMeeting(SeenCells(Values(celldis)), SeenCells(Values(celldis2)), diagonal, seed, seed2,
                              mindist - 2.0)
    ensures Queued(cells, Values(celldis)) && Queued(cells2, Values(celldis2))
    ensures Answered(FreeCells(grid), Values(celldis), cells, schedule, codes, true)
    ensures Answered(FreeCells(grid), Values(celldis2), cells2, schedule, codes, false)
    ensures AllAsked(schedule, codes, true, |cells|) ==>
              HoldsRegion(FreeCells(grid), Values(celldis), diagonal, seed)
    ensures AllAsked(schedule, codes, false, |cells2|) ==>
              HoldsRegion(FreeCells(grid), Values(celldis2), diagonal, seed2)
    ensures Done(schedule, codes, |cells|, |cells2|) && Apart(FreeCells(grid), seed, seed2) ==>
              NoneShorter(FreeCells(grid) + {seed, seed2}, diagonal, seed, seed2, mindist - 2.0)
    ensures Done(schedule, codes, |cells|, |cells2|) && mindist != FAR && STRAIGHT < diagonal < 2.0 ==>
              (Shortest(FreeCells(grid) + {seed, seed2}, diagonal, seed, seed2, mindist - 2.0)
               <==> Apart(FreeCells(grid), seed, seed2))
    ensures Done(schedule, codes, |cells|, |cells2|) && Apart(FreeCells(grid), seed, seed2) && diagonal < 2.0 ==>
              (grid.Rows <= 32767 && grid.Columns <= 32767 ==>
                 (mindist != FAR <==> exists p :: Path(FreeCells(grid) + {seed, seed2}, seed, seed2, p)))
  {
    hide *;
    ghost var free := FreeCells(grid);
    celldis, cells := SeedTable(grid.Rows, grid.Columns, seed, diagonal);
    celldis2, cells2 := SeedTable(grid.Rows, grid.Columns, seed2, diagonal);
    index, mindist, codes := seed, FAR, [];
    NotYetMet(Values(celldis), Values(celldis2), seed, seed2, index);
    SeedUnanswered(free, Values(celldis), cells, schedule, diagonal, seed, true);
    SeedUnanswered(free, Values(celldis2), cells2, schedule, diagonal, seed2, false);
    TablesStand(grid, celldis, celldis2);
    for k := 0 to |schedule|
      invariant fresh(celldis) && fresh(celldis2) && grid.Valid() && free == FreeCells(grid)
      invariant Tables(grid, celldis, celldis2) && Tables(grid, celldis2, celldis)
      invariant |codes| == k && cells != [] && cells2 != [] && cells[0] == seed && cells2[0] == seed2
      invariant OneEnd(free, Values(celldis), cells, schedule, codes, diagonal, seed, true)
      invariant OneEnd(free, Values(celldis2), cells2, schedule, codes, diagonal, seed2, false)
      invariant Meets(Values(celldis), Values(celldis2), index, mindist, FAR)
    {
      var code;
      if schedule[k].0 {
        code, cells, index, mindist := SearchOn(grid, cells, celldis, celldis2, index, mindist, diagonal,
                                                schedule, codes, true, seed);
        OtherEnd(free, Values(celldis2), cells2, schedule, codes, code, diagonal, seed2, false);
      } else {
        MeetsIsSymmetric(Values(celldis), Values(celldis2), index, mindist, FAR);
        code, cells2, index, mindist := SearchOn(grid, cells2, celldis2, celldis, index, mindist, diagonal,
                                                 schedule, codes, false, seed2);
        MeetsIsSymmetric(Values(celldis2), Values(celldis), index, mindist, FAR);
        OtherEnd(free, Values(celldis), cells, schedule, codes, code, diagonal, seed, true);
      }
      codes := codes + [code];
    }
    EndHolds(free, Values(celldis), cells, schedule, codes, diagonal, seed, true);
    EndHolds(free, Values(celldis2), cells2, schedule, codes, diagonal, seed2, false);
    MeetingFound(Values(celldis), Values(celldis2), diagonal, seed, seed2, index, mindist);
    FreeInRange(grid, seed, seed2);
    Finish(free, Values(celldis), Values(celldis2), cells, cells2, schedule, codes, diagonal, seed, seed2,
           index, mindist, grid.Rows, grid.Columns);
  }
}
