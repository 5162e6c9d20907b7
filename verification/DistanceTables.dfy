/** Tables of distances over a grid: which steps are unrelaxed, which entries are lengths of real walks.

    A table maps every cell in range to a distance; a distance of 0 or less means the cell has not
    been visited. A step to a neighbour costs 1 along a row or column and `diagonal` across a corner. */
module DistanceTables {
  import opened Grids

  type Table = map<Cell, real>

  const STRAIGHT: real := 1.0

  function Step(x: Cell, y: Cell, diagonal: real): real {
    if Straight(x, y) then STRAIGHT else diagonal
  }

  predicate Seen(t: Table, x: Cell) {
    x in t && t[x] > 0.0
  }

  ghost function SeenCells(t: Table): set<Cell> {
    set x | x in t && t[x] > 0.0
  }

  /** The step from `x` to `y` would improve the entry of `y`. */
  predicate Unrelaxed(t: Table, diagonal: real, x: Cell, y: Cell) {
    Seen(t, x) && Seen(t, y) && Touches(x, y) && t[x] + Step(x, y, diagonal) < t[y]
  }

  ghost predicate Relaxed(t: Table, diagonal: real) {
    forall x, y :: !Unrelaxed(t, diagonal, x, y)
  }

  /** Only steps that touch `s` may be unrelaxed. */
  ghost predicate RelaxedExceptAt(t: Table, diagonal: real, s: Cell) {
    forall x, y :: Unrelaxed(t, diagonal, x, y) ==> x == s || y == s
  }

  /** `t1` comes from `t0` by lowering entries of visited cells. */
  ghost predicate Lowered(t0: Table, t1: Table) {
    && t1.Keys == t0.Keys
    && forall x :: x in t0 ==> t1[x] <= t0[x] && (t0[x] > 0.0 ==> t1[x] > 0.0) && (t0[x] <= 0.0 ==> t1[x] == t0[x])
  }

  /** A step still unrelaxed in `t1` was so in `t0`, with both its entries unchanged. */
  ghost predicate OnlyOldUnrelaxed(t0: Table, t1: Table, diagonal: real) {
    forall x, y :: Unrelaxed(t1, diagonal, x, y) ==>
      Unrelaxed(t0, diagonal, x, y) && t1[x] == t0[x] && t1[y] == t0[y]
  }

  ghost predicate NoneTouches(t: Table, diagonal: real, s: Cell) {
    forall x, y :: Unrelaxed(t, diagonal, x, y) ==> x != s && y != s
  }

  /** What propagating a change at `s` does to a table. */
  ghost predicate Propagated(t0: Table, t1: Table, diagonal: real, s: Cell) {
    && Lowered(t0, t1)
    && OnlyOldUnrelaxed(t0, t1, diagonal)
    && NoneTouches(t1, diagonal, s)
  }

  // ---- the rounds around one cell ----------------------------------------------------

  /** The cell examined in round `it`: the four straight neighbours, then the four corners. */
  function Around(x: Cell, it: int): Cell {
    match it
    case 0 => Cell(x.r - 1, x.c)
    case 1 => Cell(x.r + 1, x.c)
    case 2 => Cell(x.r, x.c - 1)
    case 3 => Cell(x.r, x.c + 1)
    case 4 => Cell(x.r - 1, x.c + 1)
    case 5 => Cell(x.r + 1, x.c + 1)
    case 6 => Cell(x.r + 1, x.c - 1)
    case _ => Cell(x.r - 1, x.c - 1)
  }

  lemma AroundTouches(x: Cell, it: int)
    requires 0 <= it < 8
    ensures Touches(x, Around(x, it)) && Touches(Around(x, it), x)
    ensures Straight(x, Around(x, it)) <==> it < 4
    ensures Straight(Around(x, it), x) <==> it < 4
  {
  }

  lemma TouchesIsAround(x: Cell, y: Cell)
    requires Touches(x, y)
    ensures exists it :: 0 <= it < 8 && y == Around(x, it)
  {
    var dr, dc := y.r - x.r, y.c - x.c;
    var it := if dc == 0 then (if dr == -1 then 0 else 1)
              else if dr == 0 then (if dc == -1 then 2 else 3)
              else if dc == 1 then (if dr == -1 then 4 else 5)
              else (if dr == 1 then 6 else 7);
    assert y == Around(x, it);
  }

  /** The first `it` rounds around `s` are relaxed in both directions. */
  ghost predicate RoundsRelaxed(t: Table, diagonal: real, s: Cell, it: int) {
    forall k :: 0 <= k < it ==>
      !Unrelaxed(t, diagonal, s, Around(s, k)) && !Unrelaxed(t, diagonal, Around(s, k), s)
  }

  lemma AllRoundsRelaxed(t: Table, diagonal: real, s: Cell)
    requires RoundsRelaxed(t, diagonal, s, 8)
    ensures NoneTouches(t, diagonal, s)
  {
    forall x, y | Unrelaxed(t, diagonal, x, y)
      ensures x != s && y != s
    {
      if x == s {
        TouchesIsAround(s, y);
      } else if y == s {
        assert Touches(s, x);
        TouchesIsAround(s, x);
      }
    }
  }

  // ---- the two ways an entry is lowered ----------------------------------------------

  /** Lowering `n` and then propagating from it keeps every promise made so far. */
  lemma LowerAndPropagate(t0: Table, t: Table, t1: Table, t2: Table, diagonal: real, n: Cell, v: real)
    requires Seen(t, n) && 0.0 < v < t[n] && t1 == t[n := v]
    requires Lowered(t0, t) && OnlyOldUnrelaxed(t0, t, diagonal)
    requires Propagated(t1, t2, diagonal, n)
    ensures Lowered(t0, t2) && OnlyOldUnrelaxed(t0, t2, diagonal) && NoneTouches(t2, diagonal, n)
    ensures forall x, y :: Unrelaxed(t2, diagonal, x, y) ==> Unrelaxed(t, diagonal, x, y)
  {
    forall x, y | Unrelaxed(t2, diagonal, x, y)
      ensures Unrelaxed(t, diagonal, x, y) && t2[x] == t[x] && t2[y] == t[y]
    {
      assert Unrelaxed(t1, diagonal, x, y) && x != n && y != n;
    }
  }

  /** A table relaxed except around `s` is relaxed everywhere once `s` has been propagated. */
  lemma PropagationRelaxes(t0: Table, t1: Table, diagonal: real, s: Cell)
    requires RelaxedExceptAt(t0, diagonal, s) && Propagated(t0, t1, diagonal, s)
    ensures Relaxed(t1, diagonal)
  {
  }

  // ---- termination -------------------------------------------------------------------

  /** Every distance that can arise lies in the finite set `lat`. */
  ghost predicate Lattice(lat: set<real>, bound: real, diagonal: real) {
    forall v :: v in lat ==>
      && (v + STRAIGHT <= bound ==> v + STRAIGHT in lat)
      && (v + diagonal <= bound ==> v + diagonal in lat)
  }

  ghost predicate Covers(lat: set<real>, bound: real, t: Table) {
    forall x :: Seen(t, x) ==> t[x] in lat && t[x] <= bound
  }

  /** The reductions a table still has room for; every lowering makes this set smaller. */
  ghost function Room(t: Table, lat: set<real>): set<(Cell, real)> {
    set x, v | x in t.Keys && v in lat && v < t[x] :: (x, v)
  }

  lemma LoweringUsesRoom(t: Table, lat: set<real>, bound: real, diagonal: real, from: Cell, n: Cell)
    requires Lattice(lat, bound, diagonal) && Covers(lat, bound, t)
    requires Seen(t, from) && Seen(t, n) && t[from] + Step(from, n, diagonal) < t[n] && diagonal > 0.0
    ensures var t1 := t[n := t[from] + Step(from, n, diagonal)];
            Covers(lat, bound, t1) && Room(t1, lat) < Room(t, lat)
  {
    var v := t[from] + Step(from, n, diagonal);
    var t1 := t[n := v];
    assert v in lat;
    assert (n, v) in Room(t, lat) && (n, v) !in Room(t1, lat);
  }

  lemma LoweredHasLessRoom(t0: Table, t1: Table, lat: set<real>)
    requires Lowered(t0, t1)
    ensures Room(t1, lat) <= Room(t0, lat)
  {
  }

  ghost function Level(first: set<real>, bound: real, diagonal: real, n: nat): set<real> {
    if n == 0 then first
    else
      var l := Level(first, bound, diagonal, n - 1);
      l + (set v | v in l && v + STRAIGHT <= bound :: v + STRAIGHT)
        + (set v | v in l && v + diagonal <= bound :: v + diagonal)
  }

  ghost function Climb(step: real, n: nat): real {
    if n == 0 then 0.0 else Climb(step, n - 1) + step
  }

  lemma {:induction false} ClimbIsProduct(step: real, n: nat)
    ensures Climb(step, n) == n as real * step
  {
    if n > 0 {
      ClimbIsProduct(step, n - 1);
    }
  }

  lemma ClimbPasses(step: real, bound: real) returns (n: nat)
    requires step > 0.0
    ensures Climb(step, n) > bound
  {
    if bound < 0.0 {
      n := 0;
    } else {
      var q := bound / step;
      n := q.Floor + 1;
      ClimbIsProduct(step, n);
      assert n as real > q;
      assert n as real * step > q * step;
    }
  }

  lemma LevelStep(first: set<real>, bound: real, diagonal: real, n: nat, v: real) returns (u: real)
    requires v in Level(first, bound, diagonal, n + 1) && v !in Level(first, bound, diagonal, n)
    ensures u in Level(first, bound, diagonal, n) && (v == u + STRAIGHT || v == u + diagonal)
    ensures n > 0 ==> u !in Level(first, bound, diagonal, n - 1)
  {
    u :| u in Level(first, bound, diagonal, n) && (v == u + STRAIGHT || v == u + diagonal) && v <= bound;
  }

  /** What level `n` adds is longer than `n` steps. */
  lemma {:induction false} NewValuesAreHigh(first: set<real>, bound: real, diagonal: real, step: real, n: nat, v: real)
    requires 0.0 < step <= STRAIGHT && step <= diagonal
    requires forall u :: u in first ==> u > 0.0
    requires v in Level(first, bound, diagonal, n + 1) && v !in Level(first, bound, diagonal, n)
    ensures v > Climb(step, n + 1)
    decreases n
  {
    var u := LevelStep(first, bound, diagonal, n, v);
    if n == 0 {
      assert u in first;
      assert Climb(step, 1) == Climb(step, 0) + step;
    } else {
      hide Level;
      NewValuesAreHigh(first, bound, diagonal, step, n - 1, u);
    }
  }

  lemma NextLevel(first: set<real>, bound: real, diagonal: real, n: nat, v: real)
    requires v in Level(first, bound, diagonal, n)
    ensures v + STRAIGHT <= bound ==> v + STRAIGHT in Level(first, bound, diagonal, n + 1)
    ensures v + diagonal <= bound ==> v + diagonal in Level(first, bound, diagonal, n + 1)
  {
  }

  /** Whatever a table holds, the distances it can ever hold form a finite set. */
  lemma FiniteLattice(t: Table, diagonal: real) returns (lat: set<real>, bound: real)
    requires diagonal > 0.0
    ensures Lattice(lat, bound, diagonal) && Covers(lat, bound, t)
  {
    hide Level;
    var first := set x | x in t && t[x] > 0.0 :: t[x];
    bound := UpperBound(first);
    var step := if diagonal < STRAIGHT then diagonal else STRAIGHT;
    var n := ClimbPasses(step, bound);
    lat := Level(first, bound, diagonal, n);
    assert Climb(step, n + 1) > bound;
    forall v | v in lat
      ensures v + STRAIGHT <= bound ==> v + STRAIGHT in lat
      ensures v + diagonal <= bound ==> v + diagonal in lat
    {
      NextLevel(first, bound, diagonal, n, v);
      if v + STRAIGHT <= bound && v + STRAIGHT !in lat {
        NewValuesAreHigh(first, bound, diagonal, step, n, v + STRAIGHT);
      }
      if v + diagonal <= bound && v + diagonal !in lat {
        NewValuesAreHigh(first, bound, diagonal, step, n, v + diagonal);
      }
    }
    FirstInLevel(first, bound, diagonal, n);
    forall x | Seen(t, x)
      ensures t[x] in lat && t[x] <= bound
    {
      assert t[x] in first;
    }
  }

  lemma {:induction false} FirstInLevel(first: set<real>, bound: real, diagonal: real, n: nat)
    ensures first <= Level(first, bound, diagonal, n)
  {
    if n > 0 {
      FirstInLevel(first, bound, diagonal, n - 1);
    }
  }

  lemma {:induction false} UpperBound(s: set<real>) returns (b: real)
    ensures forall v :: v in s ==> v <= b
  {
    b := 0.0;
    if v :| v in s {
      b := UpperBound(s - {v});
      b := if b < v then v else b;
      assert forall u :: u in s ==> u == v || u in s - {v};
    }
  }

  // ---- walks and shortest distances --------------------------------------------------

  /** A walk through cells of `region`. */
  ghost predicate Walk(region: set<Cell>, p: seq<Cell>) {
    && |p| >= 1
    && (forall i :: 0 <= i < |p| ==> p[i] in region)
    && forall i :: 0 < i < |p| ==> Touches(p[i - 1], p[i])
  }

  ghost function Length(p: seq<Cell>, diagonal: real): real {
    if |p| <= 1 then 0.0
    else Length(p[..|p| - 1], diagonal) + Step(p[|p| - 2], p[|p| - 1], diagonal)
  }

  /** A walk of n steps along rows and columns has length n. */
  lemma {:induction false} StraightWalk(p: seq<Cell>, diagonal: real)
    requires p != [] && forall i :: 0 < i < |p| ==> p[i - 1].r == p[i].r || p[i - 1].c == p[i].c
    ensures Length(p, diagonal) == (|p| - 1) as real
  {
    if |p| > 1 { StraightWalk(p[..|p| - 1], diagonal); }
  }

  /** A walk of n steps across corners is n diagonals long. */
  lemma {:induction false} CornerWalk(p: seq<Cell>, diagonal: real)
    requires p != [] && forall i :: 0 < i < |p| ==> p[i - 1].r != p[i].r && p[i - 1].c != p[i].c
    ensures Length(p, diagonal) == Climb(diagonal, |p| - 1) == (|p| - 1) as real * diagonal
  {
    ClimbIsProduct(diagonal, |p| - 1);
    if |p| > 1 { CornerWalk(p[..|p| - 1], diagonal); }
  }

  ghost predicate WalkOfLength(region: set<Cell>, diagonal: real, seed: Cell, x: Cell, d: real) {
    exists p :: Walk(region, p) && p[0] == seed && p[|p| - 1] == x && Length(p, diagonal) == d
  }

  /** Every entry is the seed's base value plus the length of a walk from the seed through visited cells. */
  ghost predicate Realized(t: Table, diagonal: real, seed: Cell, base: real) {
    forall x :: Seen(t, x) ==> WalkOfLength(SeenCells(t), diagonal, seed, x, t[x] - base)
  }

  lemma ExtendWalk(region: set<Cell>, diagonal: real, seed: Cell, x: Cell, y: Cell, d: real)
    requires WalkOfLength(region, diagonal, seed, x, d) && y in region && Touches(x, y)
    ensures WalkOfLength(region, diagonal, seed, y, d + Step(x, y, diagonal))
  {
    var p :| Walk(region, p) && p[0] == seed && p[|p| - 1] == x && Length(p, diagonal) == d;
    var q := p + [y];
    assert q[..|q| - 1] == p;
    assert Walk(region, q) && Length(q, diagonal) == d + Step(x, y, diagonal);
  }

  lemma WidenWalk(region: set<Cell>, wider: set<Cell>, diagonal: real, seed: Cell, x: Cell, d: real)
    requires WalkOfLength(region, diagonal, seed, x, d) && region <= wider
    ensures WalkOfLength(wider, diagonal, seed, x, d)
  {
    var p :| Walk(region, p) && p[0] == seed && p[|p| - 1] == x && Length(p, diagonal) == d;
    assert Walk(wider, p);
  }

  /** Lowering an entry by way of a visited neighbour keeps every entry the length of a walk. */
  lemma LoweringRealized(t: Table, diagonal: real, seed: Cell, base: real, from: Cell, n: Cell)
    requires Realized(t, diagonal, seed, base) && Seen(t, from) && Seen(t, n) && Touches(from, n)
    requires t[from] + Step(from, n, diagonal) < t[n] && diagonal > 0.0
    ensures Realized(t[n := t[from] + Step(from, n, diagonal)], diagonal, seed, base)
  {
    var t1 := t[n := t[from] + Step(from, n, diagonal)];
    assert SeenCells(t1) == SeenCells(t);
    ExtendWalk(SeenCells(t), diagonal, seed, from, n, t[from] - base);
    forall x | Seen(t1, x)
      ensures WalkOfLength(SeenCells(t1), diagonal, seed, x, t1[x] - base)
    {
      assert Seen(t, x);
      if x == n { assert t1[x] - base == t[from] - base + Step(from, n, diagonal); }
    }
  }

  /** In a relaxed table no walk from the seed is shorter than the entry of its last cell. */
  lemma {:induction false} RelaxedIsLowerBound(t: Table, diagonal: real, seed: Cell, p: seq<Cell>)
    requires Relaxed(t, diagonal) && Walk(SeenCells(t), p) && p[0] == seed
    ensures t[p[|p| - 1]] <= t[seed] + Length(p, diagonal)
  {
    if |p| > 1 {
      var q := p[..|p| - 1];
      RelaxedIsLowerBound(t, diagonal, seed, q);
      assert q[|q| - 1] == p[|p| - 2];
      assert !Unrelaxed(t, diagonal, p[|p| - 2], p[|p| - 1]);
    }
  }

  /** `t` holds, for every visited cell, the shortest distance from the seed within the visited cells. */
  ghost predicate Exact(t: Table, diagonal: real, seed: Cell, base: real) {
    forall x :: Seen(t, x) ==>
      && WalkOfLength(SeenCells(t), diagonal, seed, x, t[x] - base)
      && forall p :: Walk(SeenCells(t), p) && p[0] == seed && p[|p| - 1] == x ==> t[x] - base <= Length(p, diagonal)
  }

  lemma RelaxedAndRealizedIsExact(t: Table, diagonal: real, seed: Cell, base: real)
    requires Relaxed(t, diagonal) && Realized(t, diagonal, seed, base)
    requires Seen(t, seed) && t[seed] == base
    ensures Exact(t, diagonal, seed, base)
  {
    forall x, p | Seen(t, x) && Walk(SeenCells(t), p) && p[0] == seed && p[|p| - 1] == x
      ensures t[x] - base <= Length(p, diagonal)
    {
      RelaxedIsLowerBound(t, diagonal, seed, p);
    }
  }

  /** Whatever seed the entries were walk lengths from, they still are. */
  ghost predicate KeepsRealized(t0: Table, t1: Table, diagonal: real) {
    forall seed, base :: Realized(t0, diagonal, seed, base) ==> Realized(t1, diagonal, seed, base)
  }

  lemma LoweringKeepsRealized(t: Table, diagonal: real, from: Cell, n: Cell)
    requires Seen(t, from) && Seen(t, n) && Touches(from, n)
    requires t[from] + Step(from, n, diagonal) < t[n] && diagonal > 0.0
    ensures KeepsRealized(t, t[n := t[from] + Step(from, n, diagonal)], diagonal)
  {
    forall seed, base | Realized(t, diagonal, seed, base)
      ensures Realized(t[n := t[from] + Step(from, n, diagonal)], diagonal, seed, base)
    {
      LoweringRealized(t, diagonal, seed, base, from, n);
    }
  }

  // ---- growing the visited region ----------------------------------------------------

  /** A table produced by a search from `seed`: consistent, exact and never negative. */
  ghost predicate Searched(t: Table, diagonal: real, seed: Cell, base: real) {
    && base > 0.0
    && (forall x :: x in t ==> t[x] >= 0.0)
    && Relaxed(t, diagonal) && Realized(t, diagonal, seed, base)
    && Seen(t, seed) && t[seed] == base
  }

  lemma SearchedIsExact(t: Table, diagonal: real, seed: Cell, base: real)
    requires Searched(t, diagonal, seed, base)
    ensures Exact(t, diagonal, seed, base)
  {
    RelaxedAndRealizedIsExact(t, diagonal, seed, base);
  }

  /** A table that holds only the seed. */
  lemma SeedOnly(t: Table, diagonal: real, seed: Cell, base: real)
    requires base > 0.0 && diagonal > 0.0 && seed in t && t[seed] == base
    requires forall x :: x in t && x != seed ==> t[x] == 0.0
    ensures Searched(t, diagonal, seed, base)
  {
    assert Walk(SeenCells(t), [seed]) && Length([seed], diagonal) == 0.0;
    assert WalkOfLength(SeenCells(t), diagonal, seed, seed, 0.0);
  }

  /** A newly visited cell whose entry is one step more than the length of a walk to its neighbour. */
  lemma VisitRealized(t: Table, diagonal: real, seed: Cell, base: real, from: Cell, d: real, n: Cell)
    requires Realized(t, diagonal, seed, base)
    requires WalkOfLength(SeenCells(t), diagonal, seed, from, d - base)
    requires n in t && t[n] == 0.0 && Touches(from, n) && d + Step(from, n, diagonal) > 0.0
    ensures Realized(t[n := d + Step(from, n, diagonal)], diagonal, seed, base)
  {
    var t1 := t[n := d + Step(from, n, diagonal)];
    assert SeenCells(t1) == SeenCells(t) + {n};
    WidenWalk(SeenCells(t), SeenCells(t1), diagonal, seed, from, d - base);
    ExtendWalk(SeenCells(t1), diagonal, seed, from, n, d - base);
    forall x | Seen(t1, x)
      ensures WalkOfLength(SeenCells(t1), diagonal, seed, x, t1[x] - base)
    {
      if x == n {
        assert t1[x] - base == d - base + Step(from, n, diagonal);
      } else {
        WidenWalk(SeenCells(t), SeenCells(t1), diagonal, seed, x, t[x] - base);
      }
    }
  }

  lemma {:induction false} LengthNotNegative(p: seq<Cell>, diagonal: real)
    requires diagonal > 0.0
    ensures Length(p, diagonal) >= 0.0
  {
    if |p| > 1 {
      LengthNotNegative(p[..|p| - 1], diagonal);
    }
  }

  /** As `Searched`, but steps that touch `n` may still be unrelaxed. */
  ghost predicate Pending(t: Table, diagonal: real, seed: Cell, base: real, n: Cell) {
    && base > 0.0
    && (forall x :: x in t ==> t[x] >= 0.0)
    && RelaxedExceptAt(t, diagonal, n) && Realized(t, diagonal, seed, base)
    && Seen(t, seed) && t[seed] == base
  }

  /** Visiting a new cell leaves only that cell to be propagated. */
  lemma VisitIsPending(t: Table, diagonal: real, seed: Cell, base: real, from: Cell, d: real, n: Cell)
    requires Searched(t, diagonal, seed, base)
    requires WalkOfLength(SeenCells(t), diagonal, seed, from, d - base)
    requires n in t && t[n] == 0.0 && Touches(from, n) && d + Step(from, n, diagonal) > 0.0
    ensures Pending(t[n := d + Step(from, n, diagonal)], diagonal, seed, base, n)
    ensures SeenCells(t[n := d + Step(from, n, diagonal)]) == SeenCells(t) + {n}
  {
    hide Relaxed, Realized, RelaxedExceptAt, WalkOfLength;
    VisitRealized(t, diagonal, seed, base, from, d, n);
    VisitRelaxed(t, diagonal, n, d + Step(from, n, diagonal));
  }

  /** Propagating from it completes the search table again. */
  lemma PropagationCompletes(t1: Table, t2: Table, diagonal: real, seed: Cell, base: real, n: Cell)
    requires Pending(t1, diagonal, seed, base, n) && diagonal > 0.0
    requires Propagated(t1, t2, diagonal, n) && KeepsRealized(t1, t2, diagonal)
    ensures Searched(t2, diagonal, seed, base)
    ensures t2.Keys == t1.Keys && SeenCells(t2) == SeenCells(t1)
  {
    hide Relaxed, Realized, RelaxedExceptAt, OnlyOldUnrelaxed, NoneTouches, Lowered, SeenCells;
    PropagationRelaxes(t1, t2, diagonal, n);
    LoweredSeesTheSame(t1, t2);
    SeedStays(t2, diagonal, seed, base);
  }

  lemma VisitRelaxed(t: Table, diagonal: real, n: Cell, v: real)
    requires Relaxed(t, diagonal) && n in t
    ensures RelaxedExceptAt(t[n := v], diagonal, n)
  {
    var t1 := t[n := v];
    forall x, y | Unrelaxed(t1, diagonal, x, y)
      ensures x == n || y == n
    {
      assert !Unrelaxed(t, diagonal, x, y);
    }
  }

  lemma LoweredSeesTheSame(t0: Table, t1: Table)
    requires Lowered(t0, t1)
    ensures t1.Keys == t0.Keys && SeenCells(t1) == SeenCells(t0)
    ensures (forall x :: x in t0 ==> t0[x] >= 0.0) ==> forall x :: x in t1 ==> t1[x] >= 0.0
    ensures forall x :: Seen(t0, x) ==> Seen(t1, x) && t1[x] <= t0[x]
  {
  }

  /** The seed's own entry can be no less than its base value. */
  lemma SeedStays(t: Table, diagonal: real, seed: Cell, base: real)
    requires Realized(t, diagonal, seed, base) && Seen(t, seed) && diagonal > 0.0
    ensures t[seed] >= base
  {
    var p :| Walk(SeenCells(t), p) && p[0] == seed && p[|p| - 1] == seed && Length(p, diagonal) == t[seed] - base;
    LengthNotNegative(p, diagonal);
  }

  // ---- two searches that meet --------------------------------------------------------

  predicate Common(t: Table, t2: Table, x: Cell) {
    Seen(t, x) && Seen(t2, x)
  }

  /** `mindist` is the least sum of the two tables over the cells visited from both ends, reached at `m`,
      or still its first value `far`. */
  ghost predicate Meets(t: Table, t2: Table, m: Cell, mindist: real, far: real) {
    && (forall x :: Common(t, t2, x) ==> mindist <= t[x] + t2[x])
    && (mindist == far || (Common(t, t2, m) && mindist == t[m] + t2[m]))
  }

  lemma MeetsIsSymmetric(t: Table, t2: Table, m: Cell, mindist: real, far: real)
    requires Meets(t, t2, m, mindist, far)
    ensures Meets(t2, t, m, mindist, far)
  {
    forall x | Common(t2, t, x)
      ensures mindist <= t2[x] + t[x]
    {
      assert Common(t, t2, x);
    }
  }
}
