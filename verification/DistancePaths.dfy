/** What a search that has expanded enough of its queue knows: the region a seed reaches, and the shortest path
    between two seeds. */
module DistancePaths {
  import opened DistanceTables
  import opened Grids

  // ---- lengths of walks --------------------------------------------------------------

  /** A walk is as long as its two parts at any of its cells. */
  lemma {:induction false} LengthSplits(p: seq<Cell>, i: nat, diagonal: real)
    requires i < |p|
    ensures Length(p, diagonal) == Length(p[..i + 1], diagonal) + Length(p[i..], diagonal)
    decreases |p|
  {
    if i == |p| - 1 {
      assert p[..i + 1] == p;
    } else {
      var q := p[..|p| - 1];
      LengthSplits(q, i, diagonal);
      assert q[..i + 1] == p[..i + 1];
      assert p[i..][..|p[i..]| - 1] == q[i..];
    }
  }

  lemma LengthPair(x: Cell, y: Cell, diagonal: real)
    ensures Length([x, y], diagonal) == Step(x, y, diagonal)
  {
    assert [x, y][..1] == [x];
  }

  function Back(p: seq<Cell>): (q: seq<Cell>)
    ensures |q| == |p| && forall i :: 0 <= i < |p| ==> q[i] == p[|p| - 1 - i]
  {
    if p == [] then [] else [p[|p| - 1]] + Back(p[..|p| - 1])
  }

  lemma {:induction false} BackLength(p: seq<Cell>, diagonal: real)
    ensures Length(Back(p), diagonal) == Length(p, diagonal)
    decreases |p|
  {
    if |p| > 1 {
      var q := p[..|p| - 1];
      BackLength(q, diagonal);
      var b := Back(p);
      LengthSplits(b, 1, diagonal);
      assert b[1..] == Back(q) && b[..2] == [p[|p| - 1], p[|p| - 2]];
      LengthPair(p[|p| - 1], p[|p| - 2], diagonal);
    }
  }

  lemma BackWalk(region: set<Cell>, p: seq<Cell>)
    requires Walk(region, p)
    ensures Walk(region, Back(p)) && Back(p)[0] == p[|p| - 1] && Back(p)[|p| - 1] == p[0]
  {
    var b := Back(p);
    forall i | 0 < i < |b| ensures Touches(b[i - 1], b[i]) {
      assert Touches(p[|p| - 1 - i], p[|p| - 1 - i + 1]);
    }
  }

  lemma PartWalk(region: set<Cell>, p: seq<Cell>, i: nat, j: nat)
    requires Walk(region, p) && i < j <= |p|
    ensures Walk(region, p[i..j])
  {
  }

  /** No walk to another cell is shorter than a step. */
  lemma {:induction false} LeavesSeed(p: seq<Cell>, diagonal: real)
    requires |p| > 1 && diagonal > STRAIGHT
    ensures Length(p, diagonal) >= STRAIGHT
  {
    LengthNotNegative(p[..|p| - 1], diagonal);
  }

  // ---- the region a seed reaches -----------------------------------------------------

  /** Only the seed and free cells have been visited. */
  ghost predicate Inside(free: set<Cell>, t: Table, seed: Cell) {
    SeenCells(t) <= free + {seed}
  }

  /** Every free cell next to `s` has been visited. */
  ghost predicate Expanded(free: set<Cell>, t: Table, s: Cell) {
    forall y :: y in free && Touches(s, y) ==> Seen(t, y)
  }

  /** Every visited cell that is no further than `limit` has been expanded. */
  ghost predicate ExpandedWithin(free: set<Cell>, t: Table, limit: real) {
    forall x :: Seen(t, x) && t[x] <= limit ==> Expanded(free, t, x)
  }

  ghost predicate Exhausted(free: set<Cell>, t: Table) {
    forall x :: Seen(t, x) ==> Expanded(free, t, x)
  }

  /** A walk through free cells has been visited as far as the search went, and no cell of it lies further than
      the walk is long. */
  lemma {:induction false} SeenAlong(free: set<Cell>, t: Table, diagonal: real, seed: Cell, p: seq<Cell>, limit: real)
    requires Searched(t, diagonal, seed, 1.0) && diagonal > 0.0 && ExpandedWithin(free, t, limit)
    requires Walk(free + {seed}, p) && p[0] == seed
    requires |p| > 1 ==> 1.0 + Length(p[..|p| - 1], diagonal) <= limit
    ensures Walk(SeenCells(t), p) && t[p[|p| - 1]] <= 1.0 + Length(p, diagonal)
  {
    hide Relaxed, Realized, ExpandedWithin, Expanded, Length, SeenCells;
    if |p| > 1 {
      var q := p[..|p| - 1];
      LengthGrows(p, diagonal);
      if |q| > 1 { LengthGrows(q, diagonal); }
      SeenAlong(free, t, diagonal, seed, q, limit);
      SeenNext(free, t, seed, q, p[|p| - 1], limit);
      assert Walk(SeenCells(t), p);
    } else {
      SeedSeen(t, p);
    }
    RelaxedIsLowerBound(t, diagonal, seed, p);
  }

  lemma LengthGrows(p: seq<Cell>, diagonal: real)
    requires |p| > 1 && diagonal > 0.0
    ensures Length(p[..|p| - 1], diagonal) <= Length(p, diagonal)
  {
  }

  lemma SeenNext(free: set<Cell>, t: Table, seed: Cell, q: seq<Cell>, y: Cell, limit: real)
    requires Walk(SeenCells(t), q) && t[q[|q| - 1]] <= limit && ExpandedWithin(free, t, limit)
    requires y in free + {seed} && Touches(q[|q| - 1], y) && Seen(t, seed)
    ensures y in SeenCells(t)
  {
    assert Expanded(free, t, q[|q| - 1]);
  }

  lemma SeedSeen(t: Table, p: seq<Cell>)
    requires |p| == 1 && Seen(t, p[0])
    ensures Walk(SeenCells(t), p)
  {
  }

  /** `d` is the length of the shortest walk through the region from one cell to another. */
  ghost predicate Shortest(region: set<Cell>, diagonal: real, from: Cell, to: Cell, d: real) {
    && WalkOfLength(region, diagonal, from, to, d)
    && NoneShorter(region, diagonal, from, to, d)
  }

  ghost predicate NoneShorter(region: set<Cell>, diagonal: real, from: Cell, to: Cell, d: real) {
    forall p :: Path(region, from, to, p) ==> d <= Length(p, diagonal)
  }

  ghost predicate Path(region: set<Cell>, from: Cell, to: Cell, p: seq<Cell>) {
    Walk(region, p) && p[0] == from && p[|p| - 1] == to
  }

  /** Once every visited cell has been expanded, those visited are the seed and all free cells it reaches, and
      the table holds their shortest distances through free cells. */
  lemma ExhaustedIsReach(free: set<Cell>, t: Table, diagonal: real, seed: Cell)
    requires Searched(t, diagonal, seed, 1.0) && diagonal > 0.0 && Inside(free, t, seed) && Exhausted(free, t)
    ensures forall x :: Seen(t, x) <==> exists p :: Path(free + {seed}, seed, x, p)
    ensures forall x :: Seen(t, x) ==> Shortest(free + {seed}, diagonal, seed, x, t[x] - 1.0)
  {
    hide Searched, WalkOfLength, Walk, Exhausted, Expanded, Inside;
    forall x, p | Path(free + {seed}, seed, x, p) ensures Seen(t, x) && t[x] - 1.0 <= Length(p, diagonal) {
      ExhaustedAlong(free, t, diagonal, seed, p);
    }
    forall x | Seen(t, x) ensures WalkOfLength(free + {seed}, diagonal, seed, x, t[x] - 1.0) {
      EntryIsPath(free, t, diagonal, seed, x);
    }
    forall x | Seen(t, x) ensures exists p :: Path(free + {seed}, seed, x, p) {
      SomePath(free + {seed}, diagonal, seed, x, t[x] - 1.0);
    }
  }

  lemma ExhaustedAlong(free: set<Cell>, t: Table, diagonal: real, seed: Cell, p: seq<Cell>)
    requires Searched(t, diagonal, seed, 1.0) && diagonal > 0.0 && Exhausted(free, t)
    requires Walk(free + {seed}, p) && p[0] == seed
    ensures Seen(t, p[|p| - 1]) && t[p[|p| - 1]] <= 1.0 + Length(p, diagonal)
  {
    hide Searched, Length, Expanded;
    SeenAlong(free, t, diagonal, seed, p, 1.0 + Length(p[..|p| - 1], diagonal));
  }

  lemma EntryIsPath(free: set<Cell>, t: Table, diagonal: real, seed: Cell, x: Cell)
    requires Searched(t, diagonal, seed, 1.0) && Inside(free, t, seed) && Seen(t, x)
    ensures WalkOfLength(free + {seed}, diagonal, seed, x, t[x] - 1.0)
  {
    hide WalkOfLength;
    WidenWalk(SeenCells(t), free + {seed}, diagonal, seed, x, t[x] - 1.0);
  }

  lemma SomePath(region: set<Cell>, diagonal: real, from: Cell, to: Cell, d: real)
    requires WalkOfLength(region, diagonal, from, to, d)
    ensures exists p :: Path(region, from, to, p) && Length(p, diagonal) == d
  {
    var p :| Walk(region, p) && p[0] == from && p[|p| - 1] == to && Length(p, diagonal) == d;
    assert Path(region, from, to, p);
  }

  // ---- the shortest path between two seeds -------------------------------------------

  /** A path from seed to seed that has free cells only between them. */
  ghost predicate Direct(free: set<Cell>, seed: Cell, seed2: Cell, p: seq<Cell>) {
    && Path(free + {seed, seed2}, seed, seed2, p)
    && forall i :: 0 < i < |p| - 1 ==> p[i] in free
  }

  /** A path that comes by a seed again can be cut there. */
  lemma {:induction false} CutShort(free: set<Cell>, diagonal: real, seed: Cell, seed2: Cell, p: seq<Cell>)
    returns (q: seq<Cell>)
    requires Path(free + {seed, seed2}, seed, seed2, p) && diagonal > 0.0
    ensures Direct(free, seed, seed2, q) && Length(q, diagonal) <= Length(p, diagonal)
    decreases |p|
  {
    if i :| 0 < i < |p| - 1 && p[i] == seed {
      LengthSplits(p, i, diagonal);
      LengthNotNegative(p[..i + 1], diagonal);
      PartWalk(free + {seed, seed2}, p, i, |p|);
      q := CutShort(free, diagonal, seed, seed2, p[i..]);
    } else if i :| 0 < i < |p| - 1 && p[i] == seed2 {
      LengthSplits(p, i, diagonal);
      LengthNotNegative(p[i..], diagonal);
      PartWalk(free + {seed, seed2}, p, 0, i + 1);
      q := CutShort(free, diagonal, seed, seed2, p[..i + 1]);
    } else {
      q := p;
    }
  }

  /** One of the seeds is free, or they do not touch. */
  predicate Apart(free: set<Cell>, seed: Cell, seed2: Cell) {
    seed in free || seed2 in free || !Touches(seed, seed2)
  }

  /** Both ends of a search, as far as they got. */
  ghost predicate BothEnds(free: set<Cell>, t: Table, t2: Table, diagonal: real, seed: Cell, seed2: Cell) {
    && diagonal > 0.0 && seed != seed2
    && Searched(t, diagonal, seed, 1.0) && Searched(t2, diagonal, seed2, 1.0)
    && Inside(free, t, seed) && Inside(free, t2, seed2)
  }

  /** A direct path whose cells but the last were expanded from one end is no shorter than the meeting distance
      if the other end has expanded its seed. */
  lemma DirectMeets(free: set<Cell>, t: Table, t2: Table, diagonal: real, seed: Cell, seed2: Cell,
                    m: Cell, mindist: real, far: real, p: seq<Cell>, limit: real)
    requires BothEnds(free, t, t2, diagonal, seed, seed2) && Apart(free, seed, seed2)
    requires Meets(t, t2, m, mindist, far) && Direct(free, seed, seed2, p)
    requires ExpandedWithin(free, t, limit) && 1.0 + Length(p[..|p| - 1], diagonal) <= limit
    requires Expanded(free, t2, seed2)
    ensures mindist - 2.0 <= Length(p, diagonal)
  {
    hide Realized, Length, ExpandedWithin, SeenCells, Inside;
    var x := p[|p| - 2];
    var q := p[..|p| - 1];
    LastStep(p, diagonal);
    assert Touches(x, seed2) && Touches(seed2, x);
    if seed2 in free {
      assert Walk(free + {seed}, p);
      SeenAlong(free, t, diagonal, seed, p, limit);
      LastSeen(t, p);
      assert Common(t, t2, seed2);
    } else {
      assert x in free;
      assert Walk(free + {seed}, q);
      PrefixShorter(p, |p| - 1, diagonal);
      PrefixShorter(q, |q| - 1, diagonal);
      SeenAlong(free, t, diagonal, seed, q, limit);
      LastSeen(t, q);
      assert !Unrelaxed(t2, diagonal, seed2, x);
      assert Common(t, t2, x);
    }
  }

  lemma LastStep(p: seq<Cell>, diagonal: real)
    requires |p| > 1
    ensures Length(p, diagonal) == Length(p[..|p| - 1], diagonal) + Step(p[|p| - 2], p[|p| - 1], diagonal)
  {
  }

  lemma PrefixShorter(p: seq<Cell>, i: nat, diagonal: real)
    requires i <= |p| && diagonal > 0.0
    ensures Length(p[..i], diagonal) <= Length(p, diagonal)
  {
    if i > 0 {
      LengthSplits(p, i - 1, diagonal);
      LengthNotNegative(p[i - 1..], diagonal);
    } else {
      LengthNotNegative(p, diagonal);
    }
  }

  /** As soon as one end is exhausted, no path is shorter than the meeting distance. */
  lemma OneEndIsEnough(free: set<Cell>, t: Table, t2: Table, diagonal: real, seed: Cell, seed2: Cell,
                       m: Cell, mindist: real, far: real)
    requires BothEnds(free, t, t2, diagonal, seed, seed2) && Apart(free, seed, seed2)
    requires Meets(t, t2, m, mindist, far) && Exhausted(free, t) && Expanded(free, t2, seed2)
    ensures NoneShorter(free + {seed, seed2}, diagonal, seed, seed2, mindist - 2.0)
  {
    hide Searched, Apart, Meets, Expanded, Length, Walk;
    forall p | Path(free + {seed, seed2}, seed, seed2, p) ensures mindist - 2.0 <= Length(p, diagonal) {
      var q := CutShort(free, diagonal, seed, seed2, p);
      DirectHasStep(free, seed, seed2, q);
      DirectMeets(free, t, t2, diagonal, seed, seed2, m, mindist, far, q, 1.0 + Length(q[..|q| - 1], diagonal));
    }
  }

  lemma DirectHasStep(free: set<Cell>, seed: Cell, seed2: Cell, p: seq<Cell>)
    requires Direct(free, seed, seed2, p) && seed != seed2
    ensures |p| > 1
  {
  }

  /** The part of a path up to its i-th cell was expanded from one end, all of it but that cell. */
  ghost predicate Halfway(p: seq<Cell>, i: nat, diagonal: real, half: real)
  {
    && 0 < i < |p| && 1.0 + Length(p[..i], diagonal) <= half
    && (i < |p| - 1 ==> 1.0 + Length(p[..i + 1], diagonal) > half)
  }

  /** A path has a cell as far as half of the meeting distance allows, or is within it but for its last cell. */
  lemma {:induction false} SomeHalfway(p: seq<Cell>, diagonal: real, half: real, k: nat) returns (i: nat)
    requires 0 < k < |p| && 1.0 + Length(p[..k], diagonal) <= half
    ensures Halfway(p, i, diagonal, half)
    decreases |p| - k
  {
    if k < |p| - 1 && 1.0 + Length(p[..k + 1], diagonal) <= half {
      i := SomeHalfway(p, diagonal, half, k + 1);
    } else {
      i := k;
    }
  }

  /** It is enough that both ends have expanded what lies within half of the meeting distance: no path is
      shorter then. */
  lemma HalfwayIsEnough(free: set<Cell>, t: Table, t2: Table, diagonal: real, seed: Cell, seed2: Cell,
                        m: Cell, mindist: real, far: real)
    requires BothEnds(free, t, t2, diagonal, seed, seed2) && Apart(free, seed, seed2)
    requires Meets(t, t2, m, mindist, far)
    requires ExpandedWithin(free, t, mindist / 2.0) && ExpandedWithin(free, t2, mindist / 2.0)
    ensures NoneShorter(free + {seed, seed2}, diagonal, seed, seed2, mindist - 2.0)
  {
    hide Searched, Apart, Meets, ExpandedWithin, Length, Walk;
    forall p | Path(free + {seed, seed2}, seed, seed2, p) ensures mindist - 2.0 <= Length(p, diagonal) {
      var q := CutShort(free, diagonal, seed, seed2, p);
      DirectHasStep(free, seed, seed2, q);
      DirectFromBoth(free, t, t2, diagonal, seed, seed2, m, mindist, far, q);
    }
  }

  lemma DirectFromBoth(free: set<Cell>, t: Table, t2: Table, diagonal: real, seed: Cell, seed2: Cell,
                       m: Cell, mindist: real, far: real, p: seq<Cell>)
    requires BothEnds(free, t, t2, diagonal, seed, seed2) && Apart(free, seed, seed2)
    requires Meets(t, t2, m, mindist, far) && Direct(free, seed, seed2, p) && |p| > 1
    requires ExpandedWithin(free, t, mindist / 2.0) && ExpandedWithin(free, t2, mindist / 2.0)
    ensures mindist - 2.0 <= Length(p, diagonal)
  {
    hide Apart, Expanded, Length, Walk, Relaxed, Realized, Inside, SeenCells, Meets;
    var half := mindist / 2.0;
    LengthNotNegative(p, diagonal);
    if half > 1.0 {
      SeedAlone(p, diagonal);
      var i := SomeHalfway(p, diagonal, half, 1);
      if i == |p| - 1 {
        assert Expanded(free, t2, seed2);
        DirectMeets(free, t, t2, diagonal, seed, seed2, m, mindist, far, p, half);
      } else {
        MiddleMeets(free, t, t2, diagonal, seed, seed2, m, mindist, far, p, i);
      }
    }
  }

  lemma SeedAlone(p: seq<Cell>, diagonal: real)
    requires |p| > 0
    ensures Length(p[..1], diagonal) == 0.0
  {
  }

  lemma MiddleMeets(free: set<Cell>, t: Table, t2: Table, diagonal: real, seed: Cell, seed2: Cell,
                    m: Cell, mindist: real, far: real, p: seq<Cell>, i: nat)
    requires BothEnds(free, t, t2, diagonal, seed, seed2)
    requires Meets(t, t2, m, mindist, far) && Direct(free, seed, seed2, p) && i < |p| - 1
    requires Halfway(p, i, diagonal, mindist / 2.0)
    requires ExpandedWithin(free, t, mindist / 2.0) && ExpandedWithin(free, t2, mindist / 2.0)
    ensures mindist - 2.0 <= Length(p, diagonal)
  {
    hide ExpandedWithin, Expanded, Length, Relaxed, Realized, Inside, SeenCells, WalkOfLength;
    var a, b := p[..i + 1], Back(p[i..]);
    LengthSplits(p, i, diagonal);
    BackLength(p[i..], diagonal);
    HalvesWalk(free, seed, seed2, p, i);
    if 1.0 + Length(b, diagonal) <= mindist / 2.0 {
      assert a[..|a| - 1] == p[..i];
      LengthGrows(b, diagonal);
      SeenAlong(free, t, diagonal, seed, a, mindist / 2.0);
      SeenAlong(free, t2, diagonal, seed2, b, mindist / 2.0);
      LastSeen(t, a);
      LastSeen(t2, b);
      assert Common(t, t2, p[i]);
    }
  }

  lemma LastSeen(t: Table, p: seq<Cell>)
    requires Walk(SeenCells(t), p)
    ensures Seen(t, p[|p| - 1])
  {
  }

  lemma HalvesWalk(free: set<Cell>, seed: Cell, seed2: Cell, p: seq<Cell>, i: nat)
    requires Direct(free, seed, seed2, p) && 0 < i < |p| - 1
    ensures Walk(free + {seed}, p[..i + 1]) && p[..i + 1][0] == seed && p[..i + 1][|p[..i + 1]| - 1] == p[i]
    ensures var b := Back(p[i..]); Walk(free + {seed2}, b) && b[0] == seed2 && b[|b| - 1] == p[i] && |b| > 1
  {
    assert Walk(free + {seed2}, p[i..]);
    BackWalk(free + {seed2}, p[i..]);
  }

  /** The meeting distance is the length of some path. */
  lemma MeetingIsPath(free: set<Cell>, t: Table, t2: Table, diagonal: real, seed: Cell, seed2: Cell,
                      m: Cell, mindist: real, far: real)
    requires BothEnds(free, t, t2, diagonal, seed, seed2)
    requires Meets(t, t2, m, mindist, far) && mindist != far
    ensures WalkOfLength(free + {seed, seed2}, diagonal, seed, seed2, mindist - 2.0)
  {
    hide Searched, Inside, WalkOfLength, Length;
    EntryIsPath(free, t, diagonal, seed, m);
    EntryIsPath(free, t2, diagonal, seed2, m);
    var region := free + {seed, seed2};
    WidenWalk(free + {seed}, region, diagonal, seed, m, t[m] - 1.0);
    WidenWalk(free + {seed2}, region, diagonal, seed2, m, t2[m] - 1.0);
    SomePath(region, diagonal, seed, m, t[m] - 1.0);
    SomePath(region, diagonal, seed2, m, t2[m] - 1.0);
    var p :| Path(region, seed, m, p) && Length(p, diagonal) == t[m] - 1.0;
    var q :| Path(region, seed2, m, q) && Length(q, diagonal) == t2[m] - 1.0;
    JoinWalks(region, p, q, diagonal);
    IsPath(region, diagonal, seed, seed2, p + Back(q)[1..], mindist - 2.0);
  }

  lemma IsPath(region: set<Cell>, diagonal: real, from: Cell, to: Cell, p: seq<Cell>, d: real)
    requires Path(region, from, to, p) && Length(p, diagonal) == d
    ensures WalkOfLength(region, diagonal, from, to, d)
  {
  }

  lemma JoinWalks(region: set<Cell>, p: seq<Cell>, q: seq<Cell>, diagonal: real)
    requires Walk(region, p) && Walk(region, q) && p[|p| - 1] == q[|q| - 1]
    ensures var w := p + Back(q)[1..];
            && Walk(region, w) && w[0] == p[0] && w[|w| - 1] == q[0]
            && Length(w, diagonal) == Length(p, diagonal) + Length(q, diagonal)
  {
    hide Length;
    var b := Back(q);
    var w := p + b[1..];
    BackWalk(region, q);
    BackLength(q, diagonal);
    LengthSplits(w, |p| - 1, diagonal);
    assert w[..|p|] == p && w[|p| - 1..] == b;
    forall i | 0 < i < |w| ensures Touches(w[i - 1], w[i]) {
      if i >= |p| { assert w[i - 1] == b[i - |p|] && w[i] == b[i - |p| + 1]; }
    }
  }

  /** Between two seeds that touch and are both occupied the one step there is has no cell that both ends visit,
      so what the search finds is longer. */
  lemma TouchingMissed(free: set<Cell>, t: Table, t2: Table, diagonal: real, seed: Cell, seed2: Cell,
                       m: Cell, mindist: real, far: real)
    requires BothEnds(free, t, t2, diagonal, seed, seed2) && !Apart(free, seed, seed2)
    requires Meets(t, t2, m, mindist, far) && mindist != far && STRAIGHT < diagonal < 2.0
    ensures !NoneShorter(free + {seed, seed2}, diagonal, seed, seed2, mindist - 2.0)
  {
    hide Searched, Length, NoneShorter;
    assert m in SeenCells(t) && m in SeenCells(t2);
    FarFromSeed(t, diagonal, seed, m);
    FarFromSeed(t2, diagonal, seed2, m);
    StepIsShorter(free + {seed, seed2}, diagonal, seed, seed2, mindist - 2.0);
  }

  lemma FarFromSeed(t: Table, diagonal: real, seed: Cell, x: Cell)
    requires Searched(t, diagonal, seed, 1.0) && Seen(t, x) && x != seed && diagonal > STRAIGHT
    ensures t[x] >= 2.0
  {
    hide Length, Relaxed, SeenCells;
    var p :| Walk(SeenCells(t), p) && p[0] == seed && p[|p| - 1] == x && Length(p, diagonal) == t[x] - 1.0;
    LeavesSeed(p, diagonal);
  }

  lemma StepIsShorter(region: set<Cell>, diagonal: real, from: Cell, to: Cell, d: real)
    requires from in region && to in region && Touches(from, to) && STRAIGHT < diagonal < 2.0 <= d
    ensures !NoneShorter(region, diagonal, from, to, d)
  {
    hide Length;
    LengthPair(from, to, diagonal);
    assert Path(region, from, to, [from, to]);
  }

  /** Enough was expanded: one end is exhausted and the other has expanded its seed, or both ends have expanded
      what lies within half of the meeting distance. */
  ghost predicate Enough(free: set<Cell>, t: Table, t2: Table, seed: Cell, seed2: Cell, mindist: real) {
    || (Exhausted(free, t) && Expanded(free, t2, seed2))
    || (Exhausted(free, t2) && Expanded(free, t, seed))
    || (ExpandedWithin(free, t, mindist / 2.0) && ExpandedWithin(free, t2, mindist / 2.0))
  }

  /** Once enough was expanded, no path is shorter than the meeting distance, unless the seeds are occupied
      cells that touch. */
  lemma EnoughFindsAll(free: set<Cell>, t: Table, t2: Table, diagonal: real, seed: Cell, seed2: Cell,
                       m: Cell, mindist: real, far: real)
    requires BothEnds(free, t, t2, diagonal, seed, seed2) && Apart(free, seed, seed2)
    requires Meets(t, t2, m, mindist, far) && Enough(free, t, t2, seed, seed2, mindist)
    ensures NoneShorter(free + {seed, seed2}, diagonal, seed, seed2, mindist - 2.0)
  {
    hide Searched, Meets, Exhausted, ExpandedWithin, Expanded, NoneShorter;
    if Exhausted(free, t) && Expanded(free, t2, seed2) {
      OneEndIsEnough(free, t, t2, diagonal, seed, seed2, m, mindist, far);
    } else if Exhausted(free, t2) && Expanded(free, t, seed) {
      MeetsIsSymmetric(t, t2, m, mindist, far);
      OneEndIsEnough(free, t2, t, diagonal, seed2, seed, m, mindist, far);
      assert free + {seed2, seed} == free + {seed, seed2};
      EitherWay(free + {seed, seed2}, diagonal, seed2, seed, mindist - 2.0);
    } else {
      HalfwayIsEnough(free, t, t2, diagonal, seed, seed2, m, mindist, far);
    }
  }

  lemma EitherWay(region: set<Cell>, diagonal: real, from: Cell, to: Cell, d: real)
    requires NoneShorter(region, diagonal, from, to, d)
    ensures NoneShorter(region, diagonal, to, from, d)
  {
    forall p | Path(region, to, from, p) ensures d <= Length(p, diagonal) {
      BackWalk(region, p);
      BackLength(p, diagonal);
      assert Path(region, from, to, Back(p));
    }
  }

  /** Once enough was expanded and the ends have met, the meeting distance is the length of the shortest path
      from seed to seed exactly if one of the seeds is free or they do not touch. */
  lemma ShortestPathIff(free: set<Cell>, t: Table, t2: Table, diagonal: real, seed: Cell, seed2: Cell,
                        m: Cell, mindist: real, far: real)
    requires BothEnds(free, t, t2, diagonal, seed, seed2) && STRAIGHT < diagonal < 2.0
    requires Meets(t, t2, m, mindist, far) && Enough(free, t, t2, seed, seed2, mindist) && mindist != far
    ensures Shortest(free + {seed, seed2}, diagonal, seed, seed2, mindist - 2.0) <==> Apart(free, seed, seed2)
  {
    hide BothEnds, Meets, Enough, Apart, NoneShorter, WalkOfLength;
    MeetingIsPath(free, t, t2, diagonal, seed, seed2, m, mindist, far);
    if Apart(free, seed, seed2) {
      EnoughFindsAll(free, t, t2, diagonal, seed, seed2, m, mindist, far);
    } else {
      TouchingMissed(free, t, t2, diagonal, seed, seed2, m, mindist, far);
    }
  }

  // ---- whether there is a path at all ------------------------------------------------

  ghost predicate Simple(p: seq<Cell>) {
    forall i, j :: 0 <= i < j < |p| ==> p[i] != p[j]
  }

  /** A path that comes back to a cell can be cut there. */
  lemma {:induction false} SimplePath(region: set<Cell>, from: Cell, to: Cell, p: seq<Cell>) returns (q: seq<Cell>)
    requires Path(region, from, to, p)
    ensures Path(region, from, to, q) && Simple(q)
    decreases |p|
  {
    if i, j :| 0 <= i < j < |p| && p[i] == p[j] {
      var cut := p[..i] + p[j..];
      forall k | 0 < k < |cut| ensures Touches(cut[k - 1], cut[k]) {
        if k >= i {
          assert cut[k] == p[k + j - i] && cut[k - 1] == p[k - 1 + (if k > i then j - i else 0)];
          assert k == i ==> cut[k] == p[i];
        }
      }
      q := SimplePath(region, from, to, cut);
    } else {
      q := p;
    }
  }

  lemma {:induction false} SimpleFits(region: set<Cell>, p: seq<Cell>)
    requires Simple(p) && forall i :: 0 <= i < |p| ==> p[i] in region
    ensures |p| <= |region|
    decreases |p|
  {
    if p != [] {
      SimpleFits(region - {p[0]}, p[1..]);
    }
  }

  lemma {:induction false} StepsBound(p: seq<Cell>, diagonal: real)
    requires 0.0 < diagonal < 2.0
    ensures Length(p, diagonal) <= 2.0 * |p| as real
  {
    if |p| > 1 { StepsBound(p[..|p| - 1], diagonal); }
  }

  /** Where there is a path at all there is one no longer than twice the number of cells there are. */
  lemma SomeShortPath(region: set<Cell>, diagonal: real, from: Cell, to: Cell, p: seq<Cell>) returns (q: seq<Cell>)
    requires Path(region, from, to, p) && 0.0 < diagonal < 2.0
    ensures Path(region, from, to, q) && Length(q, diagonal) <= 2.0 * |region| as real
  {
    q := SimplePath(region, from, to, p);
    SimpleFits(region, q);
    StepsBound(q, diagonal);
  }

  ghost function Range(rows: int, columns: int): set<Cell> {
    set r, c | 0 <= r < rows && 0 <= c < columns :: Cell(r, c)
  }

  lemma {:induction false} RangeFits(rows: nat, columns: nat)
    ensures |Range(rows, columns)| <= rows * columns
    decreases rows
  {
    if rows == 0 {
      assert Range(rows, columns) == {};
    } else {
      RangeFits(rows - 1, columns);
      RowFits(rows - 1, columns);
      assert Range(rows, columns) == Range(rows - 1, columns) + RowCells(rows - 1, columns);
      assert rows * columns == (rows - 1) * columns + columns;
    }
  }

  ghost function RowCells(row: int, columns: int): set<Cell> {
    set c | 0 <= c < columns :: Cell(row, c)
  }

  lemma {:induction false} RowFits(row: int, columns: nat)
    ensures |RowCells(row, columns)| <= columns
    decreases columns
  {
    if columns == 0 {
      assert RowCells(row, columns) == {};
    } else {
      RowFits(row, columns - 1);
      assert RowCells(row, columns) == RowCells(row, columns - 1) + {Cell(row, columns - 1)};
    }
  }

  /** The cells of a grid that 16-bit indices can address are so few that no shortest path comes near `far`. */
  lemma RegionIsSmall(region: set<Cell>, rows: int, columns: int)
    requires region <= Range(rows, columns) && 0 <= rows <= 32767 && 0 <= columns <= 32767
    ensures 2.0 * |region| as real <= 2147352578.0
  {
    RangeFits(rows, columns);
    SubsetSize(region, Range(rows, columns));
    assert rows * columns <= 32767 * columns <= 32767 * 32767;
  }

  lemma {:induction false} SubsetSize(a: set<Cell>, b: set<Cell>)
    requires a <= b
    ensures |a| <= |b|
    decreases |a|
  {
    if x :| x in a { SubsetSize(a - {x}, b - {x}); }
  }

  /** On such a grid the search, once it has expanded enough, has a meeting distance other than its first value
      exactly if there is a path between the seeds. */
  lemma FoundIff(free: set<Cell>, t: Table, t2: Table, diagonal: real, seed: Cell, seed2: Cell,
                 m: Cell, mindist: real, far: real, rows: int, columns: int)
    requires BothEnds(free, t, t2, diagonal, seed, seed2) && Apart(free, seed, seed2) && diagonal < 2.0
    requires Meets(t, t2, m, mindist, far) && Enough(free, t, t2, seed, seed2, mindist)
    requires free + {seed, seed2} <= Range(rows, columns) && 0 <= rows <= 32767 && 0 <= columns <= 32767
    requires far > 2147352580.0
    ensures mindist != far <==> exists p :: Path(free + {seed, seed2}, seed, seed2, p)
  {
    hide Meets, Enough, Apart, Path, WalkOfLength, Range;
    var region := free + {seed, seed2};
    EnoughFindsAll(free, t, t2, diagonal, seed, seed2, m, mindist, far);
    if mindist != far {
      MeetingIsPath(free, t, t2, diagonal, seed, seed2, m, mindist, far);
      SomePath(region, diagonal, seed, seed2, mindist - 2.0);
    } else if p :| Path(region, seed, seed2, p) {
      var q := SomeShortPath(region, diagonal, seed, seed2, p);
      RegionIsSmall(region, rows, columns);
      assert false;
    }
  }
}
