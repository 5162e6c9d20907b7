/** The column sweep of `addTo` and `addNotTo`: from word end to word end, in 16-bit arithmetic. */
module AddSweep {

  const USHORT: nat := 0x1_0000

  /** Where the pass that starts at column `c` ends, as the 16-bit variable `top` has it. */
  function PassEnd(co: nat, columns: nat, c: nat): nat {
    var top := (32 - (c + co) % 32 + c) % USHORT;
    if top > columns then columns else top
  }

  /** The first word boundary at or after the last column. */
  function LastBoundary(co: nat, columns: nat): int {
    (co + columns + 31) / 32 * 32 - co
  }

  /** The column the sweep has reached after `n` passes. */
  function Sweep(co: nat, columns: nat, n: nat): nat {
    if n == 0 then 0
    else
      var c := Sweep(co, columns, n - 1);
      if c < columns && c < PassEnd(co, columns, c) then PassEnd(co, columns, c) else c
  }

  lemma NextBoundary(co: nat, columns: nat, c: nat)
    requires c < columns
    ensures var e := c + 32 - (c + co) % 32;
            && c < e <= c + 32
            && (e >= columns ==> e == LastBoundary(co, columns))
            && (e < columns ==> e < LastBoundary(co, columns))
            && columns <= LastBoundary(co, columns)
  {
    var q := (c + co) / 32;
    assert c + co == 32 * q + (c + co) % 32;
    var p := (co + columns + 31) / 32;
    assert 32 * p <= co + columns + 31 < 32 * p + 32;
    if c + 32 - (c + co) % 32 >= columns {
      assert p == q + 1;
    }
  }

  /** One pass either ends at the next word boundary or last column, or wraps round and does not move. */
  lemma PassEndIs(co: nat, columns: nat, c: nat)
    requires c < columns
    ensures LastBoundary(co, columns) < USHORT ==> c < PassEnd(co, columns, c) <= columns
    ensures LastBoundary(co, columns) >= USHORT && c < PassEnd(co, columns, c) ==> PassEnd(co, columns, c) < columns
  {
    NextBoundary(co, columns, c);
    hide LastBoundary;
  }

  lemma PassWithinWord(co: nat, columns: nat, c: nat)
    requires c < columns
    ensures PassEnd(co, columns, c) + (c + co) % 32 <= c + 32
  {
  }

  lemma {:induction false} Advances(co: nat, columns: nat, n: nat)
    requires LastBoundary(co, columns) < USHORT
    ensures Sweep(co, columns, n) >= if n < columns then n else columns
  {
    hide LastBoundary, PassEnd;
    if n > 0 {
      Advances(co, columns, n - 1);
      var c := Sweep(co, columns, n - 1);
      if c < columns {
        PassEndIs(co, columns, c);
      }
    }
  }

  lemma {:induction false} Stuck(co: nat, columns: nat, n: nat)
    requires columns > 0 && LastBoundary(co, columns) >= USHORT
    ensures Sweep(co, columns, n) < columns
  {
    hide LastBoundary, PassEnd;
    if n > 0 {
      Stuck(co, columns, n - 1);
      PassEndIs(co, columns, Sweep(co, columns, n - 1));
    }
  }

  /** The sweep reaches the last column exactly when no word boundary it needs is 65536 or beyond. */
  lemma SweepFinishes(co: nat, columns: nat)
    requires columns > 0
    ensures (exists n: nat :: Sweep(co, columns, n) >= columns) <==> LastBoundary(co, columns) < USHORT
  {
    if LastBoundary(co, columns) < USHORT {
      Advances(co, columns, columns);
    } else {
      forall n: nat ensures Sweep(co, columns, n) < columns { Stuck(co, columns, n); }
    }
  }

  /** In an unshifted window the sweep hangs from 65505 columns on. */
  lemma WideMatrixHangs(columns: nat)
    requires columns > 0
    ensures (exists n: nat :: Sweep(0, columns, n) >= columns) <==> columns < 65505
  {
    hide Sweep;
    SweepFinishes(0, columns);
  }

  /** A shift of the window moves the boundaries: at offset 1 even 65535 columns are swept. */
  lemma ShiftedWindowFinishes()
    ensures exists n: nat :: Sweep(1, 65535, n) >= 65535
  {
    hide Sweep;
    SweepFinishes(1, 65535);
  }
}
