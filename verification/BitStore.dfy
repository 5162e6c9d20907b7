/** Cells packed 32 to a word in one linear array, seen as a sequence of words.

    A row of the store is `inc` words long, so the cell in stored row `rw` and stored column `ac`
    is bit `ac % 32` of word `rw * inc + ac / 32`. */
module BitStore {
  import opened Words

  /** The window of a matrix into its store. */
  datatype Window = Window(inc: nat, row: nat, col: nat, rows: nat, columns: nat)

  /** The stored bit; false outside the store. */
  ghost predicate Stored(s: seq<Word>, inc: nat, rw: nat, ac: nat) {
    ac / BITS < inc && rw * inc + ac / BITS < |s| && Bit(s[rw * inc + ac / BITS], ac % BITS)
  }

  /** Stored cell (rw,ac) is one of the window's cells before column `c` of row `i`, row by row. */
  ghost predicate Visited(w: Window, i: nat, c: nat, rw: nat, ac: nat) {
    w.row <= rw && w.col <= ac < w.col + w.columns &&
    (rw < w.row + i || (rw == w.row + i && ac < w.col + c))
  }

  /** What cell (rw,ac) becomes when window `w` over `before` is combined with window `v` over `other`. */
  ghost predicate Result(op: Op, before: seq<Word>, other: seq<Word>, w: Window, v: Window, rw: nat, ac: nat)
    requires w.row <= rw && w.col <= ac
  {
    OnBits(op, Stored(before, w.inc, rw, ac), Stored(other, v.inc, rw - w.row + v.row, ac - w.col + v.col))
  }

  /** `after` is `before` with exactly the visited cells of the window combined with `other`. */
  ghost predicate Combined(op: Op, before: seq<Word>, other: seq<Word>, after: seq<Word>,
                           w: Window, v: Window, i: nat, c: nat) {
    && |after| == |before|
    && forall rw: nat, ac: nat ::
         Stored(after, w.inc, rw, ac) ==
         if Visited(w, i, c, rw, ac) then Result(op, before, other, w, v, rw, ac)
         else Stored(before, w.inc, rw, ac)
  }

  // ---- addresses ---------------------------------------------------------------------

  lemma SlotInRange(inc: nat, rows: nat, rw: nat, k: nat)
    requires rw < rows && k < inc
    ensures rw * inc + k < rows * inc
  {
    assert (rw + 1) * inc <= rows * inc;
  }

  /** Different (row, word) pairs have different slots. */
  lemma SlotsDistinct(inc: nat, r1: nat, k1: nat, r2: nat, k2: nat)
    requires k1 < inc && k2 < inc
    requires r1 * inc + k1 == r2 * inc + k2
    ensures r1 == r2 && k1 == k2
  {
    if r1 < r2 {
      SlotInRange(inc, r2, r1, k1);
    } else if r2 < r1 {
      SlotInRange(inc, r1, r2, k2);
    }
  }

  // ---- the two ways a cell changes ---------------------------------------------------

  /** Writing one bit of one word changes that stored cell and no other. */
  lemma OneCellWritten(s: seq<Word>, t: seq<Word>, inc: nat, rw: nat, ac: nat, slot: nat, value: bool)
    requires ac / BITS < inc && slot == rw * inc + ac / BITS < |s|
    requires |t| == |s| && t == s[slot := t[slot]] && OneBitWritten(s[slot], ac % BITS, value, t[slot])
    ensures forall r: nat, a: nat ::
              Stored(t, inc, r, a) == if r == rw && a == ac then value else Stored(s, inc, r, a)
  {
    hide Bit;
    forall r: nat, a: nat
      ensures Stored(t, inc, r, a) == if r == rw && a == ac then value else Stored(s, inc, r, a)
    {
      if a / BITS < inc && r * inc + a / BITS == slot {
        SlotsDistinct(inc, r, a / BITS, rw, ac / BITS);
        assert Bit(t[slot], a % BITS) == if a % BITS == ac % BITS then value else Bit(s[slot], a % BITS);
      }
    }
  }

  lemma OneWordWritten(s: seq<Word>, t: seq<Word>, inc: nat, rw: nat, k: nat, slot: nat)
    requires k < inc && slot == rw * inc + k < |s|
    requires |t| == |s| && t == s[slot := t[slot]]
    ensures forall r: nat, a: nat ::
              Stored(t, inc, r, a) == if r == rw && a / BITS == k then Bit(t[slot], a % BITS) else Stored(s, inc, r, a)
  {
    hide Bit;
    forall r: nat, a: nat
      ensures Stored(t, inc, r, a) ==
              if r == rw && a / BITS == k then Bit(t[slot], a % BITS) else Stored(s, inc, r, a)
    {
      if a / BITS < inc && r * inc + a / BITS == slot {
        SlotsDistinct(inc, r, a / BITS, rw, k);
      }
    }
  }

  /** A word that starts at column `base` holds the columns `base` to `base + 31`. */
  lemma WordColumns(base: nat, ac: nat)
    requires base % BITS == 0
    ensures ac / BITS == base / BITS <==> base <= ac < base + BITS
    ensures base <= ac < base + BITS ==> ac % BITS == ac - base
  {
  }

  /** The cells of the word that starts at an aligned column. */
  lemma WordCells(s: seq<Word>, inc: nat, rw: nat, base: nat, slot: nat)
    requires base % BITS == 0 && base / BITS < inc && slot == rw * inc + base / BITS < |s|
    ensures forall ac: nat :: base <= ac < base + BITS ==> Stored(s, inc, rw, ac) == Bit(s[slot], ac - base)
  {
    hide Bit;
    forall ac: nat | base <= ac < base + BITS
      ensures Stored(s, inc, rw, ac) == Bit(s[slot], ac - base)
    {
      WordColumns(base, ac);
    }
  }

  /** `t` is `s` with `n` columns of row `i`, from column `c` on, combined. */
  ghost predicate SpanCombined(op: Op, before: seq<Word>, other: seq<Word>, s: seq<Word>, t: seq<Word>,
                               w: Window, v: Window, i: nat, c: nat, n: nat) {
    && |t| == |s|
    && forall rw: nat, ac: nat ::
         Stored(t, w.inc, rw, ac) ==
         if rw == w.row + i && w.col + c <= ac < w.col + c + n then Result(op, before, other, w, v, rw, ac)
         else Stored(s, w.inc, rw, ac)
  }

  /** Combining a span of the current row extends the combined region by that span. */
  lemma CombineSpan(op: Op, before: seq<Word>, other: seq<Word>, s: seq<Word>, t: seq<Word>,
                    w: Window, v: Window, i: nat, c: nat, n: nat)
    requires c + n <= w.columns
    requires Combined(op, before, other, s, w, v, i, c)
    requires SpanCombined(op, before, other, s, t, w, v, i, c, n)
    ensures Combined(op, before, other, t, w, v, i, c + n)
  {
    hide Stored, Result;
  }

  /** Writing one bit of the window extends the combined region by one column. */
  lemma CombineCell(op: Op, before: seq<Word>, other: seq<Word>, s: seq<Word>, t: seq<Word>,
                    w: Window, v: Window, i: nat, c: nat)
    requires c < w.columns
    requires Combined(op, before, other, s, w, v, i, c)
    requires |t| == |s|
    requires forall rw: nat, ac: nat ::
               Stored(t, w.inc, rw, ac) ==
               if rw == w.row + i && ac == w.col + c then Result(op, before, other, w, v, w.row + i, w.col + c)
               else Stored(s, w.inc, rw, ac)
    ensures Combined(op, before, other, t, w, v, i, c + 1)
  {
    hide Stored, Result, Combined;
    CombineSpan(op, before, other, s, t, w, v, i, c, 1);
  }

  /** Combining a whole word of the window extends the combined region by 32 columns. */
  lemma CombineWord(op: Op, before: seq<Word>, other: seq<Word>, s: seq<Word>, t: seq<Word>,
                    w: Window, v: Window, i: nat, c: nat, slot: nat)
    requires c + BITS <= w.columns && (w.col + c) % BITS == 0
    requires Combined(op, before, other, s, w, v, i, c)
    requires (w.col + c) / BITS < w.inc && slot == (w.row + i) * w.inc + (w.col + c) / BITS < |s|
    requires |t| == |s| && t == s[slot := t[slot]]
    requires forall k :: 0 <= k < BITS ==>
               Bit(t[slot], k) == Result(op, before, other, w, v, w.row + i, w.col + c + k)
    ensures Combined(op, before, other, t, w, v, i, c + BITS)
  {
    hide Bit, Stored, Result, Combined;
    OneWordWritten(s, t, w.inc, w.row + i, (w.col + c) / BITS, slot);
    forall rw: nat, ac: nat
      ensures Stored(t, w.inc, rw, ac) ==
              if rw == w.row + i && w.col + c <= ac < w.col + c + BITS then Result(op, before, other, w, v, rw, ac)
              else Stored(s, w.inc, rw, ac)
    {
      WordColumns(w.col + c, ac);
    }
    CombineSpan(op, before, other, s, t, w, v, i, c, BITS);
  }

  /** `s` and `t` hold the same cells in stored row `rw` on the columns `[from,to)`. */
  ghost predicate SameFrom(s: seq<Word>, t: seq<Word>, inc: nat, rw: nat, from: nat, to: nat) {
    forall ac: nat :: from <= ac < to ==> Stored(s, inc, rw, ac) == Stored(t, inc, rw, ac)
  }

  /** Replacing a word by the whole-word operation combines the 32 cells it holds. */
  lemma CombineByWord(op: Op, before: seq<Word>, other: seq<Word>, s: seq<Word>, m: seq<Word>, t: seq<Word>,
                      w: Window, v: Window, i: nat, c: nat, a: nat, b: nat)
    requires c + BITS <= w.columns && (w.col + c) % BITS == 0 && (v.col + c) % BITS == 0
    requires Combined(op, before, other, s, w, v, i, c)
    requires (w.col + c) / BITS < w.inc && a == (w.row + i) * w.inc + (w.col + c) / BITS < |s|
    requires (v.col + c) / BITS < v.inc && b == (v.row + i) * v.inc + (v.col + c) / BITS < |m|
    requires SameFrom(s, before, w.inc, w.row + i, w.col + c, w.col + c + BITS)
    requires SameFrom(m, other, v.inc, v.row + i, v.col + c, v.col + c + BITS)
    requires |t| == |s| && t == s[a := t[a]] && Bitwise(op, s[a], m[b], t[a])
    ensures Combined(op, before, other, t, w, v, i, c + BITS)
  {
    hide Bit, Stored, Combined, OnBits;
    WordCells(s, w.inc, w.row + i, w.col + c, a);
    WordCells(m, v.inc, v.row + i, v.col + c, b);
    forall k | 0 <= k < BITS
      ensures Bit(t[a], k) == Result(op, before, other, w, v, w.row + i, w.col + c + k)
    {
      var ac, mc := w.col + c + k, v.col + c + k;
      assert Stored(s, w.inc, w.row + i, ac) == Bit(s[a], ac - (w.col + c));
      assert Stored(m, v.inc, v.row + i, mc) == Bit(m[b], mc - (v.col + c));
    }
    CombineWord(op, before, other, s, t, w, v, i, c, a);
  }

  /** A finished row is the start of the next. */
  lemma CombineRow(op: Op, before: seq<Word>, other: seq<Word>, s: seq<Word>, w: Window, v: Window, i: nat)
    requires Combined(op, before, other, s, w, v, i, w.columns)
    ensures Combined(op, before, other, s, w, v, i + 1, 0)
  {
    hide Stored, Result;
    forall rw: nat, ac: nat
      ensures Visited(w, i, w.columns, rw, ac) == Visited(w, i + 1, 0, rw, ac)
    {
    }
  }

  /** Once every row is done, each cell of the window holds the result and every other bit is unchanged. */
  lemma CombinedCell(op: Op, before: seq<Word>, other: seq<Word>, after: seq<Word>, w: Window, v: Window,
                     r: nat, c: nat)
    requires r < w.rows && c < w.columns && Combined(op, before, other, after, w, v, w.rows, 0)
    ensures Stored(after, w.inc, w.row + r, w.col + c) ==
            OnBits(op, Stored(before, w.inc, w.row + r, w.col + c), Stored(other, v.inc, v.row + r, v.col + c))
  {
    hide Stored, OnBits;
  }

  lemma CombinedElsewhere(op: Op, before: seq<Word>, other: seq<Word>, after: seq<Word>, w: Window, v: Window,
                          rw: nat, ac: nat)
    requires Combined(op, before, other, after, w, v, w.rows, 0)
    requires !(w.row <= rw < w.row + w.rows && w.col <= ac < w.col + w.columns)
    ensures Stored(after, w.inc, rw, ac) == Stored(before, w.inc, rw, ac)
  {
    hide Stored, OnBits;
  }

  lemma CombineNothing(op: Op, before: seq<Word>, other: seq<Word>, w: Window, v: Window)
    ensures Combined(op, before, other, before, w, v, 0, 0)
  {
    hide Stored, Result;
  }
}
