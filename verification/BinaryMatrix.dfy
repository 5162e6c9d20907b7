/** A two-dimensional array of bits, seen through a movable window and stored 32 columns to a word. */
module BinaryMatrices {
  import opened Words
  import opened BitStore
  import AddSweep

  function Pow2(n: nat): nat {
    if n == 0 then 1 else 2 * Pow2(n - 1)
  }

  lemma RoundUp(x: nat)
    ensures (x + (32 - x % 32)) % 32 == 0
  {
  }

  lemma RoundDown(x: nat)
    ensures (x - x % 32) % 32 == 0
    ensures x % 32 == 31 ==> (x + 1) % 32 == 0
  {
  }

  lemma Multiples(x: int, y: int)
    requires x % 32 == 0 && y % 32 == 0 && x - 32 < y
    ensures x <= y && y == x + 32 * ((y - x) / 32)
  {
  }

  lemma AlignedAgain(x: nat, j: nat)
    requires x % 32 == 0
    ensures (x + 32 * j) % 32 == 0
  {
  }

  datatype Split = Split(top: int, last: int, words: int)

  /** The words a row of c columns takes. */
  function WordsFor(c: nat): (n: nat)
    ensures c <= BITS * n < c + BITS
  {
    c / 32 + if c % 32 != 0 then 1 else 0
  }

  lemma OpsAre()
    ensures forall a, b :: OnBits(And, a, b) == (a && b)
    ensures forall a, b :: OnBits(Or, a, b) == (a || b)
    ensures forall a, b :: OnBits(Xor, a, b) == (a != b)
    ensures forall a, b :: OnBits(Copy, a, b) == b
    ensures forall a, b :: OnBits(CopyNot, a, b) == !b
  {
  }

  class BinaryMatrix {
    var Rows: int
    var Columns: int
    var CurrentRowOffset: int
    var CurrentColOffset: int
    var RowInc: nat
    var AllocatedMatrix: array<Word>
    var AllocatedRows: nat
    var AllocatedColumns: nat

    ghost predicate Valid()
      reads this
    {
      && 0 <= CurrentRowOffset && 0 <= CurrentColOffset
      && AllocatedColumns <= BITS * RowInc
      && AllocatedRows * RowInc <= AllocatedMatrix.Length
    }

    /** The window holds cells and all of them are inside the allocation. */
    ghost predicate WindowInside()
      reads this
    {
      && CurrentRowOffset + Rows <= AllocatedRows
      && CurrentColOffset + Columns <= AllocatedColumns
    }

    /** The matrix now covers the given block of the allocation. */
    ghost function View(): (w: Window)
      requires Valid()
      reads this
    {
      Window(RowInc, CurrentRowOffset, CurrentColOffset,
             if Rows < 0 then 0 else Rows, if Columns < 0 then 0 else Columns)
    }

    predicate InAllocation(r: int, c: int)
      reads this
    {
      && 0 <= c && 0 <= c + CurrentColOffset < AllocatedColumns
      && 0 <= r && 0 <= r + CurrentRowOffset < AllocatedRows
    }

    function Slot(r: int, c: int): (slot: nat)
      requires Valid() && InAllocation(r, c)
      reads this
      ensures slot < AllocatedMatrix.Length
      ensures (c + CurrentColOffset) / BITS < RowInc
    {
      SlotInRange(RowInc, AllocatedRows, r + CurrentRowOffset, (c + CurrentColOffset) / BITS);
      (r + CurrentRowOffset) * RowInc + (c + CurrentColOffset) / BITS
    }

    /** The cell (r,c) of the window: its bit shifted down to the bottom, or false out of bounds. */
    predicate At(r: int, c: int)
      requires Valid()
      reads this, AllocatedMatrix
    {
      InAllocation(r, c) && ShiftedBit(AllocatedMatrix[Slot(r, c)], (c + CurrentColOffset) % BITS)
    }

    /** A cell of the window is the stored bit at the shifted row and column; there is none before the window's
        first row and column, nor past the allocation. */
    lemma AtIsStored(r: int, c: int)
      requires Valid()
      ensures At(r, c) <==>
              && 0 <= r && 0 <= c && r + CurrentRowOffset < AllocatedRows && c + CurrentColOffset < AllocatedColumns
              && Stored(AllocatedMatrix[..], RowInc, r + CurrentRowOffset, c + CurrentColOffset)
    {
      hide ShiftedBit, Bit;
      if InAllocation(r, c) { ShiftReadsBit(AllocatedMatrix[Slot(r, c)], (c + CurrentColOffset) % BITS); }
    }

    lemma CellsAreStored()
      requires Valid()
      ensures forall r, c :: InAllocation(r, c) ==>
                At(r, c) == Stored(AllocatedMatrix[..], RowInc, r + CurrentRowOffset, c + CurrentColOffset)
      ensures forall r, c :: !InAllocation(r, c) ==> !At(r, c)
    {
      hide Stored;
      forall r, c ensures InAllocation(r, c) ==>
                At(r, c) == Stored(AllocatedMatrix[..], RowInc, r + CurrentRowOffset, c + CurrentColOffset)
      {
        AtIsStored(r, c);
      }
    }

    /** Writes one cell; nothing happens out of bounds. */
    method SetBit(r: int, c: int, value: bool)
      requires Valid()
      modifies AllocatedMatrix
      ensures InAllocation(r, c) ==>
                forall rw: nat, ac: nat ::
                  Stored(AllocatedMatrix[..], RowInc, rw, ac) ==
                  if rw == r + CurrentRowOffset && ac == c + CurrentColOffset then value
                  else Stored(old(AllocatedMatrix[..]), RowInc, rw, ac)
      ensures !InAllocation(r, c) ==> AllocatedMatrix[..] == old(AllocatedMatrix[..])
    {
      hide Bit, OneBitWritten, Stored;
      if !InAllocation(r, c) {
        return;
      }
      var slot := Slot(r, c);
      WriteBit(slot, (c + CurrentColOffset) % BITS, value);
      OneCellWritten(old(AllocatedMatrix[..]), AllocatedMatrix[..], RowInc,
                     r + CurrentRowOffset, c + CurrentColOffset, slot, value);
    }

    /** Sets or clears one bit of one word. */
    method WriteBit(slot: nat, k: nat, value: bool)
      requires slot < AllocatedMatrix.Length && k < BITS
      modifies AllocatedMatrix
      ensures AllocatedMatrix[..] == old(AllocatedMatrix[..])[slot := AllocatedMatrix[slot]]
      ensures OneBitWritten(old(AllocatedMatrix[slot]), k, value, AllocatedMatrix[slot])
    {
      hide Mask, Bit, OneBitWritten;
      var w := AllocatedMatrix[slot];
      if value {
        Words.SetBit(w, k);
        AllocatedMatrix[slot] := w | Mask(k);
      } else {
        ClearBit(w, k);
        AllocatedMatrix[slot] := w & !Mask(k);
      }
    }

    // ---- splitting a row into a ragged head, whole words and a ragged tail -----------

    function BitColumn(r: int, c: int): nat
      requires Valid()
      reads this
    {
      if InAllocation(r, c) then (c + CurrentColOffset) % BITS else 64
    }

    /** Columns `[0,top)` and `[last,Columns)` go bit by bit, the `words` words between them whole. */
    function GetIndex(): Split
      requires Valid() && WindowInside()
      reads this
    {
      if Columns < 1 || Rows < 1 then
        Split(0, 0, 0)
      else
        var bitcol := BitColumn(0, 0);
        var top := if bitcol == 0 && Columns > 31 then 0 else 32 - bitcol;
        if Columns < top then
          Split(Columns, Columns, 0)
        else
          var e := BitColumn(0, Columns - 1) + 1;
          var last := Columns - (if e == 32 then 0 else e);
          Split(top, last, (last - top) / 32)
    }

    function GetTop(): int
      requires Valid() && WindowInside()
      reads this
    {
      if Columns < 1 || Rows == 0 then
        0
      else
        var top := 32 - BitColumn(0, 0);
        if top == 32 && Columns > 31 then 0
        else if Columns < top then Columns
        else top
    }

    /** The three parts cover `[0,Columns)` without overlap and the middle one is word aligned. */
    lemma SplitPartitions()
      requires Valid() && WindowInside() && Rows > 0 && Columns > 0
      ensures var s := GetIndex();
              && 0 <= s.top <= s.last <= Columns
              && s.last == s.top + 32 * s.words
              && s.top <= 32 && Columns - s.last < 32
              && (s.words > 0 ==> (CurrentColOffset + s.top) % 32 == 0)
    {
      var s := GetIndex();
      RoundUp(CurrentColOffset);
      RoundDown(CurrentColOffset + Columns - 1);
      if s.last != s.top {
        Multiples(CurrentColOffset + s.top, CurrentColOffset + s.last);
      }
    }

    /** Equal tops mean a common alignment whenever there are whole words to process. */
    lemma SameTopAligned(mat: BinaryMatrix)
      requires Valid() && WindowInside() && mat.Valid() && mat.WindowInside()
      requires Rows > 0 && Columns > 0 && mat.Rows > 0 && mat.Columns == Columns
      requires GetIndex().top == mat.GetTop() && GetIndex().words > 0
      ensures (CurrentColOffset + GetIndex().top) % 32 == 0
      ensures (mat.CurrentColOffset + GetIndex().top) % 32 == 0
    {
      SplitPartitions();
      RoundUp(mat.CurrentColOffset);
      assert mat.GetTop() < Columns;
    }

    // ---- combining with another matrix -----------------------------------------------

    /** `mat` may be this matrix itself, have a store of its own, or be another window over the same store that
        is not overwritten before it is read: one that starts no earlier, or that does not overlap. */
    ghost predicate Apart(mat: BinaryMatrix)
      reads this, mat
    {
      mat.AllocatedMatrix == AllocatedMatrix ==> mat.RowInc == RowInc && (StartsLater(mat) || NoOverlap(mat))
    }

    ghost predicate StartsLater(mat: BinaryMatrix)
      reads this, mat
    {
      || CurrentRowOffset < mat.CurrentRowOffset
      || (CurrentRowOffset == mat.CurrentRowOffset && CurrentColOffset <= mat.CurrentColOffset)
    }

    ghost predicate NoOverlap(mat: BinaryMatrix)
      reads this, mat
    {
      || mat.CurrentRowOffset + mat.Rows <= CurrentRowOffset
      || mat.CurrentColOffset + mat.Columns <= CurrentColOffset
      || CurrentColOffset + Columns <= mat.CurrentColOffset
    }

    ghost predicate Combinable(mat: BinaryMatrix)
      reads this, mat
    {
      && Valid() && WindowInside() && mat.Valid() && mat.WindowInside()
      && mat.Rows == Rows && mat.Columns == Columns && Apart(mat)
    }

    /** The store after combining every cell before (i,c); `mat` keeps the cells still to be read. */
    ghost predicate Progress(op: Op, mat: BinaryMatrix, before: seq<Word>, other: seq<Word>, i: nat, c: nat)
      requires Combinable(mat)
      reads this, AllocatedMatrix, mat, mat.AllocatedMatrix
    {
      && Combined(op, before, other, AllocatedMatrix[..], View(), mat.View(), i, c)
      && (if mat.AllocatedMatrix == AllocatedMatrix then other == before else mat.AllocatedMatrix[..] == other)
    }

    /** The cell of `mat` that is about to be combined still has its first value. */
    lemma StillUnread(op: Op, mat: BinaryMatrix, before: seq<Word>, other: seq<Word>, i: nat, c: nat)
      requires Combinable(mat) && Progress(op, mat, before, other, i, c) && i < Rows && c <= Columns
      ensures SameFrom(AllocatedMatrix[..], before, RowInc, CurrentRowOffset + i, CurrentColOffset + c,
                       CurrentColOffset + Columns)
      ensures SameFrom(mat.AllocatedMatrix[..], other, mat.RowInc, mat.CurrentRowOffset + i, mat.CurrentColOffset + c,
                       mat.CurrentColOffset + Columns)
    {
      hide Stored, Result;
    }

    method CombineCellStep(op: Op, mat: BinaryMatrix, i: nat, j: nat, ghost before: seq<Word>, ghost other: seq<Word>)
      requires Combinable(mat) && i < Rows && j < Columns
      requires Progress(op, mat, before, other, i, j)
      modifies AllocatedMatrix
      ensures Progress(op, mat, before, other, i, j + 1)
    {
      hide Stored, Combined, OnBits, ShiftedBit, At, Apart;
      StillUnread(op, mat, before, other, i, j);
      AtIsStored(i, j);
      mat.AtIsStored(i, j);
      ghost var s := AllocatedMatrix[..];
      SetBit(i, j, OnBits(op, At(i, j), mat.At(i, j)));
      CombineCell(op, before, other, s, AllocatedMatrix[..], View(), mat.View(), i, j);
    }

    method CombineWordStep(op: Op, mat: BinaryMatrix, i: nat, c: nat, ghost before: seq<Word>, ghost other: seq<Word>)
      requires Combinable(mat) && i < Rows && c + BITS <= Columns
      requires (CurrentColOffset + c) % BITS == 0 && (mat.CurrentColOffset + c) % BITS == 0
      requires Progress(op, mat, before, other, i, c)
      modifies AllocatedMatrix
      ensures Progress(op, mat, before, other, i, c + BITS)
    {
      hide Stored, Combined, Bitwise, OnWords;
      StillUnread(op, mat, before, other, i, c);
      var a := Slot(i, c);
      var b := mat.Slot(i, c);
      ghost var s, m := AllocatedMatrix[..], mat.AllocatedMatrix[..];
      WordOpIsBitwise(op, s[a], m[b]);
      AllocatedMatrix[a] := OnWords(op, AllocatedMatrix[a], mat.AllocatedMatrix[b]);
      CombineByWord(op, before, other, s, m, AllocatedMatrix[..], View(), mat.View(), i, c, a, b);
    }

    /** A run of cells of one row, bit by bit. */
    method CombineBits(op: Op, mat: BinaryMatrix, i: nat, from: nat, to: nat,
                       ghost before: seq<Word>, ghost other: seq<Word>)
      requires Combinable(mat) && i < Rows && from <= to <= Columns
      requires Progress(op, mat, before, other, i, from)
      modifies AllocatedMatrix
      ensures Progress(op, mat, before, other, i, to)
    {
      hide Combined, Stored;
      for j := from to to
        invariant Progress(op, mat, before, other, i, j)
      {
        CombineCellStep(op, mat, i, j, before, other);
      }
    }

    /** A run of whole words of one row. */
    method CombineWords(op: Op, mat: BinaryMatrix, i: nat, top: nat, words: nat,
                        ghost before: seq<Word>, ghost other: seq<Word>)
      requires Combinable(mat) && i < Rows && top + 32 * words <= Columns
      requires words > 0 ==> (CurrentColOffset + top) % 32 == 0 && (mat.CurrentColOffset + top) % 32 == 0
      requires Progress(op, mat, before, other, i, top)
      modifies AllocatedMatrix
      ensures Progress(op, mat, before, other, i, top + 32 * words)
    {
      hide Combined, Stored;
      for j := 0 to words
        invariant Progress(op, mat, before, other, i, top + 32 * j)
      {
        AlignedAgain(CurrentColOffset + top, j);
        AlignedAgain(mat.CurrentColOffset + top, j);
        CombineWordStep(op, mat, i, top + 32 * j, before, other);
      }
    }

    /** One row: ragged head bit by bit, whole words, ragged tail bit by bit. */
    method CombineRowByWords(op: Op, mat: BinaryMatrix, i: nat, ghost before: seq<Word>, ghost other: seq<Word>)
      requires Combinable(mat) && i < Rows && Columns > 0
      requires GetIndex().top == mat.GetTop()
      requires Progress(op, mat, before, other, i, 0)
      modifies AllocatedMatrix
      ensures Progress(op, mat, before, other, i, Columns)
    {
      hide Combined, Stored, Progress;
      SplitPartitions();
      var split := GetIndex();
      if split.words > 0 {
        SameTopAligned(mat);
      }
      CombineBits(op, mat, i, 0, split.top, before, other);
      CombineWords(op, mat, i, split.top, split.words, before, other);
      CombineBits(op, mat, i, split.last, Columns, before, other);
    }

    /** The loops shared by `&=`, `|=`, `^=`, `=` and `~`. */
    method CombineAll(op: Op, mat: BinaryMatrix)
      requires Combinable(mat)
      modifies AllocatedMatrix
      ensures Combined(op, old(AllocatedMatrix[..]), old(mat.AllocatedMatrix[..]), AllocatedMatrix[..],
                       View(), mat.View(), View().rows, 0)
    {
      hide Combined, Stored;
      ghost var before, other := AllocatedMatrix[..], mat.AllocatedMatrix[..];
      CombineNothing(op, before, other, View(), mat.View());
      var wordwise := GetIndex().top == mat.GetTop();
      var i := 0;
      while i < Rows
        invariant 0 <= i <= View().rows
        invariant Progress(op, mat, before, other, i, 0)
      {
        if Columns > 0 {
          if wordwise {
            CombineRowByWords(op, mat, i, before, other);
          } else {
            CombineBits(op, mat, i, 0, Columns, before, other);
          }
        }
        CombineRow(op, before, other, AllocatedMatrix[..], View(), mat.View(), i);
        i := i + 1;
      }
    }

    ghost predicate InWindow(rw: nat, ac: nat)
      reads this
    {
      && CurrentRowOffset <= rw < CurrentRowOffset + Rows
      && CurrentColOffset <= ac < CurrentColOffset + Columns
    }

    ghost predicate StoredBit(rw: nat, ac: nat)
      reads this, AllocatedMatrix
    {
      Stored(AllocatedMatrix[..], RowInc, rw, ac)
    }

    /** No stored bit outside the window has changed. */
    twostate predicate KeptElsewhere()
      requires old(Valid()) && Valid()
      reads this, AllocatedMatrix
    {
      forall rw: nat, ac: nat ::
        !(CurrentRowOffset <= rw < CurrentRowOffset + Rows && CurrentColOffset <= ac < CurrentColOffset + Columns) ==>
          Stored(AllocatedMatrix[..], RowInc, rw, ac) == Stored(old(AllocatedMatrix[..]), old(RowInc), rw, ac)
    }

    /** The word paths give the per-bit result on every cell of the window and touch nothing else. */
    method Combine(op: Op, mat: BinaryMatrix)
      requires Combinable(mat)
      modifies AllocatedMatrix
      ensures forall r, c :: 0 <= r < Rows && 0 <= c < Columns ==>
                At(r, c) == OnBits(op, old(At(r, c)), old(mat.At(r, c)))
      ensures KeptElsewhere()
    {
      hide Stored, At, OnBits, Combined;
      ghost var before, other := AllocatedMatrix[..], mat.AllocatedMatrix[..];
      CellsAreStored();
      mat.CellsAreStored();
      CombineAll(op, mat);
      CellsAreStored();
      forall r, c | 0 <= r < Rows && 0 <= c < Columns
        ensures At(r, c) == OnBits(op, old(At(r, c)), old(mat.At(r, c)))
      {
        CombinedCell(op, before, other, AllocatedMatrix[..], View(), mat.View(), r, c);
      }
      forall rw: nat, ac: nat | !InWindow(rw, ac)
        ensures Stored(AllocatedMatrix[..], RowInc, rw, ac) == Stored(before, RowInc, rw, ac)
      {
        CombinedElsewhere(op, before, other, AllocatedMatrix[..], View(), mat.View(), rw, ac);
      }
    }

    /** The operands of the matrix operators: windows inside their allocations, `mat` not overwritten unread. */
    ghost predicate Operands(mat: BinaryMatrix)
      reads this, mat
    {
      Valid() && WindowInside() && mat.Valid() && mat.WindowInside() && Apart(mat)
    }

    /** `&=`; matrices of different sizes are left alone. */
    method AndAssign(mat: BinaryMatrix)
      requires Operands(mat)
      modifies AllocatedMatrix
      ensures Columns == mat.Columns && Rows == mat.Rows ==>
                && KeptElsewhere()
                && forall r, c :: 0 <= r < Rows && 0 <= c < Columns ==> At(r, c) == (old(At(r, c)) && old(mat.At(r, c)))
      ensures Columns != mat.Columns || Rows != mat.Rows ==> AllocatedMatrix[..] == old(AllocatedMatrix[..])
    {
      hide OnBits, Stored, At;
      OpsAre();
      if Columns != mat.Columns || Rows != mat.Rows { return; }
      if Rows == 0 || Columns == 0 { return; }
      Combine(And, mat);
    }

    /** `|=`; matrices of different sizes are left alone. */
    method OrAssign(mat: BinaryMatrix)
      requires Operands(mat)
      modifies AllocatedMatrix
      ensures Columns == mat.Columns && Rows == mat.Rows ==>
                && KeptElsewhere()
                && forall r, c :: 0 <= r < Rows && 0 <= c < Columns ==> At(r, c) == (old(At(r, c)) || old(mat.At(r, c)))
      ensures Columns != mat.Columns || Rows != mat.Rows ==> AllocatedMatrix[..] == old(AllocatedMatrix[..])
    {
      hide OnBits, Stored, At;
      OpsAre();
      if Columns != mat.Columns || Rows != mat.Rows { return; }
      if Rows == 0 || Columns == 0 { return; }
      Combine(Or, mat);
    }

    /** `^=`; matrices of different sizes are left alone. */
    method XorAssign(mat: BinaryMatrix)
      requires Operands(mat)
      modifies AllocatedMatrix
      ensures Columns == mat.Columns && Rows == mat.Rows ==>
                && KeptElsewhere()
                && forall r, c :: 0 <= r < Rows && 0 <= c < Columns ==> At(r, c) == (old(At(r, c)) != old(mat.At(r, c)))
      ensures Columns != mat.Columns || Rows != mat.Rows ==> AllocatedMatrix[..] == old(AllocatedMatrix[..])
    {
      hide OnBits, Stored, At;
      OpsAre();
      if Columns != mat.Columns || Rows != mat.Rows { return; }
      Combine(Xor, mat);
    }

    /** Makes this an r by c matrix of zeros, unless it has that size; the store is kept if it is large enough. */
    method Reallocate(r: nat, c: nat)
      requires Valid()
      modifies this, AllocatedMatrix
      ensures Valid() && Rows == r && Columns == c
      ensures AllocatedMatrix == old(AllocatedMatrix) || fresh(AllocatedMatrix)
      ensures r == old(Rows) && c == old(Columns) ==> unchanged(this) && AllocatedMatrix[..] == old(AllocatedMatrix[..])
      ensures !(r == old(Rows) && c == old(Columns)) ==>
                && WindowInside() && CurrentRowOffset == 0 && CurrentColOffset == 0
                && AllocatedRows == r && AllocatedColumns == c && forall i, j :: !At(i, j)
    {
      hide ShiftedBit, At, WordsFor;
      if r == Rows && c == Columns { return; }
      Rows, Columns := r, c;
      CurrentRowOffset, CurrentColOffset := 0, 0;
      RowInc := WordsFor(c);
      AllocatedRows, AllocatedColumns := r, c;
      var n := r * RowInc;
      if AllocatedMatrix.Length < n {
        AllocatedMatrix := new Word[n](_ => 0);
      } else {
        ClearStore(n);
      }
      assert Valid();
      NothingAt(n);
    }

    method ClearStore(n: nat)
      requires n <= AllocatedMatrix.Length
      modifies AllocatedMatrix
      ensures forall k :: 0 <= k < n ==> AllocatedMatrix[k] == 0
    {
      forall k | 0 <= k < n { AllocatedMatrix[k] := 0; }
    }

    /** Zero words hold no cell. */
    lemma NothingAt(n: nat)
      requires Valid() && n == AllocatedRows * RowInc <= AllocatedMatrix.Length
      requires forall k :: 0 <= k < n ==> AllocatedMatrix[k] == 0
      ensures forall i, j :: !At(i, j)
    {
      hide ShiftedBit;
      forall i, j | InAllocation(i, j)
        ensures !At(i, j)
      {
        SlotInRange(RowInc, AllocatedRows, i + CurrentRowOffset, (j + CurrentColOffset) / BITS);
        ZeroBit((j + CurrentColOffset) % BITS);
        ShiftReadsBit(0, (j + CurrentColOffset) % BITS);
      }
    }

    /** `=`: takes the size of `mat`, if it is another, and copies its cells, whole words by block copy. Between
        matrices of one size nothing outside the window changes. */
    method Assign(mat: BinaryMatrix)
      requires Operands(mat) && mat.Rows >= 0 && mat.Columns >= 0
      requires !(Columns == mat.Columns && Rows == mat.Rows) ==> mat.AllocatedMatrix != AllocatedMatrix
      modifies this, AllocatedMatrix
      ensures Valid() && WindowInside() && Rows == mat.Rows && Columns == mat.Columns
      ensures forall r, c :: 0 <= r < Rows && 0 <= c < Columns ==> At(r, c) == old(mat.At(r, c))
      ensures AllocatedMatrix == old(AllocatedMatrix) || fresh(AllocatedMatrix)
      ensures old(Rows == mat.Rows && Columns == mat.Columns) ==> unchanged(this) && KeptElsewhere()
    {
      hide OnBits, Stored, At;
      OpsAre();
      if Columns != mat.Columns || Rows != mat.Rows {
        Reallocate(mat.Rows, mat.Columns);
      }
      if mat.Columns == 0 || mat.Rows == 0 { return; }
      Combine(Copy, mat);
    }

    /** Removes a row: the rows below move up by one, copied from a second window over the same store. */
    method DeleteRow(r: int)
      requires Valid() && WindowInside() && Columns >= 0 && 0 <= r < Rows
      modifies this, AllocatedMatrix
      ensures Valid() && WindowInside() && AllocatedMatrix == old(AllocatedMatrix)
      ensures Rows == old(Rows) - 1 && Columns == old(Columns)
      ensures forall i, j :: 0 <= i < Rows && 0 <= j < Columns ==> At(i, j) == old(At(if i < r then i else i + 1, j))
    {
      hide At, Stored;
      CellsAreStored();
      if r == Rows - 1 {
        Rows := Rows - 1;
        SameWindow(old(AllocatedMatrix[..]));
        return;
      }
      ghost var ro, co, before := CurrentRowOffset, CurrentColOffset, AllocatedMatrix[..];
      MoveUp(r);
      CellsAreStored();
      forall i, j | 0 <= i < Rows && 0 <= j < Columns
        ensures At(i, j) == old(At(if i < r then i else i + 1, j))
      {
        assert At(i, j) == StoredBit(ro + i, co + j);
      }
    }

    /** Copies every row below r into the one above. */
    method MoveUp(r: int)
      requires Valid() && WindowInside() && Columns >= 0 && 0 <= r < Rows - 1
      modifies this, AllocatedMatrix
      ensures AllocatedMatrix == old(AllocatedMatrix) && RowInc == old(RowInc) && Rows == old(Rows) - 1
      ensures CurrentRowOffset == old(CurrentRowOffset) && CurrentColOffset == old(CurrentColOffset)
      ensures AllocatedRows == old(AllocatedRows) && AllocatedColumns == old(AllocatedColumns)
      ensures Columns == old(Columns)
      ensures forall rw: nat, ac: nat ::
                StoredBit(rw, ac) ==
                Stored(old(AllocatedMatrix[..]), RowInc,
                       if InWindow(rw, ac) && rw >= CurrentRowOffset + r then rw + 1 else rw, ac)
    {
      hide At, Stored;
      var newr := Rows - 1;
      ghost var ro, co, before := CurrentRowOffset, CurrentColOffset, AllocatedMatrix[..];
      Offset(r + 1, 0, Rows - r - 1, Columns);
      var cm := Shared();
      Offset(-1, 0, Rows, Columns);
      CopyFromBelow(cm);
      RowsMoved(before, ro, co, r, newr);
      Offset(-r, 0, newr, Columns);
    }

    lemma SameWindow(s: seq<Word>)
      requires Valid() && s == AllocatedMatrix[..]
      ensures forall r, c :: InAllocation(r, c) ==>
                At(r, c) == Stored(s, RowInc, r + CurrentRowOffset, c + CurrentColOffset)
    {
      CellsAreStored();
    }

    /** The window lies over the rows that were copied. */
    lemma RowsMoved(before: seq<Word>, ro: int, co: int, r: int, newr: int)
      requires CurrentRowOffset == ro + r && CurrentColOffset == co && Rows == newr - r
      requires CopiedFromBelow(before)
      ensures forall rw: nat, ac: nat ::
                Stored(AllocatedMatrix[..], RowInc, rw, ac) ==
                Stored(before, RowInc, if ro + r <= rw < ro + newr && co <= ac < co + Columns then rw + 1 else rw, ac)
    {
      hide Stored;
    }

    /** The store is `before` with every row of the window taken from the row below. */
    ghost predicate CopiedFromBelow(before: seq<Word>)
      reads this, AllocatedMatrix
    {
      forall rw: nat, ac: nat ::
        Stored(AllocatedMatrix[..], RowInc, rw, ac)
        == Stored(before, RowInc, if InWindow(rw, ac) then rw + 1 else rw, ac)
    }

    /** Assignment from the window of the same size one row further down in the same store. */
    method CopyFromBelow(cm: BinaryMatrix)
      requires cm != this && Operands(cm) && cm.AllocatedMatrix == AllocatedMatrix && cm.RowInc == RowInc
      requires Columns == cm.Columns >= 0 && Rows == cm.Rows >= 0
      requires cm.CurrentRowOffset == CurrentRowOffset + 1 && cm.CurrentColOffset == CurrentColOffset
      modifies this, AllocatedMatrix
      ensures unchanged(this) && AllocatedMatrix == old(AllocatedMatrix) && CopiedFromBelow(old(AllocatedMatrix[..]))
    {
      hide At, Stored, OnBits;
      ghost var before := AllocatedMatrix[..];
      OpsAre();
      cm.CellsAreStored();
      Assign(cm);
      CellsAreStored();
      forall rw: nat, ac: nat
        ensures Stored(AllocatedMatrix[..], RowInc, rw, ac) ==
                Stored(before, RowInc, if InWindow(rw, ac) then rw + 1 else rw, ac)
      {
        if InWindow(rw, ac) {
          var i, j := rw - CurrentRowOffset, ac - CurrentColOffset;
          assert At(i, j) == Stored(AllocatedMatrix[..], RowInc, i + CurrentRowOffset, j + CurrentColOffset);
          assert old(cm.At(i, j)) == Stored(before, RowInc, i + cm.CurrentRowOffset, j + cm.CurrentColOffset);
        }
      }
    }

    /** A second matrix with the same window over the same store. */
    method Shared() returns (cm: BinaryMatrix)
      requires Valid()
      ensures fresh(cm) && cm.Valid() && cm.AllocatedMatrix == AllocatedMatrix && cm.RowInc == RowInc
      ensures cm.Rows == Rows && cm.Columns == Columns
      ensures cm.CurrentRowOffset == CurrentRowOffset && cm.CurrentColOffset == CurrentColOffset
      ensures cm.AllocatedRows == AllocatedRows && cm.AllocatedColumns == AllocatedColumns
    {
      cm := new BinaryMatrix(0, 0);
      cm.AllocatedMatrix := AllocatedMatrix;
      cm.AllocatedRows, cm.AllocatedColumns, cm.RowInc := AllocatedRows, AllocatedColumns, RowInc;
      cm.CurrentRowOffset, cm.CurrentColOffset := CurrentRowOffset, CurrentColOffset;
      cm.Rows, cm.Columns := Rows, Columns;
    }

    /** `~`: complements the window in place; its own top always agrees with itself. */
    method Not()
      requires Valid() && WindowInside()
      modifies AllocatedMatrix
      ensures KeptElsewhere() && forall r, c :: 0 <= r < Rows && 0 <= c < Columns ==> At(r, c) == !old(At(r, c))
    {
      hide OnBits, Stored, At;
      OpsAre();
      Combine(CopyNot, this);
    }

    // ---- moving the window -----------------------------------------------------------

    /** The window moves relative to where it is; the store is untouched. A window that would start before the
        allocation is reported by the source and set all the same: the matrix is then not valid. */
    method Offset(rowOffset: int, columnOffset: int, newRows: int, newColumns: int)
      requires Valid()
      modifies this`CurrentRowOffset, this`CurrentColOffset, this`Rows, this`Columns
      ensures CurrentRowOffset == old(CurrentRowOffset) + rowOffset
      ensures CurrentColOffset == old(CurrentColOffset) + columnOffset
      ensures Valid() <==> 0 <= rowOffset + old(CurrentRowOffset) && 0 <= columnOffset + old(CurrentColOffset)
      ensures Rows == (if newRows < 0 then 0 else newRows) && Columns == (if newColumns < 0 then 0 else newColumns)
      ensures Valid() ==>
                forall r, c :: r >= 0 && c >= 0 && r + rowOffset >= 0 && c + columnOffset >= 0 ==>
                  At(r, c) == old(At(r + rowOffset, c + columnOffset))
    {
      hide At, Stored;
      CellsAreStored();
      var ro := rowOffset + CurrentRowOffset;
      var co := columnOffset + CurrentColOffset;
      CurrentRowOffset := ro;
      CurrentColOffset := co;
      Rows := if newRows < 0 then 0 else newRows;
      Columns := if newColumns < 0 then 0 else newColumns;
      if Valid() { CellsAreStored(); }
    }

    /** The window goes back to the whole allocation. */
    method Reset()
      requires Valid()
      modifies this`CurrentRowOffset, this`CurrentColOffset, this`Rows, this`Columns
      ensures Valid() && WindowInside() && Rows == AllocatedRows && Columns == AllocatedColumns
      ensures forall r, c :: r >= old(CurrentRowOffset) && c >= old(CurrentColOffset) ==>
                At(r, c) == old(At(r - CurrentRowOffset, c - CurrentColOffset))
    {
      hide At, Stored;
      CellsAreStored();
      CurrentRowOffset := 0;
      CurrentColOffset := 0;
      Rows := AllocatedRows;
      Columns := AllocatedColumns;
      CellsAreStored();
    }

    // ---- comparing -------------------------------------------------------------------

    /** The bits of an aligned word are the 32 cells it holds. */
    lemma WordIsCells(r: int, c: int)
      requires Valid() && InAllocation(r, c) && InAllocation(r, c + 31)
      requires (c + CurrentColOffset) % BITS == 0
      ensures forall k :: 0 <= k < BITS ==> Bit(AllocatedMatrix[Slot(r, c)], k) == At(r, c + k)
    {
      hide Bit, ShiftedBit;
      forall k | 0 <= k < BITS
        ensures Bit(AllocatedMatrix[Slot(r, c)], k) == At(r, c + k)
      {
        WordColumns(c + CurrentColOffset, c + CurrentColOffset + k);
        assert Slot(r, c + k) == Slot(r, c);
        ShiftReadsBit(AllocatedMatrix[Slot(r, c)], k);
      }
    }

    /** Row `row` of this matrix and row `other` of `mat` agree on the columns `[from,to)`. */
    ghost predicate Agree(row: int, mat: BinaryMatrix, other: int, from: int, to: int)
      requires Valid() && mat.Valid()
      reads this, AllocatedMatrix, mat, mat.AllocatedMatrix
    {
      forall c :: from <= c < to ==> At(row, c) == mat.At(other, c)
    }

    /** The words of two rows are equal exactly when their 32 cells agree. */
    lemma WordsAgree(row: int, mat: BinaryMatrix, other: int, c: int)
      requires Valid() && mat.Valid()
      requires InAllocation(row, c) && InAllocation(row, c + 31) && (c + CurrentColOffset) % BITS == 0
      requires mat.InAllocation(other, c) && mat.InAllocation(other, c + 31) && (c + mat.CurrentColOffset) % BITS == 0
      ensures AllocatedMatrix[Slot(row, c)] == mat.AllocatedMatrix[mat.Slot(other, c)] <==>
              Agree(row, mat, other, c, c + 32)
    {
      hide Bit, ShiftedBit;
      WordIsCells(row, c);
      mat.WordIsCells(other, c);
      var a, b := AllocatedMatrix[Slot(row, c)], mat.AllocatedMatrix[mat.Slot(other, c)];
      if Agree(row, mat, other, c, c + 32) {
        forall k | 0 <= k < BITS ensures Bit(a, k) == Bit(b, k) { assert At(row, c + k) == mat.At(other, c + k); }
        SameBitsSameWord(a, b);
      }
      if a == b {
        forall j | c <= j < c + 32 ensures At(row, j) == mat.At(other, j) { assert Bit(a, j - c) == Bit(b, j - c); }
      }
    }

    method EqualBits(mat: BinaryMatrix, i: nat, from: nat, to: nat) returns (eq: bool)
      requires Valid() && mat.Valid() && from <= to
      ensures eq <==> Agree(i, mat, i, from, to)
    {
      hide ShiftedBit;
      for j := from to to
        invariant Agree(i, mat, i, from, j)
      {
        if At(i, j) != mat.At(i, j) { return false; }
      }
      return true;
    }

    method EqualWords(mat: BinaryMatrix, i: nat, top: nat, words: nat) returns (eq: bool)
      requires Valid() && WindowInside() && mat.Valid() && mat.WindowInside()
      requires Rows == mat.Rows && Columns == mat.Columns && i < Rows && top + 32 * words <= Columns
      requires words > 0 ==> (CurrentColOffset + top) % 32 == 0 && (mat.CurrentColOffset + top) % 32 == 0
      ensures eq <==> Agree(i, mat, i, top, top + 32 * words)
    {
      hide At;
      for j := 0 to words
        invariant Agree(i, mat, i, top, top + 32 * j)
      {
        var c := top + 32 * j;
        AlignedAgain(CurrentColOffset + top, j);
        AlignedAgain(mat.CurrentColOffset + top, j);
        WordsAgree(i, mat, i, c);
        if AllocatedMatrix[Slot(i, c)] != mat.AllocatedMatrix[mat.Slot(i, c)] { return false; }
      }
      return true;
    }

    method EqualRow(mat: BinaryMatrix, i: nat) returns (eq: bool)
      requires Valid() && WindowInside() && mat.Valid() && mat.WindowInside()
      requires Rows == mat.Rows && Columns == mat.Columns && i < Rows && Columns > 0
      ensures eq <==> Agree(i, mat, i, 0, Columns)
    {
      hide At;
      var split := GetIndex();
      SplitPartitions();
      if split.top != mat.GetTop() {
        eq := EqualBits(mat, i, 0, Columns);
        return;
      }
      if split.words > 0 {
        SameTopAligned(mat);
      }
      eq := EqualBits(mat, i, 0, split.top);
      if !eq { return; }
      eq := EqualWords(mat, i, split.top, split.words);
      if !eq { return; }
      eq := EqualBits(mat, i, split.last, Columns);
    }

    /** `==`: same size and same cells, wherever the two windows lie in their stores. */
    method Equals(mat: BinaryMatrix) returns (eq: bool)
      requires Valid() && WindowInside() && mat.Valid() && mat.WindowInside()
      ensures eq <==>
              && Columns == mat.Columns && Rows == mat.Rows
              && forall r, c :: 0 <= r < Rows && 0 <= c < Columns ==> At(r, c) == mat.At(r, c)
    {
      hide At;
      if Columns != mat.Columns || Rows != mat.Rows { return false; }
      var i := 0;
      while i < Rows
        invariant 0 <= i
        invariant forall r, c :: 0 <= r < i && r < Rows && 0 <= c < Columns ==> At(r, c) == mat.At(r, c)
      {
        if Columns > 0 {
          var same := EqualRow(mat, i);
          if !same { return false; }
        }
        i := i + 1;
      }
      return true;
    }

    // ---- rows as binary numbers ------------------------------------------------------

    /** The number whose bits are the first `n` columns of a row, the highest column most significant. */
    ghost function RowValue(r: int, n: nat): nat
      requires Valid()
      reads this, AllocatedMatrix
    {
      if n == 0 then 0 else RowValue(r, n - 1) + if At(r, n - 1) then Pow2(n - 1) else 0
    }

    /** The columns stand for one, two, four and so on. */
    lemma RowValueAt(r: int, n: nat)
      requires Valid()
      ensures RowValue(r, 0) == 0 && RowValue(r, n + 1) == RowValue(r, n) + if At(r, n) then Pow2(n) else 0
      ensures Pow2(0) == 1 && Pow2(n + 1) == 2 * Pow2(n)
    {
    }

    lemma {:induction false} RowValueBelow(r: int, n: nat)
      requires Valid()
      ensures RowValue(r, n) < Pow2(n)
    {
      hide At;
      if n > 0 {
        RowValueBelow(r, n - 1);
      }
    }

    lemma {:induction false} AgreeingRowsSameValue(row: int, mat: BinaryMatrix, other: int, n: nat)
      requires Valid() && mat.Valid() && Agree(row, mat, other, 0, n)
      ensures RowValue(row, n) == mat.RowValue(other, n)
    {
      hide At;
      if n > 0 {
        AgreeingRowsSameValue(row, mat, other, n - 1);
      }
    }

    /** The highest column in which two rows differ decides which is the larger number. */
    lemma {:induction false} HighestDifferenceDecides(row: int, mat: BinaryMatrix, other: int, k: nat, n: nat)
      requires Valid() && mat.Valid() && k < n
      requires At(row, k) && !mat.At(other, k) && Agree(row, mat, other, k + 1, n)
      ensures RowValue(row, n) > mat.RowValue(other, n)
    {
      hide At;
      if n == k + 1 {
        mat.RowValueBelow(other, k);
      } else {
        HighestDifferenceDecides(row, mat, other, k, n - 1);
      }
    }

    lemma {:induction false} HighestDifferenceDecidesLess(row: int, mat: BinaryMatrix, other: int, k: nat, n: nat)
      requires Valid() && mat.Valid() && k < n
      requires !At(row, k) && mat.At(other, k) && Agree(row, mat, other, k + 1, n)
      ensures RowValue(row, n) < mat.RowValue(other, n)
    {
      hide At;
      if n == k + 1 {
        RowValueBelow(row, k);
      } else {
        HighestDifferenceDecidesLess(row, mat, other, k, n - 1);
      }
    }

    /** `t` tells how the columns `[from,to)` of `row` compare with those of row 0 of `mat`, high column first. */
    ghost predicate Decided(row: int, mat: BinaryMatrix, from: int, to: int, t: int)
      requires Valid() && mat.Valid()
      reads this, AllocatedMatrix, mat, mat.AllocatedMatrix
    {
      if t == 0 then
        Agree(row, mat, 0, from, to)
      else
        exists k :: from <= k < to && At(row, k) != mat.At(0, k) && Agree(row, mat, 0, k + 1, to) &&
                    t == if At(row, k) then -1 else 1
    }

    method TestBits(row: nat, mat: BinaryMatrix, from: nat, to: nat) returns (t: int)
      requires Valid() && mat.Valid() && from <= to
      ensures Decided(row, mat, from, to, t)
    {
      hide At;
      for j := to downto from
        invariant Agree(row, mat, 0, j, to)
      {
        if At(row, j) && !mat.At(0, j) { return -1; }
        else if !At(row, j) && mat.At(0, j) { return 1; }
      }
      return 0;
    }

    /** Unequal words are ordered by the highest cell in which they differ. */
    lemma WordsDecide(row: int, mat: BinaryMatrix, c: int)
      requires Valid() && mat.Valid()
      requires InAllocation(row, c) && InAllocation(row, c + 31) && (c + CurrentColOffset) % BITS == 0
      requires mat.InAllocation(0, c) && mat.InAllocation(0, c + 31) && (c + mat.CurrentColOffset) % BITS == 0
      ensures var a, b := AllocatedMatrix[Slot(row, c)], mat.AllocatedMatrix[mat.Slot(0, c)];
              a != b ==> && (Greater(a, b) != Greater(b, a))
                         && Decided(row, mat, c, c + 32, if Greater(a, b) then -1 else 1)
    {
      hide Bit, At, Greater;
      var a, b := AllocatedMatrix[Slot(row, c)], mat.AllocatedMatrix[mat.Slot(0, c)];
      if a != b {
        WordIsCells(row, c);
        mat.WordIsCells(0, c);
        var k := TopDifference(a, b);
        forall j | c + k + 1 <= j < c + 32
          ensures At(row, j) == mat.At(0, j)
        {
          assert Bit(a, j - c) == Bit(b, j - c);
        }
        assert At(row, c + k) != mat.At(0, c + k);
      }
    }

    lemma DecidedNone(row: int, mat: BinaryMatrix, from: int, to: int)
      requires Valid() && mat.Valid()
      ensures Decided(row, mat, from, to, 0) <==> Agree(row, mat, 0, from, to)
    {
    }

    /** A decision reached in `[from,to)` stands when the columns above it agree. */
    lemma DecidedBelow(row: int, mat: BinaryMatrix, low: int, from: int, to: int, high: int, t: int)
      requires Valid() && mat.Valid() && low <= from && to <= high && t != 0
      requires Decided(row, mat, from, to, t) && Agree(row, mat, 0, to, high)
      ensures Decided(row, mat, low, high, t)
    {
      hide At;
      var k :| from <= k < to && At(row, k) != mat.At(0, k) && Agree(row, mat, 0, k + 1, to) &&
               t == if At(row, k) then -1 else 1;
      assert Agree(row, mat, 0, k + 1, high);
    }

    method TestWords(row: nat, mat: BinaryMatrix, top: nat, words: nat) returns (t: int)
      requires Valid() && WindowInside() && mat.Valid() && mat.WindowInside()
      requires 0 <= row < Rows && 1 <= mat.Rows && Columns == mat.Columns && top + 32 * words <= Columns
      requires words > 0 ==> (CurrentColOffset + top) % 32 == 0 && (mat.CurrentColOffset + top) % 32 == 0
      ensures Decided(row, mat, top, top + 32 * words, t)
    {
      hide At, Greater, Decided;
      for j := words downto 0
        invariant Agree(row, mat, 0, top + 32 * j, top + 32 * words)
      {
        var c := top + 32 * j;
        AlignedAgain(CurrentColOffset + top, j);
        AlignedAgain(mat.CurrentColOffset + top, j);
        WordsAgree(row, mat, 0, c);
        WordsDecide(row, mat, c);
        var a, b := AllocatedMatrix[Slot(row, c)], mat.AllocatedMatrix[mat.Slot(0, c)];
        GreaterAsymmetric(a, b);
        if Greater(a, b) {
          DecidedBelow(row, mat, top, c, c + 32, top + 32 * words, -1);
          return -1;
        } else if Greater(b, a) {
          DecidedBelow(row, mat, top, c, c + 32, top + 32 * words, 1);
          return 1;
        }
      }
      DecidedNone(row, mat, top, top + 32 * words);
      return 0;
    }

    /** Compares a row with row 0 of `mat` as numbers: -1 if it is greater, 1 if it is less, 0 if they are
        equal, and 3 when they cannot be compared. */
    method RowTest(row: nat, mat: BinaryMatrix) returns (t: int)
      requires Valid() && WindowInside() && mat.Valid() && mat.WindowInside()
      ensures t == 3 <==> Columns != mat.Columns || mat.Rows < 1 || Rows <= row
      ensures t != 3 && Columns >= 0 ==>
                var mine, theirs := RowValue(row, Columns), mat.RowValue(0, Columns);
                t == if mine > theirs then -1 else if mine < theirs then 1 else 0
    {
      hide At, Decided;
      if Columns != mat.Columns || 1 > mat.Rows || Rows <= row { return 3; }
      if Columns < 1 { return 0; }
      t := TestRow(row, mat);
      DecidedIsOrder(row, mat, Columns, t);
    }

    method TestRow(row: nat, mat: BinaryMatrix) returns (t: int)
      requires Valid() && WindowInside() && mat.Valid() && mat.WindowInside()
      requires 0 <= row < Rows && 1 <= mat.Rows && Columns == mat.Columns && Columns > 0
      ensures Decided(row, mat, 0, Columns, t)
    {
      hide At, Decided, GetIndex, GetTop, Valid;
      var split := GetIndex();
      SplitPartitions();
      if split.top != mat.GetTop() {
        t := TestBits(row, mat, 0, Columns);
        return;
      }
      if split.words > 0 {
        SameTopAligned(mat);
      }
      t := TestBits(row, mat, split.last, Columns);
      if t != 0 {
        DecidedBelow(row, mat, 0, split.last, Columns, Columns, t);
        return;
      }
      t := TestWords(row, mat, split.top, split.words);
      DecidedNone(row, mat, split.last, Columns);
      if t != 0 {
        DecidedBelow(row, mat, 0, split.top, split.last, Columns, t);
        return;
      }
      DecidedNone(row, mat, split.top, split.last);
      t := TestBits(row, mat, 0, split.top);
      if t != 0 {
        DecidedBelow(row, mat, 0, 0, split.top, Columns, t);
      } else {
        DecidedNone(row, mat, 0, split.top);
        DecidedNone(row, mat, 0, Columns);
      }
    }

    lemma DecidedIsOrder(row: int, mat: BinaryMatrix, n: nat, t: int)
      requires Valid() && mat.Valid() && Decided(row, mat, 0, n, t)
      ensures var mine, theirs := RowValue(row, n), mat.RowValue(0, n);
              t == if mine > theirs then -1 else if mine < theirs then 1 else 0
    {
      hide At;
      if t == 0 {
        AgreeingRowsSameValue(row, mat, 0, n);
      } else {
        var k :| 0 <= k < n && At(row, k) != mat.At(0, k) && Agree(row, mat, 0, k + 1, n) &&
                 t == if At(row, k) then -1 else 1;
        if At(row, k) {
          HighestDifferenceDecides(row, mat, 0, k, n);
        } else {
          HighestDifferenceDecidesLess(row, mat, 0, k, n);
        }
      }
    }

    // ---- inclusion -------------------------------------------------------------------

    /** A matrix of zeros with a store of its own, rows padded to whole words. */
    constructor (r: nat, c: nat)
      ensures Valid() && WindowInside() && Rows == r && Columns == c
      ensures CurrentRowOffset == 0 && CurrentColOffset == 0 && AllocatedRows == r && AllocatedColumns == c
      ensures fresh(AllocatedMatrix)
      ensures forall i, j :: !At(i, j)
    {
      hide ShiftedBit, At, WordsFor;
      Rows, Columns := r, c;
      CurrentRowOffset, CurrentColOffset := 0, 0;
      RowInc := WordsFor(c);
      AllocatedRows, AllocatedColumns := r, c;
      AllocatedMatrix := new Word[r * WordsFor(c)](_ => 0);
      new;
      NothingAt(r * RowInc);
    }

    /** A copy of the window of `mat`. */
    static method CopyOf(mat: BinaryMatrix) returns (bm: BinaryMatrix)
      requires mat.Valid() && mat.WindowInside() && mat.Rows >= 0 && mat.Columns >= 0
      ensures fresh(bm) && fresh(bm.AllocatedMatrix)
      ensures bm.Valid() && bm.WindowInside() && bm.Rows == mat.Rows && bm.Columns == mat.Columns
      ensures forall r, c :: 0 <= r < mat.Rows && 0 <= c < mat.Columns ==> bm.At(r, c) == mat.At(r, c)
    {
      hide ShiftedBit, Stored;
      bm := new BinaryMatrix(mat.Rows, mat.Columns);
      bm.Assign(mat);
    }

    /** `>=`: true when `mat` is a subset, and always true for matrices of different sizes. */
    method AtLeast(mat: BinaryMatrix) returns (b: bool)
      requires Valid() && WindowInside() && Rows >= 0 && Columns >= 0
      requires mat.Valid() && mat.WindowInside() && mat.Rows >= 0 && mat.Columns >= 0
      ensures b <==> (Columns == mat.Columns && Rows == mat.Rows ==>
                        forall r, c :: 0 <= r < Rows && 0 <= c < Columns ==> mat.At(r, c) ==> At(r, c))
    {
      hide ShiftedBit, Stored;
      var bm := CopyOf(mat);
      bm.AndAssign(this);
      b := bm.Equals(mat);
    }

    /** `<=`: true when this is a subset of `mat` of the same size. */
    method AtMost(mat: BinaryMatrix) returns (b: bool)
      requires Valid() && WindowInside() && Rows >= 0 && Columns >= 0
      requires mat.Valid() && mat.WindowInside() && mat.Rows >= 0 && mat.Columns >= 0
      ensures b <==>
              && Columns == mat.Columns && Rows == mat.Rows
              && forall r, c :: 0 <= r < Rows && 0 <= c < Columns ==> At(r, c) ==> mat.At(r, c)
    {
      hide At, Stored;
      var bm := CopyOf(mat);
      bm.AndAssign(this);
      b := bm.Equals(this);
    }

    /** `>`, which the source writes with the operands of `>=` exchanged: for equal sizes it holds when
        this is a proper subset of `mat`. */
    method Above(mat: BinaryMatrix) returns (b: bool)
      requires Valid() && WindowInside() && Rows >= 0 && Columns >= 0
      requires mat.Valid() && mat.WindowInside() && mat.Rows >= 0 && mat.Columns >= 0
      ensures Columns == mat.Columns && Rows == mat.Rows ==>
                (b <==> && (forall r, c :: 0 <= r < Rows && 0 <= c < Columns ==> At(r, c) ==> mat.At(r, c))
                        && (exists r, c :: 0 <= r < Rows && 0 <= c < Columns && mat.At(r, c) && !At(r, c)))
      ensures Columns != mat.Columns || Rows != mat.Rows ==> b
    {
      hide At, Stored;
      var same := mat.Equals(this);
      if same { return false; }
      ghost var r, c: int;
      if Columns == mat.Columns && Rows == mat.Rows {
        r, c :| 0 <= r < Rows && 0 <= c < Columns && mat.At(r, c) != At(r, c);
      }
      b := mat.AtLeast(this);
      assert b && Columns == mat.Columns && Rows == mat.Rows ==> mat.At(r, c) && !At(r, c);
    }

    /** `<`, likewise exchanged: it holds when `mat` is a proper subset of this. */
    method Below(mat: BinaryMatrix) returns (b: bool)
      requires Valid() && WindowInside() && Rows >= 0 && Columns >= 0
      requires mat.Valid() && mat.WindowInside() && mat.Rows >= 0 && mat.Columns >= 0
      ensures b <==>
              && Columns == mat.Columns && Rows == mat.Rows
              && (forall r, c :: 0 <= r < Rows && 0 <= c < Columns ==> mat.At(r, c) ==> At(r, c))
              && (exists r, c :: 0 <= r < Rows && 0 <= c < Columns && At(r, c) && !mat.At(r, c))
    {
      hide At, Stored;
      var same := mat.Equals(this);
      if same { return false; }
      ghost var r, c: int;
      if Columns == mat.Columns && Rows == mat.Rows {
        r, c :| 0 <= r < Rows && 0 <= c < Columns && mat.At(r, c) != At(r, c);
      }
      b := mat.AtMost(this);
      assert b && Columns == mat.Columns && Rows == mat.Rows ==> At(r, c) && !mat.At(r, c);
    }

    /** Writes a cell of the window and returns what it held; outside the window nothing happens. */
    method CheckSet(r: int, c: int, value: bool) returns (was: bool)
      requires Valid() && WindowInside()
      modifies AllocatedMatrix
      ensures was == (0 <= r < Rows && 0 <= c < Columns && old(At(r, c)))
      ensures forall i, j :: i >= 0 && j >= 0 ==>
                At(i, j) == if i == r && j == c && r < Rows && c < Columns then value else old(At(i, j))
    {
      hide ShiftedBit;
      if r >= Rows || c >= Columns || r < 0 || c < 0 { return false; }
      was := At(r, c);
      WriteCell(r, c, value);
    }

    /** `SetBit` seen through the window. */
    method WriteCell(r: int, c: int, value: bool)
      requires Valid()
      modifies AllocatedMatrix
      ensures forall i, j :: i >= 0 && j >= 0 ==>
                At(i, j) == if i == r && j == c && InAllocation(r, c) then value else old(At(i, j))
    {
      hide ShiftedBit, Stored;
      CellsAreStored();
      SetBit(r, c, value);
      CellsAreStored();
    }

    // ---- counting into a matrix of shorts --------------------------------------------

    /** `addTo` and `addNotTo`: adds one to every entry of `m` whose cell here equals `value`. The sweep
        over a row terminates only while its word boundaries fit 16 bits (see AddSweep). */
    method AddCells(m: array2<int>, value: bool) returns (ok: bool)
      requires Valid() && WindowInside() && Rows >= 0 && Columns >= 0
      requires AddSweep.LastBoundary(CurrentColOffset, Columns) < AddSweep.USHORT
      modifies m
      ensures ok <==> m.Length0 == Rows && m.Length1 == Columns
      ensures ok ==> forall r, c :: 0 <= r < Rows && 0 <= c < Columns ==>
                m[r, c] == if At(r, c) != value then old(m[r, c])
                           else if old(m[r, c]) == 32767 then -32768 else old(m[r, c]) + 1
      ensures !ok ==> forall r, c :: 0 <= r < m.Length0 && 0 <= c < m.Length1 ==> m[r, c] == old(m[r, c])
    {
      hide ShiftedBit, At, AddSweep.LastBoundary;
      if Columns != m.Length1 || Rows != m.Length0 { return false; }
      if Columns == 0 { return true; }
      for r := 0 to Rows
        invariant forall i, j :: 0 <= i < Rows && 0 <= j < Columns ==>
                    m[i, j] == if i < r && At(i, j) == value then NextShort(old(m[i, j])) else old(m[i, j])
      {
        var c := 0;
        while c < Columns
          invariant 0 <= c <= Columns
          invariant forall i, j :: 0 <= i < Rows && 0 <= j < Columns ==>
                      m[i, j] == if (i < r || (i == r && j < c)) && At(i, j) == value then NextShort(old(m[i, j]))
                                 else old(m[i, j])
        {
          AddSweep.PassEndIs(CurrentColOffset, Columns, c);
          c := AddWord(m, value, r, c);
        }
      }
      return true;
    }

    /** One pass of the sweep: the cells of one word, shifted down one at a time. */
    method AddWord(m: array2<int>, value: bool, r: nat, from: nat) returns (c: nat)
      requires Valid() && WindowInside() && r < Rows && from < Columns
      requires m.Length0 == Rows && m.Length1 == Columns
      requires from < AddSweep.PassEnd(CurrentColOffset, Columns, from) <= Columns
      modifies m
      ensures c == AddSweep.PassEnd(CurrentColOffset, Columns, from)
      ensures forall i, j :: 0 <= i < Rows && 0 <= j < Columns ==>
                m[i, j] == if i == r && from <= j < c && At(i, j) == value then NextShort(old(m[i, j]))
                           else old(m[i, j])
    {
      hide ShiftedBit, At, Bit, Low, Halve, ShiftDown;
      var a := AllocatedMatrix[Slot(r, from)];
      ghost var word := a;
      var bitcol := (from + CurrentColOffset) % BITS;
      a := ShiftDown(a, bitcol);
      var top := AddSweep.PassEnd(CurrentColOffset, Columns, from);
      WordHolds(r, from, top);
      c := from;
      while c < top
        invariant from <= c <= top
        invariant c < top ==> a == ShiftDown(word, bitcol + (c - from))
        invariant forall i, j :: 0 <= i < Rows && 0 <= j < Columns ==>
                    m[i, j] == if i == r && from <= j < c && At(i, j) == value then NextShort(old(m[i, j]))
                               else old(m[i, j])
      {
        LowOfShifted(word, bitcol + (c - from));
        if Low(a) == value {
          m[r, c] := NextShort(m[r, c]);
        }
        if c + 1 < top {
          ShiftStep(word, bitcol + (c - from));
        }
        a := Halve(a);
        c := c + 1;
      }
    }

    /** The cell `d` columns on in the same word. */
    lemma SameWordCell(r: int, c: int, d: nat)
      requires Valid() && InAllocation(r, c) && InAllocation(r, c + d)
      requires (c + CurrentColOffset) % BITS + d < BITS
      ensures At(r, c + d) == Bit(AllocatedMatrix[Slot(r, c)], (c + CurrentColOffset) % BITS + d)
    {
      hide ShiftedBit, Bit;
      var x := c + CurrentColOffset;
      RoundDown(x);
      WordColumns(x - x % BITS, x);
      WordColumns(x - x % BITS, x + d);
      assert Slot(r, c + d) == Slot(r, c);
      ShiftReadsBit(AllocatedMatrix[Slot(r, c)], x % BITS + d);
    }

    /** The cells of one pass are consecutive bits of one word. */
    lemma WordHolds(r: int, from: nat, top: nat)
      requires Valid() && WindowInside() && 0 <= r < Rows && from < top <= Columns
      requires top == AddSweep.PassEnd(CurrentColOffset, Columns, from)
      ensures (from + CurrentColOffset) % BITS + (top - from) <= BITS
      ensures forall c :: from <= c < top ==>
                At(r, c) == Bit(AllocatedMatrix[Slot(r, from)], (from + CurrentColOffset) % BITS + (c - from))
    {
      hide At, Bit, AddSweep.PassEnd;
      AddSweep.PassWithinWord(CurrentColOffset, Columns, from);
      forall c | from <= c < top
        ensures At(r, c) == Bit(AllocatedMatrix[Slot(r, from)], (from + CurrentColOffset) % BITS + (c - from))
      {
        SameWordCell(r, from, c - from);
      }
    }
  }

  /** Adding one to a 16-bit signed entry. */
  function NextShort(x: int): int {
    if x == 0x7FFF then -0x8000 else x + 1
  }
}
