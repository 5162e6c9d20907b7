/** The 32-bit words in which a BinaryMatrix stores its cells.

    Every fact that needs bit-vector reasoning is proved once, about one mask, and then hidden
    behind `Bit`; the rest of the project only sees words through their 32 bits. */
module Words {

  type Word = bv32

  const BITS: nat := 32

  /** The word whose only set bit is bit `k`. */
  function Mask(k: nat): Word
    requires k < BITS
  {
    (1 as bv32) << (k as bv5)
  }

  predicate Has(w: Word, m: Word) {
    w & m != 0
  }

  /** Exactly one bit of `m` is set. */
  predicate Single(m: Word) {
    m != 0 && m & (m - 1) == 0
  }

  predicate Disjoint(m: Word, n: Word) {
    m & n == 0
  }

  /** Bit `k` of `w`, bit 0 being the least significant. */
  predicate Bit(w: Word, k: nat)
    requires k < BITS
  {
    Has(w, Mask(k))
  }

  /** Bit `k` read by shifting it down to the bottom of the word. */
  predicate ShiftedBit(w: Word, k: nat)
    requires k < BITS
  {
    LowAfterShift(w, k as bv5)
  }

  predicate LowAfterShift(w: Word, k: bv5) {
    (w >> k) & 1 != 0
  }

  /** The bitwise operations that combine two matrices: `Copy` assigns and `CopyNot` assigns the complement. */
  datatype Op = And | Or | Xor | Copy | CopyNot

  function OnWords(op: Op, a: Word, b: Word): Word {
    match op
    case And => a & b
    case Or => a | b
    case Xor => a ^ b
    case Copy => b
    case CopyNot => !b
  }

  predicate OnBits(op: Op, a: bool, b: bool) {
    match op
    case And => a && b
    case Or => a || b
    case Xor => a != b
    case Copy => b
    case CopyNot => !b
  }

  /** `w` holds, in each of its 32 bits, the result of `op` on the bits of `a` and `b`. */
  predicate Bitwise(op: Op, a: Word, b: Word, w: Word) {
    forall k :: 0 <= k < BITS ==> Bit(w, k) == OnBits(op, Bit(a, k), Bit(b, k))
  }

  /** `w` is `a` with bit `k` set to `value`. */
  predicate OneBitWritten(a: Word, k: nat, value: bool, w: Word)
    requires k < BITS
  {
    forall j :: 0 <= j < BITS ==> Bit(w, j) == if j == k then value else Bit(a, j)
  }

  // ---- bit-vector facts about one mask -----------------------------------------------

  lemma IndexNotLast(k: nat)
    requires k + 1 < BITS
    ensures k as bv5 != 31
  {
    assert (k as bv5) as nat == k;
  }

  lemma NextIndex(k: nat)
    requires k + 1 < BITS
    ensures (k + 1) as bv5 == (k as bv5) + 1
  {
  }

  lemma SingleBv(k: bv5)
    ensures Single((1 as bv32) << k)
  {
  }

  lemma SingleMask(k: nat)
    requires k < BITS
    ensures Single(Mask(k))
  {
    hide Single;
    SingleBv(k as bv5);
  }

  lemma DisjointBv(k: bv5, j: bv5)
    requires k != j
    ensures Disjoint((1 as bv32) << k, (1 as bv32) << j)
  {
  }

  lemma DisjointMasks(k: nat, j: nat)
    requires k < BITS && j < BITS && k != j
    ensures Disjoint(Mask(k), Mask(j))
  {
    hide Disjoint;
    assert (k as bv5) != (j as bv5);
    DisjointBv(k as bv5, j as bv5);
  }

  /** Masking with a single bit leaves nothing or the whole mask. */
  lemma AllOrNothing(w: Word, m: Word)
    requires Single(m)
    ensures w & m == 0 || w & m == m
  {
  }

  lemma AndHas(a: Word, b: Word, m: Word)
    requires Single(m)
    ensures Has(a & b, m) <==> Has(a, m) && Has(b, m)
  {
    AllOrNothing(a, m);
    AllOrNothing(b, m);
    hide Single;
    assert (a & b) & m == (a & m) & (b & m);
  }

  lemma OrHas(a: Word, b: Word, m: Word)
    ensures Has(a | b, m) <==> Has(a, m) || Has(b, m)
  {
    assert (a | b) & m == (a & m) | (b & m);
  }

  lemma XorMasked(a: Word, b: Word, m: Word)
    ensures (a ^ b) & m == (a & m) ^ (b & m)
  {
  }

  lemma XorHas(a: Word, b: Word, m: Word)
    requires Single(m)
    ensures Has(a ^ b, m) <==> Has(a, m) != Has(b, m)
  {
    XorMasked(a, b, m);
    AllOrNothing(a, m);
    AllOrNothing(b, m);
    hide Single;
    if a & m == 0 {
      assert 0 ^ (b & m) == b & m;
    } else if b & m == 0 {
      assert (a & m) ^ 0 == a & m;
    } else {
      assert m ^ m == 0;
    }
  }

  lemma NotHas(a: Word, m: Word)
    requires Single(m)
    ensures Has(!a, m) <==> !Has(a, m)
  {
    AllOrNothing(a, m);
    assert (!a) & m == m ^ (a & m);
  }

  lemma SetHas(w: Word, m: Word)
    requires Single(m)
    ensures Has(w | m, m)
  {
    assert (w | m) & m == m;
  }

  lemma ClearHas(w: Word, m: Word)
    ensures !Has(w & !m, m)
  {
    assert (w & !m) & m == 0;
  }

  lemma SetElsewhere(w: Word, m: Word, n: Word)
    requires Disjoint(m, n)
    ensures Has(w | m, n) <==> Has(w, n)
  {
    assert (w | m) & n == w & n;
  }

  lemma ClearElsewhere(w: Word, m: Word, n: Word)
    requires Disjoint(m, n)
    ensures Has(w & !m, n) <==> Has(w, n)
  {
    assert (w & !m) & n == w & n;
  }

  lemma LowSet(w: Word, k: bv5)
    requires Has(w, (1 as bv32) << k)
    ensures LowAfterShift(w, k)
  {
    assert w & ((1 as bv32) << k) == (1 as bv32) << k;
  }

  lemma LowClear(w: Word, k: bv5)
    requires !Has(w, (1 as bv32) << k)
    ensures !LowAfterShift(w, k)
  {
  }

  // ---- what they mean for the 32 bits ------------------------------------------------

  /** Reading a bit by shifting finds the bit the mask selects. */
  lemma ShiftReadsBit(w: Word, k: nat)
    requires k < BITS
    ensures ShiftedBit(w, k) == Bit(w, k)
  {
    hide Has, LowAfterShift;
    if Has(w, (1 as bv32) << (k as bv5)) {
      LowSet(w, k as bv5);
    } else {
      LowClear(w, k as bv5);
    }
  }

  lemma AndBit(a: Word, b: Word, k: nat)
    requires k < BITS
    ensures Bit(a & b, k) == (Bit(a, k) && Bit(b, k))
  {
    hide Mask, Has, Single;
    SingleMask(k);
    AndHas(a, b, Mask(k));
  }

  lemma OrBit(a: Word, b: Word, k: nat)
    requires k < BITS
    ensures Bit(a | b, k) == (Bit(a, k) || Bit(b, k))
  {
    hide Mask, Has;
    OrHas(a, b, Mask(k));
  }

  lemma XorBit(a: Word, b: Word, k: nat)
    requires k < BITS
    ensures Bit(a ^ b, k) == (Bit(a, k) != Bit(b, k))
  {
    hide Mask, Has, Single;
    SingleMask(k);
    XorHas(a, b, Mask(k));
  }

  /** Complementing a word complements each of its 32 bits. */
  lemma NotBit(a: Word, k: nat)
    requires k < BITS
    ensures Bit(!a, k) == !Bit(a, k)
  {
    hide Mask, Has, Single;
    SingleMask(k);
    NotHas(a, Mask(k));
  }

  lemma AndBitwise(a: Word, b: Word)
    ensures Bitwise(And, a, b, OnWords(And, a, b))
  {
    hide Bit;
    forall k | 0 <= k < BITS ensures Bit(a & b, k) == (Bit(a, k) && Bit(b, k)) { AndBit(a, b, k); }
  }

  lemma OrBitwise(a: Word, b: Word)
    ensures Bitwise(Or, a, b, OnWords(Or, a, b))
  {
    hide Bit;
    forall k | 0 <= k < BITS ensures Bit(a | b, k) == (Bit(a, k) || Bit(b, k)) { OrBit(a, b, k); }
  }

  lemma XorBitwise(a: Word, b: Word)
    ensures Bitwise(Xor, a, b, OnWords(Xor, a, b))
  {
    hide Bit;
    forall k | 0 <= k < BITS ensures Bit(a ^ b, k) == (Bit(a, k) != Bit(b, k)) { XorBit(a, b, k); }
  }

  lemma CopyBitwise(a: Word, b: Word)
    ensures Bitwise(Copy, a, b, OnWords(Copy, a, b))
  {
    hide Bit;
  }

  lemma NotBitwise(a: Word, b: Word)
    ensures Bitwise(CopyNot, a, b, OnWords(CopyNot, a, b))
  {
    hide Bit;
    forall k | 0 <= k < BITS ensures Bit(!b, k) == !Bit(b, k) { NotBit(b, k); }
  }

  /** A whole-word operation is the same operation on each of the 32 bits. */
  lemma WordOpIsBitwise(op: Op, a: Word, b: Word)
    ensures Bitwise(op, a, b, OnWords(op, a, b))
  {
    hide Bitwise, OnWords;
    match op
    case And => AndBitwise(a, b);
    case Or => OrBitwise(a, b);
    case Xor => XorBitwise(a, b);
    case Copy => CopyBitwise(a, b);
    case CopyNot => NotBitwise(a, b);
  }

  lemma SetBitHere(w: Word, k: nat)
    requires k < BITS
    ensures Bit(w | Mask(k), k)
  {
    hide Mask, Has, Single;
    SingleMask(k);
    SetHas(w, Mask(k));
  }

  lemma SetBitElsewhere(w: Word, k: nat, j: nat)
    requires k < BITS && j < BITS && j != k
    ensures Bit(w | Mask(k), j) == Bit(w, j)
  {
    hide Mask, Has, Disjoint;
    DisjointMasks(k, j);
    SetElsewhere(w, Mask(k), Mask(j));
  }

  lemma ClearBitHere(w: Word, k: nat)
    requires k < BITS
    ensures !Bit(w & !Mask(k), k)
  {
    hide Mask, Has;
    ClearHas(w, Mask(k));
  }

  lemma ClearBitElsewhere(w: Word, k: nat, j: nat)
    requires k < BITS && j < BITS && j != k
    ensures Bit(w & !Mask(k), j) == Bit(w, j)
  {
    hide Mask, Has, Disjoint;
    DisjointMasks(k, j);
    ClearElsewhere(w, Mask(k), Mask(j));
  }

  /** Or-ing a mask in sets that bit and no other. */
  lemma SetBit(w: Word, k: nat)
    requires k < BITS
    ensures OneBitWritten(w, k, true, w | Mask(k))
  {
    hide Mask, Bit;
    SetBitHere(w, k);
    forall j | 0 <= j < BITS && j != k ensures Bit(w | Mask(k), j) == Bit(w, j) { SetBitElsewhere(w, k, j); }
  }

  /** And-ing the complement of a mask in clears that bit and no other. */
  lemma ClearBit(w: Word, k: nat)
    requires k < BITS
    ensures OneBitWritten(w, k, false, w & !Mask(k))
  {
    hide Mask, Bit;
    ClearBitHere(w, k);
    forall j | 0 <= j < BITS && j != k ensures Bit(w & !Mask(k), j) == Bit(w, j) { ClearBitElsewhere(w, k, j); }
  }

  /** `w` shifted down by `k`. */
  function ShiftDown(w: Word, k: nat): Word
    requires k < BITS
  {
    ShiftBy(w, k as bv5)
  }

  function ShiftBy(w: Word, k: bv5): Word {
    w >> k
  }

  function Halve(a: Word): Word {
    a >> 1
  }

  predicate Low(a: Word) {
    a & 1 != 0
  }

  lemma ShiftTwice(w: Word, k: bv5)
    requires k != 31
    ensures (w >> k) >> 1 == w >> (k + 1)
  {
    if k & 16 == 0 {
      if k & 8 == 0 { assert (w >> k) >> 1 == w >> (k + 1); }
    } else if k & 8 == 0 {
      assert (w >> k) >> 1 == w >> (k + 1);
    }
  }

  lemma ShiftOnce(w: Word, k: bv5)
    requires k != 31
    ensures Halve(ShiftBy(w, k)) == ShiftBy(w, k + 1)
  {
    ShiftTwice(w, k);
  }

  /** Shifting down bit by bit. */
  lemma ShiftStep(w: Word, k: nat)
    requires k + 1 < BITS
    ensures Halve(ShiftDown(w, k)) == ShiftDown(w, k + 1)
  {
    hide ShiftBy, Halve;
    IndexNotLast(k);
    NextIndex(k);
    ShiftOnce(w, k as bv5);
  }

  lemma LowAfter(w: Word, k: bv5)
    ensures Low(ShiftBy(w, k)) == LowAfterShift(w, k)
  {
  }

  /** The low bit of a word shifted down by `k` is its bit `k`. */
  lemma LowOfShifted(w: Word, k: nat)
    requires k < BITS
    ensures Low(ShiftDown(w, k)) == Bit(w, k)
  {
    hide Bit, Low, LowAfterShift, ShiftBy;
    LowAfter(w, k as bv5);
    ShiftReadsBit(w, k);
  }

  lemma ZeroHas(m: Word)
    ensures !Has(0, m)
  {
  }

  lemma ZeroBit(k: nat)
    requires k < BITS
    ensures !Bit(0, k)
  {
    hide Has, Mask;
    ZeroHas(Mask(k));
  }

  // ---- unsigned order ----------------------------------------------------------------

  predicate Greater(a: Word, b: Word) {
    a > b
  }

  /** All bits strictly above the single-bit mask `m`. */
  function Above(m: Word): Word {
    !((m - 1) | m)
  }

  predicate SameIn(a: Word, b: Word, m: Word) {
    a & m == b & m
  }

  /** `a` and `b` have the same bits above `m`. */
  predicate SameAbove(a: Word, b: Word, m: Word) {
    SameIn(a, b, Above(m))
  }

  lemma SameAboveTop(a: Word, b: Word)
    ensures SameAbove(a, b, Mask(31))
  {
    assert Mask(31) == 0x8000_0000;
    assert Above(0x8000_0000) == 0;
  }

  lemma SameInMask(a: Word, b: Word, m: Word)
    requires Single(m) && Has(a, m) == Has(b, m)
    ensures SameIn(a, b, m)
  {
    AllOrNothing(a, m);
    AllOrNothing(b, m);
  }

  lemma SameInDouble(a: Word, b: Word, m: Word, n: Word)
    requires Single(n) && m == n + n
    requires SameAbove(a, b, m) && SameIn(a, b, m)
    ensures SameAbove(a, b, n)
  {
  }

  lemma MaskDouble(k: bv5)
    requires k != 31
    ensures (1 as bv32) << (k + 1) == ((1 as bv32) << k) + ((1 as bv32) << k)
  {
  }

  lemma SameInNext(a: Word, b: Word, k: bv5)
    requires k != 31
    requires SameAbove(a, b, (1 as bv32) << (k + 1)) && SameIn(a, b, (1 as bv32) << (k + 1))
    ensures SameAbove(a, b, (1 as bv32) << k)
  {
    hide SameAbove, SameIn, Single;
    SingleBv(k);
    MaskDouble(k);
    SameInDouble(a, b, (1 as bv32) << (k + 1), (1 as bv32) << k);
  }

  lemma SameAboveNext(a: Word, b: Word, k: nat)
    requires k + 1 < BITS
    requires SameAbove(a, b, Mask(k + 1)) && Bit(a, k + 1) == Bit(b, k + 1)
    ensures SameAbove(a, b, Mask(k))
  {
    hide SameAbove, Single, Has, SameIn;
    SingleMask(k + 1);
    SameInMask(a, b, Mask(k + 1));
    IndexNotLast(k);
    NextIndex(k);
    SameInNext(a, b, k as bv5);
  }

  lemma AtLeastTop(a: Word, m: Word)
    requires Single(m) && Has(a, m)
    ensures a >= (a & Above(m)) | m
  {
  }

  lemma AtMostRest(b: Word, m: Word)
    requires Single(m) && !Has(b, m)
    ensures b <= (b & Above(m)) | (m - 1)
  {
  }

  lemma TopBeatsRest(h: Word, m: Word)
    requires Single(m) && h & Above(m) == h
    ensures h | m > h | (m - 1)
  {
  }

  lemma HigherWinsBv(a: Word, b: Word, m: Word)
    requires Single(m) && SameAbove(a, b, m)
    requires Has(a, m) && !Has(b, m)
    ensures a > b
  {
    var h := a & Above(m);
    assert h == b & Above(m) && h & Above(m) == h;
    AtLeastTop(a, m);
    AtMostRest(b, m);
    TopBeatsRest(h, m);
    hide Single, Has, SameAbove, Above;
  }

  lemma HigherWins(a: Word, b: Word, m: Word)
    requires Single(m) && SameAbove(a, b, m)
    requires Has(a, m) && !Has(b, m)
    ensures Greater(a, b)
  {
    hide Single, SameAbove, Has;
    HigherWinsBv(a, b, m);
  }

  lemma GreaterAsymmetric(a: Word, b: Word)
    ensures !(Greater(a, b) && Greater(b, a))
  {
  }

  lemma BottomSame(a: Word, b: Word)
    requires SameAbove(a, b, 1) && Has(a, 1) == Has(b, 1)
    ensures a == b
  {
  }

  /** Words whose bits above `k` agree have the same part above the mask of `k`. */
  lemma {:induction false} AgreeAbove(a: Word, b: Word, k: nat)
    requires k < BITS
    requires forall j :: k < j < BITS ==> Bit(a, j) == Bit(b, j)
    ensures SameAbove(a, b, Mask(k))
    decreases BITS - k
  {
    hide SameAbove, Bit, Mask;
    if k == 31 {
      SameAboveTop(a, b);
    } else {
      AgreeAbove(a, b, k + 1);
      SameAboveNext(a, b, k);
    }
  }

  /** Words whose bits above `k` agree and that differ in bit `k` are ordered by that bit. */
  lemma TopBitDecides(a: Word, b: Word, k: nat)
    requires k < BITS
    requires forall j :: k < j < BITS ==> Bit(a, j) == Bit(b, j)
    ensures Bit(a, k) && !Bit(b, k) ==> Greater(a, b) && !Greater(b, a)
    ensures !Bit(a, k) && Bit(b, k) ==> Greater(b, a) && !Greater(a, b)
  {
    GreaterAsymmetric(a, b);
    hide SameAbove, Has, Mask, Single, Greater;
    AgreeAbove(a, b, k);
    AgreeAbove(b, a, k);
    SingleMask(k);
    if Bit(a, k) && !Bit(b, k) { HigherWins(a, b, Mask(k)); }
    if !Bit(a, k) && Bit(b, k) { HigherWins(b, a, Mask(k)); }
  }

  /** Words that agree in all 32 bits are equal. */
  lemma SameBitsSameWord(a: Word, b: Word)
    requires forall j :: 0 <= j < BITS ==> Bit(a, j) == Bit(b, j)
    ensures a == b
  {
    AgreeAbove(a, b, 0);
    assert Bit(a, 0) == Bit(b, 0);
    assert Mask(0) == 1;
    hide Has, SameAbove;
    BottomSame(a, b);
  }

  /** The highest bit in which two different words disagree orders them. */
  lemma TopDifference(a: Word, b: Word) returns (k: nat)
    requires a != b
    ensures k < BITS && Bit(a, k) != Bit(b, k)
    ensures forall j :: k < j < BITS ==> Bit(a, j) == Bit(b, j)
    ensures Bit(a, k) <==> Greater(a, b)
    ensures Bit(b, k) <==> Greater(b, a)
  {
    hide Bit, Greater;
    k := 31;
    while Bit(a, k) == Bit(b, k) && k > 0
      invariant k < BITS
      invariant forall j :: k < j < BITS ==> Bit(a, j) == Bit(b, j)
      decreases k
    {
      k := k - 1;
    }
    if Bit(a, k) == Bit(b, k) {
      SameBitsSameWord(a, b);
    }
    TopBitDecides(a, b, k);
  }
}
