/** A history of data in a circular array kept in time order. */
module DataSlots {
  import opened ErrorCodes
  import opened History

  class DataSlot {
    const DoTypeCheck: bool
    var History: array<Item>
    var Size: nat
    var Last: nat
    var NumItems: nat

    /** The logical history: from the cell after `Last` round to `Last`. */
    ghost function Hist(): (h: seq<Item>)
      requires Size == History.Length && (Size > 0 ==> Last < Size)
      reads this, History
      ensures |h| == Size
    {
      if Size == 0 then [] else View(History[..], Last)
    }

    /** Cells not yet filled are blank and come first. */
    ghost predicate Valid()
      reads this, History
    {
      && Size == History.Length && NumItems <= Size
      && (Size > 0 ==> Last < Size)
      && Sorted(Hist())
      && BlankFirst(Hist(), NumItems) && (NumItems < Size ==> Last == NumItems)
    }

    constructor (depth: nat, dotypecheck: bool)
      ensures Valid() && Size == depth && NumItems == 0 && DoTypeCheck == dotypecheck && fresh(History)
      ensures Hist() == seq(depth, _ => BLANK)
    {
      Size := depth;
      Last := 0;
      NumItems := 0;
      DoTypeCheck := dotypecheck;
      History := new Item[depth](_ => BLANK);
      new;
      assert Hist() == seq(depth, _ => BLANK);
    }

    /** Stores an item in time order. A wrongly typed item and one that comes too late are refused. */
    method Write(p: Item, sameClass: bool) returns (r: Code)
      requires Valid()
      modifies this`Last, this`NumItems, History
      ensures Valid()
      ensures DoTypeCheck && !sameClass ==>
                r == {RESOURCE_ERROR, TYPE_ERROR} && Hist() == old(Hist()) && NumItems == old(NumItems)
      ensures !(DoTypeCheck && !sameClass) && Size == 0 ==> r == OK && Hist() == [] && NumItems == old(NumItems)
      ensures !(DoTypeCheck && !sameClass) && Size > 0 ==>
                && Hist() == Written(old(Hist()), p)
                && r == (if p.time >= old(Hist())[Size - 1].time then OK else {TIMESTAMP_ERROR, TIMESTAMP_TOO_OLD})
                && NumItems == if (InOrder(old(Hist()), p) || LateButWelcome(old(Hist()), p)) && old(NumItems) < Size
                               then old(NumItems) + 1 else old(NumItems)
    {
      if DoTypeCheck && !sameClass { return {RESOURCE_ERROR, TYPE_ERROR}; }
      if Size == 0 { return OK; }
      r := OK;
      hide Hist, View, CountAtMost, Sorted, BlankFirst, Inserted, Written, InOrder, LateButWelcome, Ring;
      Cases(p);
      if p.time < History[Last].time {
        r := TOO_OLD;
        AddLate(p);
      } else {
        Append(p);
      }
    }

    /** What decides about a write, read off the ring. */
    lemma Cases(p: Item)
      requires Valid() && Size > 0
      ensures Hist()[Size - 1] == History[Last] && (InOrder(Hist(), p) <==> p.time >= History[Last].time)
      ensures InOrder(Hist(), p) ==> Written(Hist(), p) == Hist()[1..] + [p]
      ensures !InOrder(Hist(), p) ==>
                Written(Hist(), p) == if LateButWelcome(Hist(), p) then Inserted(Hist(), p) else Hist()
      ensures LateButWelcome(Hist(), p) <==> Size >= 3 && p.time > Hist()[0].time && p.time > Hist()[1].time
    {
      hide View, Sorted, BlankFirst, Inserted, CountAtMost;
      ViewAt(History[..], Last, Size - 1);
      RingEnds(Size, Last);
    }

    lemma OldestTwo(ind: int, i: int)
      requires Valid() && Size >= 3
      requires ind == (if Last + 1 > Size - 1 then 0 else Last + 1) && i == if ind + 1 > Size - 1 then 0 else ind + 1
      ensures History[ind] == Hist()[0] && History[i] == Hist()[1]
    {
      hide View, Sorted, BlankFirst;
      ViewAt(History[..], Last, 0);
      ViewAt(History[..], Last, 1);
    }

    /** Writes the cell that is j-th oldest. */
    method SetCell(ind: int, x: Item, ghost j: nat)
      requires Size == History.Length && Last < Size && j < Size && 0 <= ind < Size && ind == Ring(Size, Last, j)
      modifies History
      ensures View(History[..], Last) == old(View(History[..], Last))[j := x]
    {
      hide View;
      ghost var a := History[..];
      ViewSet(a, Last, j, x);
      History[ind] := x;
      assert History[..] == a[ind := x];
    }

    /** Overwrites the oldest cell with the newest item. */
    method Append(p: Item)
      requires Valid() && Size > 0 && InOrder(Hist(), p)
      modifies this`Last, this`NumItems, History
      ensures Valid() && Hist() == old(Hist())[1..] + [p]
      ensures NumItems == if old(NumItems) < Size then old(NumItems) + 1 else old(NumItems)
    {
      hide View;
      ghost var h, a := Hist(), History[..];
      ViewAdvances(a, Last);
      WriteKeepsSorted(h, p);
      Last := Last + 1;
      if Last > Size - 1 { Last := 0; }
      ViewSet(a, Last, Size - 1, p);
      History[Last] := p;
      assert History[..] == a[Last := p];
      if NumItems < Size { NumItems := NumItems + 1; }
      assert Hist() == h[1..] + [p];
    }

    /** Moves newer items one cell on, across the wrap point if need be, down to where `p` belongs. */
    method ShiftNewer(p: Item, from: int, ghost h: seq<Item>) returns (ind: int, ghost q: nat)
      requires Size == History.Length && Last < Size && 2 <= CountAtMost(h, p.time) <= Size
      requires |h| == Size && Sorted(h) && Shifting(h, View(History[..], Last), Size - 1)
      requires 0 <= from < Size && from == Ring(Size, Last, Size - 2) && History[from] == h[Size - 1]
      modifies History
      ensures 1 <= q < Size && q + 1 == CountAtMost(h, p.time) && 0 <= ind < Size && ind == Ring(Size, Last, q)
      ensures Shifting(h, View(History[..], Last), q)
    {
      hide View, Sorted, Shifting, CountAtMost, Ring;
      CountAtMostSplits(h, p.time);
      ind := Last;
      RingEnds(Size, Last);
      var i := from;
      q := Size - 1;
      while p.time < History[i].time
        invariant 1 <= q < Size && q + 1 >= CountAtMost(h, p.time)
        invariant 0 <= ind < Size && ind == Ring(Size, Last, q) && 0 <= i < Size && i == Ring(Size, Last, q - 1)
        invariant Shifting(h, View(History[..], Last), q) && History[i] == h[q]
        decreases q
      {
        ghost var v := View(History[..], Last);
        SetCell(ind, History[i], q);
        ShiftingStep(h, v, q);
        RingBack(Size, Last, q - 1);
        ind := i;
        if i == 0 { i := Size - 1; } else { i := i - 1; }
        q := q - 1;
        ViewAt(History[..], Last, q - 1);
      }
    }

    /** Puts a late item in its place; the oldest one makes room. */
    method ShiftIn(p: Item)
      requires Valid() && Size > 0 && !InOrder(Hist(), p) && LateButWelcome(Hist(), p)
      modifies this`Last, this`NumItems, History
      ensures Valid() && Hist() == Inserted(old(Hist()), p)
      ensures NumItems == if old(NumItems) < Size then old(NumItems) + 1 else old(NumItems)
    {
      hide View, Sorted, BlankFirst, Shifting, CountAtMost, Inserted, Ring;
      ghost var h := Hist();
      WelcomeHasRoom(h, p);
      WriteKeepsSorted(h, p);
      ViewAdvances(History[..], Last);
      RingEnds(Size, Last);
      var ind := Last + 1;
      if ind > Size - 1 { ind := 0; }
      var i := Last;
      Last := ind;
      if NumItems < Size { NumItems := NumItems + 1; }
      RingEnds(Size, Last);
      RingBack(Size, Last, Size - 1);
      ViewAt(History[..], Last, Size - 2);
      ShiftingStarts(h, View(History[..], Last));
      ghost var q;
      ind, q := ShiftNewer(p, i, h);
      ShiftingEnds(h, View(History[..], Last), q, p);
      SetCell(ind, p, q);
      InsertedBlanks(h, p, old(NumItems));
    }

    /** An item older than the newest one: it is taken if two held items are older still. */
    method AddLate(p: Item)
      requires Valid() && Size > 0 && !InOrder(Hist(), p)
      modifies this`Last, this`NumItems, History
      ensures Valid() && Hist() == Written(old(Hist()), p)
      ensures NumItems == if LateButWelcome(old(Hist()), p) && old(NumItems) < Size then old(NumItems) + 1
                          else old(NumItems)
    {
      hide Hist, View, CountAtMost, Sorted, BlankFirst, Inserted, Written, InOrder, LateButWelcome, Ring;
      Cases(p);
      if Size < 3 { return; }
      var ind := Last + 1;
      if ind > Size - 1 { ind := 0; }
      var i := ind + 1;
      if i > Size - 1 { i := 0; }
      OldestTwo(ind, i);
      if p.time <= History[ind].time { return; }
      if p.time <= History[i].time { return; }
      ShiftIn(p);
    }

    /** Reads by time; see `Answered`. The scan back for `t` always stops before it laps `Last`. */
    method Read(t: int, k: int, sameClass: bool) returns (r: Code, p: Value, next: int)
      requires Valid()
      ensures DoTypeCheck && !sameClass ==> r == {RESOURCE_ERROR, TYPE_ERROR} && p == Untouched && next == k
      ensures !(DoTypeCheck && !sameClass) ==> Answer(r, p, next) == Answered(Hist(), NumItems, t, k)
    {
      hide View, Sorted, BlankFirst, AnswerAfter, AnswerBefore, AnswerAt;
      next := k;
      if DoTypeCheck && !sameClass { return {RESOURCE_ERROR, TYPE_ERROR}, Untouched, k; }
      if Size == 0 { return OK, Untouched, k; }
      if NumItems == 0 { return NO_DATA, Untouched, k; }
      ViewAt(History[..], Last, Size - 1);
      RingEnds(Size, Last);
      if t == 0 {
        return OK, Copy(History[Last]), k;
      } else if t > History[Last].time {
        return FUTURE, Copy(History[Last]), k;
      }
      var oIndex := if NumItems < Size then 0 else (Last + 1) % Size;
      OldestCell(oIndex);
      if t < History[oIndex].time {
        return TOO_OLD, Copy(History[oIndex]), k;
      }
      var ind := Last + 1;
      if ind > Size - 1 { ind := 0; }
      ViewAt(History[..], Last, 0);
      if History[ind].time == History[Last].time {
        return {TIMESTAMP_ERROR}, Copy(History[Last]), k;
      }
      if History[Last].time == t && k < 0 {
        assert AnswerBefore(Hist(), t, k) == Answer(NO_DATA, Copy(History[Last]), k) by {
          AnswerAtNewest(Hist(), t, k);
        }
        return NO_DATA, Copy(History[Last]), k;
      }
      var index;
      ghost var g;
      index, g := ScanBack(t);
      if k < 0 {
        r, p, next := ReadBefore(t, k, index, g);
      } else if History[index].time == t && k == 0 {
        assert AnswerAt(Hist(), t) == Answer(OK, Copy(History[index]), 0) by { hide Hist; AnswerAtIs(Hist(), t, g); }
        return OK, Copy(History[index]), k;
      } else {
        r, p, next := ReadFrom(t, k, index, g);
      }
    }

    /** The cell that the read takes for the oldest holds what the oldest cell of the ring holds. */
    lemma OldestCell(oIndex: nat)
      requires Valid() && Size > 0 && oIndex == if NumItems < Size then 0 else (Last + 1) % Size
      ensures oIndex < Size && History[oIndex] == Hist()[0]
    {
      hide View, Sorted, Ring;
      if NumItems < Size {
        assert Hist()[0] == BLANK;
        RingStart(Size, Last);
        ViewAt(History[..], Last, Size - 1 - Last);
      } else {
        WrappedNext(Size, Last);
        RingEnds(Size, Last);
        ViewAt(History[..], Last, 0);
      }
    }

    /** Goes back from the newest cell to the last entry at or before `t`. */
    method ScanBack(t: int) returns (index: int, ghost g: nat)
      requires Valid() && Size > 0 && Hist()[0].time <= t <= Hist()[Size - 1].time
      requires Hist()[0].time != Hist()[Size - 1].time
      ensures g + 1 == CountAtMost(Hist(), t) && 0 <= index < Size && index == Ring(Size, Last, g)
      ensures History[index] == Hist()[g]
    {
      hide View, Sorted, BlankFirst, Ring;
      index := Last;
      g := Size - 1;
      RingEnds(Size, Last);
      ViewAt(History[..], Last, Size - 1);
      while History[index].time > t
        invariant 0 <= g < Size && 0 <= index < Size && index == Ring(Size, Last, g) && History[index] == Hist()[g]
        invariant forall j :: g < j < Size ==> Hist()[j].time > t
        decreases g
      {
        RingBack(Size, Last, g);
        if index == 0 { index := Size - 1; } else { index := index - 1; }
        g := g - 1;
        RingNewest(Size, Last, g);
        ViewAt(History[..], Last, g);
        if index == Last {
          assert false;
        }
      }
      CountAtMostIs(Hist(), t, g + 1);
    }

    /** The |k|-th entry before cell g. */
    method ReadBefore(t: int, k: int, from: int, ghost g: nat) returns (r: Code, p: Value, next: int)
      requires Valid() && Size > 0 && k < 0 && t != Hist()[Size - 1].time
      requires g + 1 == CountAtMost(Hist(), t) && 0 <= from < Size && from == Ring(Size, Last, g)
      requires History[from] == Hist()[g]
      ensures Answer(r, p, next) == AnswerBefore(Hist(), t, k)
    {
      hide View, Sorted, BlankFirst, Ring, CountAtMost;
      var index := from;
      ghost var j := g;
      var i := 0;
      while i > k
        invariant k <= i <= 0 && j == g + i >= 0 && j < Size
        invariant 0 <= index < Size && index == Ring(Size, Last, j) && History[index] == Hist()[j]
      {
        if j > 0 { RingBack(Size, Last, j); RingNewest(Size, Last, j - 1); ViewAt(History[..], Last, j - 1); }
        RingEnds(Size, Last);
        if index == 0 { index := Size - 1; } else { index := index - 1; }
        if index == Last { return TOO_OLD, Untouched, k; }
        j := j - 1;
        i := i - 1;
      }
      return OK, Copy(History[index]), if History[index].time == t then k - 1 else -1;
    }

    /** From the last entry at or before `t`: back over those at `t`, then forward, or the two around `t`. */
    method ReadFrom(t: int, k: int, from: int, ghost g: nat) returns (r: Code, p: Value, next: int)
      requires Valid() && Size > 0 && k >= 0
      requires Hist()[0].time <= t <= Hist()[Size - 1].time && Hist()[0].time != Hist()[Size - 1].time
      requires g + 1 == CountAtMost(Hist(), t) && 0 <= from < Size && from == Ring(Size, Last, g)
      requires History[from] == Hist()[g] && (k == 0 ==> Hist()[g].time != t)
      ensures Answer(r, p, next) ==
              if k == 0 then AnswerAt(Hist(), t)
              else if Hist()[0].time == t then Answer(TOO_OLD, Copy(Hist()[0]), k)
              else AnswerAfter(Hist(), t, k)
    {
      hide View, BlankFirst, Ring, CountAtMost, CountBelow;
      CountAtMostSplits(Hist(), t);
      RingEnds(Size, Last);
      var index := from;
      ghost var j := g;
      while History[index].time == t
        invariant 0 <= j <= g && 0 <= index < Size && index == Ring(Size, Last, j) && History[index] == Hist()[j]
        invariant forall i :: j < i < Size ==> Hist()[i].time >= t
        decreases j
      {
        if j > 0 { RingBack(Size, Last, j); RingNewest(Size, Last, j - 1); ViewAt(History[..], Last, j - 1); }
        if index == 0 { index := Size; }
        index := index - 1;
        if index == Last {
          index := index + 1;
          if index > Size - 1 { index := 0; }
          ViewAt(History[..], Last, 0);
          return TOO_OLD, Copy(History[index]), k;
        }
        j := j - 1;
      }
      var low := index;
      CountBelowIs(Hist(), t, j + 1);
      if k > 0 {
        r, p, next := StepForward(t, k, index, j);
        return;
      }
      assert j == g;
      var high := from;
      RingNewest(Size, Last, g);
      if high == Last {
        r, p, next := NO_DATA, Untouched, k;
        return;
      }
      RingOn(Size, Last, g);
      ViewAt(History[..], Last, g + 1);
      high := high + 1;
      if high > Size - 1 { high := 0; }
      return OK, Between(History[low], History[high]), k;
    }

    /** The k-th entry after the first one that is not older than `t`; cell j is the last one that is older. */
    method StepForward(t: int, k: int, from: int, ghost j: nat) returns (r: Code, p: Value, next: int)
      requires Valid() && k > 0 && j + 1 < Size && j + 1 == CountBelow(Hist(), t)
      requires 0 <= from < Size && from == Ring(Size, Last, j)
      ensures Answer(r, p, next) == AnswerAfter(Hist(), t, k)
    {
      hide View, Sorted, BlankFirst, Ring, CountBelow;
      var index := from;
      RingOn(Size, Last, j);
      ViewAt(History[..], Last, j + 1);
      RingNewest(Size, Last, j + 1);
      index := index + 1;
      if index > Size - 1 { index := 0; }
      if index == Last { return NO_DATA, Untouched, k; }
      var i := 0;
      while i < k
        invariant 0 <= i <= k && j + 1 + i < Size
        invariant 0 <= index < Size && index == Ring(Size, Last, j + 1 + i) && History[index] == Hist()[j + 1 + i]
      {
        RingNewest(Size, Last, j + 1 + i);
        if index == Last { return NO_DATA, Untouched, k; }
        RingOn(Size, Last, j + 1 + i);
        ViewAt(History[..], Last, j + 2 + i);
        index := index + 1;
        if index > Size - 1 { index := 0; }
        i := i + 1;
      }
      return OK, Copy(History[index]), if History[index].time == t then k + 1 else 1;
    }
  }

  lemma AnswerAtNewest(h: seq<Item>, t: int, k: int)
    requires h != [] && k < 0 && t == h[|h| - 1].time
    ensures AnswerBefore(h, t, k) == Answer(NO_DATA, Copy(h[|h| - 1]), k)
  {
  }

  lemma AnswerAtIs(h: seq<Item>, t: int, g: nat)
    requires g < |h| && g + 1 == CountAtMost(h, t) && h[g].time == t
    ensures AnswerAt(h, t) == Answer(OK, Copy(h[g]), 0)
  {
  }

  /** The cells that were never filled are the oldest and are blank. */
  ghost predicate BlankFirst(h: seq<Item>, filled: nat) {
    forall j :: 0 <= j < |h| - filled ==> h[j] == BLANK
  }

  /** The history `h` while its newer items are being moved up: cell `q` is the gap. */
  ghost predicate Shifting(h: seq<Item>, v: seq<Item>, q: nat) {
    && |v| == |h| && 1 <= q < |h|
    && (forall j :: 0 <= j < q ==> v[j] == h[j + 1])
    && (forall j :: q < j < |h| ==> v[j] == h[j])
  }

  lemma ShiftingStarts(h: seq<Item>, v: seq<Item>)
    requires |h| >= 2 && v == h[1..] + [h[0]]
    ensures Shifting(h, v, |h| - 1) && v[|h| - 2] == h[|h| - 1]
  {
  }

  lemma ShiftingStep(h: seq<Item>, v: seq<Item>, q: nat)
    requires Shifting(h, v, q) && q >= 2
    ensures v[q - 1] == h[q]
    ensures Shifting(h, v[q := h[q]], q - 1) && v[q := h[q]][q - 2] == h[q - 1]
  {
  }

  lemma ShiftingEnds(h: seq<Item>, v: seq<Item>, q: nat, p: Item)
    requires Shifting(h, v, q) && CountAtMost(h, p.time) == q + 1
    ensures v[q := p] == Inserted(h, p)
  {
  }

  /** An accepted late item is newer than the blank cells, so those stay in front. */
  lemma InsertedBlanks(h: seq<Item>, p: Item, filled: nat)
    requires h != [] && Sorted(h) && BlankFirst(h, filled) && LateButWelcome(h, p) && CountAtMost(h, p.time) >= 2
    ensures BlankFirst(Inserted(h, p), if filled < |h| then filled + 1 else filled)
  {
    var n := CountAtMost(h, p.time);
    if filled < |h| {
      CountAtMostSplits(h, p.time);
      assert h[|h| - filled - 1] == BLANK && h[0] == BLANK;
      hide Sorted, CountAtMost, BlankFirst;
      assert n >= |h| - filled;
      forall j | 0 <= j < |h| - filled - 1 ensures Inserted(h, p)[j] == BLANK {
        assert Inserted(h, p)[j] == h[j + 1];
        BlankAt(h, filled, j + 1);
      }
      BlanksAre(Inserted(h, p), filled + 1);
    } else {
      hide Sorted, CountAtMost;
    }
  }

  lemma BlankAt(h: seq<Item>, filled: nat, j: nat)
    requires BlankFirst(h, filled) && j < |h| - filled
    ensures h[j] == BLANK
  {
  }

  lemma BlanksAre(h: seq<Item>, filled: nat)
    requires forall j :: 0 <= j < |h| - filled ==> h[j] == BLANK
    ensures BlankFirst(h, filled)
  {
  }
}
