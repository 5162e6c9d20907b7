/** A bounded history of timestamped items, oldest first, and what may be asked of it. */
module History {
  import opened ErrorCodes

  /** A stored item; `payload` stands for its data. */
  datatype Item = Item(time: int, payload: int)

  /** A cell of the history that has not been filled. */
  const BLANK: Item := Item(0, 0)

  ghost predicate Sorted(h: seq<Item>) {
    forall i, j :: 0 <= i < j < |h| ==> h[i].time <= h[j].time
  }

  /** How many leading entries have a time of at most `t`. */
  function CountAtMost(h: seq<Item>, t: int): (n: nat)
    ensures n <= |h|
  {
    if h == [] || h[0].time > t then 0 else 1 + CountAtMost(h[1..], t)
  }

  /** How many leading entries have a time below `t`. */
  function CountBelow(h: seq<Item>, t: int): (n: nat)
    ensures n <= |h|
  {
    if h == [] || h[0].time >= t then 0 else 1 + CountBelow(h[1..], t)
  }

  lemma {:induction false} CountAtMostSplits(h: seq<Item>, t: int)
    requires Sorted(h)
    ensures forall i :: 0 <= i < CountAtMost(h, t) ==> h[i].time <= t
    ensures forall i :: CountAtMost(h, t) <= i < |h| ==> h[i].time > t
  {
    if h != [] && h[0].time <= t {
      CountAtMostSplits(h[1..], t);
      forall i | 0 <= i < CountAtMost(h, t) ensures h[i].time <= t { if i > 0 { assert h[i] == h[1..][i - 1]; } }
      forall i | CountAtMost(h, t) <= i < |h| ensures h[i].time > t { assert h[i] == h[1..][i - 1]; }
    }
  }

  lemma {:induction false} CountBelowSplits(h: seq<Item>, t: int)
    requires Sorted(h)
    ensures forall i :: 0 <= i < CountBelow(h, t) ==> h[i].time < t
    ensures forall i :: CountBelow(h, t) <= i < |h| ==> h[i].time >= t
  {
    if h != [] && h[0].time < t {
      CountBelowSplits(h[1..], t);
      forall i | 0 <= i < CountBelow(h, t) ensures h[i].time < t { if i > 0 { assert h[i] == h[1..][i - 1]; } }
      forall i | CountBelow(h, t) <= i < |h| ensures h[i].time >= t { assert h[i] == h[1..][i - 1]; }
    }
  }

  /** The split position is unique. */
  lemma CountAtMostIs(h: seq<Item>, t: int, n: nat)
    requires Sorted(h) && n <= |h|
    requires n > 0 ==> h[n - 1].time <= t
    requires n < |h| ==> h[n].time > t
    ensures CountAtMost(h, t) == n
  {
    CountAtMostSplits(h, t);
  }

  lemma CountBelowIs(h: seq<Item>, t: int, n: nat)
    requires Sorted(h) && n <= |h|
    requires n > 0 ==> h[n - 1].time < t
    requires n < |h| ==> h[n].time >= t
    ensures CountBelow(h, t) == n
  {
    CountBelowSplits(h, t);
  }

  // ---- rings -------------------------------------------------------------------------

  /** The array index of the j-th oldest cell of a ring of `n` cells whose newest is at `last`. */
  function Ring(n: nat, last: nat, j: int): int {
    if last + 1 + j < n then last + 1 + j else last + 1 + j - n
  }

  /** The cells of a ring, oldest first. */
  function View(a: seq<Item>, last: nat): (h: seq<Item>)
    requires last < |a|
    ensures |h| == |a|
  {
    a[last + 1..] + a[..last + 1]
  }

  lemma ViewAt(a: seq<Item>, last: nat, j: nat)
    requires last < |a| && j < |a|
    ensures 0 <= Ring(|a|, last, j) < |a|
    ensures View(a, last)[j] == a[Ring(|a|, last, j)]
  {
  }

  lemma RingEnds(n: nat, last: nat)
    requires last < n
    ensures Ring(n, last, 0) == if last + 1 > n - 1 then 0 else last + 1
    ensures Ring(n, last, n - 1) == last
  {
  }

  lemma RingStart(n: nat, last: nat)
    requires last < n
    ensures Ring(n, last, n - 1 - last) == 0
  {
  }

  lemma WrappedNext(n: nat, last: nat)
    requires last < n
    ensures (last + 1) % n == if last + 1 > n - 1 then 0 else last + 1
  {
  }

  /** Stepping back round the ring. */
  lemma RingBack(n: nat, last: nat, j: nat)
    requires last < n && 0 < j < n
    ensures Ring(n, last, j - 1) == if Ring(n, last, j) == 0 then n - 1 else Ring(n, last, j) - 1
  {
  }

  /** Stepping forward round the ring. */
  lemma RingOn(n: nat, last: nat, j: nat)
    requires last < n && j + 1 < n
    ensures Ring(n, last, j + 1) == if Ring(n, last, j) + 1 > n - 1 then 0 else Ring(n, last, j) + 1
  {
  }

  /** Only the newest cell lies at `last`. */
  lemma RingNewest(n: nat, last: nat, j: nat)
    requires last < n && j < n
    ensures Ring(n, last, j) == last <==> j == n - 1
  {
  }

  /** Advancing `last` makes the oldest cell the newest. */
  lemma ViewAdvances(a: seq<Item>, last: nat)
    requires last < |a|
    ensures View(a, Ring(|a|, last, 0)) == View(a, last)[1..] + [View(a, last)[0]]
  {
    ViewAt(a, last, 0);
  }

  lemma ViewSet(a: seq<Item>, last: nat, j: nat, x: Item)
    requires last < |a| && j < |a|
    ensures 0 <= Ring(|a|, last, j) < |a|
    ensures View(a[Ring(|a|, last, j) := x], last) == View(a, last)[j := x]
  {
  }

  // ---- writing -----------------------------------------------------------------------

  /** Whether an item that comes out of order still finds a place: it must be newer than the two oldest. */
  predicate LateButWelcome(h: seq<Item>, p: Item)
    requires h != []
  {
    |h| >= 3 && p.time > h[0].time && p.time > h[1].time
  }

  predicate InOrder(h: seq<Item>, p: Item)
    requires h != []
  {
    p.time >= h[|h| - 1].time
  }

  /** The history after a write: the oldest entry makes room, unless the item comes too late. */
  function Written(h: seq<Item>, p: Item): seq<Item>
    requires h != []
  {
    if InOrder(h, p) then h[1..] + [p]
    else if LateButWelcome(h, p) then Inserted(h, p)
    else h
  }

  /** The oldest entry dropped and `p` put after every entry that is not newer. */
  function Inserted(h: seq<Item>, p: Item): seq<Item>
    requires h != [] && CountAtMost(h, p.time) > 0
  {
    var n := CountAtMost(h, p.time);
    h[1..n] + [p] + h[n..]
  }

  /** An item is accepted, in place of the oldest, exactly if it is not older than the newest, or if the slot has
      three cells and it is newer than the two oldest; any other changes nothing. */
  lemma AcceptedIff(h: seq<Item>, p: Item)
    requires h != [] && Sorted(h)
    ensures (p.time >= h[|h| - 1].time || (|h| >= 3 && p.time > h[0].time && p.time > h[1].time)) ==>
              multiset(Written(h, p)) == multiset(h) - multiset{h[0]} + multiset{p}
    ensures !(p.time >= h[|h| - 1].time || (|h| >= 3 && p.time > h[0].time && p.time > h[1].time)) ==>
              Written(h, p) == h
  {
    if InOrder(h, p) || LateButWelcome(h, p) { WriteReplacesOldest(h, p); }
  }

  lemma WelcomeHasRoom(h: seq<Item>, p: Item)
    requires h != [] && LateButWelcome(h, p)
    ensures CountAtMost(h, p.time) >= 2
  {
    assert h[1..][0] == h[1];
  }

  /** Every write keeps the history sorted and of the same length. */
  lemma WriteKeepsSorted(h: seq<Item>, p: Item)
    requires h != [] && Sorted(h)
    ensures Sorted(Written(h, p)) && |Written(h, p)| == |h|
  {
    CountAtMostSplits(h, p.time);
  }

  /** An accepted item replaces the oldest one and nothing else is lost, duplicated or invented. */
  lemma WriteReplacesOldest(h: seq<Item>, p: Item)
    requires h != [] && (InOrder(h, p) || LateButWelcome(h, p))
    ensures multiset(Written(h, p)) == multiset(h) - multiset{h[0]} + multiset{p}
  {
    assert h == [h[0]] + h[1..];
    if !InOrder(h, p) {
      WelcomeHasRoom(h, p);
      var n := CountAtMost(h, p.time);
      assert h[1..] == h[1..n] + h[n..];
    }
  }

  /** The place of an accepted item: everything before it is not newer, everything after it is newer. */
  lemma WritePlaces(h: seq<Item>, p: Item) returns (n: nat)
    requires h != [] && Sorted(h) && (InOrder(h, p) || LateButWelcome(h, p))
    ensures n < |h| && Written(h, p) == h[1..n + 1] + [p] + h[n + 1..]
    ensures forall i :: 0 <= i <= n ==> h[i].time <= p.time
    ensures forall i :: n < i < |h| ==> h[i].time > p.time
  {
    CountAtMostSplits(h, p.time);
    if InOrder(h, p) {
      n := |h| - 1;
    } else {
      WelcomeHasRoom(h, p);
      n := CountAtMost(h, p.time) - 1;
    }
  }

  // ---- reading -----------------------------------------------------------------------

  /** What a read leaves in the caller's object. */
  datatype Value = Untouched | Copy(item: Item) | Between(low: Item, high: Item)

  datatype Answer = Answer(code: Code, value: Value, next: int)

  const NO_DATA: Code := {TIMESTAMP_ERROR, NO_DATA_AVAILABLE}
  const FUTURE: Code := {TIMESTAMP_ERROR, NO_DATA_AVAILABLE, TIMESTAMP_IN_FUTURE}
  const TOO_OLD: Code := {TIMESTAMP_ERROR, TIMESTAMP_TOO_OLD}

  /** The answer to a read at time `t` with flag `k` of a history into which `filled` items were written:
      the latest item for `t` = 0, the k-th item after the first one at or after `t` for k > 0, the |k|-th
      before the last one at or before `t` for k < 0, and the item at `t` or the two around it for k = 0. */
  function Answered(h: seq<Item>, filled: nat, t: int, k: int): Answer
    requires filled <= |h|
  {
    if h == [] then Answer(OK, Untouched, k)
    else if filled == 0 then Answer(NO_DATA, Untouched, k)
    else
      var n := |h|;
      var newest := h[n - 1];
      if t == 0 then Answer(OK, Copy(newest), k)
      else if t > newest.time then Answer(FUTURE, Copy(newest), k)
      else if t < h[0].time then Answer(TOO_OLD, Copy(h[0]), k)
      else if h[0].time == newest.time then Answer({TIMESTAMP_ERROR}, Copy(newest), k)
      else if k < 0 then AnswerBefore(h, t, k)
      else if h[0].time == t && k > 0 then Answer(TOO_OLD, Copy(h[0]), k)
      else if k > 0 then AnswerAfter(h, t, k)
      else AnswerAt(h, t)
  }

  function AnswerAfter(h: seq<Item>, t: int, k: int): Answer
    requires k > 0
  {
    var first := CountBelow(h, t);
    if first + k >= |h| then Answer(NO_DATA, Untouched, k)
    else Answer(OK, Copy(h[first + k]), if h[first + k].time == t then k + 1 else 1)
  }

  function AnswerBefore(h: seq<Item>, t: int, k: int): Answer
    requires h != [] && k < 0
  {
    var last := CountAtMost(h, t) - 1;
    if t == h[|h| - 1].time then Answer(NO_DATA, Copy(h[|h| - 1]), k)
    else if last + k < 0 then Answer(TOO_OLD, Untouched, k)
    else Answer(OK, Copy(h[last + k]), if h[last + k].time == t then k - 1 else -1)
  }

  function AnswerAt(h: seq<Item>, t: int): Answer {
    var last := CountAtMost(h, t) - 1;
    if last < 0 then Answer(OK, Untouched, 0)
    else if h[last].time == t then Answer(OK, Copy(h[last]), 0)
    else if last + 1 == |h| then Answer(NO_DATA, Untouched, 0)
    else Answer(OK, Between(h[last], h[last + 1]), 0)
  }

  // ---- what the answers mean ---------------------------------------------------------

  /** A read the history can answer: not for the latest, and inside its span of times. */
  ghost predicate Inside(h: seq<Item>, filled: nat, t: int) {
    && h != [] && 0 < filled <= |h| && Sorted(h)
    && t != 0 && h[0].time <= t <= h[|h| - 1].time && h[0].time != h[|h| - 1].time
  }

  /** For k > 0 the answer is the k-th entry after the first one at or after `t`, and there is none exactly
      when that lies past the newest; a history that starts at `t` itself is reported too old. */
  lemma KthAfter(h: seq<Item>, filled: nat, t: int, k: int) returns (first: nat)
    requires Inside(h, filled, t) && k > 0
    ensures first < |h| && h[first].time >= t && forall i :: 0 <= i < first ==> h[i].time < t
    ensures h[0].time < t && first + k < |h| ==>
              Answered(h, filled, t, k) == Answer(OK, Copy(h[first + k]), if h[first + k].time == t then k + 1 else 1)
    ensures h[0].time < t ==> (Answered(h, filled, t, k).code == NO_DATA <==> first + k >= |h|)
    ensures h[0].time == t ==> Answered(h, filled, t, k) == Answer(TOO_OLD, Copy(h[0]), k)
  {
    CountBelowSplits(h, t);
    first := CountBelow(h, t);
  }

  /** For k < 0 and `t` before the newest time the answer is the |k|-th entry before the last one at or
      before `t`, and the read is too old exactly when there is none. */
  lemma KthBefore(h: seq<Item>, filled: nat, t: int, k: int) returns (last: nat)
    requires Inside(h, filled, t) && k < 0 && t < h[|h| - 1].time
    ensures last < |h| && h[last].time <= t && forall i :: last < i < |h| ==> h[i].time > t
    ensures last + k >= 0 ==>
              Answered(h, filled, t, k) == Answer(OK, Copy(h[last + k]), if h[last + k].time == t then k - 1 else -1)
    ensures Answered(h, filled, t, k).code == TOO_OLD <==> last + k < 0
  {
    CountAtMostSplits(h, t);
    last := CountAtMost(h, t) - 1;
  }

  /** For k = 0 the answer is the last entry at exactly `t`, or else two adjacent entries strictly around it. */
  lemma AtTime(h: seq<Item>, filled: nat, t: int)
    requires Inside(h, filled, t)
    ensures (exists i :: 0 <= i < |h| && h[i].time == t) ==>
              exists i :: 0 <= i < |h| && h[i].time == t && (forall j :: i < j < |h| ==> h[j].time > t) &&
                          Answered(h, filled, t, 0) == Answer(OK, Copy(h[i]), 0)
    ensures (forall i :: 0 <= i < |h| ==> h[i].time != t) ==>
              exists i :: 0 <= i < |h| - 1 && h[i].time < t < h[i + 1].time &&
                          Answered(h, filled, t, 0) == Answer(OK, Between(h[i], h[i + 1]), 0)
  {
    CountAtMostSplits(h, t);
    var last := CountAtMost(h, t) - 1;
    assert 0 <= last < |h|;
    assert h[last].time <= t;
    if h[last].time != t {
      assert last + 1 < |h| && h[last + 1].time > t;
    }
  }

  /** Every read the history cannot answer: of a slot without cells, before anything was written, for the latest
      item, at a time newer or older than everything held, when all that is held has one time, and backward from
      the newest time. */
  lemma Unanswerable(h: seq<Item>, filled: nat, t: int, k: int)
    requires filled <= |h|
    ensures h == [] ==> Answered(h, filled, t, k) == Answer({}, Untouched, k)
    ensures h != [] && filled == 0 ==>
              Answered(h, filled, t, k) == Answer({TIMESTAMP_ERROR, NO_DATA_AVAILABLE}, Untouched, k)
    ensures filled > 0 && t == 0 ==> Answered(h, filled, t, k) == Answer({}, Copy(h[|h| - 1]), k)
    ensures filled > 0 && t != 0 && (forall i :: 0 <= i < |h| ==> h[i].time < t) ==>
              Answered(h, filled, t, k)
              == Answer({TIMESTAMP_ERROR, NO_DATA_AVAILABLE, TIMESTAMP_IN_FUTURE}, Copy(h[|h| - 1]), k)
    ensures filled > 0 && t != 0 && (forall i :: 0 <= i < |h| ==> h[i].time > t) ==>
              Answered(h, filled, t, k) == Answer({TIMESTAMP_ERROR, TIMESTAMP_TOO_OLD}, Copy(h[0]), k)
    ensures filled > 0 && t != 0 && (forall i :: 0 <= i < |h| ==> h[i].time == t) ==>
              Answered(h, filled, t, k) == Answer({TIMESTAMP_ERROR}, Copy(h[|h| - 1]), k)
    ensures filled > 0 && t != 0 && k < 0 && h[0].time < t == h[|h| - 1].time ==>
              Answered(h, filled, t, k) == Answer({TIMESTAMP_ERROR, NO_DATA_AVAILABLE}, Copy(h[|h| - 1]), k)
  {
    if filled > 0 && t != 0 && (forall i :: 0 <= i < |h| ==> h[i].time < t) {
      assert h[|h| - 1].time < t;
    }
    if filled > 0 && t != 0 && (forall i :: 0 <= i < |h| ==> h[i].time > t) {
      assert h[|h| - 1].time > t && h[0].time > t;
    }
    if filled > 0 && t != 0 && (forall i :: 0 <= i < |h| ==> h[i].time == t) {
      assert h[|h| - 1].time == t && h[0].time == t;
    }
  }

  lemma LatestAnswer(h: seq<Item>, filled: nat)
    requires 0 < filled <= |h|
    ensures Answered(h, filled, 0, 0) == Answer({}, Copy(h[|h| - 1]), 0)
  {
  }

  /** An item held at that time, or two held side by side and strictly around it. */
  ghost predicate Current(h: seq<Item>, v: Value, t: int) {
    match v
    case Untouched => false
    case Copy(x) => x.time == t && x in h
    case Between(x, y) => x.time < t < y.time && exists i :: 0 <= i < |h| - 1 && h[i] == x && h[i + 1] == y
  }

  /** A read at a time and without a step succeeds exactly if the time lies within the span of a filled history
      of more than one time; what it then gives was held at that time or strictly around it, side by side. */
  lemma CurrentIff(h: seq<Item>, filled: nat, t: int)
    requires 0 < filled <= |h| && t != 0 && Sorted(h)
    ensures Answered(h, filled, t, 0).code == {} <==>
            h[0].time <= t <= h[|h| - 1].time && h[0].time < h[|h| - 1].time
    ensures Answered(h, filled, t, 0).code == {} ==> Current(h, Answered(h, filled, t, 0).value, t)
  {
    if h[0].time <= t <= h[|h| - 1].time && h[0].time != h[|h| - 1].time { AtTime(h, filled, t); }
  }

  /** A backward read of a history that is not yet full succeeds on a cell nothing was written to exactly
      when it steps back past the written ones. */
  lemma BackIntoBlank(h: seq<Item>, filled: nat, t: int, k: int)
    requires Inside(h, filled, t) && k < 0 && t < h[|h| - 1].time
    requires forall j :: 0 <= j < |h| - filled ==> h[j] == BLANK
    requires forall j :: |h| - filled <= j < |h| ==> h[j].time > 0
    ensures Answered(h, filled, t, k).code == OK && Answered(h, filled, t, k).value == Copy(BLANK) <==>
            0 <= CountAtMost(h, t) - 1 + k < |h| - filled
  {
    CountAtMostSplits(h, t);
  }

  /** Two items in a slot of four: the second read back from the older one is answered with a blank. */
  lemma BackIntoBlankExample()
    ensures Answered([BLANK, BLANK, Item(10, 1), Item(20, 2)], 2, 10, -1) == Answer(OK, Copy(BLANK), -1)
  {
    var h := [BLANK, BLANK, Item(10, 1), Item(20, 2)];
    CountAtMostIs(h, 10, 3);
  }
}
