/** Reading a slot in sequence: a cursor of a time and a count, moved on by every pull. */
module SequencedPull {
  import opened ErrorCodes
  import opened History

  datatype Cursor = Cursor(lastTime: int, nextData: int)

  /** The cursor after a pull that left an object with time `resultTime` and returned `code`. */
  function Moved(cur: Cursor, code: Code, resultTime: int): Cursor {
    if code == OK then
      if cur.lastTime == resultTime then
        Cursor(cur.lastTime, if cur.nextData < 0 then cur.nextData - 1 else cur.nextData + 1)
      else Cursor(resultTime, 1)
    else if TIMESTAMP_TOO_OLD in code then Cursor(resultTime, 1)
    else cur
  }

  /** The time of the caller's object after a read at `t`. */
  function TimeAfter(value: Value, t: int, before: int): int {
    match value
    case Untouched => before
    case Copy(item) => item.time
    case Between(_, _) => t
  }

  // ---- one slot, one reader ----------------------------------------------------------

  /** A slot, its reader, the items written so far and the items pulled so far. */
  datatype World = World(h: seq<Item>, filled: nat, cur: Cursor, resultTime: int, log: seq<Item>, pulled: seq<Item>)

  datatype Event = Write(p: Item) | Pull

  /** An in-order write of an item with a positive time. */
  predicate Writable(w: World, p: Item) {
    w.h != [] && p.time > 0 && InOrder(w.h, p)
  }

  function Next(w: World, e: Event): World
    requires w.h != [] && w.filled <= |w.h| && (e.Write? ==> Writable(w, e.p))
  {
    match e
    case Write(p) =>
      w.(h := Written(w.h, p), filled := if w.filled < |w.h| then w.filled + 1 else w.filled, log := w.log + [p])
    case Pull =>
      var a := Answered(w.h, w.filled, w.cur.lastTime, w.cur.nextData);
      var time := TimeAfter(a.value, w.cur.lastTime, w.resultTime);
      w.(cur := Moved(w.cur, a.code, time), resultTime := time,
         pulled := if a.code == OK && a.value.Copy? then w.pulled + [a.value.item] else w.pulled)
  }

  /** `w1` comes from `w0` by the given events, every write being in order. */
  ghost predicate Run(w0: World, events: seq<Event>, w1: World)
    decreases |events|
  {
    if events == [] then w1 == w0
    else
      && w0.h != [] && w0.filled <= |w0.h|
      && (events[0].Write? ==> Writable(w0, events[0].p))
      && Run(Next(w0, events[0]), events[1..], w1)
  }

  /** The newest `n` items of a log, preceded by blanks if there are fewer. */
  ghost function Newest(log: seq<Item>, n: nat): (h: seq<Item>)
    ensures |h| == n
    ensures forall j :: 0 <= j < n ==> h[j] == if |log| - n + j >= 0 then log[|log| - n + j] else BLANK
  {
    seq(n, j requires 0 <= j < n => if |log| - n + j >= 0 then log[|log| - n + j] else BLANK)
  }

  ghost predicate Holds(w: World) {
    && w.h != [] && w.filled == (if |w.log| < |w.h| then |w.log| else |w.h|)
    && Sorted(w.log) && (forall i :: 0 <= i < |w.log| ==> w.log[i].time > 0)
    && w.h == Newest(w.log, |w.h|)
  }

  /** The first item of the log with the cursor's time, when `p` is the last one pulled. */
  function FirstOfTime(cur: Cursor, p: nat): int {
    p + 1 - cur.nextData
  }

  /** The cursor stands at log entry `p`: that entry is the `nextData`-th of those with its time. */
  ghost predicate At(log: seq<Item>, cur: Cursor, p: nat) {
    var f := FirstOfTime(cur, p);
    && p < |log| && 0 <= f <= p
    && log[p].time == cur.lastTime == log[f].time
    && (f > 0 ==> log[f - 1].time < cur.lastTime)
  }

  /** The first item with the cursor's time, and one before it, are still in the history. */
  ghost predicate Live(w: World, p: nat) {
    At(w.log, w.cur, p) && |w.log| - |w.h| < FirstOfTime(w.cur, p)
  }

  /** The slot is full and everything at the cursor's time may have been evicted. */
  ghost predicate Lost(w: World) {
    w.h != [] && w.filled == |w.h| && 0 < w.cur.lastTime <= w.h[0].time && w.cur.nextData > 0
  }

  // ---- one step ----------------------------------------------------------------------

  lemma HistorySorted(w: World)
    requires Holds(w)
    ensures Sorted(w.h)
  {
  }

  lemma NewestGrows(log: seq<Item>, n: nat, p: Item)
    requires n > 0
    ensures Newest(log + [p], n) == Newest(log, n)[1..] + [p]
  {
  }

  lemma NewestLast(log: seq<Item>, n: nat)
    requires n > 0 && log != []
    ensures Newest(log, n)[n - 1] == log[|log| - 1]
  {
  }

  /** Writes keep the history in step with the log. */
  lemma WriteHolds(w: World, p: Item)
    requires Holds(w) && Writable(w, p)
    ensures Holds(Next(w, Write(p)))
  {
    NewestGrows(w.log, |w.h|, p);
    if w.log != [] {
      NewestLast(w.log, |w.h|);
    }
    hide Newest;
  }

  /** A pull from a live cursor yields exactly the next item written, or finds none and stays put. */
  lemma LivePull(w: World, p: nat)
    requires Holds(w) && Live(w, p)
    ensures var w' := Next(w, Pull);
            && Holds(w')
            && if p + 1 < |w.log| then w'.pulled == w.pulled + [w.log[p + 1]] && Live(w', p + 1) && w'.log == w.log
               else w' == w
  {
    LiveAnswer(w, p);
    hide Newest, Answered, Sorted, At;
    if p + 1 < |w.log| {
      CursorMovesOn(w.log, w.cur, p);
    }
  }

  /** Reading the item after the cursor moves the cursor to it. */
  lemma CursorMovesOn(log: seq<Item>, cur: Cursor, p: nat)
    requires Sorted(log) && At(log, cur, p) && p + 1 < |log|
    ensures At(log, Moved(cur, OK, log[p + 1].time), p + 1)
    ensures FirstOfTime(Moved(cur, OK, log[p + 1].time), p + 1) >= FirstOfTime(cur, p)
  {
  }

  /** A read from a time whose first entry `g` has an older one before it. */
  lemma AnswerFromEntry(h: seq<Item>, filled: nat, t: int, k: int, g: nat)
    requires Sorted(h) && 0 < filled <= |h| && k > 0 && t != 0
    requires 1 <= g < |h| && h[g].time == t && h[g - 1].time < t
    ensures Answered(h, filled, t, k) ==
            if g + k >= |h| then Answer(NO_DATA, Untouched, k)
            else Answer(OK, Copy(h[g + k]), if h[g + k].time == t then k + 1 else 1)
  {
    CountBelowIs(h, t, g);
    hide CountBelow;
    assert h[0].time <= h[g - 1].time;
    assert h[|h| - 1].time >= t;
  }

  /** What the slot answers to a live cursor. */
  lemma LiveAnswer(w: World, p: nat)
    requires Holds(w) && Live(w, p)
    ensures Answered(w.h, w.filled, w.cur.lastTime, w.cur.nextData) ==
            if p + 1 < |w.log| then
              Answer(OK, Copy(w.log[p + 1]),
                     if w.log[p + 1].time == w.cur.lastTime then w.cur.nextData + 1 else 1)
            else Answer(NO_DATA, Untouched, w.cur.nextData)
  {
    hide Answered, Sorted;
    HistorySorted(w);
    var shift := |w.log| - |w.h|;
    var g := FirstOfTime(w.cur, p) - shift;
    NewestAt(w.log, |w.h|, g);
    NewestBefore(w.log, |w.h|, g, w.cur.lastTime);
    AnswerFromEntry(w.h, w.filled, w.cur.lastTime, w.cur.nextData, g);
    if p + 1 < |w.log| {
      NewestAt(w.log, |w.h|, p + 1 - shift);
    }
  }

  lemma NewestAt(log: seq<Item>, n: nat, j: nat)
    requires j < n && |log| - n + j >= 0
    ensures Newest(log, n)[j] == log[|log| - n + j]
  {
  }

  lemma NewestBefore(log: seq<Item>, n: nat, j: nat, t: int)
    requires 1 <= j < n && |log| - n + j >= 0 && t > 0
    requires |log| - n + j > 0 ==> log[|log| - n + j - 1].time < t
    ensures Newest(log, n)[j - 1].time < t
  {
  }

  /** A pull from a lost cursor fails and leaves it lost. */
  lemma LostPull(w: World)
    requires Holds(w) && Lost(w)
    ensures var w' := Next(w, Pull);
            Holds(w') && w'.log == w.log && w'.pulled == w.pulled && Lost(w') &&
            Answered(w.h, w.filled, w.cur.lastTime, w.cur.nextData).code != OK
  {
    HistorySorted(w);
  }

  /** A write leaves a live cursor live or, by evicting, lost; and a lost one lost. */
  lemma WriteKeepsCursor(w: World, p: Item, at: nat)
    requires Holds(w) && Writable(w, p)
    ensures Live(w, at) ==> Live(Next(w, Write(p)), at) || Lost(Next(w, Write(p)))
    ensures Lost(w) ==> Lost(Next(w, Write(p)))
  {
    if Live(w, at) { WriteKeepsLive(w, p, at); }
    if Lost(w) { WriteKeepsLost(w, p); }
  }

  lemma WriteKeepsLive(w: World, p: Item, at: nat)
    requires Holds(w) && Writable(w, p) && Live(w, at)
    ensures Live(Next(w, Write(p)), at) || Lost(Next(w, Write(p)))
  {
    WriteHolds(w, p);
    var w' := Next(w, Write(p));
    hide Written, InOrder;
    if !Live(w', at) {
      var f := FirstOfTime(w.cur, at);
      assert w'.log[f] == w.log[f] && w'.log[at] == w.log[at];
      assert |w'.log| - |w'.h| == f;
      assert w'.h[0] == w'.log[f];
    }
  }

  lemma WriteKeepsLost(w: World, p: Item)
    requires Holds(w) && Writable(w, p) && Lost(w)
    ensures Lost(Next(w, Write(p)))
  {
    HistorySorted(w);
    hide Holds;
    assert Written(w.h, p)[0] == (w.h[1..] + [p])[0];
  }

  // ---- whole runs --------------------------------------------------------------------

  /** The items pulled are the ones written after entry `start`, in order, and the cursor stands at the last
      of them or has been overtaken. */
  ghost predicate Following(w: World, start: nat) {
    && Holds(w) && start + |w.pulled| < |w.log|
    && w.pulled == w.log[start + 1..start + 1 + |w.pulled|]
    && (Live(w, start + |w.pulled|) || Lost(w))
  }

  lemma StepFollows(w: World, e: Event, start: nat)
    requires Following(w, start) && (e.Write? ==> Writable(w, e.p))
    ensures Following(Next(w, e), start)
  {
    hide Live, Lost, Holds, Answered, Sorted;
    var p := start + |w.pulled|;
    match e
    case Write(x) =>
      WriteHolds(w, x);
      WriteKeepsCursor(w, x, p);
      assert (w.log + [x])[start + 1..start + 1 + |w.pulled|] == w.log[start + 1..start + 1 + |w.pulled|];
    case Pull =>
      if Live(w, p) {
        LivePull(w, p);
        if p + 1 < |w.log| {
          assert w.log[start + 1..p + 2] == w.log[start + 1..p + 1] + [w.log[p + 1]];
        }
      } else {
        LostPull(w);
      }
  }

  /** Over every interleaving of in-order writes and sequenced pulls, from an item that is the first with its
      time and still in the slot, the pulled items are a contiguous run of the written sequence. */
  lemma {:induction false} PullsAreContiguous(w: World, events: seq<Event>, w': World, start: nat)
    requires Following(w, start) && Run(w, events, w')
    ensures Following(w', start)
    decreases |events|
  {
    if events != [] {
      StepFollows(w, events[0], start);
      PullsAreContiguous(Next(w, events[0]), events[1..], w', start);
    }
  }

  /** `setSequenced(t, 1)` on the first item with time `t` starts a contiguous run: a live one exactly if an
      older cell is still before the item, otherwise one that is overtaken already. */
  lemma StartFollows(w: World, start: nat)
    requires Holds(w) && start < |w.log| && w.pulled == []
    requires w.cur == Cursor(w.log[start].time, 1)
    requires start > 0 ==> w.log[start - 1].time < w.log[start].time
    ensures Following(w, start)
    ensures Live(w, start) <==> |w.log| - |w.h| < start
  {
    if |w.log| - |w.h| >= start {
      NewestAt(w.log, |w.h|, 0);
    }
  }

  // ---- when a reader is overtaken ----------------------------------------------------

  /** No write of the run evicts the last cell before the items at the reader's time. */
  ghost predicate KeepsUp(w: World, events: seq<Event>, start: nat)
    decreases |events|
  {
    events == [] ||
    (w.h != [] && w.filled <= |w.h| && (events[0].Write? ==> Writable(w, events[0].p))
     && StaysAhead(w, events[0], start)
     && KeepsUp(Next(w, events[0]), events[1..], start))
  }

  lemma NotBoth(w: World, p: nat)
    requires Holds(w) && Live(w, p)
    ensures !Lost(w)
  {
    if w.filled == |w.h| {
      NewestAt(w.log, |w.h|, 0);
    }
  }

  /** A write leaves a live cursor live exactly if it does not evict the last cell before its items. */
  lemma WriteOvertakesIff(w: World, x: Item, p: nat)
    requires Holds(w) && Writable(w, x) && Live(w, p)
    ensures Live(Next(w, Write(x)), p) <==> |w.log| + 1 - |w.h| < FirstOfTime(w.cur, p)
  {
  }

  /** Whether this event leaves a live reader live. */
  ghost predicate StaysAhead(w: World, e: Event, start: nat) {
    e.Write? ==> |w.log| + 1 - |w.h| < FirstOfTime(w.cur, start + |w.pulled|)
  }

  lemma StepAhead(w: World, e: Event, start: nat)
    requires Following(w, start) && Live(w, start + |w.pulled|) && (e.Write? ==> Writable(w, e.p))
    ensures var w1 := Next(w, e);
            && Following(w1, start) && Holds(w1) && (Live(w1, start + |w1.pulled|) <==> StaysAhead(w, e, start))
            && (Lost(w1) <==> !Live(w1, start + |w1.pulled|))
  {
    hide Live, Lost, Answered, Sorted;
    StepFollows(w, e, start);
    assert w.h != [] && w.filled <= |w.h|;
    hide Holds;
    match e {
      case Write(x) => WriteOvertakesIff(w, x, start + |w.pulled|);
      case Pull => LivePull(w, start + |w.pulled|);
    }
    if Live(Next(w, e), start + |Next(w, e).pulled|) { NotBoth(Next(w, e), start + |Next(w, e).pulled|); }
  }

  /** A live reader is never overtaken in a run exactly if at every write the history reaches back before the
      first item with the reader's time. */
  lemma {:induction false} NeverOvertakenIff(w: World, events: seq<Event>, w': World, start: nat)
    requires Following(w, start) && Live(w, start + |w.pulled|) && Run(w, events, w')
    ensures Live(w', start + |w'.pulled|) <==> KeepsUp(w, events, start)
    ensures Lost(w') <==> !KeepsUp(w, events, start)
    decreases |events|
  {
    hide Following, Live, Lost, Holds, Next, StaysAhead, Newest, Sorted;
    FollowingHolds(w, start);
    if events == [] {
      NotBoth(w, start + |w.pulled|);
    } else {
      StepAhead(w, events[0], start);
      var w1 := Next(w, events[0]);
      if StaysAhead(w, events[0], start) {
        NeverOvertakenIff(w1, events[1..], w', start);
      } else {
        LostForGood(w1, events[1..], w');
        LostNotLive(w1, events[1..], w', start);
      }
    }
  }

  lemma FollowingHolds(w: World, start: nat)
    requires Following(w, start)
    ensures Holds(w)
  {
  }

  lemma LostNotLive(w: World, events: seq<Event>, w': World, start: nat)
    requires Following(w, start) && Lost(w) && Run(w, events, w') && Lost(w')
    ensures !Live(w', start + |w'.pulled|)
  {
    hide *;
    PullsAreContiguous(w, events, w', start);
    FollowingHolds(w', start);
    if Live(w', start + |w'.pulled|) { NotBoth(w', start + |w'.pulled|); }
  }

  /** Once overtaken by eviction, a reader never gets another item, however the run goes on: the cursor is
      moved to the oldest entry, at which a sequenced read always reports too old. */
  lemma {:induction false} LostForGood(w: World, events: seq<Event>, w': World)
    requires Holds(w) && Lost(w) && Run(w, events, w')
    ensures w'.pulled == w.pulled && Lost(w')
    decreases |events|
  {
    if events != [] {
      match events[0] {
        case Write(p) =>
          WriteHolds(w, p);
          WriteKeepsCursor(w, p, 0);
        case Pull =>
          LostPull(w);
      }
      LostForGood(Next(w, events[0]), events[1..], w');
    }
  }

  /** Starting from the latest item (time 0) the next pull goes back over items already passed unless the
      latest is the first with its time: it yields the second of them, which need not be new. */
  lemma StartingAtLatest(w: World, f: nat)
    requires Holds(w) && w.log != [] && w.cur.lastTime == 0
    requires f < |w.log| && w.log[f].time == w.log[|w.log| - 1].time && (f > 0 ==> w.log[f - 1].time < w.log[f].time)
    ensures var w' := Next(w, Pull);
            && w'.pulled == w.pulled + [w.log[|w.log| - 1]]
            && (At(w'.log, w'.cur, |w.log| - 1) <==> f == |w.log| - 1)
            && At(w'.log, w'.cur, f)
  {
    assert w.h[|w.h| - 1] == w.log[|w.log| - 1];
  }
}
