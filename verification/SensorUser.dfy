/** A filter that holds measurements back for a while and then predicts and updates in order of time. */
module SensorUsers {
  import opened ErrorCodes
  import opened History
  import opened Selections
  import opened SmartDataLists

  /** What the filter meets while it works through its list: the index of the sensor of an item, whether an
      item has anything to update with, what prediction data can be had for the k-th item, and whether its
      update fails. */
  datatype World = World(sensor: Item -> int, measured: Item -> bool, dead: nat -> Code, fails: nat -> bool)

  // ---- the pending list --------------------------------------------------------------

  /** The list after an ordered insertion; all of its nodes are in use. */
  function Enqueued(pending: seq<Cell>, item: Item): seq<Cell> {
    if pending == [] then [Cell(item, 0, true)] else AddedInOrder(pending, Cell(item, 0, true))
  }

  function EnqueuedAll(pending: seq<Cell>, items: seq<Item>): seq<Cell>
    decreases |items|
  {
    if items == [] then pending else EnqueuedAll(Enqueued(pending, items[0]), items[1..])
  }

  function Youngest(t: int, items: seq<Item>): int
    decreases |items|
  {
    if items == [] then t else Youngest(if items[0].time > t then items[0].time else t, items[1..])
  }

  /** The greatest of t and the times of the items. */
  lemma {:induction false} YoungestIsGreatest(t: int, items: seq<Item>)
    ensures Youngest(t, items) >= t
    ensures forall x :: x in items ==> x.time <= Youngest(t, items)
    ensures Youngest(t, items) == t || exists x :: x in items && x.time == Youngest(t, items)
    decreases |items|
  {
    if items != [] {
      YoungestIsGreatest(if items[0].time > t then items[0].time else t, items[1..]);
      assert items == [items[0]] + items[1..];
    }
  }

  ghost predicate AllUsed(pending: seq<Cell>) {
    forall i :: 0 <= i < |pending| ==> pending[i].used
  }

  lemma EnqueuedOrdered(pending: seq<Cell>, item: Item)
    requires AllUsed(pending) && Ordered(pending)
    ensures AllUsed(Enqueued(pending, item)) && Ordered(Enqueued(pending, item))
    ensures multiset(Enqueued(pending, item)) == multiset(pending) + multiset{Cell(item, 0, true)}
  {
    if pending != [] {
      hide AddedInOrder;
      var x := Cell(item, 0, true);
      var n := AddInOrderInserts(pending, x);
      AddInOrderKeepsOrder(pending, x);
      var more := AddedInOrder(pending, x);
      assert |more| > 1;
      assert pending == pending[..n] + pending[n..];
      assert more == pending[..n] + [x] + pending[n..];
    }
  }

  /** The items as they stand in the list. */
  function AsCells(items: seq<Item>): seq<Cell> {
    if items == [] then [] else [Cell(items[0], 0, true)] + AsCells(items[1..])
  }

  lemma {:induction false} AsCellsConcat(a: seq<Item>, b: seq<Item>)
    ensures AsCells(a + b) == AsCells(a) + AsCells(b)
  {
    if a == [] {
      assert a + b == b;
    } else {
      assert (a + b)[1..] == a[1..] + b;
      AsCellsConcat(a[1..], b);
    }
  }

  lemma {:induction false} EnqueuedAllOrdered(pending: seq<Cell>, items: seq<Item>)
    requires AllUsed(pending) && Ordered(pending)
    ensures AllUsed(EnqueuedAll(pending, items)) && Ordered(EnqueuedAll(pending, items))
    ensures multiset(EnqueuedAll(pending, items)) == multiset(pending) + multiset(AsCells(items))
    decreases |items|
  {
    hide AllUsed, Ordered, Enqueued;
    if items != [] {
      EnqueuedOrdered(pending, items[0]);
      EnqueuedAllOrdered(Enqueued(pending, items[0]), items[1..]);
    }
  }

  lemma TailInOrder(pending: seq<Cell>)
    requires pending != [] && AllUsed(pending) && Ordered(pending)
    ensures AllUsed(pending[1..]) && Ordered(pending[1..])
  {
  }

  // ---- one item ----------------------------------------------------------------------

  /** What becomes of the first item: the new last time, whether an update is made, whether the item leaves
      the list, whether the next one is looked at, and otherwise what is returned. */
  datatype Handled = Handled(lastTime: int, updated: bool, removed: bool, on: bool, code: Code)

  function Handle(x: Item, k: nat, lastTime: int, sequential: bool, w: World): Handled {
    if x.time < lastTime then Handled(lastTime, false, true, true, OK)
    else
      var known := w.sensor(x) > -1;
      var r1 := if known && x.time > lastTime then w.dead(k) else OK;
      var last := if known && r1 == OK then x.time else lastTime;
      if r1 == {TYPE_ERROR} then Handled(last, false, false, false, r1)
      else if NO_DATA_AVAILABLE in r1 then Handled(last, false, false, false, OK)
      else if TIMESTAMP_TOO_OLD in r1 && sequential then Handled(x.time, false, true, false, r1)
      else
        var updated := (r1 == OK || TIMESTAMP_TOO_OLD in r1) && (!sequential || x.time == last) && w.measured(x);
        if updated && w.fails(k) then Handled(last, true, false, false, OK)
        else Handled(last, updated, true, true, OK)
  }

  /** Prediction never moves the filter back in time, and in sequential mode an update is made at the filter's
      own time. */
  lemma HandledInTime(x: Item, k: nat, lastTime: int, sequential: bool, w: World)
    ensures var h := Handle(x, k, lastTime, sequential, w);
            h.lastTime >= lastTime && (h.updated && sequential ==> x.time == h.lastTime)
  {
  }

  /** Prediction data are asked for: the item has a known sensor and is newer than the filter. */
  predicate Asked(x: Item, lastTime: int, w: World) {
    w.sensor(x) > -1 && x.time > lastTime
  }

  /** An item keeps its place exactly if its prediction data are of a wrong type or not there yet, or if its
      update was tried and failed. An item older than the filter never does. */
  lemma StaysIff(x: Item, k: nat, lastTime: int, sequential: bool, w: World)
    ensures var h, c := Handle(x, k, lastTime, sequential, w), w.dead(k);
            && (!h.removed <==> (Asked(x, lastTime, w) && (c == {TYPE_ERROR} || NO_DATA_AVAILABLE in c))
                                || (h.updated && w.fails(k)))
            && (x.time < lastTime ==> h.removed && !h.updated)
            && (h.on <==> h.removed && h.code == {})
  {
  }

  /** The filter's time moves to that of the item exactly if prediction data for it are had, or, in sequential
      mode, are gone. */
  lemma MovesIff(x: Item, k: nat, lastTime: int, sequential: bool, w: World)
    ensures var h, c := Handle(x, k, lastTime, sequential, w), w.dead(k);
            h.lastTime == if Asked(x, lastTime, w)
                             && (c == {} || (sequential && TIMESTAMP_TOO_OLD in c && NO_DATA_AVAILABLE !in c))
                          then x.time else lastTime
  {
  }

  /** An item is used for an update exactly if it has something to update with and its prediction data can be
      had or need not be, in sequential mode only at the filter's own time; or, in the other mode, if they are
      gone. */
  lemma UsedIff(x: Item, k: nat, lastTime: int, sequential: bool, w: World)
    ensures var h, c := Handle(x, k, lastTime, sequential, w), w.dead(k);
            h.updated <==>
              && x.time >= lastTime && w.measured(x)
              && if Asked(x, lastTime, w)
                 then c == OK || (!sequential && TIMESTAMP_TOO_OLD in c && NO_DATA_AVAILABLE !in c)
                 else !sequential || x.time == lastTime
  {
  }

  /** The errors a pass returns are those of prediction data of a wrong type and, in sequential mode, of data
      that are gone, for which the item is lost and the filter's time moves to it. */
  lemma ErrorsReturned(x: Item, k: nat, lastTime: int, sequential: bool, w: World)
    ensures var h, c := Handle(x, k, lastTime, sequential, w), w.dead(k);
            && (h.code != OK <==>
                  Asked(x, lastTime, w) && c != OK && NO_DATA_AVAILABLE !in c &&
                  (c == {TYPE_ERROR} || (sequential && TIMESTAMP_TOO_OLD in c)))
            && (h.code != OK ==> h.code == c && !h.on && !h.updated && (h.removed <==> c != {TYPE_ERROR}))
            && (h.code != OK && h.removed ==> h.lastTime == x.time)
  {
  }

  // ---- the list ----------------------------------------------------------------------

  /** How a pass over the list ends: what is left, the last time, the times of the updates made, the code. */
  datatype Pass = Pass(rest: seq<Cell>, lastTime: int, updates: seq<int>, code: Code)

  /** Works through the list as long as its first item is old enough. */
  function Work(pending: seq<Cell>, k: nat, lastTime: int, youngest: int, delay: int, sequential: bool, w: World): Pass
    decreases |pending|
  {
    if pending == [] || youngest - pending[0].element.time < delay then Pass(pending, lastTime, [], OK)
    else
      var h := Handle(pending[0].element, k, lastTime, sequential, w);
      var now := if h.updated then [pending[0].element.time] else [];
      var rest := if h.removed then pending[1..] else pending;
      if !h.on then Pass(rest, h.lastTime, now, h.code)
      else
        var p := Work(pending[1..], k + 1, h.lastTime, youngest, delay, sequential, w);
        p.(updates := now + p.updates)
  }

  lemma WorkRests(pending: seq<Cell>, k: nat, lastTime: int, youngest: int, delay: int, sequential: bool, w: World)
    ensures pending == [] || youngest - pending[0].element.time < delay ==>
              Work(pending, k, lastTime, youngest, delay, sequential, w) == Pass(pending, lastTime, [], OK)
  {
  }

  lemma WorkGoesOn(pending: seq<Cell>, k: nat, lastTime: int, youngest: int, delay: int, sequential: bool, w: World)
    requires pending != [] && youngest - pending[0].element.time >= delay
    ensures var h := Handle(pending[0].element, k, lastTime, sequential, w);
            var now := if h.updated then [pending[0].element.time] else [];
            var p := Work(pending[1..], k + 1, h.lastTime, youngest, delay, sequential, w);
            Work(pending, k, lastTime, youngest, delay, sequential, w)
            == if h.on then p.(updates := now + p.updates)
               else Pass(if h.removed then pending[1..] else pending, h.lastTime, now, h.code)
  {
  }

  /** Updates, in the order they are made, never go back in time and start no earlier than `from`. */
  ghost predicate Rising(updates: seq<int>, from: int) {
    && (forall i :: 0 <= i < |updates| ==> updates[i] >= from)
    && (forall i, j :: 0 <= i < j < |updates| ==> updates[i] <= updates[j])
  }

  /** A pass takes items off the front only; every item it takes off or updates with is older than the
      youngest by the delay; and in sequential mode its updates rise from the last time to the new one. */
  lemma {:induction false} WorkInOrder(pending: seq<Cell>, k: nat, lastTime: int, youngest: int, delay: int,
                                       sequential: bool, w: World) returns (n: nat)
    ensures var p := Work(pending, k, lastTime, youngest, delay, sequential, w);
            && n <= |pending| && p.rest == pending[n..] && p.lastTime >= lastTime
            && (forall i :: 0 <= i < n ==> youngest - pending[i].element.time >= delay)
            && (forall u :: u in p.updates ==> youngest - u >= delay)
            && (sequential ==> Rising(p.updates, lastTime) && forall u :: u in p.updates ==> u <= p.lastTime)
    decreases |pending|
  {
    hide Work, Handle;
    n := 0;
    WorkRests(pending, k, lastTime, youngest, delay, sequential, w);
    if pending != [] && youngest - pending[0].element.time >= delay {
      WorkGoesOn(pending, k, lastTime, youngest, delay, sequential, w);
      HandledInTime(pending[0].element, k, lastTime, sequential, w);
      var h := Handle(pending[0].element, k, lastTime, sequential, w);
      if h.on {
        var m := WorkInOrder(pending[1..], k + 1, h.lastTime, youngest, delay, sequential, w);
        StaysIff(pending[0].element, k, lastTime, sequential, w);
        n := m + 1;
        assert forall i :: 1 <= i < n ==> pending[i] == pending[1..][i - 1];
      } else if h.removed {
        n := 1;
      }
    }
  }

  function TimesOf(cells: seq<Cell>): (times: seq<int>)
    ensures |times| == |cells| && forall i :: 0 <= i < |cells| ==> times[i] == cells[i].element.time
  {
    seq(|cells|, i requires 0 <= i < |cells| => cells[i].element.time)
  }

  /** The course of a pass: `last[j]` is the filter's time when the j-th item is looked at, and `used[j]` whether
      an update is made with it. */
  ghost predicate Course(pending: seq<Cell>, k: nat, last: seq<int>, used: seq<bool>, sequential: bool, w: World) {
    && |used| <= |pending| && |last| == |used| + 1
    && forall j :: 0 <= j < |used| ==> LookedAt(pending, k, last, used, sequential, w, j)
  }

  ghost predicate LookedAt(pending: seq<Cell>, k: nat, last: seq<int>, used: seq<bool>, sequential: bool, w: World,
                           j: nat)
    requires j < |used| <= |pending| && |last| == |used| + 1
  {
    var h := Handle(pending[j].element, k + j, last[j], sequential, w);
    used[j] == h.updated && last[j + 1] == h.lastTime && (j < |used| - 1 ==> h.on)
  }

  /** How a pass with this course ends: at an item whose handling ends it, which may stay, or else when none is
      left or the next is not old enough. */
  ghost predicate EndsSo(p: Pass, pending: seq<Cell>, k: nat, last: seq<int>, used: seq<bool>, youngest: int,
                         delay: int, sequential: bool, w: World)
    requires |used| <= |pending| && |last| == |used| + 1
  {
    var n := |used|;
    if n > 0 && !Handle(pending[n - 1].element, k + n - 1, last[n - 1], sequential, w).on then
      var h := Handle(pending[n - 1].element, k + n - 1, last[n - 1], sequential, w);
      p.code == h.code && p.rest == (if h.removed then pending[n..] else pending[n - 1..])
    else
      p.code == {} && p.rest == pending[n..] && (n < |pending| ==> youngest - pending[n].element.time < delay)
  }

  /** Every item is looked at in its turn until none is left, one is not old enough, or the handling of one ends
      the pass. Updates are made with exactly those that `UsedIff` says, in this order; the items looked at leave
      the list, but for one that ended the pass and stays. */
  lemma {:induction false} WorkCourse(pending: seq<Cell>, k: nat, lastTime: int, youngest: int, delay: int,
                                      sequential: bool, w: World) returns (last: seq<int>, used: seq<bool>)
    ensures Course(pending, k, last, used, sequential, w) && last[0] == lastTime
    ensures forall j :: 0 <= j < |used| ==> youngest - pending[j].element.time >= delay
    ensures var p := Work(pending, k, lastTime, youngest, delay, sequential, w);
            && p.lastTime == last[|used|] && p.updates == Selected(TimesOf(pending[..|used|]), used)
            && EndsSo(p, pending, k, last, used, youngest, delay, sequential, w)
    decreases |pending|
  {
    hide *;
    WorkRests(pending, k, lastTime, youngest, delay, sequential, w);
    var p := Work(pending, k, lastTime, youngest, delay, sequential, w);
    if pending == [] || youngest - pending[0].element.time < delay {
      last, used := [lastTime], [];
      CourseStarts(pending, k, lastTime, youngest, delay, sequential, w);
    } else {
      WorkGoesOn(pending, k, lastTime, youngest, delay, sequential, w);
      var h := Handle(pending[0].element, k, lastTime, sequential, w);
      var last1, used1 := [h.lastTime], [];
      if h.on {
        last1, used1 := WorkCourse(pending[1..], k + 1, h.lastTime, youngest, delay, sequential, w);
        CourseShape(pending[1..], k + 1, last1, used1, sequential, w);
        EndsLater(Work(pending[1..], k + 1, h.lastTime, youngest, delay, sequential, w), p, h.updated,
                  pending, k, lastTime, last1, used1, youngest, delay, sequential, w);
      } else {
        CourseStops(p, pending, k, lastTime, youngest, delay, sequential, w);
        assert [lastTime] + last1 == [lastTime, h.lastTime] && [h.updated] + used1 == [h.updated];
      }
      last, used := [lastTime] + last1, [h.updated] + used1;
      assert EndsSo(p, pending, k, last, used, youngest, delay, sequential, w);
      CourseGoesOn(pending, k, lastTime, last1, used1, sequential, w);
      UpdatesGoOn(pending, h.updated, used1);
      assert forall j :: 1 <= j < |used| ==> pending[j] == pending[1..][j - 1];
    }
  }

  lemma UpdatesGoOn(pending: seq<Cell>, first: bool, used: seq<bool>)
    requires |used| < |pending|
    ensures Selected(TimesOf(pending[..|used| + 1]), [first] + used)
            == (if first then [pending[0].element.time] else []) + Selected(TimesOf(pending[1..][..|used|]), used)
  {
    hide *;
    TimesGoOn(pending, |used|);
    var x, items := pending[0].element.time, TimesOf(pending[1..][..|used|]);
    SelectedCons(x, items, first, used);
    var all := TimesOf(pending[..|used| + 1]);
    assert all == [x] + items;
    assert Selected(all, [first] + used) == Selected([x] + items, [first] + used);
  }

  lemma TimesGoOn(pending: seq<Cell>, n: nat)
    requires n < |pending|
    ensures TimesOf(pending[..n + 1]) == [pending[0].element.time] + TimesOf(pending[1..][..n])
  {
  }

  lemma EndsLater(p1: Pass, p: Pass, first: bool, pending: seq<Cell>, k: nat, lastTime: int, last: seq<int>,
                  used: seq<bool>, youngest: int, delay: int, sequential: bool, w: World)
    requires pending != [] && |used| <= |pending[1..]| && |last| == |used| + 1
    requires EndsSo(p1, pending[1..], k + 1, last, used, youngest, delay, sequential, w)
    requires Handle(pending[0].element, k, lastTime, sequential, w).on && p == p1.(updates := p.updates)
    ensures EndsSo(p, pending, k, [lastTime] + last, [first] + used, youngest, delay, sequential, w)
  {
    hide Handle;
    CourseRest(pending, k, |used|, last, [lastTime] + last);
    assert k + 1 - 1 == k;
  }

  lemma CourseStops(p: Pass, pending: seq<Cell>, k: nat, lastTime: int, youngest: int, delay: int, sequential: bool,
                    w: World)
    requires pending != []
    requires var h := Handle(pending[0].element, k, lastTime, sequential, w);
             !h.on && p.code == h.code && p.rest == if h.removed then pending[1..] else pending
    ensures var h := Handle(pending[0].element, k, lastTime, sequential, w);
            && EndsSo(p, pending, k, [lastTime, h.lastTime], [h.updated], youngest, delay, sequential, w)
            && Course(pending[1..], k + 1, [h.lastTime], [], sequential, w)
            && [lastTime] + [h.lastTime] == [lastTime, h.lastTime] && [h.updated] + [] == [h.updated]
            && Selected(TimesOf(pending[1..][..0]), []) == []
  {
    assert k + 1 - 1 == k;
  }

  lemma CourseStarts(pending: seq<Cell>, k: nat, lastTime: int, youngest: int, delay: int, sequential: bool, w: World)
    requires pending == [] || youngest - pending[0].element.time < delay
    ensures Course(pending, k, [lastTime], [], sequential, w)
    ensures EndsSo(Pass(pending, lastTime, [], OK), pending, k, [lastTime], [], youngest, delay, sequential, w)
    ensures Selected(TimesOf(pending[..0]), []) == []
  {
  }

  lemma CourseShape(pending: seq<Cell>, k: nat, last: seq<int>, used: seq<bool>, sequential: bool, w: World)
    requires Course(pending, k, last, used, sequential, w)
    ensures |used| <= |pending| && |last| == |used| + 1
  {
  }

  lemma CourseGoesOn(pending: seq<Cell>, k: nat, lastTime: int, last: seq<int>, used: seq<bool>, sequential: bool,
                     w: World)
    requires pending != [] && Course(pending[1..], k + 1, last, used, sequential, w)
    requires var h := Handle(pending[0].element, k, lastTime, sequential, w);
             last[0] == h.lastTime && (used != [] ==> h.on)
    ensures var h := Handle(pending[0].element, k, lastTime, sequential, w);
            Course(pending, k, [lastTime] + last, [h.updated] + used, sequential, w)
  {
    hide Handle;
    var h := Handle(pending[0].element, k, lastTime, sequential, w);
    var used', last' := [h.updated] + used, [lastTime] + last;
    forall j | 0 <= j < |used'| ensures LookedAt(pending, k, last', used', sequential, w, j) {
      if j > 0 {
        assert LookedAt(pending[1..], k + 1, last, used, sequential, w, j - 1);
        assert k + 1 + (j - 1) == k + j && pending[1..][j - 1] == pending[j];
        assert used'[j] == used[j - 1] && last'[j] == last[j - 1] && last'[j + 1] == last[j];
      } else {
        assert k + 0 == k;
      }
    }
  }

  lemma CourseRest(pending: seq<Cell>, k: nat, n: nat, last1: seq<int>, last: seq<int>)
    requires n < |pending| && last1 != [] && last != [] && last == [last[0]] + last1
    ensures pending[1..][n..] == pending[n + 1..]
    ensures n > 0 ==> pending[1..][n - 1..] == pending[n..] && pending[1..][n - 1] == pending[n]
    ensures n > 0 ==> k + 1 + n - 1 == k + (n + 1) - 1
    ensures n < |pending| - 1 ==> pending[1..][n] == pending[n + 1]
  {
  }

  // ---- the filter --------------------------------------------------------------------

  class SensorUser {
    const Ins: nat
    var MinPendingTime: int
    var UpdateSequentially: bool
    var Initialized: bool
    var YoungestTime: int
    var LastTime: int
    var PendingDataList: seq<Cell>

    /** The pending items are in order of time. */
    ghost predicate Valid()
      reads this
    {
      AllUsed(PendingDataList) && Ordered(PendingDataList)
    }

    constructor (ins: nat)
      ensures Valid() && Ins == ins && PendingDataList == [] && LastTime == 0 && YoungestTime == 0 && Initialized
      ensures UpdateSequentially && MinPendingTime == 0
    {
      Ins := ins;
      MinPendingTime, UpdateSequentially, Initialized := 0, true, true;
      YoungestTime, LastTime, PendingDataList := 0, 0, [];
    }

    /** Brings the prediction up to `t` if the data for it can be had; `pulled` is what asking for them gives. */
    method GetDead(t: int, pulled: Code) returns (r: Code)
      modifies this`LastTime
      ensures LastTime == if r == OK && t > old(LastTime) then t else old(LastTime)
      ensures r == if old(LastTime) != 0 && t < old(LastTime) then {TIMESTAMP_ERROR, TIMESTAMP_TOO_OLD}
                   else if t > old(LastTime) then pulled else OK
    {
      var dt := t - LastTime;
      if LastTime != 0 {
        if dt < 0 { return {TIMESTAMP_ERROR, TIMESTAMP_TOO_OLD}; }
      }
      r := OK;
      if LastTime < t {
        r := pulled;
        if r != OK { return; }
      }
      if t > LastTime { LastTime := t; }
    }

    /** Files what port 1 receives, a single item or a set, and works through what has waited long enough.
        `posed` is the time of the initial pose, if the filter still needs one and it can be read, and `command`
        what carrying out a command written to port 2 returns. */
    method Write(td: Item, items: seq<Item>, port: int, typeOk: bool, posed: (bool, int), command: Code, w: World)
      returns (r: Code, updates: seq<int>)
      requires Valid()
      modifies this`LastTime, this`YoungestTime, this`PendingDataList, this`Initialized
      ensures Valid()
      ensures port == 0 ==> r == {RESOURCE_ERROR, ADDRESS_INVALID}
      ensures port != 0 && old(LastTime) > td.time ==> r == {TIMESTAMP_ERROR, TIMESTAMP_TOO_OLD}
      ensures port != 0 && old(LastTime) <= td.time && !(-1 <= port < Ins) ==> r == {RESOURCE_ERROR, ADDRESS_INVALID}
      ensures port != 0 && old(LastTime) <= td.time && -1 <= port < Ins && !typeOk ==> r == {TYPE_ERROR}
      ensures port !in {0, 1} && old(LastTime) <= td.time && -1 <= port < Ins && typeOk ==>
                r == if port == 2 then command else OK
      ensures Initialized == (old(Initialized)
                              || (port == 1 < Ins && td.time >= old(LastTime) && typeOk && posed.0))
      ensures !(port == 1 < Ins && td.time >= old(LastTime) && typeOk) || (!old(Initialized) && !posed.0) ==>
                && updates == [] && PendingDataList == old(PendingDataList) && LastTime == old(LastTime)
                && YoungestTime == old(YoungestTime)
      ensures port == 1 < Ins && td.time >= old(LastTime) && typeOk && (old(Initialized) || posed.0) ==>
                && YoungestTime == Youngest(old(YoungestTime), items)
                && Pass(PendingDataList, LastTime, updates, r)
                   == Work(EnqueuedAll(old(PendingDataList), items), 0,
                           if old(Initialized) then old(LastTime) else posed.1,
                           YoungestTime, MinPendingTime, UpdateSequentially, w)
      ensures port == 1 < Ins && typeOk && old(Initialized) ==>
                var s := Fed(Log(old(PendingDataList), old(LastTime), old(YoungestTime), [], [], []),
                             Input(td, items, MinPendingTime, w), UpdateSequentially);
                && s.pending == PendingDataList && s.lastTime == LastTime && s.youngest == YoungestTime
                && s.updates == updates
    {
      hide Work, Enqueued, EnqueuedAll, Youngest;
      updates := [];
      if port == 0 { return {RESOURCE_ERROR, ADDRESS_INVALID}, []; }
      if LastTime > td.time { return {TIMESTAMP_ERROR, TIMESTAMP_TOO_OLD}, []; }
      if port >= Ins || port < -1 { return {RESOURCE_ERROR, ADDRESS_INVALID}, []; }
      if !typeOk { return {TYPE_ERROR}, []; }
      if port == 2 { return command, []; }
      if port != 1 { return OK, []; }
      if !Initialized {
        if !posed.0 { return OK, []; }
        Initialized := true;
        LastTime := posed.1;
      }
      File(items);
      r, updates := WorkOff(w);
    }

    method File(items: seq<Item>)
      requires Valid()
      modifies this`YoungestTime, this`PendingDataList
      ensures Valid() && PendingDataList == EnqueuedAll(old(PendingDataList), items)
      ensures YoungestTime == Youngest(old(YoungestTime), items)
    {
      hide Enqueued, AllUsed, Ordered;
      var i := 0;
      assert items[0..] == items;
      while i < |items|
        invariant i <= |items| && Valid()
        invariant EnqueuedAll(old(PendingDataList), items) == EnqueuedAll(PendingDataList, items[i..])
        invariant Youngest(old(YoungestTime), items) == Youngest(YoungestTime, items[i..])
      {
        if items[i].time > YoungestTime { YoungestTime := items[i].time; }
        EnqueuedOrdered(PendingDataList, items[i]);
        PendingDataList := Enqueued(PendingDataList, items[i]);
        assert items[i..][1..] == items[i + 1..];
        i := i + 1;
      }
    }

    method WorkOff(w: World) returns (r: Code, updates: seq<int>)
      requires Valid()
      modifies this`LastTime, this`PendingDataList
      ensures Valid()
      ensures Pass(PendingDataList, LastTime, updates, r)
              == Work(old(PendingDataList), 0, old(LastTime), YoungestTime, MinPendingTime, UpdateSequentially, w)
    {
      hide Handle, AllUsed, Ordered, Work;
      r, updates := OK, [];
      var k := 0;
      while true
        invariant Valid()
        invariant var p := Work(old(PendingDataList), 0, old(LastTime), YoungestTime, MinPendingTime,
                                UpdateSequentially, w);
                  var p1 := Work(PendingDataList, k, LastTime, YoungestTime, MinPendingTime, UpdateSequentially, w);
                  p == p1.(updates := updates + p1.updates)
        decreases |PendingDataList|
      {
        WorkRests(PendingDataList, k, LastTime, YoungestTime, MinPendingTime, UpdateSequentially, w);
        if PendingDataList == [] { return OK, updates; }
        var data := PendingDataList[0].element;
        if YoungestTime - data.time < MinPendingTime { return OK, updates; }
        var updated, removed, on;
        StaysIff(data, k, LastTime, UpdateSequentially, w);
        TailInOrder(PendingDataList);
        WorkGoesOn(PendingDataList, k, LastTime, YoungestTime, MinPendingTime, UpdateSequentially, w);
        updated, removed, on, r := TryItem(data, k, w);
        if updated { updates := updates + [data.time]; }
        if removed { PendingDataList := PendingDataList[1..]; }
        if !on { return; }
        k := k + 1;
      }
    }

    /** Predicts up to an item and updates with it. */
    method TryItem(data: Item, k: nat, w: World) returns (updated: bool, removed: bool, on: bool, r: Code)
      modifies this`LastTime
      ensures Handled(LastTime, updated, removed, on, r) == Handle(data, k, old(LastTime), UpdateSequentially, w)
    {
      var upTime := data.time;
      if upTime >= LastTime {
        var r1 := OK;
        if w.sensor(data) > -1 {
          r1 := GetDead(upTime, w.dead(k));
          if r1 != OK {
            if r1 == {TYPE_ERROR} { return false, false, false, r1; }
            else if NO_DATA_AVAILABLE in r1 { return false, false, false, OK; }
            else if TIMESTAMP_TOO_OLD in r1 {
              if UpdateSequentially {
                LastTime := upTime;
                return false, true, false, r1;
              }
              r1 := OK;
            }
          }
        }
        if r1 == OK && (!UpdateSequentially || upTime == LastTime) && w.measured(data) {
          if w.fails(k) { return true, false, false, OK; }
          return true, true, true, OK;
        }
      }
      return false, true, true, OK;
    }
  }

  // ---- whole runs --------------------------------------------------------------------

  /** A write to port 1 of an initialised filter, with the delay it meets. */
  datatype Input = Input(td: Item, items: seq<Item>, delay: int, w: World)

  /** The list and the filter's times, and what it accepted, took off the list, and made updates at. */
  datatype Log = Log(pending: seq<Cell>, lastTime: int, youngest: int, updates: seq<int>,
                     accepted: seq<Item>, taken: seq<Cell>)

  lemma WorkShortens(pending: seq<Cell>, k: nat, lastTime: int, youngest: int, delay: int, sequential: bool, w: World)
    ensures |Work(pending, k, lastTime, youngest, delay, sequential, w).rest| <= |pending|
  {
    var n := WorkInOrder(pending, k, lastTime, youngest, delay, sequential, w);
  }

  function Fed(s: Log, input: Input, sequential: bool): Log {
    if s.lastTime > input.td.time then s
    else
      var young := Youngest(s.youngest, input.items);
      var queue := EnqueuedAll(s.pending, input.items);
      var p := Work(queue, 0, s.lastTime, young, input.delay, sequential, input.w);
      WorkShortens(queue, 0, s.lastTime, young, input.delay, sequential, input.w);
      Log(p.rest, p.lastTime, young, s.updates + p.updates, s.accepted + input.items,
          s.taken + queue[..|queue| - |p.rest|])
  }

  function FedAll(s: Log, inputs: seq<Input>, sequential: bool): Log
    decreases |inputs|
  {
    if inputs == [] then s else FedAll(Fed(s, inputs[0], sequential), inputs[1..], sequential)
  }

  /** A write is accepted exactly if it is not older than the filter. */
  lemma AcceptedIff(s: Log, input: Input, sequential: bool)
    ensures Fed(s, input, sequential).accepted
            == if input.td.time >= s.lastTime then s.accepted + input.items else s.accepted
    ensures input.td.time < s.lastTime ==> Fed(s, input, sequential) == s
  {
  }

  ghost predicate UpTo(updates: seq<int>, t: int) {
    forall u :: u in updates ==> u <= t
  }

  /** Over every run in sequential mode, from a filter at time `lastTime`: the times at which updates are made
      never decrease and are never ahead of the filter's time. */
  lemma {:induction false} UpdatesNeverGoBack(s: Log, inputs: seq<Input>, start: int)
    requires Rising(s.updates, start) && UpTo(s.updates, s.lastTime) && start <= s.lastTime
    ensures var s' := FedAll(s, inputs, true);
            Rising(s'.updates, start) && UpTo(s'.updates, s'.lastTime) && s'.lastTime >= s.lastTime
    decreases |inputs|
  {
    if inputs != [] {
      FedRises(s, inputs[0], start);
      UpdatesNeverGoBack(Fed(s, inputs[0], true), inputs[1..], start);
    }
  }

  lemma FedRises(s: Log, input: Input, start: int)
    requires Rising(s.updates, start) && UpTo(s.updates, s.lastTime) && start <= s.lastTime
    ensures var s' := Fed(s, input, true);
            Rising(s'.updates, start) && UpTo(s'.updates, s'.lastTime) && s'.lastTime >= s.lastTime
  {
    if s.lastTime <= input.td.time {
      hide Work, EnqueuedAll, Youngest;
      var young := Youngest(s.youngest, input.items);
      var n := WorkInOrder(EnqueuedAll(s.pending, input.items), 0, s.lastTime, young, input.delay, true, input.w);
      var p := Work(EnqueuedAll(s.pending, input.items), 0, s.lastTime, young, input.delay, true, input.w);
      assert forall i :: 0 <= i < |s.updates| ==> s.updates[i] in s.updates;
    }
  }

  /** The accepted items are those taken off the list and those still in it. */
  ghost predicate Balanced(s: Log) {
    && AllUsed(s.pending) && Ordered(s.pending)
    && multiset(AsCells(s.accepted)) == multiset(s.taken) + multiset(s.pending)
  }

  lemma FedBalances(s: Log, input: Input, sequential: bool)
    requires Balanced(s)
    ensures Balanced(Fed(s, input, sequential))
  {
    if s.lastTime <= input.td.time {
      hide Work, EnqueuedAll, Youngest, AsCells, AllUsed, Ordered;
      var young, queue := Youngest(s.youngest, input.items), EnqueuedAll(s.pending, input.items);
      var s' := Fed(s, input, sequential);
      var n := WorkInOrder(queue, 0, s.lastTime, young, input.delay, sequential, input.w);
      assert s'.pending == queue[n..] && s'.accepted == s.accepted + input.items;
      assert s'.taken == s.taken + queue[..n];
      hide Fed;
      EnqueuedAllOrdered(s.pending, input.items);
      AsCellsConcat(s.accepted, input.items);
      EndInOrder(queue, n);
      MovedOver(AsCells(s.accepted), AsCells(input.items), s.taken, s.pending, queue, n);
    }
  }

  lemma MovedOver(accepted: seq<Cell>, added: seq<Cell>, taken: seq<Cell>, pending: seq<Cell>, queue: seq<Cell>, n: nat)
    requires n <= |queue| && multiset(queue) == multiset(pending) + multiset(added)
    requires multiset(accepted) == multiset(taken) + multiset(pending)
    ensures multiset(accepted + added) == multiset(taken + queue[..n]) + multiset(queue[n..])
  {
    assert queue == queue[..n] + queue[n..];
    assert multiset(queue) == multiset(queue[..n]) + multiset(queue[n..]);
    assert multiset(taken + queue[..n]) == multiset(taken) + multiset(queue[..n]);
    assert multiset(accepted + added) == multiset(accepted) + multiset(added);
    Rearranged(multiset(accepted), multiset(added), multiset(taken), multiset(pending),
               multiset(queue[..n]), multiset(queue[n..]));
  }

  lemma Rearranged(a: multiset<Cell>, b: multiset<Cell>, t: multiset<Cell>, p: multiset<Cell>, q: multiset<Cell>,
                   r: multiset<Cell>)
    requires a == t + p && q + r == p + b
    ensures a + b == t + q + r
  {
    forall x ensures (a + b)[x] == (t + q + r)[x] {
      assert (q + r)[x] == (p + b)[x];
    }
  }

  lemma EndInOrder(pending: seq<Cell>, n: nat)
    requires n <= |pending| && AllUsed(pending) && Ordered(pending)
    ensures AllUsed(pending[n..]) && Ordered(pending[n..])
  {
  }

  /** Over every run, in either mode, no accepted item is lost or doubled: each was taken off the list once, in
      a place where `StaysIff` and `UsedIff` say what became of it, or is still in the list. */
  lemma {:induction false} RunsBalance(s: Log, inputs: seq<Input>, sequential: bool)
    requires Balanced(s)
    ensures Balanced(FedAll(s, inputs, sequential))
    decreases |inputs|
  {
    hide Balanced, Fed;
    if inputs != [] {
      FedBalances(s, inputs[0], sequential);
      RunsBalance(Fed(s, inputs[0], sequential), inputs[1..], sequential);
    }
  }

  /** The youngest time is that of the newest item accepted, or the one the filter started with. */
  ghost predicate KnowsNewest(s: Log, start: int) {
    && s.youngest >= start && (forall x :: x in s.accepted ==> x.time <= s.youngest)
    && (s.youngest == start || exists x :: x in s.accepted && x.time == s.youngest)
  }

  /** Every item taken off the list or used is older than the youngest time by at least d. */
  ghost predicate Waited(s: Log, d: int) {
    && (forall c :: c in s.taken ==> s.youngest - c.element.time >= d)
    && (forall u :: u in s.updates ==> s.youngest - u >= d)
  }

  lemma FedWaits(s: Log, input: Input, sequential: bool, start: int, d: int)
    requires KnowsNewest(s, start) && Waited(s, d) && input.delay >= d
    ensures KnowsNewest(Fed(s, input, sequential), start) && Waited(Fed(s, input, sequential), d)
  {
    if s.lastTime <= input.td.time {
      hide Work, EnqueuedAll, Youngest;
      var young, queue := Youngest(s.youngest, input.items), EnqueuedAll(s.pending, input.items);
      YoungestIsGreatest(s.youngest, input.items);
      var n := WorkInOrder(queue, 0, s.lastTime, young, input.delay, sequential, input.w);
      var s' := Fed(s, input, sequential);
      assert s'.taken == s.taken + queue[..n];
      hide Fed;
      forall x | x in s'.accepted ensures x.time <= young { assert x in s.accepted || x in input.items; }
      if x :| x in s.accepted && x.time == young { assert x in s'.accepted; }
      if x :| x in input.items && x.time == young { assert x in s'.accepted; }
    }
  }

  /** Over every run, in either mode, with delays of at least d: the youngest time is that of the newest item
      accepted, and no item is taken off the list or used before an item newer by d was accepted. */
  lemma {:induction false} RunsWait(s: Log, inputs: seq<Input>, sequential: bool, start: int, d: int)
    requires KnowsNewest(s, start) && Waited(s, d) && forall i :: 0 <= i < |inputs| ==> inputs[i].delay >= d
    ensures KnowsNewest(FedAll(s, inputs, sequential), start) && Waited(FedAll(s, inputs, sequential), d)
    decreases |inputs|
  {
    hide KnowsNewest, Waited, Fed;
    if inputs != [] {
      FedWaits(s, inputs[0], sequential, start, d);
      assert forall i :: 0 <= i < |inputs[1..]| ==> inputs[1..][i] == inputs[i + 1];
      RunsWait(Fed(s, inputs[0], sequential), inputs[1..], sequential, start, d);
    }
  }

  /** Without sequential mode they do: if prediction data for a late item are gone, it is used for an update
      without moving the filter's time, and an older item that arrives later is used after it. */
  lemma UpdatesGoBackOtherwise() returns (s: Log, inputs: seq<Input>)
    ensures s.updates == [] && s.pending == [] && s.lastTime == 0
    ensures FedAll(s, inputs, false).updates == [10, 5]
  {
    var w := World(_ => 0, _ => true, _ => {TIMESTAMP_ERROR, TIMESTAMP_TOO_OLD}, _ => false);
    s := Log([], 0, 0, [], [], []);
    var late, early := Item(10, 1), Item(5, 2);
    var first, second := Input(late, [late], 0, w), Input(early, [early], 0, w);
    inputs := [first, second];
    OneByOne(late, 0, w);
    OneByOne(early, 10, w);
    var s1 := Fed(s, first, false);
    assert s1.pending == [] && s1.lastTime == 0 && s1.youngest == 10 && s1.updates == [10];
    var s2 := Fed(s1, second, false);
    assert s2.updates == [10, 5];
    assert FedAll(s, inputs, false) == FedAll(s1, [second], false) == FedAll(s2, [], false) by {
      assert inputs[1..] == [second] && [second][1..] == [];
    }
  }

  /** A single item that arrives at an empty list. */
  lemma OneByOne(x: Item, youngest: int, w: World)
    requires w.sensor(x) == 0 && w.measured(x) && w.dead(0) == {TIMESTAMP_ERROR, TIMESTAMP_TOO_OLD} && !w.fails(0)
    requires x.time > 0
    ensures EnqueuedAll([], [x]) == [Cell(x, 0, true)]
    ensures Youngest(youngest, [x]) == if x.time > youngest then x.time else youngest
    ensures Work([Cell(x, 0, true)], 0, 0, if x.time > youngest then x.time else youngest, 0, false, w)
            == Pass([], 0, [x.time], OK)
  {
    assert [x][1..] == [] && [Cell(x, 0, true)][1..] == [];
    assert EnqueuedAll([Cell(x, 0, true)], []) == [Cell(x, 0, true)];
  }
}
