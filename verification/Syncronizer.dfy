/** A trigger filter: every trigger waits in line until all inputs can be read at its time. */
module Syncronizers {
  import opened DataFilters
  import opened ErrorCodes
  import opened History
  import opened Selections
  import opened SmartDataLists

  // ---- one pass over the pending triggers --------------------------------------------

  /** What a pass leaves pending, the fate of each trigger it consumed (pushed or dropped), what it pushed and
      what it returns. */
  datatype Outcome = Outcome(rest: seq<Cell>, fates: seq<bool>, emitted: seq<Cell>, code: Code)

  /** What reading the inputs gives the k-th time, when it is done for that trigger: at the trigger's time, and
      for the port that is the trigger's key. */
  type Inputs = (nat, Cell) -> Code

  /** A pass; `r` holds the flags so far. Inputs that are gone drop the trigger, inputs that are missing end the
      pass. A pass that ends for a timestamp or resource error returns no error: the source masks its result
      with a logical negation, which is 0. */
  function Drain(pending: seq<Cell>, k: nat, r: Code, inputs: Inputs): Outcome {
    if pending == [] then Outcome([], [], [], r)
    else
      var c := r + inputs(k, pending[0]);
      if TIMESTAMP_TOO_OLD in c then
        var o := Drain(pending[1..], k + 1, OK, inputs);
        o.(fates := [false] + o.fates)
      else if TYPE_ERROR in c || ADDRESS_INVALID in c then Outcome(pending, [], [], {RESOURCE_ERROR})
      else if NO_INTERPOLATE in c then Outcome(pending[1..], [false], [], c)
      else if TIMESTAMP_ERROR in c || RESOURCE_ERROR in c then Outcome(pending, [], [], OK)
      else
        var o := Drain(pending[1..], k + 1, c, inputs);
        o.(fates := [true] + o.fates, emitted := [pending[0]] + o.emitted)
  }

  /** A pass consumes triggers from the front only and pushes some of those, in order. */
  lemma {:induction false} DrainSplits(pending: seq<Cell>, k: nat, r: Code, inputs: Inputs)
    ensures var o := Drain(pending, k, r, inputs);
            && |o.fates| <= |pending| && o.rest == pending[|o.fates|..]
            && o.emitted == Selected(pending[..|o.fates|], o.fates)
    decreases |pending|
  {
    if pending != [] {
      var c := r + inputs(k, pending[0]);
      if TIMESTAMP_TOO_OLD in c {
        DrainSplits(pending[1..], k + 1, OK, inputs);
        SplitOn(pending, Drain(pending[1..], k + 1, OK, inputs).fates, false);
      } else if Passing(c) {
        DrainSplits(pending[1..], k + 1, c, inputs);
        SplitOn(pending, Drain(pending[1..], k + 1, c, inputs).fates, true);
      }
    }
  }

  lemma SplitOn(pending: seq<Cell>, fates: seq<bool>, fate: bool)
    requires pending != [] && |fates| <= |pending| - 1
    ensures pending[1..][|fates|..] == pending[|fates| + 1..]
    ensures Selected(pending[..|fates| + 1], [fate] + fates)
            == (if fate then [pending[0]] else []) + Selected(pending[1..][..|fates|], fates)
  {
    assert pending[..|fates| + 1][1..] == pending[1..][..|fates|];
  }

  /** A trigger that gets this code stays first in line: the inputs are neither there nor gone, and they are
      not such as cannot be read at a given time. */
  predicate Blocks(c: Code) {
    && TIMESTAMP_TOO_OLD !in c && !Passing(c)
    && (TYPE_ERROR in c || ADDRESS_INVALID in c || NO_INTERPOLATE !in c)
  }

  /** How many of the triggers leave the line: all up to the first whose inputs are neither there nor gone, and
      that one too if it is an input that cannot be read at a given time. */
  function Leaving(pending: seq<Cell>, k: nat, inputs: Inputs): (n: nat)
    ensures n <= |pending|
    decreases |pending|
  {
    if pending == [] then 0
    else
      var c := inputs(k, pending[0]);
      if Passing(c) || TIMESTAMP_TOO_OLD in c then 1 + Leaving(pending[1..], k + 1, inputs)
      else if Blocks(c) then 0
      else 1
  }

  /** The i-th trigger is pushed exactly if its inputs can be read. */
  ghost predicate FatesAreOwn(fates: seq<bool>, pending: seq<Cell>, k: nat, inputs: Inputs) {
    && |fates| == Leaving(pending, k, inputs)
    && forall i :: 0 <= i < |fates| ==> fates[i] == Passing(inputs(k + i, pending[i]))
  }

  lemma OwnFateFirst(fate: bool, fates: seq<bool>, pending: seq<Cell>, k: nat, inputs: Inputs)
    requires pending != [] && FatesAreOwn(fates, pending[1..], k + 1, inputs)
    requires Leaving(pending, k, inputs) == 1 + Leaving(pending[1..], k + 1, inputs)
    requires fate == Passing(inputs(k, pending[0]))
    ensures FatesAreOwn([fate] + fates, pending, k, inputs)
  {
    var all := [fate] + fates;
    forall i | 0 <= i < |all| ensures all[i] == Passing(inputs(k + i, pending[i])) {
      if i > 0 {
        assert fates[i - 1] == Passing(inputs(k + 1 + (i - 1), pending[1..][i - 1]));
        assert k + 1 + (i - 1) == k + i;
      } else {
        assert k + 0 == k;
      }
    }
  }

  /** The flags left over from earlier triggers of a pass never decide about a later one: how many leave and
      which of them are pushed depends on what reading the inputs gives at that trigger alone. */
  lemma {:induction false} FatesFollowInputs(pending: seq<Cell>, k: nat, r: Code, inputs: Inputs)
    requires Passing(r)
    ensures FatesAreOwn(Drain(pending, k, r, inputs).fates, pending, k, inputs)
    decreases |pending|
  {
    if pending != [] {
      var c := r + inputs(k, pending[0]);
      PassingIs(r, inputs(k, pending[0]));
      if TIMESTAMP_TOO_OLD in c {
        FatesFollowInputs(pending[1..], k + 1, OK, inputs);
        OwnFateFirst(false, Drain(pending[1..], k + 1, OK, inputs).fates, pending, k, inputs);
      } else if Passing(c) {
        FatesFollowInputs(pending[1..], k + 1, c, inputs);
        OwnFateFirst(true, Drain(pending[1..], k + 1, c, inputs).fates, pending, k, inputs);
      } else {
        assert k + 0 == k;
      }
    }
  }

  lemma PassingIs(r: Code, c: Code)
    requires Passing(r)
    ensures Passing(OK)
    ensures Passing(r + c) <==> Passing(c)
    ensures TIMESTAMP_TOO_OLD in r + c <==> TIMESTAMP_TOO_OLD in c
    ensures NO_INTERPOLATE in r + c <==> NO_INTERPOLATE in c
    ensures TYPE_ERROR in r + c || ADDRESS_INVALID in r + c <==> TYPE_ERROR in c || ADDRESS_INVALID in c
  {
  }

  /** The pass ends at a trigger with an input that cannot be read at a given time. */
  predicate StopsUnreadable(pending: seq<Cell>, k: nat, inputs: Inputs) {
    var m := Leaving(pending, k, inputs);
    m > 0 && var c := inputs(k + m - 1, pending[m - 1]); NO_INTERPOLATE in c && TIMESTAMP_TOO_OLD !in c
  }

  /** The code of a pass, told from what reading the inputs gives: the trigger that stops it makes it an error
      only by a wrong type, an invalid address or an input that cannot be read at a given time. Data that are
      not there yet, and resource errors, are never reported. */
  predicate Tells(code: Code, pending: seq<Cell>, k: nat, inputs: Inputs) {
    var m := Leaving(pending, k, inputs);
    if StopsUnreadable(pending, k, inputs) then NO_INTERPOLATE in code
    else if m == |pending| then Passing(code)
    else
      var c := inputs(k + m, pending[m]);
      code == if TYPE_ERROR in c || ADDRESS_INVALID in c then {RESOURCE_ERROR} else OK
  }

  lemma {:induction false} CodeFollowsInputs(pending: seq<Cell>, k: nat, r: Code, inputs: Inputs)
    requires Passing(r)
    ensures Tells(Drain(pending, k, r, inputs).code, pending, k, inputs)
    decreases |pending|
  {
    if pending != [] {
      var rest, c := pending[1..], r + inputs(k, pending[0]);
      PassingIs(r, inputs(k, pending[0]));
      if TIMESTAMP_TOO_OLD in c || Passing(c) {
        var r1 := if TIMESTAMP_TOO_OLD in c then OK else c;
        CodeFollowsInputs(rest, k + 1, r1, inputs);
        TellsOfRest(Drain(rest, k + 1, r1, inputs).code, pending, k, inputs);
      } else {
        assert k + 0 == k && k + 1 - 1 == k;
      }
    }
  }

  lemma TellsOfRest(code: Code, pending: seq<Cell>, k: nat, inputs: Inputs)
    requires pending != [] && Tells(code, pending[1..], k + 1, inputs)
    requires Passing(inputs(k, pending[0])) || TIMESTAMP_TOO_OLD in inputs(k, pending[0])
    ensures Tells(code, pending, k, inputs)
  {
    var m := Leaving(pending[1..], k + 1, inputs);
    assert Leaving(pending, k, inputs) == 1 + m && k + 1 + m == k + (1 + m);
    assert m > 0 ==> k + 1 + m - 1 == k + (1 + m) - 1;
    assert m < |pending[1..]| ==> pending[1..][m] == pending[1 + m];
    assert m > 0 ==> pending[1..][m - 1] == pending[1 + m - 1];
    assert k + 1 - 1 == k;
  }

  /** A pass returns no error although its trigger is still waiting exactly if the inputs at the trigger that
      stops it are missing for a timestamp or a resource error alone. */
  lemma SilentFailure(pending: seq<Cell>, inputs: Inputs)
    requires Leaving(pending, 0, inputs) < |pending| && !StopsUnreadable(pending, 0, inputs)
    ensures var m := Leaving(pending, 0, inputs);
            var o, c := Drain(pending, 0, OK, inputs), inputs(m, pending[m]);
            && o.rest == pending[m..]
            && (o.code == OK <==> TYPE_ERROR !in c && ADDRESS_INVALID !in c)
  {
    CodeFollowsInputs(pending, 0, OK, inputs);
    FatesFollowInputs(pending, 0, OK, inputs);
    DrainSplits(pending, 0, OK, inputs);
  }

  /** A timestamp error, and a resource error, each answered with 0 while the trigger stays in line. */
  lemma SilentFailureExamples(x: Cell)
    ensures Drain([x], 0, OK, (_, _) => {TIMESTAMP_ERROR, NO_DATA_AVAILABLE}) == Outcome([x], [], [], OK)
    ensures Drain([x], 0, OK, (_, _) => {RESOURCE_ERROR}) == Outcome([x], [], [], OK)
  {
  }

  // ---- the filter --------------------------------------------------------------------

  /** The triggers in line after a new one has joined; the first one leaves if there are too many. */
  function Queued(pending: seq<Cell>, x: Cell, cap: int): seq<Cell> {
    var more := pending + [x];
    if cap >= 0 && |more| > cap then more[1..] else more
  }

  /** A trigger as it is tried without storage: whatever port it was written to, it goes by the key -1. */
  function Loose(td: Item): Cell {
    Cell(td, -1, true)
  }

  /** What a trigger that is not stored returns: as a pass over it alone, but data that are gone are an error. */
  function Once(td: Item, inputs: Inputs): Code {
    var c := inputs(0, Loose(td));
    if TIMESTAMP_TOO_OLD in c then c else Drain([Loose(td)], 0, OK, inputs).code
  }

  /** Alone in line, a trigger is pushed exactly if all inputs but the one its key names can be read. */
  lemma PushedIff(x: Cell, readings: seq<Reading>)
    ensures Drain([x], 0, OK, (k, y: Cell) => Gathered(readings, y.key, 0, OK)).emitted
            == if AllPass(readings, x.key, 0) then [x] else []
  {
    hide Gathered, AllPass;
    RoundPasses(readings, x.key);
    assert [x][1..] == [];
    assert OK + Gathered(readings, x.key, 0, OK) == Gathered(readings, x.key, 0, OK);
  }

  /** The port a trigger was written to is not read with storage, and read like any other without. */
  lemma WrittenPortRead(td: Item, port: nat, readings: seq<Reading>)
    requires port < |readings|
    ensures var inputs := (k, y: Cell) => Gathered(readings, y.key, 0, OK);
            && (Drain([Cell(td, port, true)], 0, OK, inputs).emitted != [] <==> AllPass(readings, port, 0))
            && (Drain([Loose(td)], 0, OK, inputs).emitted != []
                <==> AllPass(readings, port, 0) && Passing(readings[port].code) && !readings[port].mistyped)
  {
    hide Gathered, Drain, Passing;
    PushedIff(Cell(td, port, true), readings);
    PushedIff(Loose(td), readings);
  }

  class Syncronizer {
    const Ins: nat
    var StoreUnsuccTriggerSignals: bool
    var MaxNumPendingData: int
    var PendingDataList: seq<Cell>
    var LastTime: int

    constructor (num: nat)
      ensures Ins == num && StoreUnsuccTriggerSignals && MaxNumPendingData == -1
      ensures PendingDataList == [] && LastTime == 0
    {
      Ins := num;
      StoreUnsuccTriggerSignals, MaxNumPendingData := true, -1;
      PendingDataList, LastTime := [], 0;
    }

    /** Takes a trigger. With storing on it joins the line and a pass is made over the line; otherwise it is
        tried once, by the key -1 whatever its port. */
    method Write(td: Item, port: int, inputs: Inputs) returns (r: Code, emitted: seq<Cell>)
      modifies this`PendingDataList, this`LastTime
      ensures !(-1 <= port < Ins) ==> r == {RESOURCE_ERROR, ADDRESS_INVALID}
      ensures -1 <= port < Ins && td.time < old(LastTime) ==> r == {TIMESTAMP_ERROR, TIMESTAMP_TOO_OLD}
      ensures !(-1 <= port < Ins) || td.time < old(LastTime) ==>
                emitted == [] && PendingDataList == old(PendingDataList) && LastTime == old(LastTime)
      ensures -1 <= port < Ins && td.time >= old(LastTime) ==>
                && LastTime == td.time
                && if StoreUnsuccTriggerSignals then
                     var queue := Queued(old(PendingDataList), Cell(td, port, true), MaxNumPendingData);
                     var o := Drain(queue, 0, OK, inputs);
                     && PendingDataList == o.rest && emitted == o.emitted && r == o.code
                     && Tells(r, queue, 0, inputs)
                   else
                     && PendingDataList == old(PendingDataList)
                     && emitted == (if Passing(inputs(0, Cell(td, -1, true))) then [Cell(td, -1, true)] else [])
                     && r == Once(td, inputs)
                     && (if TIMESTAMP_TOO_OLD in inputs(0, Loose(td)) then r == inputs(0, Loose(td))
                         else Tells(r, [Loose(td)], 0, inputs))
                     && (Passing(inputs(0, Loose(td))) ==> r == inputs(0, Loose(td)))
    {
      hide Drain, Once, Tells;
      emitted := [];
      if port >= Ins || port < -1 { return {RESOURCE_ERROR, ADDRESS_INVALID}, []; }
      if LastTime > td.time { return {TIMESTAMP_ERROR, TIMESTAMP_TOO_OLD}, []; }
      LastTime := td.time;
      if StoreUnsuccTriggerSignals {
        PendingDataList := PendingDataList + [Cell(td, port, true)];
        if MaxNumPendingData >= 0 && |PendingDataList| > MaxNumPendingData {
          PendingDataList := PendingDataList[1..];
        }
        CodeFollowsInputs(PendingDataList, 0, OK, inputs);
        r, emitted := Pass(inputs);
      } else {
        r, emitted := TryOnce(td, inputs);
      }
    }

    method Pass(inputs: Inputs) returns (r: Code, emitted: seq<Cell>)
      modifies this`PendingDataList
      ensures var o := Drain(old(PendingDataList), 0, OK, inputs);
              PendingDataList == o.rest && emitted == o.emitted && r == o.code
    {
      r, emitted := OK, [];
      var k := 0;
      while true
        invariant var o := Drain(old(PendingDataList), 0, OK, inputs);
                  var o1 := Drain(PendingDataList, k, r, inputs);
                  o.rest == o1.rest && o.emitted == emitted + o1.emitted && o.code == o1.code
        decreases |PendingDataList|
      {
        if PendingDataList == [] { return; }
        var trigger := PendingDataList[0];
        r := r + inputs(k, trigger);
        k := k + 1;
        if TIMESTAMP_TOO_OLD in r {
          PendingDataList := PendingDataList[1..];
          r := OK;
          continue;
        }
        if TYPE_ERROR in r || ADDRESS_INVALID in r { return {RESOURCE_ERROR}, emitted; }
        if NO_INTERPOLATE in r {
          PendingDataList := PendingDataList[1..];
          return;
        }
        if TIMESTAMP_ERROR in r || RESOURCE_ERROR in r { return OK, emitted; }
        PendingDataList := PendingDataList[1..];
        emitted := emitted + [trigger];
      }
    }

    method TryOnce(td: Item, inputs: Inputs) returns (r: Code, emitted: seq<Cell>)
      ensures emitted == if Passing(inputs(0, Loose(td))) then [Loose(td)] else []
      ensures r == Once(td, inputs)
      ensures if TIMESTAMP_TOO_OLD in inputs(0, Loose(td)) then r == inputs(0, Loose(td))
              else Tells(r, [Loose(td)], 0, inputs)
      ensures Passing(inputs(0, Loose(td))) ==> r == inputs(0, Loose(td))
    {
      r, emitted := inputs(0, Loose(td)), [];
      assert [Loose(td)][1..] == [] && OK + r == r;
      if TIMESTAMP_TOO_OLD in r { return; }
      if TYPE_ERROR in r || ADDRESS_INVALID in r { return {RESOURCE_ERROR}, []; }
      if NO_INTERPOLATE in r { return; }
      if TIMESTAMP_ERROR in r || RESOURCE_ERROR in r { return OK, []; }
      emitted := [Loose(td)];
      assert Drain([], 1, r, inputs).code == r;
    }
  }

  /** A needed input that pulls no more, as after data of a wrong type, blocks every trigger written elsewhere,
      unless an earlier input has lost its data or cannot interpolate. */
  lemma UnconnectedBlocks(x: Cell, readings: seq<Reading>, n: nat, a: Pulled)
    requires n < |readings| && n != x.key && InTime(readings, x.key, n)
    requires readings[n] == Asked(false, true, a)
    ensures Blocks(Gathered(readings, x.key, 0, OK))
  {
    RoundFails(readings, x.key, n, 0, OK);
  }

  // ---- whole runs in store mode ------------------------------------------------------

  /** A trigger that is written, and what reading the inputs gives meanwhile. */
  datatype Signal = Signal(x: Cell, inputs: Inputs)

  /** The line, the triggers accepted so far, the fates of those that left it, and those pushed. */
  datatype Log = Log(pending: seq<Cell>, lastTime: int, accepted: seq<Cell>, fates: seq<bool>, emitted: seq<Cell>)

  function Fed(s: Log, signal: Signal, cap: int): Log {
    if signal.x.element.time < s.lastTime then s
    else
      var queue := Queued(s.pending, signal.x, cap);
      var o := Drain(queue, 0, OK, signal.inputs);
      var evicted := if |queue| <= |s.pending| then [false] else [];
      Log(o.rest, signal.x.element.time, s.accepted + [signal.x], s.fates + evicted + o.fates, s.emitted + o.emitted)
  }

  function FedAll(s: Log, signals: seq<Signal>, cap: int): Log
    decreases |signals|
  {
    if signals == [] then s else FedAll(Fed(s, signals[0], cap), signals[1..], cap)
  }

  ghost predicate NotAfter(items: seq<Cell>, t: int) {
    forall i :: 0 <= i < |items| ==> items[i].element.time <= t
  }

  /** The line is the end of the accepted triggers; the rest were pushed, in order, or dropped. */
  ghost predicate InLine(s: Log, cap: int) {
    && |s.fates| <= |s.accepted| && s.pending == s.accepted[|s.fates|..]
    && s.emitted == Selected(s.accepted[..|s.fates|], s.fates)
    && Ordered(s.accepted) && NotAfter(s.accepted, s.lastTime)
    && (cap >= 0 ==> |s.pending| <= cap)
  }

  lemma FedInLine(s: Log, signal: Signal, cap: int)
    requires InLine(s, cap)
    ensures InLine(Fed(s, signal, cap), cap)
  {
    if signal.x.element.time >= s.lastTime {
      hide Drain, Selected, Queued, Ordered, NotAfter;
      var accepted := s.accepted + [signal.x];
      var queue := Queued(s.pending, signal.x, cap);
      var o := Drain(queue, 0, OK, signal.inputs);
      var evicted := if |queue| <= |s.pending| then [false] else [];
      var s' := Fed(s, signal, cap);
      assert s' == Log(o.rest, signal.x.element.time, accepted, s.fates + evicted + o.fates, s.emitted + o.emitted);
      hide Fed;
      QueueIsEnd(s, signal.x, cap, evicted);
      DrainSplits(queue, 0, OK, signal.inputs);
      LaterKeepsOrder(s.accepted, signal.x, s.lastTime);
      FrontStays(s.accepted, signal.x, |s.fates|);
      hide InLine;
      PassInLine(accepted, s.fates, evicted, queue, o.fates, cap);
      StillInLine(s', s.emitted, o.emitted, cap);
    }
  }

  /** What a pass takes off the line joins the fates of what left it before. */
  lemma PassInLine(accepted: seq<Cell>, fates: seq<bool>, evicted: seq<bool>, queue: seq<Cell>, more: seq<bool>,
                   cap: int)
    requires |fates + evicted| <= |accepted| && queue == accepted[|fates + evicted|..] && |more| <= |queue|
    requires true !in evicted
    ensures |fates + evicted + more| <= |accepted|
    ensures queue[|more|..] == accepted[|fates + evicted + more|..]
    ensures Selected(accepted[..|fates + evicted + more|], fates + evicted + more)
            == Selected(accepted[..|fates|], fates) + Selected(queue[..|more|], more)
  {
    hide Selected;
    FatesGrow(accepted, fates, evicted, more);
    TailOfTail(accepted, |fates + evicted|, |more|);
  }

  lemma StillInLine(s: Log, before: seq<Cell>, now: seq<Cell>, cap: int)
    requires |s.fates| <= |s.accepted| && s.pending == s.accepted[|s.fates|..] && s.emitted == before + now
    requires Selected(s.accepted[..|s.fates|], s.fates) == before + now
    requires Ordered(s.accepted) && NotAfter(s.accepted, s.lastTime) && (cap >= 0 ==> |s.pending| <= cap)
    ensures InLine(s, cap)
  {
  }

  lemma FrontStays(items: seq<Cell>, x: Cell, n: nat)
    requires n <= |items|
    ensures (items + [x])[..n] == items[..n]
  {
  }

  lemma TailOfTail(items: seq<Cell>, m: nat, n: nat)
    requires m + n <= |items|
    ensures items[m..][n..] == items[m + n..]
  {
  }

  lemma LaterKeepsOrder(items: seq<Cell>, x: Cell, t: int)
    requires Ordered(items) && NotAfter(items, t) && t <= x.element.time
    ensures Ordered(items + [x]) && NotAfter(items + [x], x.element.time)
  {
  }

  /** The line with the new trigger, after one may have been evicted, is the end of the accepted ones. */
  lemma QueueIsEnd(s: Log, x: Cell, cap: int, evicted: seq<bool>)
    requires |s.fates| <= |s.accepted| && s.pending == s.accepted[|s.fates|..] && (cap >= 0 ==> |s.pending| <= cap)
    requires evicted == if |Queued(s.pending, x, cap)| <= |s.pending| then [false] else []
    ensures |s.fates + evicted| <= |s.accepted + [x]|
    ensures Queued(s.pending, x, cap) == (s.accepted + [x])[|s.fates + evicted|..]
    ensures cap >= 0 ==> |Queued(s.pending, x, cap)| <= cap
  {
  }

  /** The selected items are ordered if the items are. */
  lemma {:induction false} SelectedOrdered(items: seq<Cell>, fates: seq<bool>)
    requires |items| == |fates| && Ordered(items)
    ensures Ordered(Selected(items, fates))
    ensures forall y :: y in Selected(items, fates) ==> y in items
  {
    if items != [] {
      SelectedOrdered(items[1..], fates[1..]);
      var rest := Selected(items[1..], fates[1..]);
      forall y | y in rest ensures items[0].element.time <= y.element.time {
        var i :| 0 <= i < |items[1..]| && items[1..][i] == y;
        assert items[i + 1] == y;
      }
      forall j | 0 <= j < |rest| ensures items[0].element.time <= rest[j].element.time { assert rest[j] in rest; }
    }
  }

  /** Over every run in store mode, whatever the inputs do: the line is a contiguous end of the accepted
      triggers, within its cap; what was pushed is a subsequence of the others, in order of time. */
  lemma {:induction false} RunsStayInLine(s: Log, signals: seq<Signal>, cap: int)
    requires InLine(s, cap)
    ensures InLine(FedAll(s, signals, cap), cap) && Ordered(FedAll(s, signals, cap).emitted)
    decreases |signals|
  {
    if signals == [] {
      SelectedOrdered(s.accepted[..|s.fates|], s.fates);
    } else {
      FedInLine(s, signals[0], cap);
      RunsStayInLine(Fed(s, signals[0], cap), signals[1..], cap);
    }
  }

  /** At every write that is not too old the trigger that is first in line gets a code that keeps it there. */
  predicate AllBlock(first: Cell, lastTime: int, signals: seq<Signal>)
    decreases |signals|
  {
    if signals == [] then true
    else
      var t := signals[0].x.element.time;
      if t < lastTime then AllBlock(first, lastTime, signals[1..])
      else Blocks(signals[0].inputs(0, first)) && AllBlock(first, t, signals[1..])
  }

  /** How many of the writes are not too old. */
  function Accepted(lastTime: int, signals: seq<Signal>): nat
    decreases |signals|
  {
    if signals == [] then 0
    else
      var t := signals[0].x.element.time;
      if t < lastTime then Accepted(lastTime, signals[1..]) else 1 + Accepted(t, signals[1..])
  }

  /** There is room in the line for n more triggers. */
  predicate Room(s: Log, n: nat, cap: int) {
    cap >= 0 && n > 0 ==> |s.pending| + n <= cap
  }

  /** One write leaves the line as it was exactly if there is room for the new trigger and the first one gets a
      code that keeps it there. */
  lemma FedStandsStill(s: Log, signal: Signal, cap: int)
    requires s.pending != [] && signal.x.element.time >= s.lastTime
    ensures var s' := Fed(s, signal, cap);
            && s.fates <= s'.fates
            && (s'.fates == s.fates <==> Room(s, 1, cap) && Blocks(signal.inputs(0, s.pending[0])))
            && (s'.fates == s.fates ==>
                  s'.pending == s.pending + [signal.x] && s'.emitted == s.emitted
                  && s'.lastTime == signal.x.element.time)
  {
    var queue := Queued(s.pending, signal.x, cap);
    FatesFollowInputs(queue, 0, OK, signal.inputs);
    DrainSplits(queue, 0, OK, signal.inputs);
    hide Drain, FatesAreOwn;
    FrontLeaves(queue, signal.inputs);
    assert Room(s, 1, cap) ==> queue == s.pending + [signal.x] && queue[0] == s.pending[0];
  }

  lemma FrontLeaves(queue: seq<Cell>, inputs: Inputs)
    requires queue != []
    ensures Drain(queue, 0, OK, inputs).fates == [] <==> Blocks(inputs(0, queue[0]))
  {
    FatesFollowInputs(queue, 0, OK, inputs);
  }

  /** What left the line stays gone. */
  lemma {:induction false} FatesOnlyGrow(s: Log, signals: seq<Signal>, cap: int)
    ensures s.fates <= FedAll(s, signals, cap).fates
    decreases |signals|
  {
    if signals != [] { FatesOnlyGrow(Fed(s, signals[0], cap), signals[1..], cap); }
  }

  /** Over any run nothing leaves the line exactly if at every write its first trigger gets a code that keeps it
      there, and the cap, if there is one, has room for all the new ones. */
  lemma {:induction false} StandsStillIff(s: Log, signals: seq<Signal>, cap: int)
    requires s.pending != []
    ensures FedAll(s, signals, cap).fates == s.fates
            <==> AllBlock(s.pending[0], s.lastTime, signals) && Room(s, Accepted(s.lastTime, signals), cap)
    decreases |signals|
  {
    if signals == [] {
      return;
    }
    var s1 := Fed(s, signals[0], cap);
    if signals[0].x.element.time < s.lastTime {
      StandsStillIff(s, signals[1..], cap);
    } else {
      FedStandsStill(s, signals[0], cap);
      FatesOnlyGrow(s1, signals[1..], cap);
      hide Fed, FedAll, Blocks;
      assert FedAll(s, signals, cap) == FedAll(s1, signals[1..], cap) by { FedAllUnfolds(s, signals, cap); }
      if s1.fates == s.fates { StandsStillIff(s1, signals[1..], cap); }
    }
  }

  lemma FedAllUnfolds(s: Log, signals: seq<Signal>, cap: int)
    requires signals != []
    ensures FedAll(s, signals, cap) == FedAll(Fed(s, signals[0], cap), signals[1..], cap)
  {
  }

  /** Without a cap a line blocked at every write keeps its first trigger and pushes nothing, for as long as the
      run lasts. */
  lemma {:induction false} StuckForever(s: Log, signals: seq<Signal>)
    requires s.pending != [] && AllBlock(s.pending[0], s.lastTime, signals)
    ensures var s' := FedAll(s, signals, -1);
            s'.fates == s.fates && s'.emitted == s.emitted && s.pending <= s'.pending
    decreases |signals|
  {
    if signals != [] {
      var s1 := Fed(s, signals[0], -1);
      if signals[0].x.element.time >= s.lastTime { FedStandsStill(s, signals[0], -1); }
      StuckForever(s1, signals[1..]);
    }
  }
}
