/** Measurements from several sensors brought into the order of their times. */
module MeasSequencers {
  import opened ErrorCodes
  import opened StableSort

  /** The types of the sensors in a measurement set; `payload` stands for the measurements. */
  datatype Measurements = Measurements(sensors: seq<int>, payload: int)

  type MeasurementSet = Timed<Measurements>

  const SENSORTYPE_SICK: int := 1

  /** Whether a set releases what is pending. */
  predicate Triggers(p: MeasurementSet, triggerType: int) {
    if |p.data.sensors| > 0 then p.data.sensors[0] == triggerType else triggerType == SENSORTYPE_SICK
  }

  /** How many leading sets are not newer than t. */
  function Due(s: seq<MeasurementSet>, t: int): (n: nat)
    ensures n <= |s|
  {
    if s == [] || s[0].time > t then 0 else 1 + Due(s[1..], t)
  }

  lemma {:induction false} DueSplits(s: seq<MeasurementSet>, t: int)
    requires Sorted(s)
    ensures forall i :: 0 <= i < Due(s, t) ==> s[i].time <= t
    ensures forall i :: Due(s, t) <= i < |s| ==> s[i].time > t
  {
    if s != [] && s[0].time <= t {
      DueSplits(s[1..], t);
      assert forall i :: 1 <= i < |s| ==> s[i] == s[1..][i - 1];
    }
  }

  class MeasSequencer {
    var Meas: seq<MeasurementSet>
    var LastOutputTime: int
    var TriggerType: int
    var TriggerTimeMargin: int

    /** What is pending is sorted and not older than what was pushed last. */
    ghost predicate Valid()
      reads this
    {
      Sorted(Meas) && forall i :: 0 <= i < |Meas| ==> Meas[i].time >= LastOutputTime
    }

    constructor ()
      ensures Valid() && Meas == [] && LastOutputTime == 0 && TriggerTimeMargin == 0
      ensures TriggerType == SENSORTYPE_SICK == 1
    {
      Meas, LastOutputTime, TriggerType, TriggerTimeMargin := [], 0, SENSORTYPE_SICK, 0;
    }

    /** Takes a measurement set in its place; one of the trigger type pushes out everything up to its own time
        minus the margin. A set older than the last one pushed is refused. */
    method Write(p: MeasurementSet, isSet: bool, port: int) returns (r: Code, pushed: seq<MeasurementSet>)
      requires Valid()
      modifies this`Meas, this`LastOutputTime
      ensures Valid()
      ensures r == if port != 0 then {ADDRESS_INVALID} else if !isSet then {TYPE_ERROR}
                   else if p.time < old(LastOutputTime) then {TIMESTAMP_ERROR} else OK
      ensures r == {ADDRESS_INVALID} || r == {TYPE_ERROR} ==>
                pushed == [] && Meas == old(Meas) && LastOutputTime == old(LastOutputTime)
      ensures port == 0 && isSet ==>
                var s := Fed(Log(old(Meas), old(LastOutputTime), [], []), Input(p, TriggerType, TriggerTimeMargin));
                s.pending == Meas && s.last == LastOutputTime && s.output == pushed
    {
      hide Insert, Due;
      pushed := [];
      if port != 0 { return {ADDRESS_INVALID}, []; }
      if !isSet { return {TYPE_ERROR}, []; }
      if p.time < LastOutputTime { return {TIMESTAMP_ERROR}, []; }
      InsertSorted(Meas, p);
      PutInOrder(p);
      if Triggers(p, TriggerType) {
        pushed := Flush(p.time - TriggerTimeMargin);
      }
      r := OK;
    }

    method PutInOrder(p: MeasurementSet)
      requires Valid() && p.time >= LastOutputTime
      modifies this`Meas
      ensures Valid() && Meas == Insert(old(Meas), p)
    {
      hide Insert, Sorted;
      ghost var n := InsertPlace(Meas, p);
      InsertSorted(Meas, p);
      var mi := 0;
      while mi < |Meas|
        invariant mi <= n && Meas == old(Meas)
      {
        if p.time < Meas[mi].time {
          Meas := Meas[..mi] + [p] + Meas[mi..];
          return;
        }
        mi := mi + 1;
      }
      Meas := Meas + [p];
      assert Meas == old(Meas)[..n] + [p] + old(Meas)[n..];
    }

    /** Pushes and removes from the front what is not newer than trigTime. */
    method Flush(trigTime: int) returns (pushed: seq<MeasurementSet>)
      requires Valid()
      modifies this`Meas, this`LastOutputTime
      ensures Valid()
      ensures var n := Due(old(Meas), trigTime);
              && pushed == old(Meas)[..n] && Meas == old(Meas)[n..]
              && LastOutputTime == if n > 0 then old(Meas)[n - 1].time else old(LastOutputTime)
    {
      pushed := [];
      ghost var n := 0;
      while Meas != [] && Meas[0].time <= trigTime
        invariant Valid() && n <= |old(Meas)|
        invariant pushed == old(Meas)[..n] && Meas == old(Meas)[n..]
        invariant Due(old(Meas), trigTime) == n + Due(Meas, trigTime)
        invariant LastOutputTime == if n > 0 then old(Meas)[n - 1].time else old(LastOutputTime)
        decreases |Meas|
      {
        pushed := pushed + [Meas[0]];
        LastOutputTime := Meas[0].time;
        Meas := Meas[1..];
        n := n + 1;
      }
    }
  }

  // ---- whole runs --------------------------------------------------------------------

  /** A write, with the settings it meets. */
  datatype Input = Input(p: MeasurementSet, triggerType: int, margin: int)

  datatype Log = Log(
    pending: seq<MeasurementSet>, last: int, accepted: seq<MeasurementSet>, output: seq<MeasurementSet>)

  function Fed(s: Log, input: Input): Log {
    if input.p.time < s.last then s
    else
      var queue := Insert(s.pending, input.p);
      var n := if Triggers(input.p, input.triggerType) then Due(queue, input.p.time - input.margin) else 0;
      Log(queue[n..], if n > 0 then queue[n - 1].time else s.last, s.accepted + [input.p], s.output + queue[..n])
  }

  function FedAll(s: Log, inputs: seq<Input>): Log
    decreases |inputs|
  {
    if inputs == [] then s else FedAll(Fed(s, inputs[0]), inputs[1..])
  }

  ghost predicate AllUpTo(s: seq<MeasurementSet>, t: int) {
    forall i :: 0 <= i < |s| ==> s[i].time <= t
  }

  ghost predicate AllFrom(s: seq<MeasurementSet>, t: int) {
    forall i :: 0 <= i < |s| ==> s[i].time >= t
  }

  /** Output and pending together are the accepted sets in order of time, equal times as they came in. */
  ghost predicate Sequenced(s: Log) {
    && s.output + s.pending == Sort(s.accepted)
    && AllUpTo(s.output, s.last) && AllFrom(s.pending, s.last)
  }

  lemma FedSequenced(s: Log, input: Input)
    requires Sequenced(s)
    ensures Sequenced(Fed(s, input))
  {
    if input.p.time >= s.last {
      hide Insert, Due, Triggers, Sorted, Sort, AllUpTo, AllFrom;
      QueueIsSorted(s, input.p);
      var queue := Insert(s.pending, input.p);
      var s' := Fed(s, input);
      var n := |s'.output| - |s.output|;
      assert s' == Log(queue[n..], if n > 0 then queue[n - 1].time else s.last,
                       s.accepted + [input.p], s.output + queue[..n]);
      hide Fed;
      FlushKeeps(s.output, queue, s.last, n);
    }
  }

  /** The new set goes behind everything already pushed, so what was pushed and is pending stays the sort of
      what was accepted. */
  lemma QueueIsSorted(s: Log, p: MeasurementSet)
    requires Sequenced(s) && p.time >= s.last
    ensures var queue := Insert(s.pending, p);
            && s.output + queue == Sort(s.accepted + [p]) && Sorted(queue)
            && AllFrom(queue, s.last)
  {
    InsertBehind(s.output, s.pending, p);
    hide Insert, Sort, Sorted, AllUpTo, AllFrom;
    SortIsStable(s.accepted, 0);
    SortedEnd(s.output, s.pending);
    SortOn(s.accepted, p);
    InsertSorted(s.pending, p);
    InsertedFrom(s.pending, p, s.last);
  }

  lemma SortOn(accepted: seq<MeasurementSet>, p: MeasurementSet)
    ensures Sort(accepted + [p]) == Insert(Sort(accepted), p)
  {
    assert (accepted + [p])[..|accepted|] == accepted;
  }

  lemma InsertedFrom(pending: seq<MeasurementSet>, p: MeasurementSet, t: int)
    requires Sorted(pending) && AllFrom(pending, t) && p.time >= t
    ensures AllFrom(Insert(pending, p), t)
  {
    hide Insert;
    var place := InsertPlace(pending, p);
  }

  lemma SortedEnd<T>(a: seq<Timed<T>>, b: seq<Timed<T>>)
    requires Sorted(a + b)
    ensures Sorted(b)
  {
    assert forall i :: 0 <= i < |b| ==> b[i] == (a + b)[|a| + i];
  }

  lemma FlushKeeps(output: seq<MeasurementSet>, queue: seq<MeasurementSet>, last: int, n: nat)
    requires n <= |queue| && Sorted(queue)
    requires AllUpTo(output, last) && AllFrom(queue, last)
    ensures var last' := if n > 0 then queue[n - 1].time else last;
            AllUpTo(output + queue[..n], last') && AllFrom(queue[n..], last')
    ensures output + queue[..n] + queue[n..] == output + queue
  {
  }

  /** A trigger leaves nothing pending at or before its time minus the margin. */
  lemma TriggerFlushes(s: Log, input: Input)
    requires Sequenced(s) && input.p.time >= s.last
    requires if input.p.data.sensors == [] then input.triggerType == SENSORTYPE_SICK
             else input.p.data.sensors[0] == input.triggerType
    ensures forall i :: 0 <= i < |Fed(s, input).pending| ==>
                          Fed(s, input).pending[i].time > input.p.time - input.margin
  {
    hide Insert, Due, Sort;
    QueueIsSorted(s, input.p);
    var queue := Insert(s.pending, input.p);
    DueSplits(queue, input.p.time - input.margin);
  }

  /** A set that is no trigger, for its first sensor is of another type or it is empty and the type is not the
      laser's, pushes nothing; a set older than the last one pushed changes nothing. */
  lemma QuietUnlessTrigger(s: Log, input: Input)
    requires if input.p.data.sensors == [] then input.triggerType != SENSORTYPE_SICK
             else input.p.data.sensors[0] != input.triggerType
    ensures Fed(s, input).output == s.output && Fed(s, input).last == s.last
    ensures input.p.time >= s.last && Sorted(s.pending) ==> |Fed(s, input).pending| == |s.pending| + 1
  {
    if input.p.time >= s.last && Sorted(s.pending) {
      var place := InsertPlace(s.pending, input.p);
    }
  }

  /** Some write of the run was of a trigger that was accepted and whose time is newer by the margin. */
  ghost predicate ReleasedBy(s: Log, inputs: seq<Input>, y: MeasurementSet, j: nat) {
    && j < |inputs| && FedAll(s, inputs[..j]).last <= inputs[j].p.time
    && (if inputs[j].p.data.sensors == [] then inputs[j].triggerType == SENSORTYPE_SICK
        else inputs[j].p.data.sensors[0] == inputs[j].triggerType)
    && y.time <= inputs[j].p.time - inputs[j].margin
  }

  lemma FedReleases(s: Log, input: Input, i: nat)
    requires Sequenced(s) && |s.output| <= i < |Fed(s, input).output|
    ensures ReleasedBy(s, [input], Fed(s, input).output[i], 0)
  {
    hide Insert, Due, Sort;
    QueueIsSorted(s, input.p);
    DueSplits(Insert(s.pending, input.p), input.p.time - input.margin);
    assert [input][..0] == [];
  }

  lemma OutputGrows(s: Log, input: Input)
    ensures s.output <= Fed(s, input).output
  {
  }

  /** Over every run each set that is pushed is no newer than the time of some accepted trigger less its margin. */
  lemma {:induction false} PushedByTrigger(s: Log, inputs: seq<Input>, i: nat) returns (j: nat)
    requires Sequenced(s) && |s.output| <= i < |FedAll(s, inputs).output|
    ensures ReleasedBy(s, inputs, FedAll(s, inputs).output[i], j)
    decreases |inputs|
  {
    hide Fed, Sequenced;
    var s1 := Fed(s, inputs[0]);
    OutputGrows(s, inputs[0]);
    FedSequenced(s, inputs[0]);
    if i < |s1.output| {
      FedReleases(s, inputs[0], i);
      OutputKept(s1, inputs[1..]);
      assert inputs[..0] == [] && [inputs[0]][..0] == [];
      j := 0;
    } else {
      j := PushedByTrigger(s1, inputs[1..], i);
      assert inputs[..j + 1][0] == inputs[0] && inputs[..j + 1][1..] == inputs[1..][..j];
      j := j + 1;
    }
  }

  lemma {:induction false} OutputKept(s: Log, inputs: seq<Input>)
    ensures s.output <= FedAll(s, inputs).output
    decreases |inputs|
  {
    if inputs != [] {
      OutputGrows(s, inputs[0]);
      OutputKept(Fed(s, inputs[0]), inputs[1..]);
    }
  }

  /** Over every run, with any margins: output times never decrease, and the output so far followed by what is
      pending is the stable sort of everything accepted, so each set is output once or still pending. */
  lemma {:induction false} RunsAreSequenced(s: Log, inputs: seq<Input>)
    requires Sequenced(s)
    ensures var s' := FedAll(s, inputs);
            && Sequenced(s') && Sorted(s'.output + s'.pending)
            && multiset(s'.accepted) == multiset(s'.output) + multiset(s'.pending)
    decreases |inputs|
  {
    if inputs == [] {
      SortIsStable(s.accepted, 0);
      assert multiset(s.output + s.pending) == multiset(s.output) + multiset(s.pending);
    } else {
      FedSequenced(s, inputs[0]);
      RunsAreSequenced(Fed(s, inputs[0]), inputs[1..]);
    }
  }
}
