/** Several writing threads, one pushing thread and a shutdown, step by step around the merge mutex. */
module ThreadMergers {
  import opened History
  import opened Options
  import opened SmartDataLists

  datatype Holder = Free | Writer(i: nat) | PusherThread | StopperThread

  /** A call of `write`: before the lock, inside it, and while it reports the queue length. */
  datatype Writing =
    | Idle
    | AtLock(x: Cell)
    | AtIncrement(x: Cell)
    | AtAdd(x: Cell, r: int)
    | AtUnlock(x: Cell, r: int)
    | AtTime(x: Cell, r: int)
    | AtLength(x: Cell, r: int)
    | AtId(x: Cell, r: int)
    | AtReport(x: Cell, r: int)

  /** The pusher's loop. */
  datatype Pushing =
    | Waiting
    | Testing
    | Removing
    | Decrementing(got: Option<Cell>)
    | Unlocking(got: Option<Cell>)
    | Delivering(got: Option<Cell>)
    | Leaving
    | Finished

  /** The shutdown. */
  datatype Stopping = NotCalled | StopWaiting | StopTesting | StopUnlocking(join: bool) | Joining | Stopped

  /** The length report, one object shared by all writers. */
  datatype Report = Report(time: int, length: int, id: int)

  /** An item pushed out of a port. */
  datatype Out = Out(item: Item, port: int)

  datatype State = State(
    ins: nat,
    list: seq<Cell>,
    queueLength: int,
    running: bool,
    mutex: Holder,
    writers: seq<Writing>,
    pusher: Pushing,
    stopper: Stopping,
    report: Report,
    written: seq<Cell>,
    pushed: seq<Out>,
    reported: seq<(int, Report)>)

  /** What happens next: a call of `write`, a step of writer i, of the pusher, or of the shutdown. */
  datatype Action = Call(i: nat, item: Item, port: int) | Write(i: nat) | Push | Stop

  predicate Enabled(s: State, a: Action) {
    match a
    case Call(i, _, _) => i < |s.writers| && s.writers[i].Idle?
    case Write(i) => i < |s.writers| && !s.writers[i].Idle? && (s.writers[i].AtLock? ==> s.mutex == Free)
    case Push => !s.pusher.Finished? && (s.pusher.Waiting? ==> s.mutex == Free)
    case Stop => !s.stopper.Stopped? && (s.stopper.StopWaiting? ==> s.mutex == Free)
                 && (s.stopper.Joining? ==> s.pusher.Finished?)
  }

  function Next(s: State, a: Action): State
    requires Enabled(s, a) && s.list != []
  {
    match a
    case Call(i, item, port) => s.(writers := s.writers[i := AtLock(Cell(item, port, true))])
    case Write(i) => WriterStep(s, i)
    case Push => PusherStep(s)
    case Stop => StopperStep(s)
  }

  /** The item counts as written when its writer gets the lock. */
  function WriterStep(s: State, i: nat): State
    requires Enabled(s, Write(i)) && s.list != []
  {
    match s.writers[i]
    case AtLock(x) =>
      s.(mutex := Writer(i), writers := s.writers[i := AtIncrement(x)], written := s.written + [x])
    case AtIncrement(x) =>
      s.(queueLength := s.queueLength + 1, writers := s.writers[i := AtAdd(x, s.queueLength + 1)])
    case AtAdd(x, r) => s.(list := Added(s.list, x), writers := s.writers[i := AtUnlock(x, r)])
    case AtUnlock(x, r) => s.(mutex := Free, writers := s.writers[i := AtTime(x, r)])
    case AtTime(x, r) =>
      s.(report := s.report.(time := x.element.time), writers := s.writers[i := AtLength(x, r)])
    case AtLength(x, r) => s.(report := s.report.(length := r % 0x1_0000), writers := s.writers[i := AtId(x, r)])
    case AtId(x, r) => s.(report := s.report.(id := x.element.payload), writers := s.writers[i := AtReport(x, r)])
    case AtReport(x, r) => s.(reported := s.reported + [(x.key, s.report)], writers := s.writers[i := Idle])
  }

  function PusherStep(s: State): State
    requires Enabled(s, Push) && s.list != []
  {
    match s.pusher
    case Waiting => s.(mutex := PusherThread, pusher := Testing)
    case Testing => s.(pusher := if s.running then Removing else Leaving)
    case Removing =>
      if Contents(s.list) == [] then s.(pusher := Decrementing(None))
      else s.(list := Removed(s.list, 0), pusher := Decrementing(Some(s.list[0])))
    case Decrementing(got) =>
      s.(queueLength := if got.Some? then s.queueLength - 1 else s.queueLength, pusher := Unlocking(got))
    case Unlocking(got) => s.(mutex := Free, pusher := Delivering(got))
    case Delivering(got) =>
      s.(pushed := if got.Some? then s.pushed + [Out(got.value.element, got.value.key + s.ins)] else s.pushed,
         pusher := Waiting)
    case Leaving => s.(mutex := Free, pusher := Finished)
  }

  function StopperStep(s: State): State
    requires Enabled(s, Stop)
  {
    match s.stopper
    case NotCalled => s.(stopper := StopWaiting)
    case StopWaiting => s.(mutex := StopperThread, stopper := StopTesting)
    case StopTesting => s.(running := false, stopper := StopUnlocking(s.running))
    case StopUnlocking(join) => s.(mutex := Free, stopper := if join then Joining else Stopped)
    case Joining => s.(stopper := Stopped)
  }

  /** The merger as its constructor leaves it. */
  predicate Initial(s: State) {
    && |s.list| == 1 && !s.list[0].used && s.queueLength == 0 && s.running && s.mutex == Free
    && (forall i :: 0 <= i < |s.writers| ==> s.writers[i].Idle?)
    && s.pusher == Waiting && s.stopper == NotCalled && s.written == [] && s.pushed == [] && s.reported == []
  }

  // ---- the invariant -----------------------------------------------------------------

  predicate InLock(w: Writing) {
    w.AtIncrement? || w.AtAdd? || w.AtUnlock?
  }

  /** The mutex is held by the one thread that is inside. */
  ghost predicate Exclusive(s: State) {
    && (forall i :: 0 <= i < |s.writers| ==> (InLock(s.writers[i]) <==> s.mutex == Writer(i)))
    && (s.mutex.Writer? ==> s.mutex.i < |s.writers|)
    && (s.mutex == PusherThread <==>
          s.pusher.Testing? || s.pusher.Removing? || s.pusher.Decrementing? || s.pusher.Unlocking? || s.pusher.Leaving?)
    && (s.mutex == StopperThread <==> s.stopper.StopTesting? || s.stopper.StopUnlocking?)
    && (forall i :: 0 <= i < |s.writers| && !s.writers[i].Idle? ==> s.writers[i].x.used)
  }

  /** The item the pusher has taken and not yet pushed. */
  function InFlight(s: State): seq<Cell> {
    if (s.pusher.Decrementing? || s.pusher.Unlocking? || s.pusher.Delivering?) && s.pusher.got.Some?
    then [s.pusher.got.value] else []
  }

  /** The item of the writer inside the lock that is not in the list yet. */
  function InHand(s: State): seq<Cell>
    requires s.mutex.Writer? ==> s.mutex.i < |s.writers|
  {
    if s.mutex.Writer? && (s.writers[s.mutex.i].AtIncrement? || s.writers[s.mutex.i].AtAdd?)
    then [s.writers[s.mutex.i].x] else []
  }

  function Outs(cells: seq<Cell>, ins: nat): (outs: seq<Out>)
    ensures |outs| == |cells|
  {
    if cells == [] then []
    else Outs(cells[..|cells| - 1], ins) + [Out(cells[|cells| - 1].element, cells[|cells| - 1].key + ins)]
  }

  /** Pushed, in flight, queued and in hand, in this order, are what was written; each item went out at its
      own port. */
  ghost predicate Conserved(s: State)
    requires s.list != [] && (s.mutex.Writer? ==> s.mutex.i < |s.writers|)
  {
    && |s.pushed| <= |s.written| && s.pushed == Outs(s.written[..|s.pushed|], s.ins)
    && s.written[|s.pushed|..] == InFlight(s) + Contents(s.list) + InHand(s)
  }

  /** The counter is the length of the list, but for the thread between counting and acting. */
  ghost predicate Counted(s: State)
    requires s.list != [] && (s.mutex.Writer? ==> s.mutex.i < |s.writers|)
  {
    && (s.mutex.Writer? && s.writers[s.mutex.i].AtAdd? ==> s.writers[s.mutex.i].r == s.queueLength)
    && s.queueLength == |Contents(s.list)|
                     + (if s.mutex.Writer? && s.writers[s.mutex.i].AtAdd? then 1 else 0)
                     + (if s.pusher.Decrementing? && s.pusher.got.Some? then 1 else 0)
  }

  predicate Told(w: Writing) {
    w.AtAdd? || w.AtUnlock? || Reporting(w)
  }

  /** Past the lock and on its way to the report. */
  predicate Reporting(w: Writing) {
    w.AtTime? || w.AtLength? || w.AtId? || w.AtReport?
  }

  /** A length that a writer was told counts at least its own item. */
  ghost predicate LengthsPositive(s: State) {
    forall i :: 0 <= i < |s.writers| && Told(s.writers[i]) ==> s.writers[i].r > 0
  }

  ghost predicate Inv(s: State) {
    && Clean(s.list) && Exclusive(s) && Conserved(s) && Counted(s) && LengthsPositive(s)
    && (s.pusher.Finished? || s.pusher.Leaving? ==> !s.running)
  }

  lemma InitialInv(s: State)
    requires Initial(s)
    ensures Inv(s)
  {
  }

  lemma StepExclusive(s: State, a: Action)
    requires Inv(s) && Enabled(s, a)
    ensures Exclusive(Next(s, a)) && Clean(Next(s, a).list)
  {
    hide Conserved, Counted, Exclusive, Clean, LengthsPositive, WriterStep, PusherStep, StopperStep;
    assert s.list != [] by { CleanNotEmpty(s.list); }
    match a
    case Call(i, item, port) => CallExclusive(s, i, item, port);
    case Write(i) => WriteExclusive(s, i);
    case Push => PushExclusive(s);
    case Stop => StopExclusive(s);
  }

  lemma CleanNotEmpty(cells: seq<Cell>)
    requires Clean(cells)
    ensures cells != []
  {
  }

  lemma CallExclusive(s: State, i: nat, item: Item, port: int)
    requires s.list != [] && Exclusive(s) && Clean(s.list) && Enabled(s, Call(i, item, port))
    ensures Exclusive(Next(s, Call(i, item, port))) && Clean(Next(s, Call(i, item, port)).list)
  {
    hide Clean;
  }

  lemma WriteExclusive(s: State, i: nat)
    requires s.list != [] && Exclusive(s) && Clean(s.list) && Enabled(s, Write(i))
    ensures Exclusive(WriterStep(s, i)) && Clean(WriterStep(s, i).list)
  {
    hide Clean, Added;
    if s.writers[i].AtAdd? { AddAppends(s.list, s.writers[i].x); }
  }

  lemma PushExclusive(s: State)
    requires s.list != [] && Exclusive(s) && Clean(s.list) && Enabled(s, Push)
    ensures Exclusive(PusherStep(s)) && Clean(PusherStep(s).list)
  {
    hide Clean, Contents, Removed;
    if s.pusher.Removing? && Contents(s.list) != [] { TakeFirst(s.list); }
  }

  lemma StopExclusive(s: State)
    requires Exclusive(s) && Clean(s.list) && Enabled(s, Stop)
    ensures Exclusive(StopperStep(s)) && Clean(StopperStep(s).list)
  {
    hide Clean;
  }

  /** Whatever the writer, the pusher or the shutdown does, nothing is lost, doubled or reordered. */
  lemma StepConserves(s: State, a: Action)
    requires Inv(s) && Enabled(s, a) && Exclusive(Next(s, a))
    ensures Conserved(Next(s, a)) && Counted(Next(s, a))
  {
    match a
    case Call(i, item, port) =>
    case Write(i) => WriteConserves(s, i);
    case Push => PushConserves(s);
    case Stop =>
  }

  lemma WriteConserves(s: State, i: nat)
    requires s.list != [] && Inv(s) && Enabled(s, Write(i)) && Exclusive(WriterStep(s, i))
    ensures Conserved(WriterStep(s, i)) && Counted(WriterStep(s, i))
  {
    hide Outs, Clean, Contents, Added, Conserved, Counted, Exclusive;
    if s.writers[i].AtLock? {
      LockConserves(s, i);
    } else if s.writers[i].AtAdd? {
      AddConserves(s, i);
    } else if s.writers[i].AtIncrement? {
      IncrementConserves(s, i);
    } else if s.writers[i].AtUnlock? {
      UnlockConserves(s, i);
    } else {
      ReportConserves(s, i);
    }
  }

  lemma LockConserves(s: State, i: nat)
    requires s.list != [] && Inv(s) && Enabled(s, Write(i)) && s.writers[i].AtLock? && Exclusive(WriterStep(s, i))
    ensures Conserved(WriterStep(s, i)) && Counted(WriterStep(s, i))
  {
    hide Outs, Clean, Contents;
    var x := s.writers[i].x;
    assert InHand(s) == [] && InHand(WriterStep(s, i)) == [x];
    assert (s.written + [x])[..|s.pushed|] == s.written[..|s.pushed|];
    assert (s.written + [x])[|s.pushed|..] == s.written[|s.pushed|..] + [x];
  }

  lemma AddConserves(s: State, i: nat)
    requires s.list != [] && Inv(s) && Enabled(s, Write(i)) && s.writers[i].AtAdd? && Exclusive(WriterStep(s, i))
    ensures Conserved(WriterStep(s, i)) && Counted(WriterStep(s, i))
  {
    hide Outs, Clean, Contents, Added;
    AddAppends(s.list, s.writers[i].x);
    assert InHand(s) == [s.writers[i].x] && InHand(WriterStep(s, i)) == [];
  }

  lemma IncrementConserves(s: State, i: nat)
    requires s.list != [] && Inv(s) && Enabled(s, Write(i)) && s.writers[i].AtIncrement? && Exclusive(WriterStep(s, i))
    ensures Conserved(WriterStep(s, i)) && Counted(WriterStep(s, i))
  {
    hide Outs, Clean, Contents, LengthsPositive;
    assert InHand(s) == [s.writers[i].x] == InHand(WriterStep(s, i));
  }

  lemma UnlockConserves(s: State, i: nat)
    requires s.list != [] && Inv(s) && Enabled(s, Write(i)) && s.writers[i].AtUnlock? && Exclusive(WriterStep(s, i))
    ensures Conserved(WriterStep(s, i)) && Counted(WriterStep(s, i))
  {
    hide Outs, Clean, Contents, LengthsPositive;
    assert InHand(s) == [] == InHand(WriterStep(s, i));
  }

  /** Reporting touches neither the list nor the lock. */
  lemma ReportConserves(s: State, i: nat)
    requires s.list != [] && Inv(s) && Enabled(s, Write(i)) && Reporting(s.writers[i]) && Exclusive(WriterStep(s, i))
    ensures Conserved(WriterStep(s, i)) && Counted(WriterStep(s, i))
  {
    hide Outs, Clean, Contents, LengthsPositive;
    var s' := WriterStep(s, i);
    assert s' == s.(writers := s'.writers, report := s'.report, reported := s'.reported);
    assert !InLock(s.writers[i]) && s.mutex != Writer(i);
    assert s.mutex.Writer? ==> s'.writers[s.mutex.i] == s.writers[s.mutex.i];
    hide WriterStep, Exclusive, Enabled;
  }

  lemma PushConserves(s: State)
    requires Inv(s) && Enabled(s, Push) && Exclusive(Next(s, Push))
    ensures Conserved(Next(s, Push)) && Counted(Next(s, Push))
  {
    if s.pusher.Removing? && Contents(s.list) != [] {
      TakeConserves(s);
    } else if s.pusher.Delivering? && s.pusher.got.Some? {
      DeliveryConserves(s);
    } else {
      hide Outs;
    }
  }

  lemma TakeConserves(s: State)
    requires Inv(s) && s.pusher.Removing? && Contents(s.list) != []
    ensures Conserved(Next(s, Push)) && Counted(Next(s, Push))
  {
    hide Outs, Removed, Clean, Contents;
    TakeFirst(s.list);
  }

  lemma TakeFirst(cells: seq<Cell>)
    requires Clean(cells) && Contents(cells) != []
    ensures Clean(Removed(cells, 0)) && Removed(cells, 0) != []
    ensures Contents(cells) == [cells[0]] + Contents(Removed(cells, 0))
  {
    RemoveWorksIff(cells, 0);
  }

  lemma DeliveryConserves(s: State)
    requires Inv(s) && s.pusher.Delivering? && s.pusher.got.Some?
    ensures Conserved(Next(s, Push)) && Counted(Next(s, Push))
  {
    hide Outs, Clean, Contents, Exclusive, LengthsPositive;
    assert s.written[|s.pushed|] == s.pusher.got.value;
    OutsGrow(s.written, |s.pushed|, s.ins);
    assert s.written[|s.pushed| + 1..] == s.written[|s.pushed|..][1..];
  }

  lemma OutsGrow(cells: seq<Cell>, n: nat, ins: nat)
    requires n < |cells|
    ensures Outs(cells[..n + 1], ins) == Outs(cells[..n], ins) + [Out(cells[n].element, cells[n].key + ins)]
  {
    assert cells[..n + 1][..n] == cells[..n];
  }

  lemma StepInv(s: State, a: Action)
    requires Inv(s) && Enabled(s, a)
    ensures Inv(Next(s, a))
  {
    StepExclusive(s, a);
    StepConserves(s, a);
    StepLengths(s, a);
    StepStopped(s, a);
    hide Exclusive, Conserved, Counted, Clean, LengthsPositive, Next, Enabled;
  }

  /** The pusher only leaves its loop after it was told to stop, which is for good. */
  lemma StepStopped(s: State, a: Action)
    requires s.list != [] && Enabled(s, a) && (s.pusher.Finished? || s.pusher.Leaving? ==> !s.running)
    ensures Next(s, a).pusher.Finished? || Next(s, a).pusher.Leaving? ==> !Next(s, a).running
  {
    hide Contents, Removed, Added;
  }

  lemma StepLengths(s: State, a: Action)
    requires Inv(s) && Enabled(s, a)
    ensures LengthsPositive(Next(s, a))
  {
    hide Conserved, Exclusive, Clean, Contents;
  }

  // ---- whole runs --------------------------------------------------------------------

  ghost predicate Run(s: State, actions: seq<Action>, s': State)
    decreases |actions|
  {
    if actions == [] then s' == s
    else s.list != [] && Enabled(s, actions[0]) && Run(Next(s, actions[0]), actions[1..], s')
  }

  lemma {:induction false} RunInv(s: State, actions: seq<Action>, s': State)
    requires Inv(s) && Run(s, actions, s')
    ensures Inv(s')
    decreases |actions|
  {
    hide Exclusive, Conserved, Counted, Clean, LengthsPositive, Next, Enabled;
    if actions != [] {
      StepInv(s, actions[0]);
      RunInv(Next(s, actions[0]), actions[1..], s');
    }
  }

  /** In every interleaving of writers, pusher and shutdown: what was pushed is a prefix of what was written,
      in the order the writers got the lock and each at its own port; what is missing is in flight, queued, or
      in the hands of the writer inside the lock; and the counter is right whenever the lock is free. */
  lemma EveryInterleaving(s: State, actions: seq<Action>, s': State)
    requires Initial(s) && Run(s, actions, s')
    ensures |s'.pushed| <= |s'.written|
    ensures forall k :: 0 <= k < |s'.pushed| ==>
              s'.pushed[k] == Out(s'.written[k].element, s'.written[k].key + s'.ins)
    ensures s'.list != [] && (s'.mutex.Writer? ==> s'.mutex.i < |s'.writers|)
    ensures s'.written[|s'.pushed|..] == InFlight(s') + Contents(s'.list) + InHand(s')
    ensures |InFlight(s')| <= 1 && (s'.pusher == Waiting ==> InFlight(s') == [])
    ensures |InHand(s')| <= 1 && (s'.mutex == Free ==> InHand(s') == [] && s'.queueLength == |Contents(s'.list)|)
  {
    InitialInv(s);
    RunInv(s, actions, s');
    hide Outs;
    forall k | 0 <= k < |s'.pushed|
      ensures s'.pushed[k] == Out(s'.written[k].element, s'.written[k].key + s'.ins)
    {
      OutsAt(s'.written[..|s'.pushed|], s'.ins, k);
    }
  }

  lemma {:induction false} OutsAt(cells: seq<Cell>, ins: nat, k: nat)
    requires k < |cells|
    ensures Outs(cells, ins)[k] == Out(cells[k].element, cells[k].key + ins)
  {
    if k < |cells| - 1 { OutsAt(cells[..|cells| - 1], ins, k); }
  }

  /** When the shutdown has joined the pusher, nothing is in flight: what is not pushed is still in the list,
      and everything was pushed exactly if the list is empty. */
  lemma StrandedSuffix(s: State, actions: seq<Action>, s': State)
    requires Initial(s) && Run(s, actions, s') && s'.pusher.Finished? && s'.mutex == Free
    ensures |s'.pushed| <= |s'.written| && s'.pushed == Outs(s'.written[..|s'.pushed|], s'.ins)
    ensures s'.list != [] && s'.written[|s'.pushed|..] == Contents(s'.list)
    ensures |s'.pushed| == |s'.written| <==> !s'.list[0].used
  {
    InitialInv(s);
    RunInv(s, actions, s');
  }

  /** The shutdown has told the pusher to stop, which pushes what it holds, `total` items in all, and ends. */
  predicate Closing(s: State, total: nat) {
    && s.list != [] && !s.running && |s.pushed| + |InFlight(s)| == total
    && (s.pusher.Waiting? || s.pusher.Testing? || s.pusher.Delivering? || s.pusher.Leaving? || s.pusher.Finished?)
    && !(s.stopper.NotCalled? || s.stopper.StopWaiting? || s.stopper.StopTesting?)
  }

  lemma ClosingStep(s: State, a: Action, total: nat)
    requires Closing(s, total) && Enabled(s, a)
    ensures Closing(Next(s, a), total) && s.written <= Next(s, a).written
  {
    hide Removed, Contents;
    match a
    case Call(_, _, _) =>
    case Write(i) =>
    case Push =>
    case Stop =>
  }

  lemma {:induction false} ClosingRun(s: State, actions: seq<Action>, s': State, total: nat)
    requires Closing(s, total) && Run(s, actions, s')
    ensures Closing(s', total) && s.written <= s'.written
    decreases |actions|
  {
    hide Closing, Next, Enabled;
    if actions != [] {
      ClosingStep(s, actions[0], total);
      ClosingRun(Next(s, actions[0]), actions[1..], s', total);
    }
  }

  /** What a shutdown strands is settled when it has the lock: the pusher still pushes the item in flight and
      no other. So everything gets pushed exactly if the list is empty then and nothing is written any more. */
  lemma ShutdownSettles(s: State, actions: seq<Action>, s': State)
    requires Inv(s) && s.stopper.StopTesting? && Run(Next(s, Stop), actions, s')
    requires s'.pusher.Finished?
    ensures |s'.pushed| == |s.pushed| + |InFlight(s)|
    ensures |s'.pushed| == |s'.written| <==> Contents(s.list) == [] && |s'.written| == |s.written|
    ensures |s'.written| - |s'.pushed| == |Contents(s.list)| + (|s'.written| - |s.written|)
  {
    var total := |s.pushed| + |InFlight(s)|;
    assert Closing(Next(s, Stop), total) && InHand(s) == [];
    ClosingRun(Next(s, Stop), actions, s', total);
    SettledCount(s, s', total);
  }

  lemma SettledCount(s: State, s': State, total: nat)
    requires Inv(s) && InHand(s) == [] && total == |s.pushed| + |InFlight(s)|
    requires Closing(s', total) && s'.pusher.Finished? && s.written <= s'.written
    ensures |s'.pushed| == total && |s.written| == total + |Contents(s.list)|
  {
    hide Outs, Exclusive, Counted, Clean, LengthsPositive, Contents;
    assert |s.written[|s.pushed|..]| == |s.written| - |s.pushed|;
  }

  lemma RunStep(s: State, a: Action, rest: seq<Action>, s': State)
    requires s.list != [] && Enabled(s, a) && Run(Next(s, a), rest, s')
    ensures Run(s, [a] + rest, s')
  {
    assert ([a] + rest)[1..] == rest;
  }

  lemma {:induction false} RunConcat(s: State, first: seq<Action>, s1: State, rest: seq<Action>, s': State)
    requires Run(s, first, s1) && Run(s1, rest, s')
    ensures Run(s, first + rest, s')
    decreases |first|
  {
    hide Next, Enabled;
    if first == [] {
      assert first + rest == rest;
    } else {
      RunConcat(Next(s, first[0]), first[1..], s1, rest, s');
      assert (first + rest)[1..] == first[1..] + rest;
    }
  }

  /** A shutdown that gets the lock while items are queued strands them: the pusher ends without looking. */
  lemma Strands(s: State) returns (s': State)
    requires s.list != [] && s.running && s.mutex == Free && s.pusher == Waiting && s.stopper == NotCalled
    ensures Run(s, [Stop, Stop, Stop, Stop, Push, Push, Push, Stop], s')
    ensures s'.stopper == Stopped && s'.pusher == Finished && s'.mutex == Free
    ensures s'.list == s.list && s'.pushed == s.pushed && s'.written == s.written
  {
    s' := s.(stopper := Stopped, running := false, pusher := Finished);
    var s1 := Next(s, Stop);
    var s2 := Next(s1, Stop);
    var s3 := Next(s2, Stop);
    var s4 := Next(s3, Stop);
    var s5 := Next(s4, Push);
    var s6 := Next(s5, Push);
    var s7 := Next(s6, Push);
    assert Run(s', [], s') && Next(s7, Stop) == s';
    RunStep(s7, Stop, [], s');
    RunStep(s6, Push, [Stop], s');
    RunStep(s5, Push, [Push, Stop], s');
    RunStep(s4, Push, [Push, Push, Stop], s');
    RunStep(s3, Stop, [Push, Push, Push, Stop], s');
    RunStep(s2, Stop, [Stop, Push, Push, Push, Stop], s');
    RunStep(s1, Stop, [Stop, Stop, Push, Push, Push, Stop], s');
    RunStep(s, Stop, [Stop, Stop, Stop, Push, Push, Push, Stop], s');
  }

  /** One item is written and the merger shut down before the pusher looks: the item is never pushed. */
  lemma StrandingRun(ins: nat, item: Item) returns (s: State, actions: seq<Action>, s': State)
    ensures Initial(s) && Run(s, actions, s') && s'.stopper == Stopped && s'.pusher == Finished
    ensures s'.written == [Cell(item, 0, true)] && s'.pushed == []
  {
    var x := Cell(item, 0, true);
    s := State(ins, [Cell(BLANK, 0, false)], 0, true, Free, [Idle], Waiting, NotCalled, Report(0, 0, 0), [], [], []);
    var s1 := Next(s, Call(0, item, 0));
    var s2 := Next(s1, Write(0));
    var s3 := Next(s2, Write(0));
    var s4 := Next(s3, Write(0));
    var s5 := Next(s4, Write(0));
    assert s5.list == [x] && s5.written == [x] && s5.mutex == Free;
    s' := Strands(s5);
    actions := [Stop, Stop, Stop, Stop, Push, Push, Push, Stop];
    hide Next, Run;
    RunStep(s4, Write(0), actions, s');
    RunStep(s3, Write(0), [Write(0)] + actions, s');
    RunStep(s2, Write(0), [Write(0)] + ([Write(0)] + actions), s');
    RunStep(s1, Write(0), [Write(0)] + ([Write(0)] + ([Write(0)] + actions)), s');
    actions := [Write(0)] + ([Write(0)] + ([Write(0)] + ([Write(0)] + actions)));
    RunStep(s, Call(0, item, 0), actions, s');
    actions := [Call(0, item, 0)] + actions;
  }

  /** After the pusher has finished it never pushes again, so later writes stay in the list. */
  lemma {:induction false} FinishedForGood(s: State, actions: seq<Action>, s': State)
    requires s.pusher.Finished? && Run(s, actions, s')
    ensures s'.pusher.Finished? && s'.pushed == s.pushed
    decreases |actions|
  {
    if actions != [] {
      FinishedForGood(Next(s, actions[0]), actions[1..], s');
    }
  }

  /** With an empty list, a free lock and a waiting pusher everything written has been pushed. */
  lemma Drained(s: State)
    requires Inv(s) && s.mutex == Free && s.pusher == Waiting && Contents(s.list) == []
    ensures s.pushed == Outs(s.written, s.ins) && s.queueLength == 0
  {
    assert s.written[..|s.pushed|] == s.written;
  }

  /** Left alone, the running pusher empties the list: everything written gets pushed. */
  lemma {:induction false} PusherDrains(s: State) returns (actions: seq<Action>, s': State)
    requires Inv(s) && s.running && s.mutex == Free && s.pusher == Waiting
    ensures Run(s, actions, s') && Inv(s') && (forall a :: a in actions ==> a == Push)
    ensures s'.written == s.written && s'.pushed == Outs(s.written, s.ins) && s'.queueLength == 0
    decreases |Contents(s.list)|
  {
    hide Exclusive, Conserved, Counted, LengthsPositive, Outs;
    if Contents(s.list) == [] {
      Drained(s);
      actions, s' := [], s;
    } else {
      var s1 := Round(s);
      var rest;
      rest, s' := PusherDrains(s1);
      actions := seq(6, _ => Push) + rest;
      RunOn(s, 6, rest, s1, s');
    }
  }

  /** One turn of the pusher's loop takes the first item of the list and pushes it. */
  lemma Round(s: State) returns (s6: State)
    requires Inv(s) && s.running && s.mutex == Free && s.pusher == Waiting && Contents(s.list) != []
    ensures CanPush(s, 6) && s6 == Pushes(s, 6) && Inv(s6)
    ensures s6.running && s6.mutex == Free && s6.pusher == Waiting && s6.written == s.written && s6.ins == s.ins
    ensures |Contents(s6.list)| < |Contents(s.list)|
  {
    hide Exclusive, Conserved, Counted, Outs;
    TakeFirst(s.list);
    var s1 := Next(s, Push);
    StepInv(s, Push);
    var s2 := Next(s1, Push);
    StepInv(s1, Push);
    var s3 := Next(s2, Push);
    StepInv(s2, Push);
    var s4 := Next(s3, Push);
    StepInv(s3, Push);
    var s5 := Next(s4, Push);
    StepInv(s4, Push);
    s6 := Next(s5, Push);
    StepInv(s5, Push);
    assert CanPush(s5, 1) && CanPush(s4, 2) && CanPush(s3, 3) && CanPush(s2, 4) && CanPush(s1, 5);
    assert s6 == Pushes(s5, 1) == Pushes(s4, 2) == Pushes(s3, 3) == Pushes(s2, 4) == Pushes(s1, 5);
  }

  ghost predicate CanPush(s: State, n: nat)
    decreases n
  {
    n == 0 || (s.list != [] && Enabled(s, Push) && CanPush(Next(s, Push), n - 1))
  }

  ghost function Pushes(s: State, n: nat): State
    requires CanPush(s, n)
    decreases n
  {
    if n == 0 then s else Pushes(Next(s, Push), n - 1)
  }

  lemma {:induction false} RunOn(s: State, n: nat, rest: seq<Action>, s1: State, s': State)
    requires CanPush(s, n) && s1 == Pushes(s, n) && Run(s1, rest, s')
    ensures Run(s, seq(n, _ => Push) + rest, s')
    decreases n
  {
    hide Next, Enabled;
    if n == 0 {
      assert seq(0, _ => Push) + rest == rest;
    } else {
      RunOn(Next(s, Push), n - 1, rest, s1, s');
      assert (seq(n, _ => Push) + rest)[1..] == seq(n - 1, _ => Push) + rest;
    }
  }

  // ---- the length report -------------------------------------------------------------

  /** A writer learns the length of the list right after its own item went in. */
  lemma LengthIsOwn(s: State, i: nat)
    requires Inv(s) && i < |s.writers| && s.writers[i].AtAdd? && Enabled(s, Write(i))
    ensures var s' := Next(s, Write(i)); s'.writers[i].r == |Contents(s'.list)|
  {
    AddAppends(s.list, s.writers[i].x);
  }

  /** The three parts of the report and the step that sets each. */
  datatype Field = TimeField | LengthField | IdField

  predicate Sets(w: Writing, f: Field) {
    match f
    case TimeField => w.AtTime?
    case LengthField => w.AtLength?
    case IdField => w.AtId?
  }

  function Part(r: Report, f: Field): int {
    match f
    case TimeField => r.time
    case LengthField => r.length
    case IdField => r.id
  }

  /** What a writer puts into a part of the report. */
  function OwnPart(w: Writing, f: Field): int
    requires Reporting(w)
  {
    match f
    case TimeField => w.x.element.time
    case LengthField => w.r % 0x1_0000
    case IdField => w.x.element.payload
  }

  /** No step of the run sets this part of the report. */
  ghost predicate Unset(s: State, actions: seq<Action>, f: Field)
    decreases |actions|
  {
    actions == [] ||
    (s.list != [] && Enabled(s, actions[0])
     && !(actions[0].Write? && Sets(s.writers[actions[0].i], f)) && Unset(Next(s, actions[0]), actions[1..], f))
  }

  lemma {:induction false} UnsetStays(s: State, actions: seq<Action>, s': State, f: Field)
    requires Run(s, actions, s') && Unset(s, actions, f)
    ensures Part(s'.report, f) == Part(s.report, f)
    decreases |actions|
  {
    if actions != [] {
      UnsetStays(Next(s, actions[0]), actions[1..], s', f);
    }
  }

  /** Over every run each part of the report is what the last writer to set it put there, whoever reports. */
  lemma LastSetterWins(s: State, j: nat, actions: seq<Action>, s': State, f: Field)
    requires s.list != [] && Enabled(s, Write(j)) && Sets(s.writers[j], f)
    requires Run(Next(s, Write(j)), actions, s') && Unset(Next(s, Write(j)), actions, f)
    ensures Part(s'.report, f) == OwnPart(s.writers[j], f)
  {
    UnsetStays(Next(s, Write(j)), actions, s', f);
  }

  /** Other writers set no part of the report while writer i is on its way to its report; the pusher, the
      shutdown, new calls and writers in or before the lock may do as they like. */
  ghost predicate Quiet(s: State, actions: seq<Action>, i: nat)
    decreases |actions|
  {
    actions == [] ||
    (s.list != [] && Enabled(s, actions[0])
     && (actions[0].Write? ==>
           var w := s.writers[actions[0].i];
           if actions[0].i == i then !w.AtReport? else !(w.AtTime? || w.AtLength? || w.AtId?))
     && Quiet(Next(s, actions[0]), actions[1..], i))
  }

  /** How far writer i has come with reporting `x` and `r`. */
  ghost predicate OnTheWay(s: State, i: nat, x: Cell, r: int) {
    && i < |s.writers| && Reporting(s.writers[i]) && s.writers[i].x == x && s.writers[i].r == r
    && (!s.writers[i].AtTime? ==> s.report.time == x.element.time)
    && (s.writers[i].AtId? || s.writers[i].AtReport? ==> s.report.length == r % 0x1_0000)
    && (s.writers[i].AtReport? ==> s.report.id == x.element.payload)
  }

  lemma QuietStep(s: State, a: Action, i: nat, x: Cell, r: int)
    requires s.list != [] && Enabled(s, a) && Quiet(s, [a], i) && OnTheWay(s, i, x, r)
    ensures OnTheWay(Next(s, a), i, x, r)
  {
    hide Added, Removed, Contents;
    assert [a][0] == a;
  }

  lemma {:induction false} QuietRun(s: State, actions: seq<Action>, s': State, i: nat, x: Cell, r: int)
    requires Run(s, actions, s') && Quiet(s, actions, i) && OnTheWay(s, i, x, r)
    ensures OnTheWay(s', i, x, r)
    decreases |actions|
  {
    hide OnTheWay, Next;
    if actions != [] {
      assert Quiet(s, [actions[0]], i) by { assert [actions[0]][1..] == []; }
      QuietStep(s, actions[0], i, x, r);
      QuietRun(Next(s, actions[0]), actions[1..], s', i, x, r);
    }
  }

  /** Whatever else happens, a writer that no other one disturbs between its first step of the report and the
      last reports its own time and id, and the length it was told exactly if that is below 65536. */
  lemma UndisturbedReport(s: State, actions: seq<Action>, s': State, i: nat)
    requires Inv(s) && i < |s.writers| && s.writers[i].AtTime?
    requires Run(s, actions, s') && Quiet(s, actions, i) && i < |s'.writers| && s'.writers[i].AtReport?
    ensures Enabled(s', Write(i)) && s'.list != []
    ensures var w, done := s.writers[i], Next(s', Write(i)).reported;
            && done == s'.reported + [(w.x.key, Report(w.x.element.time, w.r % 0x1_0000, w.x.element.payload))]
            && (done[|s'.reported|].1.length == w.r <==> w.r < 0x1_0000)
  {
    var w := s.writers[i];
    StartsOut(s, i);
    hide *;
    RunInv(s, actions, s');
    QuietRun(s, actions, s', i, w.x, w.r);
    ReportDone(s', i, w.x, w.r);
  }

  lemma StartsOut(s: State, i: nat)
    requires Inv(s) && i < |s.writers| && s.writers[i].AtTime?
    ensures s.writers[i].r > 0 && OnTheWay(s, i, s.writers[i].x, s.writers[i].r)
  {
    assert Told(s.writers[i]);
  }

  lemma ReportDone(s: State, i: nat, x: Cell, r: int)
    requires Inv(s) && OnTheWay(s, i, x, r) && s.writers[i].AtReport? && r > 0
    ensures Enabled(s, Write(i)) && s.list != []
    ensures var done := Next(s, Write(i)).reported;
            && done == s.reported + [(x.key, Report(x.element.time, r % 0x1_0000, x.element.payload))]
            && (done[|s.reported|].1.length == r <==> r < 0x1_0000)
  {
    hide Exclusive, Conserved, Counted, LengthsPositive;
    assert s.report == Report(x.element.time, r % 0x1_0000, x.element.payload);
  }

  /** A writer that sets a part of the report after writer i has set its own makes i report that part, whatever
      else happens, until someone sets it again. */
  lemma DisturbedReport(s: State, i: nat, j: nat, actions: seq<Action>, s': State, f: Field)
    requires s.list != [] && i < |s.writers| && j != i && Enabled(s, Write(j)) && Sets(s.writers[j], f)
    requires Run(Next(s, Write(j)), actions, s') && Unset(Next(s, Write(j)), actions, f)
    requires s'.list != [] && i < |s'.writers| && s'.writers[i].AtReport?
    ensures var done := Next(s', Write(i)).reported;
            && |done| == |s'.reported| + 1 && done[|s'.reported|].0 == s'.writers[i].x.key
            && Part(done[|s'.reported|].1, f) == OwnPart(s.writers[j], f)
            && (Part(done[|s'.reported|].1, f) == OwnPart(s'.writers[i], f)
                <==> OwnPart(s.writers[j], f) == OwnPart(s'.writers[i], f))
  {
    LastSetterWins(s, j, actions, s', f);
  }

  /** A queue of 65536 items is reported as empty, though it is not. */
  lemma FullQueueReportsEmpty(s: State, actions: seq<Action>, s': State, i: nat)
    requires Inv(s) && i < |s.writers| && s.writers[i].AtTime? && s.writers[i].r == 65536
    requires Run(s, actions, s') && Quiet(s, actions, i) && i < |s'.writers| && s'.writers[i].AtReport?
    ensures Enabled(s', Write(i)) && s'.list != []
    ensures Next(s', Write(i)).reported[|s'.reported|].1.length == 0
  {
    UndisturbedReport(s, actions, s', i);
  }
}
