/** Playing back several files of timed records in the order of their times, behind the odometry. */
module FileMerge {
  import opened StableSort

  type Entry = Timed<int>

  /** An open file: the record read ahead, with the delay added, and the records still in the file. */
  datatype Source = Source(data: Entry, rest: seq<Entry>, delay: int)

  function Delayed(records: seq<Entry>, delay: int): (r: seq<Entry>)
    ensures |r| == |records|
    ensures forall i :: 0 <= i < |r| ==> r[i] == records[i].(time := records[i].time + delay)
  {
    if records == [] then []
    else [records[0].(time := records[0].time + delay)] + Delayed(records[1..], delay)
  }

  /** All records of a source that are still to come. */
  function Stream(s: Source): seq<Entry> {
    [s.data] + Delayed(s.rest, s.delay)
  }

  /** The source one record on. */
  function ReadOn(s: Source): Source
    requires s.rest != []
  {
    s.(data := s.rest[0].(time := s.rest[0].time + s.delay), rest := s.rest[1..])
  }

  /** The odometry read on until it is at least as new as t, if it gets there. */
  function ReadUpTo(odom: Source, t: int): (r: (Source, bool))
    ensures r.1 ==> r.0.data.time >= t
    decreases |odom.rest|
  {
    if odom.data.time >= t then (odom, true)
    else if odom.rest == [] then (odom, false)
    else ReadUpTo(ReadOn(odom), t)
  }

  /** The file the next record comes from: the first in the list among those with the oldest record. */
  ghost predicate IsOldest(files: seq<Source>, f: int) {
    && 0 <= f < |files|
    && (forall i :: 0 <= i < |files| ==> files[f].data.time <= files[i].data.time)
    && (forall i :: 0 <= i < f ==> files[f].data.time < files[i].data.time)
  }

  function Oldest(files: seq<Source>): (f: nat)
    requires files != []
    ensures f < |files| && IsOldest(files, f)
  {
    if |files| == 1 then 0
    else
      var g := Oldest(files[..|files| - 1]);
      if files[|files| - 1].data.time < files[g].data.time then |files| - 1 else g
  }

  /** The files after one record was taken from file f; an exhausted file leaves the list. */
  function Advanced(files: seq<Source>, f: nat): seq<Source>
    requires f < |files|
  {
    if files[f].rest == [] then files[..f] + files[f + 1..] else files[f := ReadOn(files[f])]
  }

  /** The playback: whether the odometry file is still open, the odometry and the data files. */
  datatype State = State(open: bool, odom: Source, files: seq<Source>)

  /** One step: the state after it and the record taken, if any. */
  function Step(s: State): (State, seq<Entry>) {
    if !s.open then (s, [])
    else if s.files == [] then
      (if s.odom.rest == [] then s.(open := false) else s.(odom := ReadOn(s.odom)), [])
    else
      var f := Oldest(s.files);
      var read := ReadUpTo(s.odom, s.files[f].data.time);
      if !read.1 then (s.(odom := read.0, open := false), [])
      else (s.(odom := read.0, files := Advanced(s.files, f)), [s.files[f].data])
  }

  function After(s: State, n: nat): State
    decreases n
  {
    if n == 0 then s else After(Step(s).0, n - 1)
  }

  /** The records taken in n steps. */
  function Taken(s: State, n: nat): seq<Entry>
    decreases n
  {
    if n == 0 then [] else Step(s).1 + Taken(Step(s).0, n - 1)
  }

  // ---- merging -----------------------------------------------------------------------

  /** All records still to come, file by file. */
  function Remaining(files: seq<Source>): seq<Entry> {
    if files == [] then [] else Stream(files[0]) + Remaining(files[1..])
  }

  ghost predicate InOrder(files: seq<Source>) {
    forall i :: 0 <= i < |files| ==> Sorted(Stream(files[i]))
  }

  lemma {:induction false} RemainingConcat(a: seq<Source>, b: seq<Source>)
    ensures Remaining(a + b) == Remaining(a) + Remaining(b)
  {
    if a == [] {
      assert a + b == b;
    } else {
      assert (a + b)[1..] == a[1..] + b;
      RemainingConcat(a[1..], b);
    }
  }

  /** What one file gives up on being advanced. */
  lemma StreamSplits(s: Source)
    ensures s.rest == [] ==> Stream(s) == [s.data]
    ensures s.rest != [] ==> Stream(s) == [s.data] + Stream(ReadOn(s)) && |ReadOn(s).rest| < |s.rest|
  {
  }

  /** Taking a record from file f takes it out of what remains, in front of the rest of its own file. */
  lemma RemainingAdvanced(files: seq<Source>, f: nat)
    requires f < |files|
    ensures var before, after := Remaining(files[..f]), Remaining(files[f + 1..]);
            var own := if files[f].rest == [] then [] else Stream(ReadOn(files[f]));
            && Remaining(files) == before + ([files[f].data] + own) + after
            && Remaining(Advanced(files, f)) == before + own + after
  {
    if files[f].rest == [] {
      LastTaken(files, f);
    } else {
      OneTaken(files, f);
    }
  }

  lemma LastTaken(files: seq<Source>, f: nat)
    requires f < |files| && files[f].rest == []
    ensures Remaining(files) == Remaining(files[..f]) + ([files[f].data] + []) + Remaining(files[f + 1..])
    ensures Remaining(Advanced(files, f)) == Remaining(files[..f]) + [] + Remaining(files[f + 1..])
  {
    assert Advanced(files, f) == files[..f] + files[f + 1..];
    hide *;
    StreamSplits(files[f]);
    Around(files, f, files[f]);
    Middle(files[..f], files[f], files[f + 1..]);
    RemainingConcat(files[..f], files[f + 1..]);
    assert [files[f].data] + [] == [files[f].data];
    assert Remaining(files[..f]) + [] == Remaining(files[..f]);
  }

  lemma OneTaken(files: seq<Source>, f: nat)
    requires f < |files| && files[f].rest != []
    ensures Remaining(files)
            == Remaining(files[..f]) + ([files[f].data] + Stream(ReadOn(files[f]))) + Remaining(files[f + 1..])
    ensures Remaining(Advanced(files, f))
            == Remaining(files[..f]) + Stream(ReadOn(files[f])) + Remaining(files[f + 1..])
  {
    Around(files, f, files[f]);
    Around(files, f, ReadOn(files[f]));
    Middle(files[..f], files[f], files[f + 1..]);
    Middle(files[..f], ReadOn(files[f]), files[f + 1..]);
    hide Stream, ReadOn, Remaining;
    StreamSplits(files[f]);
  }

  lemma Around(files: seq<Source>, f: nat, s: Source)
    requires f < |files|
    ensures files[f := s] == files[..f] + [s] + files[f + 1..]
    ensures s == files[f] ==> files[f := s] == files
  {
  }

  lemma Middle(a: seq<Source>, s: Source, b: seq<Source>)
    ensures Remaining(a + [s] + b) == Remaining(a) + Stream(s) + Remaining(b)
  {
    hide Stream;
    RemainingConcat(a + [s], b);
    RemainingConcat(a, [s]);
    assert Remaining([s]) == Stream(s) + Remaining([]);
  }

  lemma {:induction false} RemainingFrom(files: seq<Source>, t: int, strict: bool)
    requires InOrder(files)
    requires forall i :: 0 <= i < |files| ==> if strict then files[i].data.time > t else files[i].data.time >= t
    ensures forall i :: 0 <= i < |Remaining(files)| ==>
                          if strict then Remaining(files)[i].time > t else Remaining(files)[i].time >= t
  {
    if files != [] {
      var first := Stream(files[0]);
      assert forall i :: 0 <= i < |first| ==> first[0].time <= first[i].time;
      RemainingFrom(files[1..], t, strict);
    }
  }

  /** The first of the oldest records comes first in the stable sort of all that remain. */
  lemma OldestIsFirst(files: seq<Source>, f: nat)
    requires InOrder(files) && IsOldest(files, f)
    ensures Sort(Remaining(files)) == [files[f].data] + Sort(Remaining(Advanced(files, f)))
  {
    var x := files[f].data;
    var before, after := Remaining(files[..f]), Remaining(files[f + 1..]);
    var own := if files[f].rest == [] then [] else Stream(ReadOn(files[f]));
    RemainingAdvanced(files, f);
    RemainingFrom(files[..f], x.time, true);
    RemainingFrom(files, x.time, false);
    TakeOut(before, x, own, after);
  }

  /** A record that is no newer than any other and newer than none before it can be taken out first. */
  lemma TakeOut(before: seq<Entry>, x: Entry, own: seq<Entry>, after: seq<Entry>)
    requires forall i :: 0 <= i < |before| ==> before[i].time > x.time
    requires forall i :: 0 <= i < |before + ([x] + own) + after| ==> (before + ([x] + own) + after)[i].time >= x.time
    ensures Sort(before + ([x] + own) + after) == [x] + Sort(before + own + after)
  {
    hide Sort;
    var all, less := before + ([x] + own) + after, before + own + after;
    SortIsStable(all, 0);
    SortIsStable(less, 0);
    forall y | y in Sort(less) ensures x.time <= y.time {
      assert y in multiset(Sort(less));
      assert y in less;
      assert y in all;
    }
    assert Sorted([x] + Sort(less)) by {
      assert forall i :: 0 <= i < |Sort(less)| ==> Sort(less)[i] in Sort(less);
    }
    forall t ensures AtTime(Sort(all), t) == AtTime([x] + Sort(less), t) {
      SortIsStable(all, t);
      SortIsStable(less, t);
      AtTimeConcat([x], Sort(less), t);
      AtTimeAround(before, x, own, after, t);
    }
    SortedIsUnique(Sort(all), [x] + Sort(less));
  }

  lemma AtTimeAround(before: seq<Entry>, x: Entry, own: seq<Entry>, after: seq<Entry>, t: int)
    requires forall i :: 0 <= i < |before| ==> before[i].time > x.time
    ensures AtTime(before + ([x] + own) + after, t) == AtTime([x], t) + AtTime(before + own + after, t)
  {
    hide *;
    AtTimeConcat(before + ([x] + own), after, t);
    AtTimeConcat(before, [x] + own, t);
    AtTimeConcat([x], own, t);
    AtTimeConcat(before + own, after, t);
    AtTimeConcat(before, own, t);
    if t == x.time {
      NoneAtTime(before, t);
    } else {
      NoneAtTime([x], t);
    }
  }

  lemma AdvancedInOrder(files: seq<Source>, f: nat)
    requires InOrder(files) && f < |files|
    ensures InOrder(Advanced(files, f))
  {
    hide Stream, ReadOn;
    StreamSplits(files[f]);
    if files[f].rest != [] {
      var s := ReadOn(files[f]);
      assert Sorted(Stream(s)) by {
        assert forall i :: 0 <= i < |Stream(s)| ==> Stream(s)[i] == ([files[f].data] + Stream(s))[i + 1];
      }
    }
  }

  // ---- whole runs --------------------------------------------------------------------

  /** After any number of steps: what was taken, followed by the stable sort of what remains, is the stable
      sort of all records of all files. So the records taken are a prefix of the merge. */
  lemma {:induction false} TakenIsPrefixOfMerge(s: State, n: nat)
    requires InOrder(s.files)
    ensures Taken(s, n) + Sort(Remaining(After(s, n).files)) == Sort(Remaining(s.files))
    decreases n
  {
    hide Remaining, Sort, InOrder, IsOldest;
    if n > 0 {
      var s1 := Step(s).0;
      if s.open && s.files != [] {
        OldestIsFirst(s.files, Oldest(s.files));
        AdvancedInOrder(s.files, Oldest(s.files));
      }
      TakenIsPrefixOfMerge(s1, n - 1);
    }
  }

  /** A record is only taken when the odometry read so far is at least as new. */
  lemma TakenBehindOdometry(s: State)
    ensures var (s', taken) := Step(s);
            && |taken| <= 1
            && (taken != [] ==> s'.odom.data.time >= taken[0].time)
            && (s.open && s.files != [] ==> (taken != [] <==> s'.open))
  {
  }

  /** The odometry gets as far as t. */
  ghost predicate Reaches(odom: Source, t: int) {
    exists i :: 0 <= i < |Stream(odom)| && Stream(odom)[i].time >= t
  }

  lemma {:induction false} ReadUpToIff(odom: Source, t: int)
    ensures ReadUpTo(odom, t).1 <==> Reaches(odom, t)
    ensures forall u :: u > t && Reaches(odom, u) ==> Reaches(ReadUpTo(odom, t).0, u)
    ensures forall u :: u >= t && Reaches(ReadUpTo(odom, t).0, u) ==> Reaches(odom, u)
    decreases |odom.rest|
  {
    hide Stream, ReadOn;
    StreamHead(odom);
    StreamSplits(odom);
    if odom.data.time >= t {
      assert Stream(odom)[0].time >= t;
    } else if odom.rest != [] {
      var next := ReadOn(odom);
      ReadUpToIff(ReadOn(odom), t);
      forall u | u >= t ensures Reaches(odom, u) <==> Reaches(next, u) {
        if Reaches(odom, u) {
          var i :| 0 <= i < |Stream(odom)| && Stream(odom)[i].time >= u;
          assert Stream(next)[i - 1].time >= u;
        }
        if Reaches(next, u) {
          var i :| 0 <= i < |Stream(next)| && Stream(next)[i].time >= u;
          assert Stream(odom)[i + 1].time >= u;
        }
      }
      hide Reaches;
    }
  }

  lemma StreamHead(s: Source)
    ensures Stream(s)[0] == s.data
  {
  }

  /** The record that is due next, if the odometry reaches it. */
  lemma StepTakes(s: State)
    requires InOrder(s.files) && s.open && s.files != [] && Reaches(s.odom, Due(s).time)
    ensures var (s1, taken) := Step(s);
            && s1.open && taken == [Due(s)] && s1.odom == ReadUpTo(s.odom, Due(s).time).0 && InOrder(s1.files)
            && Sort(Remaining(s.files)) == [Due(s)] + Sort(Remaining(s1.files))
            && s1.files == Advanced(s.files, Oldest(s.files))
            && |Remaining(s.files)| == |Remaining(s1.files)| + 1
  {
    hide Stream, ReadOn, Remaining, Reaches, IsOldest, InOrder, Sort;
    OldestIsFirst(s.files, Oldest(s.files));
    AdvancedInOrder(s.files, Oldest(s.files));
    ReadUpToIff(s.odom, Due(s).time);
    SortLength(Remaining(s.files));
    SortLength(Remaining(Step(s).0.files));
  }

  lemma SortLength(s: seq<Entry>)
    ensures |Sort(s)| == |s|
  {
  }

  function Due(s: State): Entry
    requires s.files != []
  {
    s.files[Oldest(s.files)].data
  }

  /** If the odometry does not reach it, the step takes nothing and playback is over. */
  lemma StepStops(s: State)
    requires s.open && s.files != [] && !Reaches(s.odom, Due(s).time)
    ensures !Step(s).0.open && Step(s).1 == []
  {
    hide Stream, ReadOn, Remaining, Reaches, IsOldest, InOrder;
    ReadUpToIff(s.odom, Due(s).time);
  }

  lemma DueIsLeast(s: State)
    requires InOrder(s.files) && s.files != []
    ensures Due(s) in Remaining(s.files)
    ensures forall y :: y in Remaining(s.files) ==> Due(s).time <= y.time
  {
    RemainingFrom(s.files, Due(s).time, false);
    RemainingAdvanced(s.files, Oldest(s.files));
    hide Remaining;
  }

  /** Nothing but the due record leaves. */
  lemma OthersRemain(s: State, y: Entry)
    requires s.files != []
    ensures y in Remaining(s.files) <==> y == Due(s) || y in Remaining(Advanced(s.files, Oldest(s.files)))
  {
    hide Remaining, Stream, ReadOn;
    RemainingAdvanced(s.files, Oldest(s.files));
  }

  ghost predicate AllReached(s: State) {
    forall y :: y in Remaining(s.files) ==> Reaches(s.odom, y.time)
  }

  /** Reading odometry up to a record loses none that later records need. */
  lemma OdometryCarriesOn(s: State, s1: State)
    requires InOrder(s.files) && s.files != [] && Reaches(s.odom, Due(s).time)
    requires s1.odom == ReadUpTo(s.odom, Due(s).time).0 && s1.files == Advanced(s.files, Oldest(s.files))
    ensures AllReached(s) <==> AllReached(s1)
  {
    hide Remaining, Reaches, InOrder, IsOldest, ReadUpTo, Advanced, Due;
    var x := Due(s);
    DueIsLeast(s);
    ReadUpToIff(s.odom, x.time);
    AtLeastHead(s1.odom, x.time);
    forall y ensures y in Remaining(s.files) <==> y == x || y in Remaining(s1.files) {
      OthersRemain(s, y);
    }
  }

  lemma AtLeastHead(odom: Source, t: int)
    requires odom.data.time >= t
    ensures Reaches(odom, t)
  {
    StreamHead(odom);
    assert Stream(odom)[0].time >= t;
  }

  lemma {:induction false} ClosedTakesNothing(s: State, n: nat)
    requires !s.open
    ensures Taken(s, n) == []
    decreases n
  {
    if n > 0 { ClosedTakesNothing(s, n - 1); }
  }

  /** Playing on until every record had its turn plays the whole merge exactly if the odometry gets as far as
      each of the records. */
  lemma {:induction false} WholeMergeIff(s: State)
    requires InOrder(s.files) && s.open
    ensures Taken(s, |Remaining(s.files)|) == Sort(Remaining(s.files)) <==> AllReached(s)
    decreases |Remaining(s.files)|
  {
    if s.files == [] {
      assert Remaining(s.files) == [] && Sort(Remaining(s.files)) == [] by { SortNothing(); }
    } else if Reaches(s.odom, Due(s).time) {
      hide *;
      StepTakes(s);
      WholeMergeIff(Step(s).0);
      OdometryCarriesOn(s, Step(s).0);
      TakenStep(s, |Remaining(s.files)|);
      SameTail(Due(s), Taken(Step(s).0, |Remaining(s.files)| - 1), Sort(Remaining(Step(s).0.files)));
    } else {
      hide *;
      StepStops(s);
      DueIsLeast(s);
      NotAllReached(s, Due(s));
      ClosedTakesNothing(Step(s).0, |Remaining(s.files)| - 1);
      TakenStep(s, |Remaining(s.files)|);
      SortLength(Remaining(s.files));
    }
  }

  lemma TakenStep(s: State, n: nat)
    requires n > 0
    ensures Taken(s, n) == Step(s).1 + Taken(Step(s).0, n - 1)
  {
  }

  lemma NotAllReached(s: State, y: Entry)
    requires y in Remaining(s.files) && !Reaches(s.odom, y.time)
    ensures !AllReached(s)
  {
  }

  lemma SameTail(x: Entry, a: seq<Entry>, b: seq<Entry>)
    ensures [x] + a == [x] + b <==> a == b
  {
    assert a == ([x] + a)[1..] && b == ([x] + b)[1..];
  }

  lemma SortNothing()
    ensures Sort<int>([]) == []
  {
  }

  // ---- the odometry over a whole playback --------------------------------------------

  /** The odometry records that reading up to t takes from the file. */
  function ReadRecords(odom: Source, t: int): seq<Entry>
    decreases |odom.rest|
  {
    if odom.data.time >= t || odom.rest == [] then []
    else [ReadOn(odom).data] + ReadRecords(ReadOn(odom), t)
  }

  /** The odometry records a step passes on: all up to the next data record, or one if there is none. */
  function PassedOn(s: State): seq<Entry> {
    if !s.open then []
    else if s.files != [] then ReadRecords(s.odom, s.files[Oldest(s.files)].data.time)
    else if s.odom.rest == [] then []
    else [ReadOn(s.odom).data]
  }

  function PassedInAll(s: State, n: nat): seq<Entry>
    decreases n
  {
    if n == 0 then [] else PassedOn(s) + PassedInAll(Step(s).0, n - 1)
  }

  /** The odometry records still in the file. */
  function Unread(odom: Source): seq<Entry> {
    Stream(odom)[1..]
  }

  lemma UnreadIs(odom: Source)
    ensures odom.rest == [] ==> Unread(odom) == []
    ensures odom.rest != [] ==> Unread(odom) == [ReadOn(odom).data] + Unread(ReadOn(odom))
  {
    StreamSplits(odom);
  }

  lemma {:induction false} ReadingConserves(odom: Source, t: int)
    ensures ReadRecords(odom, t) + Unread(ReadUpTo(odom, t).0) == Unread(odom)
    ensures |ReadUpTo(odom, t).0.rest| <= |odom.rest|
    ensures !ReadUpTo(odom, t).1 ==> ReadUpTo(odom, t).0.rest == []
    decreases |odom.rest|
  {
    hide Unread, Stream;
    if odom.data.time < t && odom.rest != [] {
      UnreadIs(odom);
      ReadingConserves(ReadOn(odom), t);
    }
  }

  lemma StepPassesOn(s: State)
    ensures PassedOn(s) + Unread(Step(s).0.odom) == Unread(s.odom)
    ensures s.open && !Step(s).0.open ==> Unread(Step(s).0.odom) == []
  {
    hide Unread, Stream, ReadRecords, ReadUpTo, Advanced, IsOldest;
    UnreadIs(s.odom);
    if s.open && s.files != [] {
      ReadingConserves(s.odom, s.files[Oldest(s.files)].data.time);
      UnreadIs(Step(s).0.odom);
    }
  }

  /** Over every run the odometry passed on, followed by what is unread, is the odometry of the file in its
      order; when playback is over, all of it was passed on. */
  lemma {:induction false} OdometryIsPassedOn(s: State, n: nat)
    ensures PassedInAll(s, n) + Unread(After(s, n).odom) == Unread(s.odom)
    ensures s.open && !After(s, n).open ==> PassedInAll(s, n) == Unread(s.odom)
    decreases n
  {
    hide Unread, Step, PassedOn;
    if n > 0 {
      StepPassesOn(s);
      OdometryIsPassedOn(Step(s).0, n - 1);
      if s.open && !After(s, n).open {
        if !Step(s).0.open { ClosedStaysClosed(Step(s).0, n - 1); }
      }
    }
  }

  lemma {:induction false} ClosedStaysClosed(s: State, n: nat)
    requires !s.open
    ensures After(s, n) == s && PassedInAll(s, n) == []
    decreases n
  {
    if n > 0 { ClosedStaysClosed(s, n - 1); }
  }

  /** With no data file left playback goes on, one odometry record a step, until the file has none left. */
  lemma {:induction false} OdometryPlaysOut(s: State, n: nat)
    requires s.open && s.files == []
    ensures n <= |s.odom.rest| ==> After(s, n).open && Stream(After(s, n).odom) == Stream(s.odom)[n..]
    ensures n > |s.odom.rest| ==> !After(s, n).open
    decreases n
  {
    hide Stream;
    StreamSplits(s.odom);
    if n > 0 {
      if s.odom.rest == [] {
        ClosedStaysClosed(Step(s).0, n - 1);
      } else {
        OdometryPlaysOut(Step(s).0, n - 1);
        assert |Stream(ReadOn(s.odom))| == |s.odom.rest| by { StreamLength(ReadOn(s.odom)); }
        if n <= |s.odom.rest| { DropLater(s.odom.data, Stream(ReadOn(s.odom)), n); }
      }
    }
  }

  lemma StreamLength(odom: Source)
    ensures |Stream(odom)| == |odom.rest| + 1
  {
  }

  lemma DropLater(x: Entry, rest: seq<Entry>, n: nat)
    requires 0 < n <= |rest|
    ensures ([x] + rest)[n..] == rest[n - 1..]
  {
  }

  /** Playback ends, and by then has passed on all odometry. */
  lemma {:induction false} PlaybackEnds(s: State, n: nat)
    requires n > |Remaining(s.files)| + |s.odom.rest|
    ensures !After(s, n).open
    ensures s.open ==> PassedInAll(s, n) == Unread(s.odom)
    decreases n
  {
    hide *;
    OdometryIsPassedOn(s, n);
    AfterFirst(s, n);
    if !s.open {
      ClosedStaysClosed(s, n);
    } else if s.files == [] {
      OdometryPlaysOut(s, n);
    } else {
      StepUsesUp(s);
      if Step(s).0.open {
        PlaybackEnds(Step(s).0, n - 1);
      } else {
        ClosedStaysClosed(Step(s).0, n - 1);
      }
    }
  }

  lemma AfterFirst(s: State, n: nat)
    requires n > 0
    ensures After(s, n) == After(Step(s).0, n - 1)
  {
  }

  lemma StepUsesUp(s: State)
    requires s.open && s.files != []
    ensures var s1 := Step(s).0;
            s1.open ==> |Remaining(s1.files)| + |s1.odom.rest| < |Remaining(s.files)| + |s.odom.rest|
  {
    hide Stream, IsOldest, Remaining, Advanced, ReadUpTo;
    RemainingAdvanced(s.files, Oldest(s.files));
    ReadingConserves(s.odom, s.files[Oldest(s.files)].data.time);
  }
}
