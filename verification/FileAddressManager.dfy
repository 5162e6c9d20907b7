/** Plays recorded files back to addresses, always the oldest record first and odometry ahead of it. */
module FileAddressManagers {
  import opened ErrorCodes
  import opened FileMerge
  import opened Selections
  import opened StableSort

  /** A file of the list; `push` is false once its address is gone. */
  datatype FileData = FileData(name: string, source: Source, push: bool)

  /** Whether the k-th odometry write, the k-th write of an empty measurement and the data write of a step
      find their address. */
  datatype World = World(odom: nat -> bool, fake: nat -> bool, data: bool)

  datatype Event = Odometry(time: int) | Fake(time: int) | Data(x: Entry)

  function Sources(files: seq<FileData>): (r: seq<Source>)
    ensures |r| == |files| && forall i :: 0 <= i < |r| ==> r[i] == files[i].source
  {
    if files == [] then [] else [files[0].source] + Sources(files[1..])
  }

  /** The data records written. */
  function DataIn(log: seq<Event>): seq<Entry> {
    if log == [] then [] else (if log[0].Data? then [log[0].x] else []) + DataIn(log[1..])
  }

  lemma LogCons(e: Event, log: seq<Event>)
    ensures DataIn([e] + log) == (if e.Data? then [e.x] else []) + DataIn(log)
  {
    assert ([e] + log)[1..] == log;
  }

  lemma {:induction false} LogsConcat(a: seq<Event>, b: seq<Event>)
    ensures DataIn(a + b) == DataIn(a) + DataIn(b)
  {
    hide *;
    if a == [] {
      assert a + b == b;
      LogOne(Fake(0));
    } else {
      var e, rest := a[0], a[1..];
      assert a == [e] + rest && a + b == [e] + (rest + b);
      LogCons(e, rest);
      LogCons(e, rest + b);
      LogsConcat(rest, b);
    }
  }

  lemma LogOne(e: Event)
    ensures DataIn([]) == []
    ensures DataIn([e]) == if e.Data? then [e.x] else []
  {
    assert [e][1..] == [];
  }

  lemma SourcesSet(files: seq<FileData>, i: nat, x: FileData)
    requires i < |files|
    ensures Sources(files[i := x]) == Sources(files)[i := x.source]
  {
    hide Sources;
  }

  lemma SourcesCut(files: seq<FileData>, i: nat)
    requires i < |files|
    ensures Sources(files[..i] + files[i + 1..]) == Sources(files)[..i] + Sources(files)[i + 1..]
  {
    hide Sources;
  }

  /** What is written for odometry records: each of them, and an empty measurement after each if asked for. */
  function Announced(records: seq<Entry>, fake: bool): seq<Event> {
    if records == [] then []
    else [Odometry(records[0].time)] + (if fake then [Fake(records[0].time)] else []) + Announced(records[1..], fake)
  }

  /** The list after a record of file fd: that file moves on or goes, keeping its address only if the write
      found it; the other files stay as they are. */
  function Kept(files: seq<FileData>, fd: nat, alive: bool): seq<FileData>
    requires fd < |files|
  {
    var f := files[fd];
    if f.source.rest == [] then files[..fd] + files[fd + 1..]
    else files[fd := FileData(f.name, ReadOn(f.source), f.push && alive)]
  }

  lemma AnnouncedFew(x: Entry, fake: bool)
    ensures Announced([], fake) == []
    ensures Announced([x], fake) == [Odometry(x.time)] + if fake then [Fake(x.time)] else []
  {
    assert [x][1..] == [];
  }

  /** Each record is announced, in order, and followed by its empty measurement if those are asked for. */
  lemma {:induction false} AnnouncedAt(records: seq<Entry>, i: nat)
    requires i < |records|
    ensures |Announced(records, false)| == |records| && Announced(records, false)[i] == Odometry(records[i].time)
    ensures |Announced(records, true)| == 2 * |records|
    ensures Announced(records, true)[2 * i] == Odometry(records[i].time)
    ensures Announced(records, true)[2 * i + 1] == Fake(records[i].time)
    decreases |records|
  {
    if |records| > 1 { AnnouncedAt(records[1..], if i == 0 then 0 else i - 1); }
  }

  // ---- a step and a run at the level of the files -------------------------------------

  /** The playback with the list of files in place of their sources. */
  datatype Player = Player(open: bool, odom: Source, files: seq<FileData>)

  function PlayOf(p: Player): State {
    State(p.open, p.odom, Sources(p.files))
  }

  /** One step of the merge, and the data written in it: the record taken, if its file still has its address
      and that can be written to. */
  function Tick(p: Player, alive: bool): (Player, seq<Entry>) {
    var (s, taken) := FileMerge.Step(PlayOf(p));
    if taken == [] then (Player(s.open, s.odom, p.files), [])
    else
      var fd := NextFile(p);
      (Player(s.open, s.odom, Kept(p.files, fd, alive)), if p.files[fd].push && alive then taken else [])
  }

  lemma KeptSources(files: seq<FileData>, fd: nat, alive: bool)
    requires fd < |files|
    ensures Sources(Kept(files, fd, alive)) == Advanced(Sources(files), fd)
  {
    hide Sources;
    var f := files[fd];
    if f.source.rest == [] {
      SourcesCut(files, fd);
    } else {
      SourcesSet(files, fd, FileData(f.name, ReadOn(f.source), f.push && alive));
    }
  }

  lemma TickIsStep(p: Player, alive: bool)
    ensures PlayOf(Tick(p, alive).0) == FileMerge.Step(PlayOf(p)).0
  {
    hide Sources, Kept, Advanced, ReadUpTo, IsOldest;
    if p.files != [] { KeptSources(p.files, NextFile(p), alive); }
  }

  /** The data written over a run; the k-th value says whether the address of the k-th step can be written to. */
  function WrittenIn(p: Player, alives: seq<bool>): seq<Entry>
    decreases |alives|
  {
    if alives == [] then [] else Tick(p, alives[0]).1 + WrittenIn(Tick(p, alives[0]).0, alives[1..])
  }

  /** The names of the files that the records taken over a run come from. */
  function Origins(p: Player, alives: seq<bool>): (names: seq<string>)
    ensures |names| <= |alives|
    decreases |alives|
  {
    if alives == [] || FileMerge.Step(PlayOf(p)).1 == [] then []
    else [p.files[NextFile(p)].name] + Origins(Tick(p, alives[0]).0, alives[1..])
  }

  /** The place in the list of the file the next record comes from. */
  function NextFile(p: Player): (fd: nat)
    requires p.files != []
    ensures fd < |p.files|
  {
    Oldest(Sources(p.files))
  }

  ghost predicate Distinct(files: seq<FileData>) {
    forall i, j :: 0 <= i < j < |files| ==> files[i].name != files[j].name
  }

  /** A file of that name is open and has its address. */
  ghost predicate Addressed(files: seq<FileData>, name: string) {
    exists i :: 0 <= i < |files| && files[i].name == name && files[i].push
  }

  ghost predicate Named(files: seq<FileData>, name: string) {
    exists i :: 0 <= i < |files| && files[i].name == name
  }

  /** The i-th record taken is written: its file had its address to begin with, and every write of a record of
      that file found it, up to and including this one. */
  ghost predicate Delivered(p: Player, alives: seq<bool>, origins: seq<string>, i: nat)
    requires i < |origins| <= |alives|
  {
    Addressed(p.files, origins[i]) && forall j :: 0 <= j <= i && origins[j] == origins[i] ==> alives[j]
  }

  ghost function Fates(p: Player, alives: seq<bool>, origins: seq<string>): (fates: seq<bool>)
    requires |origins| <= |alives|
    ensures |fates| == |origins|
  {
    seq(|origins|, i requires 0 <= i < |origins| => Delivered(p, alives, origins, i))
  }

  /** A step that takes nothing is followed by none that does. */
  lemma NothingFollows(s: State)
    requires FileMerge.Step(s).1 == []
    ensures FileMerge.Step(FileMerge.Step(s).0).1 == []
  {
  }

  lemma {:induction false} NothingMore(p: Player, alives: seq<bool>)
    requires FileMerge.Step(PlayOf(p)).1 == []
    ensures WrittenIn(p, alives) == [] && Taken(PlayOf(p), |alives|) == []
    decreases |alives|
  {
    if alives != [] {
      TickIsStep(p, alives[0]);
      NothingFollows(PlayOf(p));
      NothingMore(Tick(p, alives[0]).0, alives[1..]);
    }
  }

  lemma KeptNames(files: seq<FileData>, fd: nat, alive: bool, name: string)
    requires fd < |files| && Distinct(files)
    ensures Distinct(Kept(files, fd, alive))
    ensures Named(Kept(files, fd, alive), name) ==> Named(files, name)
  {
    var kept := Kept(files, fd, alive);
    if Named(kept, name) {
      var i :| 0 <= i < |kept| && kept[i].name == name;
      assert files[if |kept| == |files| || i < fd then i else i + 1].name == name;
    }
  }

  lemma OwnAddress(files: seq<FileData>, fd: nat)
    requires fd < |files| && Distinct(files)
    ensures Named(files, files[fd].name)
    ensures Addressed(files, files[fd].name) <==> files[fd].push
  {
  }

  /** Only the file that was written to can lose its address. */
  lemma KeptAddressed(files: seq<FileData>, fd: nat, alive: bool, name: string)
    requires fd < |files| && Distinct(files) && Named(Kept(files, fd, alive), name)
    ensures Addressed(Kept(files, fd, alive), name)
            <==> Addressed(files, name) && (name == files[fd].name ==> alive)
  {
    var kept := Kept(files, fd, alive);
    var i :| 0 <= i < |kept| && kept[i].name == name;
    var j := if |kept| == |files| || i < fd then i else i + 1;
    KeptNames(files, fd, alive, name);
    OwnAddress(kept, i);
    OwnAddress(files, j);
  }

  /** The first step of a run, if it takes a record. */
  lemma TakingStep(p: Player, alives: seq<bool>)
    requires alives != [] && FileMerge.Step(PlayOf(p)).1 != []
    ensures p.files != []
    ensures var f, p1 := p.files[NextFile(p)], Tick(p, alives[0]).0;
            && p1.files == Kept(p.files, NextFile(p), alives[0])
            && Origins(p, alives) == [f.name] + Origins(p1, alives[1..])
            && Taken(PlayOf(p), |alives|) == [f.source.data] + Taken(PlayOf(p1), |alives[1..]|)
            && WrittenIn(p, alives)
               == (if f.push && alives[0] then [f.source.data] else []) + WrittenIn(p1, alives[1..])
  {
    hide Sources, Kept, FileMerge.Step, NextFile, PlayOf;
    TakesNext(p);
    TickIsStep(p, alives[0]);
  }

  lemma TakesNext(p: Player)
    requires FileMerge.Step(PlayOf(p)).1 != []
    ensures p.files != [] && FileMerge.Step(PlayOf(p)).1 == [p.files[NextFile(p)].source.data]
  {
    hide Advanced, ReadUpTo, IsOldest;
  }

  lemma SomeTaken(p: Player, alives: seq<bool>)
    requires Origins(p, alives) != []
    ensures alives != [] && FileMerge.Step(PlayOf(p)).1 != []
  {
    hide FileMerge.Step, PlayOf, NextFile, Tick;
  }

  lemma {:induction false} OriginsNamed(p: Player, alives: seq<bool>, i: nat)
    requires Distinct(p.files) && i < |Origins(p, alives)|
    ensures Named(p.files, Origins(p, alives)[i])
    decreases |alives|
  {
    hide *;
    SomeTaken(p, alives);
    TakingStep(p, alives);
    var fd := NextFile(p);
    OwnAddress(p.files, fd);
    if i > 0 {
      KeptNames(p.files, fd, alives[0], Origins(p, alives)[i]);
      OriginsNamed(Tick(p, alives[0]).0, alives[1..], i - 1);
    }
  }

  /** The fate of a later record, told from the run without its first step. */
  lemma DeliveredLater(p: Player, p1: Player, alives: seq<bool>, fd: nat, later: seq<string>, i: nat)
    requires alives != [] && i < |later| <= |alives[1..]|
    requires fd < |p.files| && Distinct(p.files) && p1.files == Kept(p.files, fd, alives[0])
    requires Named(p1.files, later[i])
    ensures Delivered(p, alives, [p.files[fd].name] + later, i + 1) <==> Delivered(p1, alives[1..], later, i)
  {
    hide Kept, Distinct, Named, Addressed;
    KeptAddressed(p.files, fd, alives[0], later[i]);
    var origins := [p.files[fd].name] + later;
    if Delivered(p, alives, origins, i + 1) {
      forall j | 0 <= j <= i && later[j] == later[i] ensures alives[1..][j] { assert origins[j + 1] == origins[i + 1]; }
    }
    if Delivered(p1, alives[1..], later, i) {
      forall j | 0 <= j <= i + 1 && origins[j] == origins[i + 1] ensures alives[j] {
        if j > 0 { assert later[j - 1] == later[i] && alives[1..][j - 1]; }
      }
    }
  }

  lemma FatesStep(p: Player, alives: seq<bool>)
    requires Distinct(p.files) && alives != [] && FileMerge.Step(PlayOf(p)).1 != []
    ensures p.files != []
    ensures Fates(p, alives, Origins(p, alives))
            == [p.files[NextFile(p)].push && alives[0]]
               + Fates(Tick(p, alives[0]).0, alives[1..], Origins(Tick(p, alives[0]).0, alives[1..]))
  {
    hide *;
    TakingStep(p, alives);
    var p1, fd, origins := Tick(p, alives[0]).0, NextFile(p), Origins(p, alives);
    var later := Origins(p1, alives[1..]);
    OwnAddress(p.files, fd);
    FirstDelivered(p, alives, origins);
    KeptNames(p.files, fd, alives[0], "");
    forall i | 0 <= i < |later|
      ensures Delivered(p, alives, origins, i + 1) <==> Delivered(p1, alives[1..], later, i)
    {
      OriginsNamed(p1, alives[1..], i);
      DeliveredLater(p, p1, alives, fd, later, i);
    }
    FatesCons(p, p1, alives, origins, later, p.files[fd].push && alives[0]);
  }

  lemma FatesCons(p: Player, p1: Player, alives: seq<bool>, origins: seq<string>, later: seq<string>, first: bool)
    requires alives != [] && |later| <= |alives[1..]| && |origins| == 1 + |later|
    requires Delivered(p, alives, origins, 0) <==> first
    requires forall i :: 0 <= i < |later| ==>
                           (Delivered(p, alives, origins, i + 1) <==> Delivered(p1, alives[1..], later, i))
    ensures Fates(p, alives, origins) == [first] + Fates(p1, alives[1..], later)
  {
    hide Delivered;
    var fates, rest := Fates(p, alives, origins), Fates(p1, alives[1..], later);
    forall i | 0 <= i < |origins| ensures fates[i] == ([first] + rest)[i] {
      if i > 0 { assert rest[i - 1] == Delivered(p1, alives[1..], later, i - 1); }
    }
  }

  lemma FirstDelivered(p: Player, alives: seq<bool>, origins: seq<string>)
    requires 0 < |origins| <= |alives|
    ensures Delivered(p, alives, origins, 0) <==> Addressed(p.files, origins[0]) && alives[0]
  {
  }

  /** Over every run the data written are, in the order of the merge, exactly those of the records taken whose
      file had its address to begin with and whose writes so far all found it. */
  lemma {:induction false} WrittenIsPart(p: Player, alives: seq<bool>)
    requires Distinct(p.files)
    ensures |Origins(p, alives)| == |Taken(PlayOf(p), |alives|)|
    ensures WrittenIn(p, alives) == Selected(Taken(PlayOf(p), |alives|), Fates(p, alives, Origins(p, alives)))
    decreases |alives|
  {
    if alives == [] {
      return;
    }
    if FileMerge.Step(PlayOf(p)).1 == [] {
      NothingMore(p, alives);
    } else {
      hide *;
      TakingStep(p, alives);
      FatesStep(p, alives);
      var f, p1 := p.files[NextFile(p)], Tick(p, alives[0]).0;
      KeptNames(p.files, NextFile(p), alives[0], "");
      WrittenIsPart(p1, alives[1..]);
      SelectedCons(f.source.data, Taken(PlayOf(p1), |alives[1..]|), f.push && alives[0],
                   Fates(p1, alives[1..], Origins(p1, alives[1..])));
    }
  }

  class FileAddressManager {
    /** The files that can be opened, with their records. */
    const Disk: map<string, seq<Entry>>
    var OdomName: string
    var OdomOpen: bool
    var Odom: Source
    var OdomPush: bool
    var Files: seq<FileData>
    var FakeMeas: bool
    var OdomTime: int
    var DataTime: int

    /** Every open data file has another name. */
    ghost predicate Valid()
      reads this
    {
      Distinct(Files)
    }

    function Now(): Player
      reads this
    {
      Player(OdomOpen, Odom, Files)
    }

    constructor (disk: map<string, seq<Entry>>)
      ensures Valid() && Files == [] && !OdomOpen && !FakeMeas && Disk == disk
    {
      Disk := disk;
      OdomName, OdomOpen, Odom, OdomPush := "", false, Source(Timed(0, 0), [], 0), false;
      Files, FakeMeas, OdomTime, DataTime := [], false, 0, 0;
    }

    /** Opens the odometry file and passes its first record on; `index` is the index of the address. */
    method AddOdomFile(filename: string, index: nat, delay: int, alive: bool) returns (r: Code, log: seq<Event>)
      requires Valid()
      modifies this`OdomName, this`OdomOpen, this`Odom, this`OdomPush, this`OdomTime
      ensures Valid()
      ensures r == OK <==> filename in Disk && Disk[filename] != []
      ensures OdomOpen <==> r == OK
      ensures r == OK ==>
                && OdomName == filename && Stream(Odom) == Delayed(Disk[filename], delay)
                && (OdomPush <==> index > 0 && alive) && (index > 0 ==> OdomTime == Odom.data.time)
                && log == if OdomPush then [Odometry(Odom.data.time)] else []
      ensures r != OK ==> r == {RESOURCE_ERROR} && log == []
    {
      log := [];
      OdomOpen := false;
      if filename !in Disk { return {RESOURCE_ERROR}, []; }
      OdomName := filename;
      OdomPush := index > 0;
      var records := Disk[filename];
      if records == [] { return {RESOURCE_ERROR}, []; }
      OdomOpen := true;
      Odom := Source(records[0].(time := records[0].time + delay), records[1..], delay);
      if OdomPush {
        if alive { log := [Odometry(Odom.data.time)]; } else { OdomPush := false; }
        OdomTime := Odom.data.time;
      }
      r := OK;
    }

    /** Opens a data file, once, behind those already open; an empty file is no error and is not kept. */
    method AddFile(filename: string, index: nat, delay: int) returns (r: Code)
      requires Valid()
      modifies this`Files
      ensures Valid()
      ensures r == if filename == OdomName || (exists i :: 0 <= i < |old(Files)| && old(Files)[i].name == filename)
                      || filename !in Disk
                   then {RESOURCE_ERROR} else OK
      ensures r != OK || Disk[filename] == [] ==> Files == old(Files)
      ensures r == OK && Disk[filename] != [] ==>
                && |Files| == |old(Files)| + 1 && Files[..|old(Files)|] == old(Files)
                && Files[|old(Files)|].name == filename && (Files[|old(Files)|].push <==> index > 0)
                && Stream(Files[|old(Files)|].source) == Delayed(Disk[filename], delay)
    {
      if OdomName == filename { return {RESOURCE_ERROR}; }
      var i := 0;
      while i < |Files|
        invariant i <= |Files| && forall k :: 0 <= k < i ==> Files[k].name != filename
      {
        if Files[i].name == filename { return {RESOURCE_ERROR}; }
        i := i + 1;
      }
      if filename !in Disk { return {RESOURCE_ERROR}; }
      var records := Disk[filename];
      if records == [] { return OK; }
      var source := Source(records[0].(time := records[0].time + delay), records[1..], delay);
      Files := Files + [FileData(filename, source, index > 0)];
      r := OK;
    }

    /** The file with the oldest record, the first in the list among several; |Files| if there is none. */
    method FindOldest() returns (fd: nat)
      ensures Files == [] ==> fd == 0
      ensures Files != [] ==> IsOldest(Sources(Files), fd)
    {
      hide Sources;
      fd := 0;
      var fi := 0;
      while fi < |Files|
        invariant fi <= |Files| && (fi == 0 ==> fd == 0)
        invariant fi > 0 ==> fd < fi && IsOldest(Sources(Files)[..fi], fd)
      {
        if fi == 0 || Files[fi].source.data.time < Files[fd].source.data.time { fd := fi; }
        fi := fi + 1;
      }
      assert Sources(Files)[..fi] == Sources(Files);
    }

    /** Reads odometry up to a time and passes it on, with an empty measurement after each record if asked
        for. If the address of those is gone, it is the odometry that is no longer written. */
    method ReadOdometry(tMin: int, w: World) returns (enough: bool, log: seq<Event>)
      modifies this`Odom, this`OdomOpen, this`OdomPush, this`OdomTime
      ensures (Odom, enough) == ReadUpTo(old(Odom), tMin) && (OdomOpen <==> old(OdomOpen) && enough)
      ensures DataIn(log) == []
      ensures OdomPush <==> old(OdomPush) && AllWritten(w, |ReadRecords(old(Odom), tMin)|, FakeMeas)
      ensures OdomPush ==> log == Announced(ReadRecords(old(Odom), tMin), FakeMeas)
    {
      hide *;
      log := [];
      LogOne(Fake(0));
      NoneWritten(w, FakeMeas);
      var k := 0;
      while Odom.data.time < tMin
        invariant ReadUpTo(old(Odom), tMin) == ReadUpTo(Odom, tMin) && OdomOpen == old(OdomOpen)
        invariant DataIn(log) == []
        invariant |ReadRecords(old(Odom), tMin)| == k + |ReadRecords(Odom, tMin)|
        invariant OdomPush <==> old(OdomPush) && AllWritten(w, k, FakeMeas)
        invariant OdomPush ==>
                    Announced(ReadRecords(old(Odom), tMin), FakeMeas)
                    == log + Announced(ReadRecords(Odom, tMin), FakeMeas)
        decreases |Odom.rest|
      {
        ReadingEnds(Odom, tMin, FakeMeas);
        if Odom.rest == [] {
          OdomOpen := false;
          return false, log;
        }
        ReadingGoesOn(Odom, tMin, FakeMeas);
        LessLeft(Odom);
        Odom := ReadOn(Odom);
        var more := PassOn(k, w);
        LogsConcat(log, more);
        OneMoreWritten(w, k, FakeMeas);
        log := log + more;
        k := k + 1;
      }
      ReadingEnds(Odom, tMin, FakeMeas);
      enough := true;
    }

    /** Writes the odometry record just read, and an empty measurement if asked for. */
    method PassOn(k: nat, w: World) returns (log: seq<Event>)
      modifies this`OdomPush, this`OdomTime
      ensures DataIn(log) == []
      ensures log == (if old(OdomPush) && w.odom(k) then [Odometry(Odom.data.time)] else [])
                     + (if FakeMeas && w.fake(k) then [Fake(OdomTime)] else [])
      ensures OdomTime == if old(OdomPush) && w.odom(k) then Odom.data.time else old(OdomTime)
      ensures OdomPush <==> old(OdomPush) && w.odom(k) && (FakeMeas ==> w.fake(k))
    {
      hide DataIn;
      LogOne(Fake(0));
      log := [];
      if OdomPush {
        if w.odom(k) {
          log := [Odometry(Odom.data.time)];
          LogOne(log[0]);
          OdomTime := Odom.data.time;
        } else {
          OdomPush := false;
        }
      }
      if FakeMeas {
        if w.fake(k) {
          var measurement := Fake(OdomTime);
          LogOne(measurement);
          LogsConcat(log, [measurement]);
          log := log + [measurement];
        } else {
          OdomPush := false;
        }
      }
    }

    /** The data written in a step come last, after all odometry up to their time. */
    ghost predicate Wrote(log: seq<Event>, written: seq<Entry>)
      reads this
    {
      && DataIn(log) == written
      && (written != [] ==>
            DataTime == written[0].time <= Odom.data.time && log != [] && log[|log| - 1] == Data(written[0]))
    }

    /** The odometry records are passed on, and nothing but those and data is written, as long as every one of
        these writes finds its address. */
    ghost predicate Announces(log: seq<Event>, was: bool, records: seq<Entry>, w: World)
      reads this
    {
      && (OdomPush <==> was && AllWritten(w, |records|, FakeMeas))
      && (OdomPush ==> Announced(records, FakeMeas) <= log
                       && |log| == |Announced(records, FakeMeas)| + |DataIn(log)|)
    }

    /** Plays one record. */
    method Step(w: World) returns (r: Code, log: seq<Event>)
      requires Valid()
      modifies this`Odom, this`OdomOpen, this`OdomPush, this`OdomTime, this`DataTime, this`Files
      ensures Valid()
      ensures Now() == Tick(old(Now()), w.data).0 && PlayOf(Now()) == FileMerge.Step(PlayOf(old(Now()))).0
      ensures Wrote(log, Tick(old(Now()), w.data).1)
      ensures Announces(log, old(OdomPush), PassedOn(PlayOf(old(Now()))), w)
      ensures r == if OdomOpen then OK else {RESOURCE_ERROR}
    {
      hide Distinct, Sources, DataIn, ReadRecords, Announces, Wrote, Kept, Advanced, ReadUpTo, IsOldest;
      ghost var before := Now();
      TickIsStep(before, w.data);
      log := [];
      if !OdomOpen {
        NothingWritten(w);
        return {RESOURCE_ERROR}, [];
      }
      var fd := FindOldest();
      if Files != [] {
        OldestIsUnique(Sources(Files), fd);
        log := PlayRecord(fd, w);
      } else {
        log := OdometryOnly(w);
      }
      r := if OdomOpen then OK else {RESOURCE_ERROR};
    }

    lemma NothingWritten(w: World)
      ensures Wrote([], []) && Announces([], OdomPush, [], w)
    {
    }

    /** Reads odometry up to the record of file fd, writes the record and reads the next. */
    method PlayRecord(fd: nat, w: World) returns (log: seq<Event>)
      requires Valid() && OdomOpen && fd < |Files|
      modifies this`Odom, this`OdomOpen, this`OdomPush, this`OdomTime, this`DataTime, this`Files
      ensures Valid()
      ensures var x := old(Files)[fd].source.data;
              var read := ReadUpTo(old(Odom), x.time);
              && Odom == read.0 && OdomOpen == read.1
              && Files == (if read.1 then Kept(old(Files), fd, w.data) else old(Files))
              && Wrote(log, if read.1 && old(Files)[fd].push && w.data then [x] else [])
              && Announces(log, old(OdomPush), ReadRecords(old(Odom), x.time), w)
    {
      hide Sources, DataIn, ReadRecords, Announced, ReadUpTo, AllWritten, Distinct, Kept;
      var x := Files[fd].source.data;
      var enough;
      enough, log := ReadOdometry(x.time, w);
      if !enough { return; }
      var more := TakeFrom(fd, w.data);
      LogsConcat(log, more);
      LogOne(Data(x));
      log := log + more;
    }

    /** Writes the record read ahead from file fd and reads the next, or drops the file. */
    method TakeFrom(fd: nat, alive: bool) returns (log: seq<Event>)
      requires Valid() && fd < |Files|
      modifies this`Files, this`DataTime
      ensures Valid() && Files == Kept(old(Files), fd, alive)
      ensures var x := old(Files)[fd].source.data;
              if old(Files)[fd].push && alive then log == [Data(x)] && DataTime == x.time
              else log == [] && DataTime == old(DataTime)
    {
      hide Distinct;
      KeptNames(Files, fd, alive, "");
      log := [];
      if Files[fd].push {
        if alive {
          log := [Data(Files[fd].source.data)];
          DataTime := Files[fd].source.data.time;
        } else {
          Files := Files[fd := Files[fd].(push := false)];
        }
      }
      if Files[fd].source.rest == [] {
        Files := Files[..fd] + Files[fd + 1..];
      } else {
        Files := Files[fd := Files[fd].(source := ReadOn(Files[fd].source))];
      }
      assert Files == Kept(old(Files), fd, alive);
    }

    /** With no data file left, reads and passes on one odometry record. */
    method OdometryOnly(w: World) returns (log: seq<Event>)
      requires OdomOpen
      modifies this`Odom, this`OdomOpen, this`OdomPush, this`OdomTime
      ensures OdomOpen <==> old(Odom).rest != []
      ensures Odom == if old(Odom).rest == [] then old(Odom) else ReadOn(old(Odom))
      ensures Wrote(log, []) && Announces(log, old(OdomPush), if old(Odom).rest == [] then [] else [Odom.data], w)
    {
      hide DataIn, Announced, AllWritten;
      NoneWritten(w, FakeMeas);
      OneMoreWritten(w, 0, FakeMeas);
      LogOne(Fake(0));
      log := [];
      AnnouncedFew(Odom.data, FakeMeas);
      if Odom.rest == [] {
        OdomOpen := false;
        return;
      }
      Odom := ReadOn(Odom);
      AnnouncedFew(Odom.data, FakeMeas);
      if OdomPush {
        if w.odom(0) {
          log := [Odometry(Odom.data.time)];
          LogOne(log[0]);
        } else {
          OdomPush := false;
        }
        OdomTime := Odom.data.time;
        if FakeMeas {
          if w.fake(0) {
            LogOne(Fake(OdomTime));
            LogsConcat(log, [Fake(OdomTime)]);
            log := log + [Fake(OdomTime)];
          } else {
            OdomPush := false;
          }
        }
      }
    }
  }

  /** The first n writes of odometry, and of empty measurements if there are any, find their address. */
  ghost predicate AllWritten(w: World, n: nat, fake: bool) {
    forall k: nat :: k < n ==> w.odom(k) && (fake ==> w.fake(k))
  }

  lemma NoneWritten(w: World, fake: bool)
    ensures AllWritten(w, 0, fake)
  {
  }

  lemma OneMoreWritten(w: World, n: nat, fake: bool)
    ensures AllWritten(w, n + 1, fake) <==> AllWritten(w, n, fake) && w.odom(n) && (fake ==> w.fake(n))
  {
  }

  lemma ReadingGoesOn(odom: Source, t: int, fake: bool)
    requires odom.data.time < t && odom.rest != []
    ensures ReadUpTo(odom, t) == ReadUpTo(ReadOn(odom), t)
    ensures Announced(ReadRecords(odom, t), fake)
            == [Odometry(ReadOn(odom).data.time)] + (if fake then [Fake(ReadOn(odom).data.time)] else [])
               + Announced(ReadRecords(ReadOn(odom), t), fake)
    ensures |ReadRecords(odom, t)| == 1 + |ReadRecords(ReadOn(odom), t)|
  {
  }

  lemma ReadingEnds(odom: Source, t: int, fake: bool)
    ensures odom.data.time >= t || odom.rest == [] ==>
              && ReadUpTo(odom, t) == (odom, odom.data.time >= t)
              && ReadRecords(odom, t) == [] && Announced([], fake) == []
  {
  }

  lemma LessLeft(odom: Source)
    requires odom.rest != []
    ensures |ReadOn(odom).rest| < |odom.rest|
  {
  }

  lemma OldestIsUnique(files: seq<Source>, f: int)
    requires IsOldest(files, f)
    ensures f == Oldest(files)
  {
  }
}
