/** A reader of configuration files: looks a keyword up in one file and, if asked, in the files it includes. */
module ConfigFileReaders {
  import opened IncludeSearch
  import opened Options

  datatype Error =
    | NO_ERROR
    | ERROR_NO_SUCH_FILE
    | ERROR_CFG_NOT_INITED
    | ERROR_DATA_NOT_FOUND
    | ERROR_EMPTY_LINE
    | ERROR_CFG_ALREADY_INITED
    | ERROR_CIRCLE_INCLUDE

  /** The stream on the configuration file: never opened, failed to open, or open at a line. */
  datatype Stream = Absent | Closed | Open(lines: seq<string>, pos: nat)

  function SeenIn(history: seq<string>): (seen: set<string>)
    ensures forall name :: name in seen <==> name in history
  {
    set name | name in history
  }

  /** The directory part of a name, with its slash. */
  function Directory(name: string): string {
    if name == "" || name[|name| - 1] == '/' then name else Directory(name[..|name| - 1])
  }

  /** The include path a first file states; a keyword with nothing after it gives the root directory. */
  function StatedPath(lines: seq<string>): string {
    match OwnData(lines, "INCLUDEPATH")
    case Holds(block) => FirstWord(block[0]) + "/"
    case Stops => ""
    case Passes => if AfterKeyword(lines, "INCLUDEPATH").Some? then "/" else ""
  }

  /** The directory of a name reaches to its last slash. */
  lemma {:induction false} DirectoryIs(name: string)
    ensures Directory(name) <= name && forall k :: |Directory(name)| <= k < |name| ==> name[k] != '/'
    ensures Directory(name) == "" || Directory(name)[|Directory(name)| - 1] == '/'
  {
    if name != "" && name[|name| - 1] != '/' {
      var shorter := name[..|name| - 1];
      DirectoryIs(shorter);
      assert forall k :: 0 <= k < |shorter| ==> shorter[k] == name[k];
    }
  }

  /** The stated path is the first word behind the line that starts with INCLUDEPATH, with a slash; a blank line
      there states none, and nothing but comments there states the root. */
  lemma StatedPathIs(lines: seq<string>) returns (at: nat, end: nat, block: seq<string>, places: seq<nat>)
    ensures (forall k :: 0 <= k < |lines| ==> FirstWord(lines[k]) != "INCLUDEPATH") ==> StatedPath(lines) == ""
    ensures (exists k :: 0 <= k < |lines| && FirstWord(lines[k]) == "INCLUDEPATH") ==>
              && KeywordAt(lines, "INCLUDEPATH", at) && BlockAt(lines, block, at + 1, end, places)
              && StatedPath(lines)
                 == if places != [] then FirstWord(lines[places[0]]) + "/" else if end < |lines| then "" else "/"
  {
    hide FirstWord, OwnData, AfterKeyword;
    at, end, block, places := OwnDataIs(lines, "INCLUDEPATH");
    var found := KeywordPlace(lines, "INCLUDEPATH");
  }

  /** The block of data that a whole search finds for a keyword, and where. */
  function Searched(c: Config, keyword: string, file: string, seen: set<string>): (r: Option<(string, seq<string>)>)
    requires file in c.files
    ensures r.Some? ==> r.value.0 in c.files && OwnData(c.files[r.value.0], keyword) == Holds(r.value.1)
  {
    match Find(c, keyword, file, seen)
    case None => None
    case Some(choices) =>
      FindIsFirst(c, keyword, file, seen, []);
      var name := Supplier(c, keyword, file, seen, choices);
      Some((name, OwnData(c.files[name], keyword).block))
  }

  /** The same for a search that has come to the i-th include. */
  function SearchedFrom(c: Config, keyword: string, includes: seq<string>, i: nat, seen: set<string>)
    : (r: Option<(string, seq<string>)>)
    requires i <= |includes|
    ensures r.Some? ==> r.value.0 in c.files && OwnData(c.files[r.value.0], keyword) == Holds(r.value.1)
    decreases |includes| - i
  {
    if i == |includes| then None
    else
      var first := if Enterable(c, includes[i], seen) then Searched(c, keyword, includes[i], seen + {includes[i]})
                   else None;
      if first.Some? then first else SearchedFrom(c, keyword, includes, i + 1, seen)
  }

  lemma {:induction false} SearchedUnfolds(c: Config, keyword: string, file: string, seen: set<string>)
    requires file in c.files
    ensures Searched(c, keyword, file, seen) ==
            match OwnData(c.files[file], keyword)
            case Holds(block) => Some((file, block))
            case Stops => None
            case Passes => SearchedFrom(c, keyword, Includes(c, file), 0, seen)
  {
    hide OwnData, Includes;
    FindIsFirst(c, keyword, file, seen, []);
    if OwnData(c.files[file], keyword).Passes? {
      SearchedFromIs(c, keyword, file, 0, seen);
    }
  }

  lemma {:induction false} SearchedFromIs(c: Config, keyword: string, file: string, i: nat, seen: set<string>)
    requires file in c.files && OwnData(c.files[file], keyword).Passes? && i <= |Includes(c, file)|
    ensures match FindFrom(c, keyword, Includes(c, file), i, seen)
            case None => SearchedFrom(c, keyword, Includes(c, file), i, seen) == None
            case Some(choices) =>
              && Hit(c, keyword, file, seen, choices)
              && var name := Supplier(c, keyword, file, seen, choices);
              SearchedFrom(c, keyword, Includes(c, file), i, seen)
              == Some((name, OwnData(c.files[name], keyword).block))
    decreases |Includes(c, file)| - i
  {
    hide OwnData, Includes;
    FindFromIsFirst(c, keyword, file, i, seen, []);
    var includes := Includes(c, file);
    if i < |includes| {
      SearchedFromIs(c, keyword, file, i + 1, seen);
      if Enterable(c, includes[i], seen) {
        FindIsFirst(c, keyword, includes[i], seen + {includes[i]}, []);
      }
    }
  }

  // ---- the list lookup, which never succeeds with includes ---------------------------

  function OwnWords(own: Own): seq<string> {
    match own
    case Holds(block) => FirstWords(block)
    case _ => []
  }

  /** The list a lookup with includes leaves behind, and the last file it looked into: each file that is
      entered replaces the list by its own, so it is that of the last one in depth-first order. */
  function LeftOver(c: Config, keyword: string, file: string, seen: set<string>): (seq<string>, string)
    requires file in c.files
    decreases c.files.Keys - seen, |Includes(c, file)| + 1
  {
    var own := OwnData(c.files[file], keyword);
    if own.Stops? then ([], file)
    else LeftOverFrom(c, keyword, Includes(c, file), 0, seen, (OwnWords(own), file))
  }

  function LeftOverFrom(c: Config, keyword: string, includes: seq<string>, i: nat, seen: set<string>,
                        before: (seq<string>, string)): (seq<string>, string)
    requires i <= |includes|
    decreases c.files.Keys - seen, |includes| - i
  {
    if i == |includes| then before
    else if !Enterable(c, includes[i], seen) then LeftOverFrom(c, keyword, includes, i + 1, seen, before)
    else LeftOverFrom(c, keyword, includes, i + 1, seen, LeftOver(c, keyword, includes[i], seen + {includes[i]}))
  }

  /** The files that a lookup with includes enters, in order. */
  function Entered(c: Config, keyword: string, file: string, seen: set<string>): (files: seq<string>)
    requires file in c.files
    ensures files != []
    decreases c.files.Keys - seen, |Includes(c, file)| + 1
  {
    if OwnData(c.files[file], keyword).Stops? then [file]
    else [file] + EnteredFrom(c, keyword, Includes(c, file), 0, seen)
  }

  function EnteredFrom(c: Config, keyword: string, includes: seq<string>, i: nat, seen: set<string>): seq<string>
    requires i <= |includes|
    decreases c.files.Keys - seen, |includes| - i
  {
    if i == |includes| then []
    else if !Enterable(c, includes[i], seen) then EnteredFrom(c, keyword, includes, i + 1, seen)
    else Entered(c, keyword, includes[i], seen + {includes[i]}) + EnteredFrom(c, keyword, includes, i + 1, seen)
  }

  ghost predicate LeftBy(c: Config, keyword: string, left: (seq<string>, string), file: string) {
    file in c.files && left == (OwnWords(OwnData(c.files[file], keyword)), file)
  }

  /** The list left behind is the own list of the last file entered, found data in earlier ones or not. */
  lemma {:induction false} LeftOverIsLast(c: Config, keyword: string, file: string, seen: set<string>)
    requires file in c.files
    ensures var files := Entered(c, keyword, file, seen);
            LeftBy(c, keyword, LeftOver(c, keyword, file, seen), files[|files| - 1])
    decreases c.files.Keys - seen, |Includes(c, file)| + 1
  {
    hide OwnData, Includes, FirstWords;
    var own := OwnData(c.files[file], keyword);
    if !own.Stops? {
      LeftOverFromIsLast(c, keyword, Includes(c, file), 0, seen, (OwnWords(own), file));
    }
  }

  lemma {:induction false} LeftOverFromIsLast(c: Config, keyword: string, includes: seq<string>, i: nat,
                                              seen: set<string>, before: (seq<string>, string))
    requires i <= |includes|
    ensures var files := EnteredFrom(c, keyword, includes, i, seen);
            var left := LeftOverFrom(c, keyword, includes, i, seen, before);
            if files == [] then left == before else LeftBy(c, keyword, left, files[|files| - 1])
    decreases c.files.Keys - seen, |includes| - i
  {
    hide OwnData, Includes, FirstWords, LeftBy;
    if i < |includes| {
      if Enterable(c, includes[i], seen) {
        LeftOverIsLast(c, keyword, includes[i], seen + {includes[i]});
        LeftOverFromIsLast(c, keyword, includes, i + 1, seen, LeftOver(c, keyword, includes[i], seen + {includes[i]}));
      } else {
        LeftOverFromIsLast(c, keyword, includes, i + 1, seen, before);
      }
    }
  }

  class ConfigFileReader {
    /** The files that can be opened, with their lines. */
    const Disk: map<string, seq<string>>
    var CfgFileName: string
    var CfgFile: Stream
    var IncHistory: seq<string>
    var IncPathFromCmdLine: string
    var IncPathFromFirstFile: string

    ghost predicate Valid()
      reads this
    {
      CfgFile.Open? ==>
        && CfgFileName in Disk && CfgFile.lines == Disk[CfgFileName] && CfgFile.pos <= |CfgFile.lines|
        && CfgFileName in IncHistory
    }

    function Cfg(): Config
      reads this
    {
      Config(Disk, IncPathFromCmdLine, IncPathFromFirstFile)
    }

    function Seen(): set<string>
      reads this
    {
      SeenIn(IncHistory)
    }

    /** What this file itself has for a keyword; nothing if it could not be opened. */
    function Own(keyword: string): Own
      requires Valid()
      reads this
    {
      if CfgFile.Open? then OwnData(Disk[CfgFileName], keyword) else Passes
    }

    /** What the code says when this file has no data and includes are not searched: a keyword that only
        comments follow is no error. */
    function Missing(keyword: string): Error
      reads this
    {
      if !CfgFile.Open? then ERROR_CFG_NOT_INITED
      else if AfterKeyword(CfgFile.lines, keyword).Some? then NO_ERROR
      else ERROR_DATA_NOT_FOUND
    }

    /** What a lookup finds in the included files. */
    function FromIncludes(keyword: string): Option<(string, seq<string>)>
      requires Valid()
      reads this
    {
      if CfgFile.Open? then SearchedFrom(Cfg(), keyword, Includes(Cfg(), CfgFileName), 0, Seen()) else None
    }

    constructor (disk: map<string, seq<string>>)
      ensures Valid() && CfgFile == Absent && IncHistory == [] && Disk == disk
    {
      Disk, CfgFileName, CfgFile, IncHistory := disk, "", Absent, [];
      IncPathFromCmdLine, IncPathFromFirstFile := "", "";
    }

    constructor Included(disk: map<string, seq<string>>, history: seq<string>, cmdLine: string, firstFile: string)
      ensures Valid() && CfgFile == Absent && IncHistory == history && Disk == disk
      ensures IncPathFromCmdLine == cmdLine && IncPathFromFirstFile == firstFile
    {
      Disk, CfgFileName, CfgFile, IncHistory := disk, "", Absent, history;
      IncPathFromCmdLine, IncPathFromFirstFile := cmdLine, firstFile;
    }

    /** Opens the file, unless it is already on the way that led here. The first file settles the prefixes. */
    method Init(name: string) returns (r: Error)
      requires Valid()
      modifies this
      ensures Valid()
      ensures old(CfgFile) != Absent ==> r == ERROR_CFG_ALREADY_INITED && CfgFile == old(CfgFile)
      ensures old(CfgFile) == Absent && name in old(IncHistory) ==> r == ERROR_CIRCLE_INCLUDE && CfgFile == Absent
      ensures old(CfgFile) == Absent && name !in old(IncHistory) && name !in Disk ==>
                r == ERROR_NO_SUCH_FILE && CfgFile == Closed
      ensures r != NO_ERROR ==> IncHistory == old(IncHistory)
      ensures r == NO_ERROR <==> old(CfgFile) == Absent && name !in old(IncHistory) && name in Disk
      ensures r == NO_ERROR ==> CfgFile.Open? && CfgFileName == name && IncHistory == old(IncHistory) + [name]
      ensures r == NO_ERROR && old(IncHistory) == [] ==>
                && IncPathFromCmdLine == (if Directory(name) == "./" then "" else Directory(name))
                && IncPathFromFirstFile == StatedPath(Disk[name])
      ensures r != NO_ERROR || old(IncHistory) != [] ==>
                IncPathFromCmdLine == old(IncPathFromCmdLine) && IncPathFromFirstFile == old(IncPathFromFirstFile)
      decreases Disk.Keys - Seen(), false, 3
    {
      hide OwnData, AfterKeyword, Directory;
      if CfgFile != Absent { return ERROR_CFG_ALREADY_INITED; }
      if name in IncHistory { return ERROR_CIRCLE_INCLUDE; }
      CfgFileName := name;
      if name !in Disk {
        CfgFile := Closed;
        return ERROR_NO_SUCH_FILE;
      }
      CfgFile := Open(Disk[name], 0);
      IncHistory := IncHistory + [name];
      if |IncHistory| == 1 {
        IncPathFromCmdLine := Directory(name);
        if IncPathFromCmdLine == "./" { IncPathFromCmdLine := ""; }
        var path;
        assert name in Disk.Keys - old(Seen()) && name !in Disk.Keys - Seen();
        r, path := GetIncludePath();
        IncPathFromFirstFile := path;
      }
      return NO_ERROR;
    }

    method GetLine() returns (ok: bool, line: string)
      requires Valid() && CfgFile.Open?
      modifies this`CfgFile
      ensures Valid() && CfgFile.Open? && CfgFile.lines == old(CfgFile.lines)
      ensures ok == (old(CfgFile.pos) < |CfgFile.lines|)
      ensures ok ==> line == CfgFile.lines[old(CfgFile.pos)] && CfgFile.pos == old(CfgFile.pos) + 1
      ensures !ok ==> CfgFile == old(CfgFile)
    {
      if CfgFile.pos < |CfgFile.lines| {
        ok, line := true, CfgFile.lines[CfgFile.pos];
        CfgFile := Open(CfgFile.lines, CfgFile.pos + 1);
      } else {
        ok, line := false, "";
      }
    }

    /** Leaves the stream behind the first line that starts with the keyword. */
    method SearchKeyword(keyword: string) returns (r: Error)
      requires Valid() && CfgFile != Absent
      modifies this`CfgFile
      ensures Valid()
      ensures old(CfgFile) == Closed ==> r == ERROR_CFG_NOT_INITED && CfgFile == Closed
      ensures old(CfgFile).Open? ==>
                && CfgFile.Open? && CfgFile.lines == old(CfgFile.lines)
                && match AfterKeyword(CfgFile.lines, keyword)
                   case None => r == ERROR_DATA_NOT_FOUND
                   case Some(rest) => r == NO_ERROR && CfgFile.lines[CfgFile.pos..] == rest
    {
      hide FirstWord;
      if CfgFile == Closed { return ERROR_CFG_NOT_INITED; }
      CfgFile := Open(CfgFile.lines, 0);
      assert CfgFile.lines[0..] == CfgFile.lines;
      var ok, line := GetLine();
      while ok
        invariant Valid() && CfgFile.Open? && CfgFile.lines == old(CfgFile.lines)
        invariant ok ==> CfgFile.pos > 0 && line == CfgFile.lines[CfgFile.pos - 1]
        invariant AfterKeyword(CfgFile.lines, keyword)
                  == if ok then AfterKeyword(CfgFile.lines[CfgFile.pos - 1..], keyword) else None
        decreases |CfgFile.lines| - CfgFile.pos, ok
      {
        assert CfgFile.lines[CfgFile.pos - 1..][1..] == CfgFile.lines[CfgFile.pos..];
        if FirstWord(line) != "" && FirstWord(line) == keyword {
          return NO_ERROR;
        }
        ok, line := GetLine();
      }
      return ERROR_DATA_NOT_FOUND;
    }

    /** Reads on to a value: the first line that is no comment; `some` tells whether there is a line. */
    method ReadValue() returns (some: bool, line: string)
      requires Valid() && CfgFile.Open?
      modifies this`CfgFile
      ensures Valid() && CfgFile.Open? && CfgFile.lines == old(CfgFile.lines)
      ensures var rest := old(CfgFile.lines[CfgFile.pos..]);
              && (some && FirstWord(line) != "" <==> Block(rest) != [])
              && (Block(rest) != [] ==> line == Block(rest)[0])
              && (Block(rest) == [] ==> (some <==> HasBlank(rest)))
    {
      hide FirstWord, Comment, Block, HasBlank;
      ghost var rest := CfgFile.lines[CfgFile.pos..];
      NoBlock();
      some, line := GetLine();
      assert !some ==> rest == [];
      while some
        invariant Valid() && CfgFile.Open? && CfgFile.lines == old(CfgFile.lines)
        invariant some ==> CfgFile.pos > 0 && line == CfgFile.lines[CfgFile.pos - 1]
        invariant some ==> Block(rest) == Block(CfgFile.lines[CfgFile.pos - 1..])
        invariant some ==> (HasBlank(rest) <==> HasBlank(CfgFile.lines[CfgFile.pos - 1..]))
        invariant !some ==> Block(rest) == [] && !HasBlank(rest)
        decreases |CfgFile.lines| - CfgFile.pos, some
      {
        assert CfgFile.lines[CfgFile.pos - 1..][1..] == CfgFile.lines[CfgFile.pos..];
        BlockSteps(CfgFile.lines[CfgFile.pos - 1..]);
        if FirstWord(line) == "" || !Comment(line) { return; }
        ghost var here := CfgFile.pos;
        some, line := GetLine();
        assert !some ==> CfgFile.lines[here..] == [];
      }
    }

    /** Collects lines down to a blank one or the end; `blank` tells which. */
    method ReadBlock() returns (block: seq<string>, blank: bool)
      requires Valid() && CfgFile.Open?
      modifies this`CfgFile
      ensures Valid() && CfgFile.Open? && CfgFile.lines == old(CfgFile.lines)
      ensures var rest := old(CfgFile.lines[CfgFile.pos..]); block == Block(rest) && (blank <==> HasBlank(rest))
    {
      hide FirstWord, Comment, Block, HasBlank;
      ghost var lines, rest := CfgFile.lines, CfgFile.lines[CfgFile.pos..];
      block, blank := [], false;
      NoBlock();
      var some, line := GetLine();
      while some
        invariant Valid() && CfgFile.Open? && CfgFile.lines == lines
        invariant some ==> CfgFile.pos > 0 && line == lines[CfgFile.pos - 1]
        invariant some ==> Block(rest) == block + Block(lines[CfgFile.pos - 1..])
        invariant some ==> (HasBlank(rest) <==> HasBlank(lines[CfgFile.pos - 1..]))
        invariant !some ==> Block(rest) == block && (HasBlank(rest) <==> blank)
        decreases |lines| - CfgFile.pos, some
      {
        assert lines[CfgFile.pos - 1..][1..] == lines[CfgFile.pos..];
        BlockSteps(lines[CfgFile.pos - 1..]);
        if FirstWord(line) == "" { return block, true; }
        if !Comment(line) {
          assert block + ([line] + Block(lines[CfgFile.pos..])) == block + [line] + Block(lines[CfgFile.pos..]);
          block := block + [line];
        }
        ghost var here := CfgFile.pos;
        some, line := GetLine();
        assert !some ==> lines[here..] == [];
      }
    }

    /** A single word for a keyword. With includes it comes from the first file, depth first, that has data;
        a file with an empty line where the data should be has none and is not searched further. */
    method GetString(keyword: string, useIncludes: bool, before: string)
      returns (r: Error, s: string, usedCfgFile: string)
      requires Valid() && CfgFile != Absent
      modifies this`CfgFile
      ensures Valid() && (CfgFile.Open? <==> old(CfgFile).Open?)
      ensures match old(Own(keyword))
              case Holds(block) => r == NO_ERROR && s == FirstWord(block[0]) && usedCfgFile == CfgFileName
              case Stops => r == ERROR_EMPTY_LINE && s == before && usedCfgFile == CfgFileName
              case Passes =>
                if !useIncludes then r == old(Missing(keyword)) && s == before && usedCfgFile == CfgFileName
                else match old(FromIncludes(keyword))
                  case None => r == ERROR_DATA_NOT_FOUND && s == before
                  case Some(found) => r == NO_ERROR && s == FirstWord(found.1[0]) && usedCfgFile == found.0
      ensures useIncludes && CfgFile.Open? ==>
                match Searched(Cfg(), keyword, CfgFileName, Seen())
                case None => r != NO_ERROR
                case Some(found) => r == NO_ERROR && usedCfgFile == found.0
      decreases Disk.Keys - Seen(), useIncludes, 2
    {
      hide AfterKeyword, Block, HasBlank, FirstWord, SearchedFrom, Searched, Includes;
      if CfgFile.Open? { SearchedUnfolds(Cfg(), keyword, CfgFileName, Seen()); }
      s := before;
      r := SearchKeyword(keyword);
      usedCfgFile := CfgFileName;
      if r == NO_ERROR {
        var some, line := ReadValue();
        if some {
          if FirstWord(line) == "" { return ERROR_EMPTY_LINE, s, usedCfgFile; }
          return NO_ERROR, FirstWord(line), usedCfgFile;
        }
      }
      if useIncludes {
        r, s, usedCfgFile := StringFromIncludes(keyword, s, usedCfgFile);
      }
    }

    /** Tries the includes one by one; one that cannot be opened or closes a circle is skipped. */
    method StringFromIncludes(keyword: string, before: string, usedBefore: string)
      returns (r: Error, s: string, usedCfgFile: string)
      requires Valid() && CfgFile != Absent
      modifies this`CfgFile
      ensures Valid() && (CfgFile.Open? <==> old(CfgFile).Open?)
      ensures match old(FromIncludes(keyword))
              case None => r == ERROR_DATA_NOT_FOUND && s == before
              case Some(found) => r == NO_ERROR && s == FirstWord(found.1[0]) && usedCfgFile == found.0
      decreases Disk.Keys - Seen(), true, 1
    {
      hide OwnData, AfterKeyword, FirstWord, Searched, Includes;
      r, s, usedCfgFile := ERROR_DATA_NOT_FOUND, before, usedBefore;
      var err, includes := GetIncludeFiles();
      if err != NO_ERROR { return; }
      var i := 0;
      while i < |includes|
        invariant Valid() && CfgFile.Open? && i <= |includes|
        invariant r == ERROR_DATA_NOT_FOUND && s == before
        invariant old(FromIncludes(keyword)) == SearchedFrom(Cfg(), keyword, includes, i, Seen())
      {
        var cfr := new ConfigFileReader.Included(Disk, IncHistory, IncPathFromCmdLine, IncPathFromFirstFile);
        var initRet := cfr.Init(includes[i]);
        if initRet == NO_ERROR {
          assert cfr.Seen() == Seen() + {includes[i]};
          SearchedUnfolds(Cfg(), keyword, includes[i], cfr.Seen());
          var retttt;
          retttt, s, usedCfgFile := cfr.GetString(keyword, true, s);
          if retttt == NO_ERROR {
            r := NO_ERROR;
            return;
          }
        }
        i := i + 1;
      }
    }

    /** The list of lines for a keyword, and of the words they start with; otherwise as `GetString`. */
    method GetParamStrings(keyword: string, useIncludes: bool)
      returns (r: Error, paramsList: seq<string>, usedCfgFile: string)
      requires Valid() && CfgFile != Absent
      modifies this`CfgFile
      ensures Valid() && (CfgFile.Open? <==> old(CfgFile).Open?)
      ensures match old(Own(keyword))
              case Holds(block) => r == NO_ERROR && paramsList == block && usedCfgFile == CfgFileName
              case Stops => r == ERROR_EMPTY_LINE && paramsList == [] && usedCfgFile == CfgFileName
              case Passes =>
                if !useIncludes then r == old(Missing(keyword)) && paramsList == [] && usedCfgFile == CfgFileName
                else match old(FromIncludes(keyword))
                  case None => r == ERROR_DATA_NOT_FOUND && paramsList == []
                  case Some(found) => r == NO_ERROR && paramsList == found.1 && usedCfgFile == found.0
      ensures useIncludes && CfgFile.Open? ==>
                match Searched(Cfg(), keyword, CfgFileName, Seen())
                case None => r != NO_ERROR
                case Some(found) => r == NO_ERROR && usedCfgFile == found.0
      decreases Disk.Keys - Seen(), useIncludes, 2
    {
      hide AfterKeyword, Block, HasBlank, FirstWord, SearchedFrom, Searched, Includes;
      if CfgFile.Open? { SearchedUnfolds(Cfg(), keyword, CfgFileName, Seen()); }
      paramsList := [];
      r := SearchKeyword(keyword);
      usedCfgFile := CfgFileName;
      if r == NO_ERROR {
        var blank;
        paramsList, blank := ReadBlock();
        if blank {
          return if paramsList == [] then ERROR_EMPTY_LINE else NO_ERROR, paramsList, usedCfgFile;
        }
      }
      if paramsList == [] {
        if useIncludes {
          r, paramsList, usedCfgFile := ParamsFromIncludes(keyword, usedCfgFile);
        }
        return;
      }
      return NO_ERROR, paramsList, usedCfgFile;
    }

    method ParamsFromIncludes(keyword: string, usedBefore: string)
      returns (r: Error, paramsList: seq<string>, usedCfgFile: string)
      requires Valid() && CfgFile != Absent
      modifies this`CfgFile
      ensures Valid() && (CfgFile.Open? <==> old(CfgFile).Open?)
      ensures match old(FromIncludes(keyword))
              case None => r == ERROR_DATA_NOT_FOUND && paramsList == []
              case Some(found) => r == NO_ERROR && paramsList == found.1 && usedCfgFile == found.0
      decreases Disk.Keys - Seen(), true, 1
    {
      hide OwnData, AfterKeyword, FirstWord, Searched, Includes;
      r, paramsList, usedCfgFile := ERROR_DATA_NOT_FOUND, [], usedBefore;
      var err, includes := GetIncludeFiles();
      if err != NO_ERROR { return; }
      var i := 0;
      while i < |includes|
        invariant Valid() && CfgFile.Open? && i <= |includes|
        invariant r == ERROR_DATA_NOT_FOUND && paramsList == []
        invariant old(FromIncludes(keyword)) == SearchedFrom(Cfg(), keyword, includes, i, Seen())
      {
        var cfr := new ConfigFileReader.Included(Disk, IncHistory, IncPathFromCmdLine, IncPathFromFirstFile);
        var initRet := cfr.Init(includes[i]);
        if initRet == NO_ERROR {
          assert cfr.Seen() == Seen() + {includes[i]};
          SearchedUnfolds(Cfg(), keyword, includes[i], cfr.Seen());
          var retttt;
          retttt, paramsList, usedCfgFile := cfr.GetParamStrings(keyword, true);
          if retttt == NO_ERROR {
            r := NO_ERROR;
            return;
          }
        }
        i := i + 1;
      }
    }

    /** The list of words for a keyword. With includes the search goes on even when this file has the list,
        and the lookup never succeeds: the code of the search replaces that of this file, and a search over
        files that never succeed finds nothing. */
    method GetStringList(keyword: string, useIncludes: bool)
      returns (r: Error, strings: seq<string>, usedCfgFile: string)
      requires Valid() && CfgFile != Absent
      modifies this`CfgFile
      ensures Valid() && (CfgFile.Open? <==> old(CfgFile).Open?)
      ensures r == NO_ERROR <==> !useIncludes && old(Own(keyword)).Holds?
      ensures r == ERROR_EMPTY_LINE <==> old(Own(keyword)).Stops?
      ensures old(Own(keyword)).Stops? ==> strings == []
      ensures !useIncludes ==>
                && usedCfgFile == CfgFileName
                && strings == OwnWords(old(Own(keyword)))
      ensures useIncludes && CfgFile.Open? ==>
                (strings, usedCfgFile) == LeftOver(Cfg(), keyword, CfgFileName, Seen())
      ensures r == NO_ERROR || r == ERROR_EMPTY_LINE || r == ERROR_DATA_NOT_FOUND
      decreases Disk.Keys - Seen(), useIncludes, 1
    {
      hide AfterKeyword, Block, HasBlank, FirstWord, FirstWords, Includes, LeftOverFrom;
      strings := [];
      r := SearchKeyword(keyword);
      usedCfgFile := CfgFileName;
      if r == NO_ERROR {
        var block, blank := ReadBlock();
        assert FirstWords([]) == [] by { NoWords(); }
        strings := FirstWords(block);
        if blank && strings == [] { return ERROR_EMPTY_LINE, strings, usedCfgFile; }
      }
      if useIncludes {
        r, strings, usedCfgFile := ListFromIncludes(keyword, strings, usedCfgFile);
      }
      if strings == [] { return ERROR_DATA_NOT_FOUND, strings, usedCfgFile; }
    }

    method ListFromIncludes(keyword: string, before: seq<string>, usedBefore: string)
      returns (r: Error, strings: seq<string>, usedCfgFile: string)
      requires Valid() && CfgFile != Absent
      modifies this`CfgFile
      ensures Valid() && (CfgFile.Open? <==> old(CfgFile).Open?)
      ensures r == ERROR_DATA_NOT_FOUND
      ensures (strings, usedCfgFile)
              == if CfgFile.Open?
                 then LeftOverFrom(Cfg(), keyword, Includes(Cfg(), CfgFileName), 0, Seen(), (before, usedBefore))
                 else (before, usedBefore)
      decreases Disk.Keys - Seen(), true, 0
    {
      hide OwnData, AfterKeyword, FirstWord, Includes, LeftOver;
      r, strings, usedCfgFile := ERROR_DATA_NOT_FOUND, before, usedBefore;
      var err, includes := GetIncludeFiles();
      if err != NO_ERROR { return; }
      var i := 0;
      while i < |includes|
        invariant Valid() && CfgFile.Open? && i <= |includes| && r == ERROR_DATA_NOT_FOUND
        invariant LeftOverFrom(Cfg(), keyword, includes, 0, Seen(), (before, usedBefore))
                  == LeftOverFrom(Cfg(), keyword, includes, i, Seen(), (strings, usedCfgFile))
      {
        var cfr := new ConfigFileReader.Included(Disk, IncHistory, IncPathFromCmdLine, IncPathFromFirstFile);
        var initRet := cfr.Init(includes[i]);
        if initRet == NO_ERROR {
          assert cfr.Seen() == Seen() + {includes[i]};
          var retttt;
          retttt, strings, usedCfgFile := cfr.GetStringList(keyword, true);
          if retttt == NO_ERROR {
            r := NO_ERROR;
            return;
          }
        }
        i := i + 1;
      }
    }

    method GetIncludePath() returns (r: Error, path: string)
      requires Valid() && CfgFile.Open?
      modifies this`CfgFile
      ensures Valid() && CfgFile.Open? && path == StatedPath(Disk[CfgFileName])
      decreases Disk.Keys - Seen(), false, 3
    {
      hide OwnData, AfterKeyword, FirstWord;
      var cfg;
      r, path, cfg := GetString("INCLUDEPATH", false, "");
      if r != NO_ERROR { return; }
      path := path + "/";
    }

    /** The names to try for this file's includes, plain ones first. */
    method GetIncludeFiles() returns (r: Error, includes: seq<string>)
      requires Valid() && CfgFile != Absent
      modifies this`CfgFile
      ensures Valid() && (CfgFile.Open? <==> old(CfgFile).Open?)
      ensures r == NO_ERROR <==> old(Own("INCLUDE")).Holds?
      ensures old(CfgFile).Open? ==> includes == Includes(Cfg(), CfgFileName)
      ensures r != NO_ERROR ==> includes == []
      decreases Disk.Keys - Seen(), false, 2
    {
      hide OwnData, AfterKeyword, FirstWord, FirstWords, Prefixed;
      includes := [];
      var includes1, cfg;
      r, includes1, cfg := GetStringList("INCLUDE", false);
      if r != NO_ERROR { return; }
      includes := includes1;
      if IncPathFromCmdLine != "" && IncPathFromCmdLine != "./" {
        includes := includes + Prefixed(IncPathFromCmdLine, includes1);
      }
      if IncPathFromFirstFile != "" && IncPathFromFirstFile != "./" {
        includes := includes + Prefixed(IncPathFromFirstFile, includes1);
      }
    }
  }

  lemma NoWords()
    ensures FirstWords([]) == []
  {
  }

  lemma NoBlock()
    ensures Block([]) == [] && !HasBlank([])
  {
  }

  lemma BlockSteps(lines: seq<string>)
    requires lines != []
    ensures HasBlank(lines) <==> FirstWord(lines[0]) == "" || HasBlank(lines[1..])
    ensures Block(lines) == if FirstWord(lines[0]) == "" then []
                            else if Comment(lines[0]) then Block(lines[1..]) else [lines[0]] + Block(lines[1..])
  {
    hide FirstWord, Comment;
    if i :| 0 <= i < |lines| && FirstWord(lines[i]) == "" {
      assert i > 0 ==> lines[1..][i - 1] == lines[i];
    }
    if i :| 0 <= i < |lines[1..]| && FirstWord(lines[1..][i]) == "" {
      assert lines[1..][i] == lines[i + 1];
    }
  }

  /** The lookup in a first file: it gives data exactly when some walk over includes leads to data, and the
      file it names holds that data. */
  lemma LookupIffReachable(c: Config, keyword: string, file: string)
    requires file in c.files
    ensures Searched(c, keyword, file, {file}).Some? <==> exists names :: Walk(c, keyword, names) && names[0] == file
    ensures match Searched(c, keyword, file, {file})
            case Some(found) => found.0 in c.files && OwnData(c.files[found.0], keyword) == Holds(found.1)
            case None => true
  {
    hide OwnData, Includes, Find, Walk;
    FindIffReachable(c, keyword, file);
  }
}
