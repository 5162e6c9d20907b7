/** Which file answers a lookup: depth-first search over include files that may include each other. */
module IncludeSearch {
  import opened Options

  // ---- lines and words ---------------------------------------------------------------

  predicate IsSpace(c: char) {
    c as int == 32 || 9 <= c as int <= 13
  }

  function Word(line: string): string {
    if line == "" || IsSpace(line[0]) then "" else [line[0]] + Word(line[1..])
  }

  /** The first word of a line; empty for a blank line. */
  function FirstWord(line: string): string {
    if line == "" then "" else if IsSpace(line[0]) then FirstWord(line[1..]) else Word(line)
  }

  predicate Comment(line: string) {
    FirstWord(line) != "" && FirstWord(line)[0] == '#'
  }

  function FirstWords(lines: seq<string>): (r: seq<string>)
    ensures |r| == |lines| && forall i :: 0 <= i < |r| ==> r[i] == FirstWord(lines[i])
  {
    if lines == [] then [] else [FirstWord(lines[0])] + FirstWords(lines[1..])
  }

  /** The lines after the first one that starts with the keyword. */
  function AfterKeyword(lines: seq<string>, keyword: string): Option<seq<string>> {
    if lines == [] then None
    else if FirstWord(lines[0]) != "" && FirstWord(lines[0]) == keyword then Some(lines[1..])
    else AfterKeyword(lines[1..], keyword)
  }

  /** The lines down to the first blank one, without comments. */
  function Block(lines: seq<string>): seq<string> {
    if lines == [] || FirstWord(lines[0]) == "" then []
    else (if Comment(lines[0]) then [] else [lines[0]]) + Block(lines[1..])
  }

  predicate HasBlank(lines: seq<string>) {
    exists i :: 0 <= i < |lines| && FirstWord(lines[i]) == ""
  }

  /** What one file has for a keyword: the data, an empty line where data should be, or nothing. */
  datatype Own = Holds(block: seq<string>) | Stops | Passes

  function OwnData(lines: seq<string>, keyword: string): (own: Own)
    ensures own.Holds? ==> own.block != []
  {
    match AfterKeyword(lines, keyword)
    case None => Passes
    case Some(rest) =>
      if Block(rest) != [] then Holds(Block(rest)) else if HasBlank(rest) then Stops else Passes
  }

  // ---- what that is, told by positions -----------------------------------------------

  /** White space: blank, tab, line feed, vertical tab, form feed and carriage return. */
  lemma SpaceIs(c: char)
    ensures IsSpace(c) <==> c == ' ' || c == '\t' || c == '\n' || c == '\U{0B}' || c == '\U{0C}' || c == '\r'
  {
  }

  ghost predicate AllSpace(line: string) {
    forall k :: 0 <= k < |line| ==> IsSpace(line[k])
  }

  lemma {:induction false} WordPlace(line: string) returns (j: nat)
    ensures j <= |line| && Word(line) == line[..j] && forall k :: 0 <= k < j ==> !IsSpace(line[k])
    ensures j < |line| ==> IsSpace(line[j])
  {
    if line == "" || IsSpace(line[0]) {
      j := 0;
    } else {
      j := WordPlace(line[1..]);
      j := j + 1;
      assert line[..j] == [line[0]] + line[1..][..j - 1];
      assert forall k :: 1 <= k < |line| ==> line[k] == line[1..][k - 1];
    }
  }

  /** The first word of a line: what stands between the leading space and the next space or the end. It is
      empty exactly if there is nothing but space. */
  lemma {:induction false} FirstWordPlace(line: string) returns (i: nat, j: nat)
    ensures i <= j <= |line| && FirstWord(line) == line[i..j]
    ensures forall k :: 0 <= k < i ==> IsSpace(line[k])
    ensures forall k :: i <= k < j ==> !IsSpace(line[k])
    ensures j < |line| ==> IsSpace(line[j])
    ensures i < |line| <==> i < j
    ensures FirstWord(line) == "" <==> AllSpace(line)
  {
    if line == "" {
      i, j := 0, 0;
    } else if IsSpace(line[0]) {
      i, j := FirstWordPlace(line[1..]);
      i, j := i + 1, j + 1;
      assert forall k :: 1 <= k < |line| ==> line[k] == line[1..][k - 1];
    } else {
      i := 0;
      j := WordPlace(line);
      assert line[0] == line[..j][0];
    }
  }

  /** The first character that is no space is there and is no '#'. */
  ghost predicate DataLine(line: string) {
    exists i :: 0 <= i < |line| && !IsSpace(line[i]) && line[i] != '#' && AllSpace(line[..i])
  }

  lemma DataIs(line: string)
    ensures DataLine(line) <==> FirstWord(line) != "" && !Comment(line)
  {
    var i, j := FirstWordPlace(line);
    if i < j {
      assert FirstWord(line)[0] == line[i];
      assert AllSpace(line[..i]);
    }
  }

  ghost predicate Rising(places: seq<nat>) {
    forall p, q :: 0 <= p < q < |places| ==> places[p] < places[q]
  }

  /** The block holds the lines at these places, in their order; before `end` no line is blank, and every line
      whose first character that is no space is not '#' is among them. */
  ghost predicate BlockAt(lines: seq<string>, block: seq<string>, start: nat, end: nat, places: seq<nat>) {
    && start <= end <= |lines| && |block| == |places| && Rising(places)
    && (forall k :: start <= k < end ==> !AllSpace(lines[k]))
    && (end < |lines| ==> AllSpace(lines[end]))
    && (forall q :: 0 <= q < |places| ==>
          start <= places[q] < end && DataLine(lines[places[q]]) && block[q] == lines[places[q]])
    && (forall k :: start <= k < end && DataLine(lines[k]) ==> k in places)
  }

  lemma {:induction false} BlockPlaces(lines: seq<string>, start: nat) returns (end: nat, places: seq<nat>)
    requires start <= |lines|
    ensures BlockAt(lines, Block(lines[start..]), start, end, places)
    decreases |lines| - start
  {
    if start == |lines| {
      end, places := start, [];
    } else {
      var line := lines[start];
      assert lines[start..][0] == line && lines[start..][1..] == lines[start + 1..];
      var i, j := FirstWordPlace(line);
      DataIs(line);
      hide FirstWord, Comment, DataLine, AllSpace;
      if FirstWord(line) == "" {
        end, places := start, [];
      } else {
        var rest;
        end, rest := BlockPlaces(lines, start + 1);
        places := (if DataLine(line) then [start] else []) + rest;
        assert Block(lines[start..]) == (if DataLine(line) then [line] else []) + Block(lines[start + 1..]);
        OnePlaceMore(lines, Block(lines[start + 1..]), start, end, rest);
      }
    }
  }

  lemma OnePlaceMore(lines: seq<string>, block: seq<string>, start: nat, end: nat, rest: seq<nat>)
    requires start < |lines| && !AllSpace(lines[start]) && BlockAt(lines, block, start + 1, end, rest)
    ensures var data := DataLine(lines[start]);
            BlockAt(lines, (if data then [lines[start]] else []) + block, start, end,
                    (if data then [start] else []) + rest)
  {
    hide DataLine, AllSpace;
    var places := (if DataLine(lines[start]) then [start] else []) + rest;
    forall k | start <= k < end && DataLine(lines[k]) ensures k in places {
      if k > start { assert k in rest; }
    }
  }

  /** The line that starts with the keyword is the first one whose first word it is. */
  ghost predicate KeywordAt(lines: seq<string>, keyword: string, at: nat) {
    && at < |lines| && FirstWord(lines[at]) == keyword != ""
    && forall k :: 0 <= k < at ==> FirstWord(lines[k]) != keyword
  }

  lemma {:induction false} KeywordPlace(lines: seq<string>, keyword: string) returns (at: nat)
    ensures match AfterKeyword(lines, keyword)
            case None => keyword == "" || forall k :: 0 <= k < |lines| ==> FirstWord(lines[k]) != keyword
            case Some(rest) => KeywordAt(lines, keyword, at) && rest == lines[at + 1..]
  {
    hide FirstWord;
    at := 0;
    if lines != [] && !(FirstWord(lines[0]) != "" && FirstWord(lines[0]) == keyword) {
      at := KeywordPlace(lines[1..], keyword);
      at := at + 1;
      assert forall k :: 1 <= k < |lines| ==> lines[k] == lines[1..][k - 1];
    }
  }

  /** What a file has for a keyword, told from its lines: nothing exactly if no line starts with the keyword or
      only comments follow it; otherwise the data lines between it and the next blank line, or an empty line if
      there are none. */
  lemma OwnDataIs(lines: seq<string>, keyword: string) returns (at: nat, end: nat, block: seq<string>, places: seq<nat>)
    ensures (keyword == "" || forall k :: 0 <= k < |lines| ==> FirstWord(lines[k]) != keyword) ==>
              OwnData(lines, keyword) == Passes
    ensures keyword != "" && (exists k :: 0 <= k < |lines| && FirstWord(lines[k]) == keyword) ==>
              && KeywordAt(lines, keyword, at) && BlockAt(lines, block, at + 1, end, places)
              && OwnData(lines, keyword) ==
                 if places != [] then Holds(block) else if end < |lines| then Stops else Passes
  {
    hide FirstWord, Block, HasBlank, AllSpace, DataLine;
    at := KeywordPlace(lines, keyword);
    end, block, places := 0, [], [];
    if AfterKeyword(lines, keyword).Some? {
      var rest := lines[at + 1..];
      end, places := BlockPlaces(lines, at + 1);
      block := Block(rest);
      if places == [] { BlankAhead(lines, at + 1, end); }
    }
  }

  lemma BlankAhead(lines: seq<string>, start: nat, end: nat)
    requires BlockAt(lines, [], start, end, [])
    ensures HasBlank(lines[start..]) <==> end < |lines|
  {
    forall k | 0 <= k < |lines| ensures AllSpace(lines[k]) <==> FirstWord(lines[k]) == "" {
      var i, j := FirstWordPlace(lines[k]);
    }
    hide FirstWord, AllSpace, DataLine;
    if end < |lines| {
      assert lines[start..][end - start] == lines[end];
    }
  }

  // ---- the include graph -------------------------------------------------------------

  /** The openable files and the two prefixes tried for included names. */
  datatype Config = Config(files: map<string, seq<string>>, pathFromCmdLine: string, pathFromFirstFile: string)

  function Prefixed(path: string, names: seq<string>): (r: seq<string>)
    ensures |r| == |names|
    ensures forall i :: 0 <= i < |r| ==> r[i] == path + names[i]
  {
    if names == [] then [] else [path + names[0]] + Prefixed(path, names[1..])
  }

  /** The names to try for a list of included files: as they stand, then under each prefix. */
  function Tried(c: Config, names: seq<string>): seq<string> {
    names
    + (if c.pathFromCmdLine != "" && c.pathFromCmdLine != "./" then Prefixed(c.pathFromCmdLine, names) else [])
    + (if c.pathFromFirstFile != "" && c.pathFromFirstFile != "./" then Prefixed(c.pathFromFirstFile, names) else [])
  }

  function Includes(c: Config, file: string): seq<string>
    requires file in c.files
  {
    match OwnData(c.files[file], "INCLUDE")
    case Holds(block) => Tried(c, FirstWords(block))
    case _ => []
  }

  /** Every name is tried as it stands, then behind the first prefix and then behind the second one, if these
      are neither empty nor the current directory. */
  lemma TriedAt(c: Config, names: seq<string>, k: nat)
    requires k < |names|
    ensures var cmd, first := c.pathFromCmdLine !in {"", "./"}, c.pathFromFirstFile !in {"", "./"};
            var n, all := |names|, Tried(c, names);
            && |all| == n + (if cmd then n else 0) + (if first then n else 0) && all[k] == names[k]
            && (cmd ==> all[n + k] == c.pathFromCmdLine + names[k])
            && (first ==> all[|all| - n + k] == c.pathFromFirstFile + names[k])
  {
  }

  /** The includes of a file are the first words of the data lines behind its first line that starts with
      INCLUDE. */
  lemma IncludesAre(c: Config, file: string) returns (at: nat, end: nat, block: seq<string>, places: seq<nat>)
    requires file in c.files
    ensures (forall k :: 0 <= k < |c.files[file]| ==> FirstWord(c.files[file][k]) != "INCLUDE") ==>
              Includes(c, file) == []
    ensures (exists k :: 0 <= k < |c.files[file]| && FirstWord(c.files[file][k]) == "INCLUDE") ==>
              && KeywordAt(c.files[file], "INCLUDE", at) && BlockAt(c.files[file], block, at + 1, end, places)
              && Includes(c, file) == if places == [] then [] else Tried(c, FirstWords(block))
  {
    hide FirstWord, FirstWords, OwnData, Tried;
    at, end, block, places := OwnDataIs(c.files[file], "INCLUDE");
  }

  /** An include is followed if the file opens and is not already on the way that led to it. */
  predicate Enterable(c: Config, name: string, seen: set<string>) {
    name in c.files && name !in seen
  }

  // ---- the search --------------------------------------------------------------------

  /** The choice of include at each level that leads to the first file holding the keyword; `seen` are the
      files on the way to and including `file`. */
  function Find(c: Config, keyword: string, file: string, seen: set<string>): Option<seq<nat>>
    requires file in c.files
    decreases c.files.Keys - seen, |Includes(c, file)| + 1
  {
    match OwnData(c.files[file], keyword)
    case Holds(_) => Some([])
    case Stops => None
    case Passes => FindFrom(c, keyword, Includes(c, file), 0, seen)
  }

  function FindFrom(c: Config, keyword: string, includes: seq<string>, i: nat, seen: set<string>): Option<seq<nat>>
    requires i <= |includes|
    decreases c.files.Keys - seen, |includes| - i
  {
    if i == |includes| then None
    else if !Enterable(c, includes[i], seen) then FindFrom(c, keyword, includes, i + 1, seen)
    else match Find(c, keyword, includes[i], seen + {includes[i]})
      case Some(rest) => Some([i] + rest)
      case None => FindFrom(c, keyword, includes, i + 1, seen)
  }

  /** These choices lead from `file` to a file holding the keyword, through files that pass, never entering
      a file that is already on the way. */
  predicate Hit(c: Config, keyword: string, file: string, seen: set<string>, choices: seq<nat>)
    requires file in c.files
    decreases |choices|
  {
    if choices == [] then OwnData(c.files[file], keyword).Holds?
    else
      && OwnData(c.files[file], keyword).Passes?
      && choices[0] < |Includes(c, file)|
      && Enterable(c, Includes(c, file)[choices[0]], seen)
      && Hit(c, keyword, Includes(c, file)[choices[0]], seen + {Includes(c, file)[choices[0]]}, choices[1..])
  }

  function Supplier(c: Config, keyword: string, file: string, seen: set<string>, choices: seq<nat>): (name: string)
    requires file in c.files && Hit(c, keyword, file, seen, choices)
    ensures name in c.files && OwnData(c.files[name], keyword).Holds?
    decreases |choices|
  {
    if choices == [] then file
    else Supplier(c, keyword, Includes(c, file)[choices[0]], seen + {Includes(c, file)[choices[0]]}, choices[1..])
  }

  /** Depth-first order: the first difference decides. */
  predicate NotAfter(a: seq<nat>, b: seq<nat>)
    decreases |a|
  {
    a == [] || (b != [] && (a[0] < b[0] || (a[0] == b[0] && NotAfter(a[1..], b[1..]))))
  }

  /** The search finds a hit if there is one, and of all hits the first in depth-first order. */
  lemma {:induction false} FindIsFirst(c: Config, keyword: string, file: string, seen: set<string>, other: seq<nat>)
    requires file in c.files
    ensures match Find(c, keyword, file, seen)
            case Some(choices) =>
              Hit(c, keyword, file, seen, choices) && (Hit(c, keyword, file, seen, other) ==> NotAfter(choices, other))
            case None => !Hit(c, keyword, file, seen, other)
    decreases c.files.Keys - seen, |Includes(c, file)| + 1
  {
    hide OwnData, Includes;
    if OwnData(c.files[file], keyword).Passes? {
      FindFromIsFirst(c, keyword, file, 0, seen, other);
    }
  }

  lemma {:induction false} FindFromIsFirst(c: Config, keyword: string, file: string, i: nat, seen: set<string>,
                                           other: seq<nat>)
    requires file in c.files && i <= |Includes(c, file)| && OwnData(c.files[file], keyword).Passes?
    ensures match FindFrom(c, keyword, Includes(c, file), i, seen)
            case Some(choices) =>
              && Hit(c, keyword, file, seen, choices) && choices != []
              && (Hit(c, keyword, file, seen, other) && other[0] >= i ==> NotAfter(choices, other))
            case None => Hit(c, keyword, file, seen, other) ==> other[0] < i
    decreases c.files.Keys - seen, |Includes(c, file)| - i
  {
    hide OwnData, Includes;
    var includes := Includes(c, file);
    if i < |includes| {
      FindFromIsFirst(c, keyword, file, i + 1, seen, other);
      if Enterable(c, includes[i], seen) {
        var rest := if other == [] then [] else other[1..];
        FindIsFirst(c, keyword, includes[i], seen + {includes[i]}, rest);
      }
    }
  }

  // ---- reachability ------------------------------------------------------------------

  /** A walk along includes, free to come back to a file, through files that pass to one that holds. */
  predicate Walk(c: Config, keyword: string, names: seq<string>) {
    && names != [] && (forall i :: 0 <= i < |names| ==> names[i] in c.files)
    && (forall i :: 0 <= i < |names| - 1 ==>
          OwnData(c.files[names[i]], keyword).Passes? && names[i + 1] in Includes(c, names[i]))
    && OwnData(c.files[names[|names| - 1]], keyword).Holds?
  }

  ghost predicate Distinct(names: seq<string>) {
    forall i, j :: 0 <= i < j < |names| ==> names[i] != names[j]
  }

  /** A walk that comes back to a file can be cut short. */
  lemma {:induction false} Shortcut(c: Config, keyword: string, names: seq<string>) returns (simple: seq<string>)
    requires Walk(c, keyword, names)
    ensures Walk(c, keyword, simple) && Distinct(simple) && simple[0] == names[0]
    decreases |names|
  {
    hide OwnData, Includes;
    if i, j :| 0 <= i < j < |names| && names[i] == names[j] {
      var cut := names[..i] + names[j..];
      forall k | 0 <= k < |cut| - 1
        ensures cut[k] in c.files && OwnData(c.files[cut[k]], keyword).Passes? && cut[k + 1] in Includes(c, cut[k])
      {
        var at := if k < i then k else k + j - i;
        assert cut[k] == names[at];
        assert cut[k + 1] == names[at + 1];
      }
      simple := Shortcut(c, keyword, cut);
    } else {
      simple := names;
    }
  }

  /** A walk that never comes back is a hit. */
  lemma {:induction false} SimpleWalkHits(c: Config, keyword: string, names: seq<string>, seen: set<string>)
    returns (choices: seq<nat>)
    requires Walk(c, keyword, names) && Distinct(names)
    requires forall i :: 1 <= i < |names| ==> names[i] !in seen
    ensures Hit(c, keyword, names[0], seen, choices)
    decreases |names|
  {
    hide OwnData, Includes;
    if |names| == 1 {
      choices := [];
    } else {
      var rest := names[1..];
      assert forall i :: 0 <= i < |rest| ==> rest[i] == names[i + 1];
      assert names[1] in Includes(c, names[0]);
      var k: nat :| k < |Includes(c, names[0])| && Includes(c, names[0])[k] == names[1];
      var tail := SimpleWalkHits(c, keyword, rest, seen + {names[1]});
      choices := [k] + tail;
    }
  }

  /** The files a hit leads through. */
  lemma {:induction false} HitIsWalk(c: Config, keyword: string, file: string, seen: set<string>, choices: seq<nat>)
    returns (names: seq<string>)
    requires file in c.files && Hit(c, keyword, file, seen, choices)
    ensures Walk(c, keyword, names) && names[0] == file
    decreases |choices|
  {
    hide OwnData, Includes;
    if choices == [] {
      names := [file];
    } else {
      var next := Includes(c, file)[choices[0]];
      var rest := HitIsWalk(c, keyword, next, seen + {next}, choices[1..]);
      names := [file] + rest;
      assert forall i :: 1 <= i < |names| ==> names[i] == rest[i - 1];
    }
  }

  /** A lookup that starts at `file` succeeds exactly when some walk over includes, of any length and free to
      go round in circles, leads to a file with the data through files that have neither data nor an empty
      line in its place. */
  lemma FindIffReachable(c: Config, keyword: string, file: string)
    requires file in c.files
    ensures Find(c, keyword, file, {file}).Some? <==> exists names :: Walk(c, keyword, names) && names[0] == file
  {
    hide OwnData, Includes, Find;
    if Find(c, keyword, file, {file}).Some? {
      FindIsFirst(c, keyword, file, {file}, []);
      var names := HitIsWalk(c, keyword, file, {file}, Find(c, keyword, file, {file}).value);
    }
    if names :| Walk(c, keyword, names) && names[0] == file {
      var simple := Shortcut(c, keyword, names);
      var choices := SimpleWalkHits(c, keyword, simple, {file});
      FindIsFirst(c, keyword, file, {file}, choices);
    }
  }
}
