/**
  `parse_files_info` from the listing tests: the line-by-line regex parser
  that reads a listing back into a dict from name to size and directory flag.
 */
module FilesInfoParser {
  import opened Wrappers
  import opened Strings
  import opened GetFilesInfo

  /** What the parser keeps for one name. */
  datatype FileFacts = FileFacts(size: Option<int>, isDir: bool)

  /** The three groups of a successful match. */
  datatype LineMatch = LineMatch(name: string, size: string, isDir: bool)

  const SizeSep: string := ", size="
  const TrueTail: string := " bytes, is_dir=True"
  const FalseTail: string := " bytes, is_dir=False"

  /** Does the separator start at `j` with at least one character after it? */
  predicate SepAt(body: string, j: nat) {
    j + |SizeSep| < |body| && body[j..j + |SizeSep|] == SizeSep
  }

  /** The first `j >= i` where the separator starts with text after it: how the lazy `(.+?)` groups split. */
  function FindSep(body: string, i: nat): (r: Option<nat>)
    ensures r.Some? ==> i <= r.value && SepAt(body, r.value)
    ensures r.Some? ==> forall j :: i <= j < r.value ==> !SepAt(body, j)
    ensures r.None? ==> forall j :: i <= j ==> !SepAt(body, j)
    decreases |body| - i
  {
    if i + |SizeSep| >= |body| then None
    else if body[i..i + |SizeSep|] == SizeSep then Some(i)
    else FindSep(body, i + 1)
  }

  /**
    `re.match(r"^- (.+?), size=(.+?) bytes, is_dir=(True|False)$", line)` on a
    line of `split("\n")`.  The anchored tail fixes the size group; the name
    group is the shortest non-empty one followed by the separator.
   */
  function MatchLine(line: string): Option<LineMatch> {
    var isDir := EndsWith(line, TrueTail);
    var tail := if isDir then TrueTail else FalseTail;
    if !StartsWith(line, "- ") || !EndsWith(line, tail) || |line| < 2 + |tail| then None
    else
      var body := line[2..|line| - |tail|];
      match FindSep(body, 1)
      case None => None
      case Some(i) => Some(LineMatch(body[..i], body[i + |SizeSep|..], isDir))
  }

  /** Python's `int(text)`: optional surrounding whitespace, an optional sign, ASCII digits with single underscores between them. */
  function PyInt(text: string): Option<int> {
    var t := Strip(text);
    var signed := |t| > 0 && (t[0] == '-' || t[0] == '+');
    var body := if signed then t[1..] else t;
    if !IsDigitGroups(body) then None
    else
      var v: int := DigitsValue(WithoutUnderscores(body));
      Some(if signed && t[0] == '-' then -v else v)
  }

  /** Digits with single underscores between them, as `int` accepts them. */
  predicate IsDigitGroups(s: string) {
    |s| > 0 && IsDigit(s[0]) && IsDigit(s[|s| - 1])
    && (forall i :: 0 <= i < |s| ==> IsDigit(s[i]) || s[i] == '_')
    && (forall i {:trigger UnderscoreThenDigit(s, i)} :: 0 <= i < |s| ==> UnderscoreThenDigit(s, i))
  }

  /** An underscore at `i` is followed by a digit. */
  predicate UnderscoreThenDigit(s: string, i: nat)
    requires i < |s|
  {
    s[i] == '_' ==> i + 1 < |s| && IsDigit(s[i + 1])
  }

  function WithoutUnderscores(s: string): (r: string)
    requires forall i :: 0 <= i < |s| ==> IsDigit(s[i]) || s[i] == '_'
    ensures AllDigits(r)
  {
    if s == [] then []
    else (if s[0] == '_' then [] else [s[0]]) + WithoutUnderscores(s[1..])
  }

  /** `None if size == "None" else int(size)`; a failing `int` raises `ValueError`. */
  function SizeOf(text: string): Result<Option<int>, string> {
    if text == "None" then Success(None)
    else match PyInt(text)
      case None => Failure("invalid literal for int() with base 10: '" + text + "'")
      case Some(n) => Success(Some(n))
  }

  /** One turn of the loop: a matching line sets its name, overwriting an earlier one. */
  function Step(acc: Result<map<string, FileFacts>, string>, line: string): Result<map<string, FileFacts>, string> {
    match acc
    case Failure(e) => Failure(e)
    case Success(m) =>
      match MatchLine(line)
      case None => Success(m)
      case Some(lm) =>
        Insert(m, lm)
  }

  /** `parsed_files[name] = {...}` for one match; the size conversion may raise. */
  function Insert(m: map<string, FileFacts>, lm: LineMatch): Result<map<string, FileFacts>, string> {
    match SizeOf(lm.size)
    case Failure(e) => Failure(e)
    case Success(sz) => Success(m[lm.name := FileFacts(sz, lm.isDir)])
  }

  /** The loop over the lines, first to last. */
  function ParseLines(lines: seq<string>): Result<map<string, FileFacts>, string>
    decreases |lines|
  {
    if lines == [] then Success(map[]) else Step(ParseLines(lines[..|lines| - 1]), lines[|lines| - 1])
  }

  /** An error stays an error whatever lines follow. */
  lemma {:induction false} FailureSticks(lines: seq<string>, i: nat)
    requires i <= |lines| && ParseLines(lines[..i]).Failure?
    ensures ParseLines(lines) == ParseLines(lines[..i])
    decreases |lines| - i
  {
    if i < |lines| {
      assert lines[..i + 1][..i] == lines[..i];
      FailureSticks(lines, i + 1);
    } else {
      assert lines[..i] == lines;
    }
  }

  /** One more line of the prefix is one more turn of the loop. */
  lemma ParsePrefixStep(lines: seq<string>, i: nat)
    requires i < |lines|
    ensures ParseLines(lines[..i + 1]) == Step(ParseLines(lines[..i]), lines[i])
  {
    assert lines[..i + 1][..i] == lines[..i];
  }

  /** `parse_files_info(files_info)`: the dict, or the text of the `ValueError` it raises. */
  method ParseFilesInfo(filesInfo: string) returns (r: Result<map<string, FileFacts>, string>)
    ensures r == ParseLines(Split(filesInfo, '\n'))
  {
    var lines := Split(filesInfo, '\n');
    var parsed: map<string, FileFacts> := map[];
    for i := 0 to |lines|
      invariant ParseLines(lines[..i]) == Success(parsed)
    {
      ParsePrefixStep(lines, i);
      var m := MatchLine(lines[i]);
      if m.Some? {
        var size := SizeOf(m.value.size);
        if size.Failure? {
          FailureSticks(lines, i + 1);
          return Failure(size.error);
        }
        parsed := parsed[m.value.name := FileFacts(size.value, m.value.isDir)];
      }
    }
    assert lines[..|lines|] == lines;
    r := Success(parsed);
  }

  // ---------------------------------------------------------------------------
  // Reading back what `get_files_info` writes

  /** A name the listing format can carry unambiguously. */
  predicate NameOk(name: string) {
    name != "" && '\n' !in name && !Contains(name, SizeSep)
  }

  /** What the parser should recover for one entry. */
  function FactsOf(e: EntryInfo): FileFacts {
    FileFacts(match e.size case None => None case Some(n) => Some(n), e.isDirectory)
  }

  /** The dict a listing should parse to: each entry in turn, a later name overwriting an earlier one. */
  function Expected(es: seq<EntryInfo>): map<string, FileFacts>
    decreases |es|
  {
    if es == [] then map[] else Expected(es[..|es| - 1])[es[|es| - 1].name := FactsOf(es[|es| - 1])]
  }

  lemma {:induction false} FindSepIs(body: string, i: nat, p: nat)
    requires i <= p && SepAt(body, p)
    requires forall j :: i <= j < p ==> !SepAt(body, j)
    ensures FindSep(body, i) == Some(p)
    decreases p - i
  {
    if i < p {
      FindSepIs(body, i + 1, p);
    }
  }

  /** The separator cannot start inside a name that does not contain it: its first character occurs nowhere else in it. */
  lemma NoEarlierSep(name: string, rest: string, j: nat)
    requires !Contains(name, SizeSep) && 1 <= j < |name|
    ensures !SepAt(name + SizeSep + rest, j)
  {
    if j + |SizeSep| <= |name| {
      if SepAt(name + SizeSep + rest, j) {
        SepInsideName(name, rest, j);
      }
    } else {
      SepStraddles(name, rest, j);
    }
  }

  lemma SepInsideName(name: string, rest: string, j: nat)
    requires j + |SizeSep| <= |name|
    requires SepAt(name + SizeSep + rest, j)
    ensures Contains(name, SizeSep)
  {
    SliceOfFront(name, SizeSep, rest, j, j + |SizeSep|);
    ContainsAt(name, SizeSep, j);
  }

  lemma SliceOfFront(a: string, b: string, c: string, i: nat, k: nat)
    requires i <= k <= |a|
    ensures (a + b + c)[i..k] == a[i..k]
  {
  }

  lemma SepStraddles(name: string, rest: string, j: nat)
    requires j < |name| < j + |SizeSep|
    ensures !SepAt(name + SizeSep + rest, j)
  {
    var body := name + SizeSep + rest;
    var d := |name| - j;
    assert body[|name|] == ',';
    assert 1 <= d < |SizeSep| && SizeSep[d] != ',';
    if j + |SizeSep| < |body| {
      assert body[j..j + |SizeSep|][d] == ',';
    }
  }

  lemma SizeTextNotEmpty(size: Option<nat>)
    ensures |SizeText(size)| >= 1
  {
  }

  /** The regex takes a formatted line apart into its name, its size text and its flag. */
  lemma MatchFormatEntry(e: EntryInfo)
    requires NameOk(e.name)
    ensures MatchLine(FormatEntry(e)) == Some(LineMatch(e.name, SizeText(e.size), e.isDirectory))
  {
    var name, st := e.name, SizeText(e.size);
    var tail := if e.isDirectory then TrueTail else FalseTail;
    var body := name + SizeSep + st;
    LineShape(e, body, tail);
    SizeTextNotEmpty(e.size);
    SepAfterName(name, st);
    MatchFramed(FormatEntry(e), name, st, e.isDirectory);
  }

  /** A line framed by `- ` and a tail, whose body splits at the first separator, matches with those groups. */
  lemma MatchFramed(line: string, name: string, st: string, isDir: bool)
    requires StartsWith(line, "- ") && EndsWith(line, TrueTail) == isDir
    requires var tail := if isDir then TrueTail else FalseTail;
      EndsWith(line, tail) && |line| >= 2 + |tail| && line[2..|line| - |tail|] == name + SizeSep + st
    requires var body := name + SizeSep + st;
      FindSep(body, 1) == Some(|name|) && body[..|name|] == name && body[|name| + |SizeSep|..] == st
    ensures MatchLine(line) == Some(LineMatch(name, st, isDir))
  {
  }

  /** A formatted line is `- `, the body, and the tail its flag selects. */
  lemma LineShape(e: EntryInfo, body: string, tail: string)
    requires body == e.name + SizeSep + SizeText(e.size)
    requires tail == if e.isDirectory then TrueTail else FalseTail
    ensures var line := FormatEntry(e);
      StartsWith(line, "- ") && EndsWith(line, TrueTail) == e.isDirectory && EndsWith(line, tail)
      && |line| >= 2 + |tail| && line[2..|line| - |tail|] == body
  {
    var line := FormatEntry(e);
    FormatEntryShape(e);
    Framed("- ", body, tail, line);
    if !e.isDirectory {
      NotTrueTail(line);
    }
  }

  lemma FormatEntryShape(e: EntryInfo)
    ensures FormatEntry(e) == "- " + (e.name + SizeSep + SizeText(e.size)) + (if e.isDirectory then TrueTail else FalseTail)
  {
    assert " bytes, is_dir=" + "True" == TrueTail;
    assert " bytes, is_dir=" + "False" == FalseTail;
  }

  lemma Framed(pre: string, body: string, tail: string, line: string)
    requires line == pre + body + tail
    ensures StartsWith(line, pre) && EndsWith(line, tail)
    ensures |line| >= |pre| + |tail| && line[|pre|..|line| - |tail|] == body
  {
    assert line[..|pre|] == pre;
    assert line[|line| - |tail|..] == tail;
    assert line[|pre|..|line| - |tail|] == body;
  }

  /** A line ending in the `False` tail does not end in the `True` one. */
  lemma NotTrueTail(line: string)
    requires EndsWith(line, FalseTail)
    ensures !EndsWith(line, TrueTail)
  {
    assert line[|line| - |TrueTail|] == line[|line| - |FalseTail|..][1] == 'b';
  }

  /** The lazy name group ends where the separator after the name starts. */
  lemma SepAfterName(name: string, st: string)
    requires NameOk(name) && st != []
    ensures var body := name + SizeSep + st;
      FindSep(body, 1) == Some(|name|) && body[..|name|] == name && body[|name| + |SizeSep|..] == st
  {
    var body := name + SizeSep + st;
    assert body[|name|..|name| + |SizeSep|] == SizeSep;
    forall j | 1 <= j < |name| ensures !SepAt(body, j) {
      NoEarlierSep(name, st, j);
    }
    FindSepIs(body, 1, |name|);
    assert body[..|name|] == name && body[|name| + |SizeSep|..] == st;
  }

  /** `str.strip` leaves text alone whose ends are not whitespace. */
  lemma StripUnchanged(s: string)
    requires s != [] && !IsSpace(s[0]) && !IsSpace(s[|s| - 1])
    ensures Strip(s) == s
  {
    var t := TrimStart(s);
    assert t == s;
  }

  lemma {:induction false} WithoutUnderscoresOfDigits(s: string)
    requires AllDigits(s)
    ensures WithoutUnderscores(s) == s
    decreases |s|
  {
    if s != [] {
      WithoutUnderscoresOfDigits(s[1..]);
      assert s == [s[0]] + s[1..];
    }
  }

  /** `int(str(n))` is `n`, for every integer. */
  lemma PyIntOfIntToString(n: int)
    ensures PyInt(IntToString(n)) == Some(n)
  {
    var s := IntToString(n);
    if n < 0 {
      var m: nat := -n;
      assert s == "-" + NatToString(m);
      PyIntOfNegative(m);
      assert PyInt(s) == Some(-(m as int));
    } else {
      var m: nat := n;
      assert s == NatToString(m);
      PyIntOfNatToString(m);
      assert PyInt(s) == Some(m);
    }
  }

  lemma DigitsAreGroups(ds: string)
    requires ds != [] && AllDigits(ds)
    ensures IsDigitGroups(ds)
  {
    forall i | 0 <= i < |ds| ensures UnderscoreThenDigit(ds, i) {
      assert IsDigit(ds[i]);
    }
  }

  lemma PyIntOfNatToString(n: nat)
    ensures PyInt(NatToString(n)) == Some(n)
  {
    var ds := NatToString(n);
    StripUnchanged(ds);
    assert !(ds[0] == '-' || ds[0] == '+');
    DigitsAreGroups(ds);
    WithoutUnderscoresOfDigits(ds);
    DigitsValueOfNatToString(n);
  }

  lemma PyIntOfNegative(n: nat)
    requires n > 0
    ensures PyInt("-" + NatToString(n)) == Some(-(n as int))
  {
    var ds := NatToString(n);
    PyIntOfMinusDigits("-" + ds, ds);
    DigitsValueOfNatToString(n);
  }

  lemma PyIntOfMinusDigits(t: string, ds: string)
    requires ds != [] && AllDigits(ds) && t == "-" + ds
    ensures PyInt(t) == Some(-(DigitsValue(ds) as int))
  {
    assert t[0] == '-' && t[|t| - 1] == ds[|ds| - 1];
    assert IsDigit(ds[|ds| - 1]);
    StripUnchanged(t);
    assert t[1..] == ds;
    DigitsAreGroups(ds);
    PyIntOfSigned(t);
    WithoutUnderscoresOfDigits(ds);
  }

  lemma PyIntOfSigned(t: string)
    requires Strip(t) == t && |t| > 0 && t[0] == '-' && IsDigitGroups(t[1..])
    ensures PyInt(t) == Some(-(DigitsValue(WithoutUnderscores(t[1..])) as int))
  {
  }

  /** The size text round trip: `None` gives no size, a number gives itself. */
  lemma SizeOfSizeText(size: Option<nat>)
    ensures SizeOf(SizeText(size)) == Success(FactsOf(EntryInfo("", false, size)).size)
  {
    if size.Some? {
      var ds := NatToString(size.value);
      assert ds != "None" by {
        assert IsDigit(ds[0]);
      }
      PyIntOfIntToString(size.value);
      assert IntToString(size.value) == ds;
    }
  }

  /** One formatted line adds its entry to whatever dict the lines before it gave. */
  lemma FactsOfFormatted(e: EntryInfo, m: map<string, FileFacts>)
    requires NameOk(e.name)
    ensures Step(Success(m), FormatEntry(e)) == Success(m[e.name := FactsOf(e)])
  {
    MatchFormatEntry(e);
    SizeOfSizeText(e.size);
  }

  /** Parsing the formatted lines of a listing gives back the expected dict. */
  lemma {:induction false} ParseFormatted(es: seq<EntryInfo>)
    requires forall k :: 0 <= k < |es| ==> NameOk(es[k].name)
    ensures ParseLines(FormatLines(es)) == Success(Expected(es))
    decreases |es|
  {
    if es != [] {
      var init, last := es[..|es| - 1], es[|es| - 1];
      FormatLinesSnoc(es);
      ParseFormatted(init);
      FactsOfFormatted(last, Expected(init));
    }
  }

  lemma FormatLinesSnoc(es: seq<EntryInfo>)
    requires es != []
    ensures var lines := FormatLines(es);
      lines[..|lines| - 1] == FormatLines(es[..|es| - 1]) && lines[|lines| - 1] == FormatEntry(es[|es| - 1])
  {
    var init := FormatLines(es[..|es| - 1]);
    assert (init + [FormatEntry(es[|es| - 1])])[..|init|] == init;
  }

  /**
    The round trip: parsing a listing recovers the expected dict, for names
    that are non-empty and hold neither a newline nor the size separator.
   */
  lemma ParseFormatListing(es: seq<EntryInfo>)
    requires forall k :: 0 <= k < |es| ==> NameOk(es[k].name)
    ensures ParseLines(Split(FormatListing(es), '\n')) == Success(Expected(es))
  {
    ListingLines(es);
    if es == [] {
      assert Split("", '\n') == [""];
      assert ParseLines([""]) == Step(ParseLines([]), "");
    } else {
      ParseFormatted(es);
    }
  }

  /** With distinct names, the expected dict has exactly the listed names, each with its own size and flag. */
  lemma {:induction false} ExpectedRecoversEntries(es: seq<EntryInfo>)
    requires forall i, j :: 0 <= i < j < |es| ==> es[i].name != es[j].name
    ensures forall k :: 0 <= k < |es| ==> es[k].name in Expected(es) && Expected(es)[es[k].name] == FactsOf(es[k])
    ensures forall n :: n in Expected(es) ==> exists k :: 0 <= k < |es| && es[k].name == n
    decreases |es|
  {
    if es != [] {
      var init, last := es[..|es| - 1], es[|es| - 1];
      var m := Expected(init);
      assert Expected(es) == m[last.name := FactsOf(last)];
      ExpectedRecoversEntries(init);
      forall k | 0 <= k < |es| ensures es[k].name in Expected(es) && Expected(es)[es[k].name] == FactsOf(es[k]) {
        if k < |init| {
          assert es[k] == init[k];
        }
      }
      forall n | n in Expected(es) ensures exists k :: 0 <= k < |es| && es[k].name == n {
        if n != last.name {
          var k :| 0 <= k < |init| && init[k].name == n;
          assert es[k].name == n;
        }
      }
    }
  }

  /**
    The listing tests' round trip through the tool itself: listing a
    directory and parsing the text back gives every listed item its size
    (for a regular file) and its directory flag, and no other name.
   */
  lemma ListingRoundTrip(fs: FileSystem.Fs, target: string, directory: string, items: seq<string>)
    requires FileSystem.IsDir(fs, target)
    requires forall k :: 0 <= k < |items| ==> NameOk(items[k])
    requires forall i, j :: 0 <= i < j < |items| ==> items[i] != items[j]
    ensures var r := ParseLines(Split(ListInside(fs, target, directory, items), '\n'));
      r.Success?
      && (forall k :: 0 <= k < |items| ==>
            (items[k] in r.value && r.value[items[k]] == FactsOf(EntryOf(fs, Paths.Components(target), items[k]))))
      && (forall n :: n in r.value ==> n in items)
  {
    var es := Entries(fs, Paths.Components(target), items);
    ParseFormatListing(es);
    ExpectedRecoversEntries(es);
  }

  /**
    Listing a directory whose items are what `os.listdir` reports: the
    parsed names are exactly the directory's children, each with its
    directory flag and, for a regular file, its size.
   */
  lemma ListDirectoryRoundTrip(fs: FileSystem.Fs, target: string, directory: string, items: seq<string>)
    requires FileSystem.IsDir(fs, target)
    requires FileSystem.ListsChildren(fs, Paths.Components(target), items)
    requires forall k :: 0 <= k < |items| ==> NameOk(items[k])
    ensures var r := ParseLines(Split(ListInside(fs, target, directory, items), '\n'));
      var dir := Paths.Components(target);
      r.Success?
      && r.value.Keys == FileSystem.Children(fs, dir)
      && (forall n :: n in r.value ==>
            dir + [n] in fs
            && (r.value[n].isDir <==> fs[dir + [n]] == FileSystem.Dir)
            && r.value[n].size == (if fs[dir + [n]].File? then Some(|fs[dir + [n]].content|) else None))
  {
    var r := ParseLines(Split(ListInside(fs, target, directory, items), '\n'));
    ListingRoundTrip(fs, target, directory, items);
    KeysAreChildren(fs, Paths.Components(target), items, r.value);
  }

  /** A map that holds each listed item's facts and no other name holds the directory's children's. */
  lemma KeysAreChildren(fs: FileSystem.Fs, dir: seq<string>, items: seq<string>, m: map<string, FileFacts>)
    requires FileSystem.ListsChildren(fs, dir, items)
    requires forall k :: 0 <= k < |items| ==> items[k] in m && m[items[k]] == FactsOf(EntryOf(fs, dir, items[k]))
    requires forall n :: n in m ==> n in items
    ensures m.Keys == FileSystem.Children(fs, dir)
    ensures forall n :: n in m ==>
      dir + [n] in fs
      && (m[n].isDir <==> fs[dir + [n]] == FileSystem.Dir)
      && m[n].size == (if fs[dir + [n]].File? then Some(|fs[dir + [n]].content|) else None)
  {
    var names := set k | 0 <= k < |items| :: items[k];
    forall n | n in m
      ensures n in FileSystem.Children(fs, dir) && dir + [n] in fs
      ensures (m[n].isDir <==> fs[dir + [n]] == FileSystem.Dir)
      ensures m[n].size == (if fs[dir + [n]].File? then Some(|fs[dir + [n]].content|) else None)
    {
      var k :| 0 <= k < |items| && items[k] == n;
      assert n in names;
      ChildKey(fs, dir, n);
    }
    forall n | n in FileSystem.Children(fs, dir) ensures n in m {
      assert n in names;
      var k :| 0 <= k < |items| && items[k] == n;
    }
  }

  /** A child's name extends the directory to a key of the disk. */
  lemma ChildKey(fs: FileSystem.Fs, dir: seq<string>, n: string)
    requires n in FileSystem.Children(fs, dir)
    ensures dir + [n] in fs
  {
    var key :| key in fs && |key| == |dir| + 1 && key[..|dir|] == dir && key[|dir|] == n;
    assert key == dir + [n];
  }

  /** An error message of the tools, being one line that does not start with `- `, parses to an empty dict. */
  lemma ErrorParsesEmpty(s: string)
    requires StartsWith(s, "Error: ") && '\n' !in s
    ensures ParseLines(Split(s, '\n')) == Success(map[])
  {
    assert Split(s, '\n') == [s];
    assert s[0] == 'E';
    assert !StartsWith(s, "- ") by {
      assert s[..2][0] == 'E';
    }
    assert MatchLine(s) == None;
    assert ParseLines([s]) == Step(ParseLines([]), s);
  }

  /** A later line with the same name overwrites the earlier one. */
  lemma LaterLineWins(m: map<string, FileFacts>, first: LineMatch, second: LineMatch)
    requires first.name == second.name && Insert(m, first).Success?
    ensures Insert(Insert(m, first).value, second) == Insert(m, second)
  {
    var f := FileFacts(SizeOf(first.size).value, first.isDir);
    assert Insert(m, first).value == m[first.name := f];
    var sz := SizeOf(second.size);
    if sz.Success? {
      OverwriteTwice(m, first.name, f, FileFacts(sz.value, second.isDir));
    }
  }

  lemma OverwriteTwice(m: map<string, FileFacts>, k: string, f: FileFacts, g: FileFacts)
    ensures m[k := f][k := g] == m[k := g]
  {
  }
}
