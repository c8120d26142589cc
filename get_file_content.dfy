/**
  `get_file_content`: read a file inside the working directory, cutting the
  text at a character limit and marking the cut.
 */
module GetFileContent {
  import opened Strings
  import opened Paths
  import opened FileSystem

  /** What `fd.read(n)` returns on a file positioned at `pos`. */
  function ReadAt(text: string, pos: nat, n: nat): string {
    if pos >= |text| then "" else if pos + n >= |text| then text[pos..] else text[pos..pos + n]
  }

  /**
    What a file opened in text mode reads as: universal newlines turn
    `\r\n` and a lone `\r` into `\n`, and leave every other character.
   */
  function TextMode(raw: string): (t: string)
    ensures '\r' !in t
    ensures '\r' !in raw ==> t == raw
    ensures |t| <= |raw|
    decreases |raw|
  {
    if raw == [] then []
    else if raw[0] == '\r' then "\n" + TextMode(if |raw| > 1 && raw[1] == '\n' then raw[2..] else raw[1..])
    else
      assert '\r' !in raw ==> '\r' !in raw[1..];
      [raw[0]] + TextMode(raw[1..])
  }

  /** A Windows line end and an old Mac one both read as one newline. */
  lemma TextModeOfLineEnds(a: string, b: string)
    requires '\r' !in a && '\r' !in b && (b == [] || b[0] != '\n')
    ensures TextMode(a + "\r\n" + b) == a + "\n" + b
    ensures TextMode(a + "\r" + b) == a + "\n" + b
  {
    Regroup(a, "\r\n", b);
    Regroup(a, "\r", b);
    Regroup(a, "\n", b);
    TextModeAfterPlain(a, "\r\n" + b);
    TextModeAfterPlain(a, "\r" + b);
    assert ("\r\n" + b)[2..] == b;
    assert ("\r" + b)[1..] == b;
  }

  lemma Regroup(a: string, m: string, b: string)
    ensures a + m + b == a + (m + b)
  {
  }

  /** Text without a `\r` reads as itself in front of whatever follows. */
  lemma {:induction false} TextModeAfterPlain(a: string, x: string)
    requires '\r' !in a
    ensures TextMode(a + x) == a + TextMode(x)
    decreases |a|
  {
    if a == [] {
      assert a + x == x;
    } else {
      var ax := a + x;
      assert ax != [] && ax[0] == a[0] && a[0] != '\r';
      assert ax[1..] == a[1..] + x;
      assert TextMode(ax) == [a[0]] + TextMode(a[1..] + x);
      TextModeAfterPlain(a[1..], x);
      HeadThenRest(a, TextMode(x));
    }
  }

  lemma HeadThenRest(a: string, y: string)
    requires a != []
    ensures [a[0]] + (a[1..] + y) == a + y
  {
    assert [a[0]] + a[1..] == a;
  }

  function TruncationMarker(filePath: string, maxChars: nat): string {
    "[...File \"" + filePath + "\" truncated at " + NatToString(maxChars) + " characters]"
  }

  /**
    Read at most `maxChars` characters; if one more can be read, append the
    marker.  Short text comes back unchanged.
   */
  function ReadLimited(content: string, filePath: string, maxChars: nat): (r: string)
    ensures |content| <= maxChars ==> r == content
    ensures |content| > maxChars ==> r == content[..maxChars] + TruncationMarker(filePath, maxChars)
    ensures |r| <= maxChars + |TruncationMarker(filePath, maxChars)|
  {
    var head := ReadAt(content, 0, maxChars);
    if ReadAt(content, |head|, 1) != "" then head + TruncationMarker(filePath, maxChars) else head
  }

  /** The path read: `normpath(abspath(join(abs_wd, file_path)))`. */
  function Target(cwd: string, absWd: string, filePath: string): string {
    Normpath(Abspath(cwd, JoinPath(absWd, filePath)))
  }

  /** The extra `abspath` and `normpath` change nothing: the target is the resolved path. */
  lemma TargetIsResolve(cwd: string, absWd: string, filePath: string)
    requires IsAbs(absWd)
    ensures Target(cwd, absWd, filePath) == Resolve(absWd, filePath)
    ensures IsNormalAbs(Target(cwd, absWd, filePath))
  {
    var q := JoinPath(absWd, filePath);
    NormpathOfAbs(q);
    NormpathIdempotent(q);
  }

  function OutsideError(filePath: string): string {
    "Error: Cannot read \"" + filePath + "\" as it is outside the permitted working directory"
  }

  function NotFoundError(filePath: string): string {
    "Error: File not found or is not a regular file: \"" + filePath + "\""
  }

  /** `get_file_content(working_directory, file_path)` with the process directory `cwd`. */
  function GetFileContent(fs: Fs, cwd: string, workingDirectory: string, filePath: string, maxChars: nat): string
    requires IsAbs(cwd)
  {
    var absWd := Abspath(cwd, workingDirectory);
    AbspathIsNormal(cwd, workingDirectory);
    var target := Target(cwd, absWd, filePath);
    TargetIsResolve(cwd, absWd, filePath);
    if !Permitted(absWd, target) then OutsideError(filePath)
    else if !IsFile(fs, target) then NotFoundError(filePath)
    else ReadLimited(TextMode(fs[Components(target)].content), filePath, maxChars)
  }

  /**
    A target whose components do not extend the working directory's is
    refused with the same message whatever the disk holds: containment is
    checked before existence.
   */
  lemma ReadOutside(fs: Fs, cwd: string, workingDirectory: string, filePath: string, maxChars: nat)
    requires IsAbs(cwd)
    requires InitialSlashes(Abspath(cwd, workingDirectory)) == 1
    requires !(Components(Abspath(cwd, workingDirectory)) <= Components(Resolve(Abspath(cwd, workingDirectory), filePath)))
    ensures GetFileContent(fs, cwd, workingDirectory, filePath, maxChars) == OutsideError(filePath)
  {
    var absWd := Abspath(cwd, workingDirectory);
    AbspathIsNormal(cwd, workingDirectory);
    TargetIsResolve(cwd, absWd, filePath);
    ResolveIsNormal(absWd, filePath);
    PermittedIffPrefix(absWd, Resolve(absWd, filePath));
  }

  /**
    Inside the working directory, a regular file gives its (possibly cut)
    text and anything else the not-found message.
   */
  lemma ReadInside(fs: Fs, cwd: string, workingDirectory: string, filePath: string, maxChars: nat)
    requires IsAbs(cwd)
    requires InitialSlashes(Abspath(cwd, workingDirectory)) == 1
    requires Components(Abspath(cwd, workingDirectory)) <= Components(Resolve(Abspath(cwd, workingDirectory), filePath))
    ensures var key := Components(Resolve(Abspath(cwd, workingDirectory), filePath));
      GetFileContent(fs, cwd, workingDirectory, filePath, maxChars)
      == if key in fs && fs[key].File? then ReadLimited(TextMode(fs[key].content), filePath, maxChars) else NotFoundError(filePath)
  {
    var absWd := Abspath(cwd, workingDirectory);
    AbspathIsNormal(cwd, workingDirectory);
    TargetIsResolve(cwd, absWd, filePath);
    ResolveIsNormal(absWd, filePath);
    PermittedIffPrefix(absWd, Resolve(absWd, filePath));
  }

  /** A working directory spelled with two leading slashes lets nothing be read. */
  lemma ReadFromDoubleSlashWorkdir(fs: Fs, cwd: string, workingDirectory: string, filePath: string, maxChars: nat)
    requires IsAbs(cwd)
    requires InitialSlashes(Abspath(cwd, workingDirectory)) == 2
    ensures GetFileContent(fs, cwd, workingDirectory, filePath, maxChars) == OutsideError(filePath)
  {
    var absWd := Abspath(cwd, workingDirectory);
    AbspathIsNormal(cwd, workingDirectory);
    TargetIsResolve(cwd, absWd, filePath);
    ResolveIsNormal(absWd, filePath);
    DoubleSlashWorkdirPermitsNothing(absWd, Resolve(absWd, filePath));
  }

  /**
    An absolute `file_path` replaces the working directory, so `/bin/cat`
    is refused unless the working directory is `/`, `/bin` or `/bin/cat`.
   */
  lemma ReadBinCat(fs: Fs, cwd: string, workingDirectory: string, maxChars: nat)
    requires IsAbs(cwd)
    requires InitialSlashes(Abspath(cwd, workingDirectory)) == 1
    requires !(Components(Abspath(cwd, workingDirectory)) <= ["bin", "cat"])
    ensures GetFileContent(fs, cwd, workingDirectory, "/bin/cat", maxChars) == OutsideError("/bin/cat")
  {
    BinCatResolves(Abspath(cwd, workingDirectory));
    ReadOutside(fs, cwd, workingDirectory, "/bin/cat", maxChars);
  }

  lemma BinCatResolves(absWd: string)
    ensures Components(Resolve(absWd, "/bin/cat")) == ["bin", "cat"]
  {
    AbsoluteReplacesWorkdir(absWd, "/bin/cat");
    BinCatIsNormal();
  }

  lemma BinCatIsNormal()
    ensures Normpath("/bin/cat") == "/bin/cat" && Components("/bin/cat") == ["bin", "cat"]
  {
    var cs := ["bin", "cat"];
    PathOfNames(cs);
    BinCatPath(cs);
  }

  lemma BinCatPath(cs: seq<string>)
    requires cs == ["bin", "cat"]
    ensures PathOf(cs) == "/bin/cat"
  {
    assert cs[1..] == ["cat"];
    assert Join(cs, '/') == "bin" + "/" + "cat";
  }
}
