/**
  `get_files_info`: list a directory inside the working directory, one line
  per entry giving its name, its size and whether it is a directory.
 */
module GetFilesInfo {
  import opened Wrappers
  import opened Strings
  import opened Paths
  import opened FileSystem

  /** One dict of `files_info`. */
  datatype EntryInfo = EntryInfo(name: string, isDirectory: bool, size: Option<nat>)

  /** What `isfile`, `getsize` and `isdir` report for `item` in the directory with components `dir`. */
  function EntryOf(fs: Fs, dir: seq<string>, item: string): (e: EntryInfo)
    ensures e.name == item
    ensures e.isDirectory <==> dir + [item] in fs && fs[dir + [item]] == Dir
    ensures e.size.Some? <==> dir + [item] in fs && fs[dir + [item]].File?
    ensures e.size.Some? ==> e.size.value == |fs[dir + [item]].content|
  {
    var key := dir + [item];
    var isFile := key in fs && fs[key].File?;
    EntryInfo(item, key in fs && fs[key] == Dir, if isFile then Some(|fs[key].content|) else None)
  }

  /** The entries for a listing, in listing order. */
  function Entries(fs: Fs, dir: seq<string>, items: seq<string>): (es: seq<EntryInfo>)
    ensures |es| == |items| && forall k :: 0 <= k < |items| ==> es[k] == EntryOf(fs, dir, items[k])
  {
    if items == [] then [] else Entries(fs, dir, items[..|items| - 1]) + [EntryOf(fs, dir, items[|items| - 1])]
  }

  /** Python's `str(bool)`. */
  function PyBool(b: bool): string {
    if b then "True" else "False"
  }

  /** Python's `str()` of the size: `None` for anything but a regular file. */
  function SizeText(size: Option<nat>): string {
    match size
    case None => "None"
    case Some(n) => NatToString(n)
  }

  function FormatEntry(e: EntryInfo): string {
    "- " + e.name + ", size=" + SizeText(e.size) + " bytes, is_dir=" + PyBool(e.isDirectory)
  }

  /** The list comprehension: one line per entry, in order. */
  function FormatLines(es: seq<EntryInfo>): (lines: seq<string>)
    ensures |lines| == |es| && forall k :: 0 <= k < |es| ==> lines[k] == FormatEntry(es[k])
  {
    if es == [] then [] else FormatLines(es[..|es| - 1]) + [FormatEntry(es[|es| - 1])]
  }

  function FormatListing(es: seq<EntryInfo>): string {
    Join(FormatLines(es), '\n')
  }

  /** The directory listed: `normpath(join(abs_wd, directory))`. */
  function ListTarget(absWd: string, directory: string): string {
    Normpath(JoinPath(absWd, directory))
  }

  function OutsideError(directory: string): string {
    "Error: Cannot list \"" + directory + "\" as it is outside the permitted working directory"
  }

  function MissingError(directory: string): string {
    "Error: \"" + directory + "\" is not a directory"
  }

  /** What happens once containment has passed, `items` being what `os.listdir` returns. */
  function ListInside(fs: Fs, target: string, directory: string, items: seq<string>): string {
    if !Exists(fs, target) then MissingError(directory)
    else if !IsDir(fs, target) then "Error: " + OsError(ENOTDIR, "Not a directory", target)
    else FormatListing(Entries(fs, Components(target), items))
  }

  /** `get_files_info(working_directory, directory)`, with the process directory `cwd`. */
  function FilesInfo(fs: Fs, cwd: string, workingDirectory: string, directory: string, items: seq<string>): string
    requires IsAbs(cwd)
  {
    var absWd := Abspath(cwd, workingDirectory);
    AbspathIsNormal(cwd, workingDirectory);
    var target := ListTarget(absWd, directory);
    ResolveIsNormal(absWd, directory);
    if !Permitted(absWd, target) then OutsideError(directory)
    else ListInside(fs, target, directory, items)
  }

  /** The tool itself: the loop that collects one dict per listed item, then the join. */
  method GetFilesInfo(fs: Fs, cwd: string, workingDirectory: string, directory: string, items: seq<string>)
    returns (r: string)
    requires IsAbs(cwd)
    ensures r == FilesInfo(fs, cwd, workingDirectory, directory, items)
  {
    var absWd := Abspath(cwd, workingDirectory);
    AbspathIsNormal(cwd, workingDirectory);
    var target := ListTarget(absWd, directory);
    ResolveIsNormal(absWd, directory);
    if !Permitted(absWd, target) {
      return OutsideError(directory);
    }
    if !Exists(fs, target) {
      return MissingError(directory);
    }
    if !IsDir(fs, target) {
      return "Error: " + OsError(ENOTDIR, "Not a directory", target);
    }
    r := Listing(fs, Components(target), items);
  }

  /** The loop that collects one dict per listed item, and the join of their lines. */
  method Listing(fs: Fs, dir: seq<string>, items: seq<string>) returns (r: string)
    ensures r == FormatListing(Entries(fs, dir, items))
  {
    var filesInfo: seq<EntryInfo> := [];
    for i := 0 to |items|
      invariant filesInfo == Entries(fs, dir, items[..i])
    {
      EntriesSnoc(fs, dir, items, i);
      filesInfo := filesInfo + [EntryOf(fs, dir, items[i])];
    }
    assert items[..|items|] == items;
    var lines := seq(|filesInfo|, k requires 0 <= k < |filesInfo| => FormatEntry(filesInfo[k]));
    LinesAreFormatted(filesInfo, lines);
    r := Join(lines, '\n');
  }

  lemma EntriesSnoc(fs: Fs, dir: seq<string>, items: seq<string>, i: nat)
    requires i < |items|
    ensures Entries(fs, dir, items[..i + 1]) == Entries(fs, dir, items[..i]) + [EntryOf(fs, dir, items[i])]
  {
    assert items[..i + 1][..i] == items[..i];
  }

  lemma LinesAreFormatted(es: seq<EntryInfo>, lines: seq<string>)
    requires |lines| == |es| && forall k :: 0 <= k < |es| ==> lines[k] == FormatEntry(es[k])
    ensures lines == FormatLines(es)
  {
  }

  /** A directory whose components do not extend the working directory's is refused, whatever the disk holds. */
  lemma ListOutside(fs: Fs, cwd: string, workingDirectory: string, directory: string, items: seq<string>)
    requires IsAbs(cwd)
    requires InitialSlashes(Abspath(cwd, workingDirectory)) == 1
    requires !(Components(Abspath(cwd, workingDirectory)) <= Components(Resolve(Abspath(cwd, workingDirectory), directory)))
    ensures FilesInfo(fs, cwd, workingDirectory, directory, items) == OutsideError(directory)
  {
    var absWd := Abspath(cwd, workingDirectory);
    AbspathIsNormal(cwd, workingDirectory);
    ResolveIsNormal(absWd, directory);
    PermittedIffPrefix(absWd, Resolve(absWd, directory));
  }

  /** `../` leaves any working directory but `/`, so it is refused. */
  lemma ListParent(fs: Fs, cwd: string, workingDirectory: string, items: seq<string>)
    requires IsAbs(cwd)
    requires InitialSlashes(Abspath(cwd, workingDirectory)) == 1
    requires Components(Abspath(cwd, workingDirectory)) != []
    ensures FilesInfo(fs, cwd, workingDirectory, "../", items) == OutsideError("../")
  {
    var absWd := Abspath(cwd, workingDirectory);
    AbspathIsNormal(cwd, workingDirectory);
    ParentIsOutside(absWd);
    ResolveIsNormal(absWd, "../");
  }

  /** The default `directory="."` is the working directory itself, and passes containment. */
  lemma ListDefault(fs: Fs, cwd: string, workingDirectory: string, items: seq<string>)
    requires IsAbs(cwd)
    requires InitialSlashes(Abspath(cwd, workingDirectory)) == 1
    ensures FilesInfo(fs, cwd, workingDirectory, ".", items)
      == ListInside(fs, Abspath(cwd, workingDirectory), ".", items)
  {
    var absWd := Abspath(cwd, workingDirectory);
    AbspathIsNormal(cwd, workingDirectory);
    DotIsWorkdir(absWd);
  }

  /** Inside the working directory a missing target is reported as not a directory. */
  lemma ListMissing(fs: Fs, cwd: string, workingDirectory: string, directory: string, items: seq<string>)
    requires IsAbs(cwd)
    requires InitialSlashes(Abspath(cwd, workingDirectory)) == 1
    requires var absWd := Abspath(cwd, workingDirectory);
      Components(absWd) <= Components(Resolve(absWd, directory)) && Components(Resolve(absWd, directory)) !in fs
    ensures FilesInfo(fs, cwd, workingDirectory, directory, items) == MissingError(directory)
  {
    var absWd := Abspath(cwd, workingDirectory);
    AbspathIsNormal(cwd, workingDirectory);
    ResolveIsNormal(absWd, directory);
    PermittedIffPrefix(absWd, Resolve(absWd, directory));
  }

  /** No formatted line contains a newline when no name does. */
  lemma LinesHaveNoNewline(es: seq<EntryInfo>)
    requires forall k :: 0 <= k < |es| ==> '\n' !in es[k].name
    ensures forall k :: 0 <= k < |es| ==> '\n' !in FormatLines(es)[k]
  {
    forall k | 0 <= k < |es| ensures '\n' !in FormatLines(es)[k] {
      LineHasNoNewline(es[k]);
    }
  }

  lemma LineHasNoNewline(e: EntryInfo)
    requires '\n' !in e.name
    ensures '\n' !in FormatEntry(e)
  {
    var st := SizeText(e.size);
    assert '\n' !in st by {
      forall j | 0 <= j < |st| ensures st[j] != '\n' {
        assert IsDigit(st[j]) || st == "None";
      }
    }
    var pieces := ["- ", e.name, ", size=", st, " bytes, is_dir=", PyBool(e.isDirectory)];
    assert forall k :: 0 <= k < |pieces| ==> '\n' !in pieces[k];
    assert FormatEntry(e) == pieces[0] + pieces[1] + pieces[2] + pieces[3] + pieces[4] + pieces[5];
  }

  /**
    The listing is one line per entry in listing order, joined by newlines
    with none at the end; an empty directory gives the empty string.
   */
  lemma ListingLines(es: seq<EntryInfo>)
    requires forall k :: 0 <= k < |es| ==> '\n' !in es[k].name
    ensures es == [] ==> FormatListing(es) == ""
    ensures es != [] ==> Split(FormatListing(es), '\n') == FormatLines(es)
  {
    if es != [] {
      LinesHaveNoNewline(es);
      SplitJoin(FormatLines(es), '\n');
    }
  }
}
