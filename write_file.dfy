/**
  `write_file`: write text to a file inside the working directory, creating
  the missing directories above it.
 */
module WriteFile {
  import opened Wrappers
  import opened Strings
  import opened Paths
  import opened FileSystem
  import GetFileContent

  function OutsideError(filePath: string): string {
    "Error: Cannot write \"" + filePath + "\" as it is outside the permitted working directory"
  }

  function IsDirectoryError(filePath: string): string {
    "Error: Cannot write to \"" + filePath + "\" as it is a directory"
  }

  function SuccessMessage(filePath: string, content: string): string {
    "Successfully wrote to \"" + filePath + "\" (" + NatToString(|content|) + " characters written)"
  }

  /** The path written: `abspath(join(abs_wd, file_path))`. */
  function Target(cwd: string, absWd: string, filePath: string): string {
    Abspath(cwd, JoinPath(absWd, filePath))
  }

  /** How many leading components of `dir` exist, counting on from `k`. */
  function Deepest(fs: Fs, dir: seq<string>, k: nat): (d: nat)
    requires k <= |dir| && dir[..k] in fs
    ensures k <= d <= |dir| && dir[..d] in fs
    ensures d < |dir| ==> dir[..d + 1] !in fs
    decreases |dir| - k
  {
    if k < |dir| && dir[..k + 1] in fs then Deepest(fs, dir, k + 1) else k
  }

  /** The directories `dir[..d + 1]` up to `dir[..j]` added. */
  function AddDirs(fs: Fs, dir: seq<string>, d: nat, j: nat): (r: Fs)
    requires d <= j <= |dir|
    decreases j
  {
    if j == d then fs else AddDirs(fs, dir, d, j - 1)[dir[..j] := Dir]
  }

  /** The path `makedirs` reached when it failed: the prefix of `parent` with the first `i` components. */
  function PathPrefix(parent: string, i: nat): string
    requires i <= |Components(parent)|
  {
    Slashes(InitialSlashes(parent)) + Join(Components(parent)[..i], '/')
  }

  /**
    `os.makedirs(parent, exist_ok=True)`: below the deepest existing prefix,
    the missing directories are made one by one.  An existing file as the
    parent raises `FileExistsError`; a file further up makes the first
    `mkdir` below it fail with `NotADirectoryError`.
   */
  function MakeDirsOutcome(fs: Fs, parent: string): Result<Fs, string>
    requires WellFormed(fs)
  {
    var dir := Components(parent);
    assert dir[..0] == [];
    var d := Deepest(fs, dir, 0);
    if d == |dir| then
      assert dir[..d] == dir;
      if fs[dir] == Dir then Success(fs) else Failure(OsError(EEXIST, "File exists", parent))
    else if fs[dir[..d]].File? then Failure(OsError(ENOTDIR, "Not a directory", PathPrefix(parent, d + 1)))
    else Success(AddDirs(fs, dir, d, |dir|))
  }

  /** `write_file(working_directory, file_path, content)`: the message and the disk afterwards. */
  function WriteOutcome(fs: Fs, cwd: string, workingDirectory: string, filePath: string, content: string): (string, Fs)
    requires IsAbs(cwd) && WellFormed(fs)
  {
    var absWd := Abspath(cwd, workingDirectory);
    AbspathIsNormal(cwd, workingDirectory);
    var target := Target(cwd, absWd, filePath);
    AbspathIsNormal(cwd, JoinPath(absWd, filePath));
    if !Permitted(absWd, target) then (OutsideError(filePath), fs)
    else WriteTarget(fs, target, filePath, content)
  }

  /** What `write_file` does once the target has passed the containment check. */
  function WriteTarget(fs: Fs, target: string, filePath: string, content: string): (string, Fs)
    requires WellFormed(fs)
  {
    var parent := SplitPath(target).0;
    if Exists(fs, parent) && IsDir(fs, target) then (IsDirectoryError(filePath), fs)
    else
      match MakeDirsOutcome(fs, parent)
      case Failure(e) => ("Error: " + e, fs)
      case Success(made) => (SuccessMessage(filePath, content), made[Components(target) := File(content)])
  }

  /** The disk the tools write to. */
  class Disk {
    var nodes: Fs

    ghost predicate Valid()
      reads this
    {
      WellFormed(nodes)
    }

    constructor (initial: Fs)
      requires WellFormed(initial)
      ensures Valid() && nodes == initial
    {
      nodes := initial;
    }

    /** `os.makedirs(parent, exist_ok=True)`. */
    method MakeDirs(parent: string) returns (err: Option<string>)
      requires Valid()
      modifies this
      ensures Valid()
      ensures match MakeDirsOutcome(old(nodes), parent)
        case Failure(e) => err == Some(e) && nodes == old(nodes)
        case Success(made) => err == None && nodes == made
    {
      var dir := Components(parent);
      var d := 0;
      assert dir[..0] == [];
      while d < |dir| && dir[..d + 1] in nodes
        invariant d <= |dir| && dir[..d] in nodes
        invariant Deepest(nodes, dir, d) == Deepest(nodes, dir, 0)
        decreases |dir| - d
      {
        d := d + 1;
      }
      assert d == Deepest(nodes, dir, 0);
      if d == |dir| {
        assert dir[..d] == dir;
        if nodes[dir] == Dir {
          return None;
        }
        return Some(OsError(EEXIST, "File exists", parent));
      }
      if nodes[dir[..d]].File? {
        return Some(OsError(ENOTDIR, "Not a directory", PathPrefix(parent, d + 1)));
      }
      var j := d;
      while j < |dir|
        invariant d <= j <= |dir|
        invariant nodes == AddDirs(old(nodes), dir, d, j)
        invariant WellFormed(nodes) && dir[..j] in nodes && nodes[dir[..j]] == Dir
      {
        j := j + 1;
        assert dir[..j][..j - 1] == dir[..j - 1];
        PutWellFormed(nodes, dir[..j], Dir);
        nodes := nodes[dir[..j] := Dir];
      }
      assert MakeDirsOutcome(old(nodes), parent) == Success(AddDirs(old(nodes), dir, d, |dir|));
      err := None;
    }

    /** `write_file(working_directory, file_path, content)` on this disk. */
    method WriteFile(cwd: string, workingDirectory: string, filePath: string, content: string) returns (r: string)
      requires IsAbs(cwd) && Valid()
      modifies this
      ensures Valid()
      ensures (r, nodes) == WriteOutcome(old(nodes), cwd, workingDirectory, filePath, content)
    {
      var absWd := Abspath(cwd, workingDirectory);
      AbspathIsNormal(cwd, workingDirectory);
      var target := Target(cwd, absWd, filePath);
      AbspathIsNormal(cwd, JoinPath(absWd, filePath));
      if !Permitted(absWd, target) {
        return OutsideError(filePath);
      }
      var parent := SplitPath(target).0;
      if Exists(nodes, parent) && IsDir(nodes, target) {
        return IsDirectoryError(filePath);
      }
      ghost var before := nodes;
      var err := MakeDirs(parent);
      if err.Some? {
        return "Error: " + err.value;
      }
      WriteKeepsWellFormed(before, target, nodes);
      nodes := nodes[Components(target) := File(content)];
      r := SuccessMessage(filePath, content);
    }
  }

  /** No component on the way to `dir`, nor `dir` itself, is an existing file. */
  predicate NoFileOnWay(fs: Fs, dir: seq<string>) {
    forall i :: 0 <= i <= |dir| && dir[..i] in fs ==> fs[dir[..i]] == Dir
  }

  /** What `AddDirs` adds and keeps. */
  lemma {:induction false} AddDirsEffect(fs: Fs, dir: seq<string>, d: nat, j: nat)
    requires d <= j <= |dir|
    ensures var r := AddDirs(fs, dir, d, j);
      (forall i :: d < i <= j ==> dir[..i] in r && r[dir[..i]] == Dir)
      && (forall key :: key in r <==> key in fs || (d < |key| <= j && key == dir[..|key|]))
      && (forall key :: key in fs && !(d < |key| <= j && key == dir[..|key|]) ==> r[key] == fs[key])
    decreases j
  {
    if j > d {
      AddDirsEffect(fs, dir, d, j - 1);
      assert |dir[..j]| == j;
    }
  }

  lemma {:induction false} AddDirsWellFormed(fs: Fs, dir: seq<string>, d: nat, j: nat)
    requires d <= j <= |dir| && WellFormed(fs)
    requires dir[..d] in fs && fs[dir[..d]] == Dir
    ensures WellFormed(AddDirs(fs, dir, d, j))
    ensures dir[..j] in AddDirs(fs, dir, d, j) && AddDirs(fs, dir, d, j)[dir[..j]] == Dir
    decreases j
  {
    if j > d {
      AddDirsWellFormed(fs, dir, d, j - 1);
      assert dir[..j][..j - 1] == dir[..j - 1];
      PutWellFormed(AddDirs(fs, dir, d, j - 1), dir[..j], Dir);
    }
  }

  /** On a well-formed disk, once a prefix is missing so are all longer ones. */
  lemma {:induction false} MissingBelow(fs: Fs, dir: seq<string>, d: nat, i: nat)
    requires WellFormed(fs) && d < i <= |dir| && dir[..d + 1] !in fs
    ensures dir[..i] !in fs
    decreases i
  {
    if i > d + 1 {
      MissingBelow(fs, dir, d, i - 1);
      assert dir[..i][..i - 1] == dir[..i - 1];
      if dir[..i] in fs {
        ParentIsDir(fs, dir[..i]);
      }
    }
  }

  /** `makedirs` succeeds exactly when no file stands on the way to the directory. */
  lemma MakeDirsSucceedsIff(fs: Fs, parent: string)
    requires WellFormed(fs)
    ensures MakeDirsOutcome(fs, parent).Success? <==> NoFileOnWay(fs, Components(parent))
  {
    var dir := Components(parent);
    assert dir[..0] == [];
    var d := Deepest(fs, dir, 0);
    if d == |dir| {
      assert dir[..d] == dir;
      if fs[dir] == Dir {
        AllExist(fs, dir);
      }
    } else if fs[dir[..d]] == Dir {
      forall i | 0 <= i <= |dir| && dir[..i] in fs ensures fs[dir[..i]] == Dir {
        if i < d {
          PrefixesAreDirs(fs, dir[..d], i);
          assert dir[..d][..i] == dir[..i];
        } else if i > d {
          MissingBelow(fs, dir, d, i);
        }
      }
    }
  }

  /**
    A successful `makedirs` leaves every directory on the way to `dir` in
    place, adds nothing but those, changes no existing entry, and keeps the
    disk well formed.
   */
  lemma MakeDirsEffect(fs: Fs, parent: string)
    requires WellFormed(fs) && MakeDirsOutcome(fs, parent).Success?
    ensures var made := MakeDirsOutcome(fs, parent).value; var dir := Components(parent);
      WellFormed(made)
      && (forall i :: 0 <= i <= |dir| ==> dir[..i] in made && made[dir[..i]] == Dir)
      && (forall key :: key in made <==> key in fs || key <= dir)
      && (forall key :: key in fs ==> made[key] == fs[key])
  {
    var dir := Components(parent);
    assert dir[..0] == [];
    var d := Deepest(fs, dir, 0);
    if d == |dir| {
      assert dir[..d] == dir;
      AllExist(fs, dir);
    } else {
      assert MakeDirsOutcome(fs, parent).value == AddDirs(fs, dir, d, |dir|);
      CreatedBelow(fs, dir, d);
    }
  }

  /** When the whole directory exists, nothing is made. */
  lemma AllExist(fs: Fs, dir: seq<string>)
    requires WellFormed(fs) && dir in fs && fs[dir] == Dir
    ensures forall i :: 0 <= i <= |dir| ==> dir[..i] in fs && fs[dir[..i]] == Dir
    ensures forall key :: key <= dir ==> key in fs
  {
    forall i | 0 <= i <= |dir| ensures dir[..i] in fs && fs[dir[..i]] == Dir {
      if i < |dir| {
        PrefixesAreDirs(fs, dir, i);
      } else {
        assert dir[..i] == dir;
      }
    }
    forall key | key <= dir ensures key in fs {
      assert key == dir[..|key|];
    }
  }

  /** Below the deepest existing directory `dir[..d]`, everything is made. */
  lemma CreatedBelow(fs: Fs, dir: seq<string>, d: nat)
    requires WellFormed(fs) && d < |dir| && dir[..d] in fs && fs[dir[..d]] == Dir && dir[..d + 1] !in fs
    ensures var made := AddDirs(fs, dir, d, |dir|);
      WellFormed(made)
      && (forall i :: 0 <= i <= |dir| ==> dir[..i] in made && made[dir[..i]] == Dir)
      && (forall key :: key in made <==> key in fs || key <= dir)
      && (forall key :: key in fs ==> made[key] == fs[key])
  {
    AddDirsWellFormed(fs, dir, d, |dir|);
    CreatedDirs(fs, dir, d);
    CreatedKeys(fs, dir, d);
    CreatedKeeps(fs, dir, d);
  }

  lemma CreatedDirs(fs: Fs, dir: seq<string>, d: nat)
    requires WellFormed(fs) && d < |dir| && dir[..d] in fs && fs[dir[..d]] == Dir
    ensures var made := AddDirs(fs, dir, d, |dir|);
      forall i :: 0 <= i <= |dir| ==> dir[..i] in made && made[dir[..i]] == Dir
  {
    var made := AddDirs(fs, dir, d, |dir|);
    AddDirsEffect(fs, dir, d, |dir|);
    forall i | 0 <= i <= d ensures dir[..i] in made && made[dir[..i]] == Dir {
      if i < d {
        PrefixesAreDirs(fs, dir[..d], i);
        assert dir[..d][..i] == dir[..i];
      }
    }
  }

  lemma CreatedKeys(fs: Fs, dir: seq<string>, d: nat)
    requires WellFormed(fs) && d < |dir| && dir[..d] in fs && fs[dir[..d]] == Dir
    ensures var made := AddDirs(fs, dir, d, |dir|);
      forall key :: key in made <==> key in fs || key <= dir
  {
    var made := AddDirs(fs, dir, d, |dir|);
    AddDirsEffect(fs, dir, d, |dir|);
    forall key | key <= dir ensures key in made {
      assert key == dir[..|key|];
      if |key| < d {
        PrefixesAreDirs(fs, dir[..d], |key|);
        assert dir[..d][..|key|] == key;
      }
    }
  }

  lemma CreatedKeeps(fs: Fs, dir: seq<string>, d: nat)
    requires WellFormed(fs) && d < |dir| && dir[..d + 1] !in fs
    ensures var made := AddDirs(fs, dir, d, |dir|);
      forall key :: key in fs ==> key in made && made[key] == fs[key]
  {
    var made := AddDirs(fs, dir, d, |dir|);
    AddDirsEffect(fs, dir, d, |dir|);
    forall key | key in fs ensures key in made && made[key] == fs[key] {
      if d < |key| <= |dir| && key == dir[..|key|] {
        MissingBelow(fs, dir, d, |key|);
      }
    }
  }

  /** The target's key and its parent's, as `os.path.split` finds them. */
  lemma TargetAndParent(cwd: string, absWd: string, filePath: string)
    requires IsAbs(cwd) && IsAbs(absWd)
    ensures var target := Target(cwd, absWd, filePath); var key := Components(target);
      IsNormalAbs(target)
      && Components(SplitPath(target).0) == (if key == [] then [] else key[..|key| - 1])
  {
    AbspathIsNormal(cwd, JoinPath(absWd, filePath));
    SplitPathOfNormal(Target(cwd, absWd, filePath));
  }

  /** After a successful `makedirs` of its parent, the target can hold a file without breaking the disk. */
  lemma WriteKeepsWellFormed(fs: Fs, target: string, made: Fs)
    requires WellFormed(fs) && IsNormalAbs(target)
    requires !(Exists(fs, SplitPath(target).0) && IsDir(fs, target))
    requires MakeDirsOutcome(fs, SplitPath(target).0) == Success(made)
    ensures Components(target) != []
    ensures forall content :: WellFormed(made[Components(target) := File(content)])
  {
    SplitPathOfNormal(target);
    var key := Components(target);
    var parent := SplitPath(target).0;
    MakeDirsEffect(fs, parent);
    assert key != [];
    var pk := key[..|key| - 1];
    assert pk == Components(parent) && pk[..|pk|] == pk;
    if key in fs {
      ParentIsDir(fs, key);
    }
    forall content ensures WellFormed(made[key := File(content)]) {
      PutWellFormed(made, key, File(content));
    }
  }

  /** The extra `abspath` changes nothing: the target is the resolved path. */
  lemma TargetIsResolve(cwd: string, absWd: string, filePath: string)
    requires IsAbs(absWd)
    ensures Target(cwd, absWd, filePath) == Resolve(absWd, filePath)
  {
  }

  /**
    A target outside the working directory is refused with the same message
    whatever the disk holds, and nothing changes.
   */
  lemma WriteOutside(fs: Fs, cwd: string, workingDirectory: string, filePath: string, content: string)
    requires IsAbs(cwd) && WellFormed(fs)
    requires InitialSlashes(Abspath(cwd, workingDirectory)) == 1
    requires !(Components(Abspath(cwd, workingDirectory)) <= Components(Resolve(Abspath(cwd, workingDirectory), filePath)))
    ensures WriteOutcome(fs, cwd, workingDirectory, filePath, content) == (OutsideError(filePath), fs)
  {
    var absWd := Abspath(cwd, workingDirectory);
    AbspathIsNormal(cwd, workingDirectory);
    TargetIsResolve(cwd, absWd, filePath);
    ResolveIsNormal(absWd, filePath);
    PermittedIffPrefix(absWd, Resolve(absWd, filePath));
  }

  /** A working directory spelled with two leading slashes lets nothing be written. */
  lemma WriteFromDoubleSlashWorkdir(fs: Fs, cwd: string, workingDirectory: string, filePath: string, content: string)
    requires IsAbs(cwd) && WellFormed(fs)
    requires InitialSlashes(Abspath(cwd, workingDirectory)) == 2
    ensures WriteOutcome(fs, cwd, workingDirectory, filePath, content) == (OutsideError(filePath), fs)
  {
    var absWd := Abspath(cwd, workingDirectory);
    AbspathIsNormal(cwd, workingDirectory);
    TargetIsResolve(cwd, absWd, filePath);
    ResolveIsNormal(absWd, filePath);
    DoubleSlashWorkdirPermitsNothing(absWd, Resolve(absWd, filePath));
  }

  /** Inside the working directory, the outcome depends only on the target's key. */
  lemma WriteInside(fs: Fs, cwd: string, workingDirectory: string, filePath: string, content: string)
    requires IsAbs(cwd) && WellFormed(fs)
    requires InitialSlashes(Abspath(cwd, workingDirectory)) == 1
    requires Components(Abspath(cwd, workingDirectory)) <= Components(Resolve(Abspath(cwd, workingDirectory), filePath))
    ensures var target := Resolve(Abspath(cwd, workingDirectory), filePath); var key := Components(target);
      var parent := SplitPath(target).0;
      Components(parent) == (if key == [] then [] else key[..|key| - 1])
      && WriteOutcome(fs, cwd, workingDirectory, filePath, content)
      == if key in fs && fs[key] == Dir then (IsDirectoryError(filePath), fs)
         else match MakeDirsOutcome(fs, parent)
           case Failure(e) => ("Error: " + e, fs)
           case Success(made) => (SuccessMessage(filePath, content), made[key := File(content)])
  {
    var absWd := Abspath(cwd, workingDirectory);
    AbspathIsNormal(cwd, workingDirectory);
    var target := Resolve(absWd, filePath);
    ResolveIsNormal(absWd, filePath);
    PassedContainment(fs, cwd, workingDirectory, filePath, content);
    WriteTargetByKey(fs, target, filePath, content);
  }

  /** Past the containment check, the write is decided by the resolved target alone. */
  lemma PassedContainment(fs: Fs, cwd: string, workingDirectory: string, filePath: string, content: string)
    requires IsAbs(cwd) && WellFormed(fs)
    requires InitialSlashes(Abspath(cwd, workingDirectory)) == 1
    requires Components(Abspath(cwd, workingDirectory)) <= Components(Resolve(Abspath(cwd, workingDirectory), filePath))
    ensures WriteOutcome(fs, cwd, workingDirectory, filePath, content)
      == WriteTarget(fs, Resolve(Abspath(cwd, workingDirectory), filePath), filePath, content)
  {
    var absWd := Abspath(cwd, workingDirectory);
    AbspathIsNormal(cwd, workingDirectory);
    TargetIsResolve(cwd, absWd, filePath);
    ResolveIsNormal(absWd, filePath);
    PermittedIffPrefix(absWd, Resolve(absWd, filePath));
  }

  /** For a normal target, the directory check and the parent are read off the target's key. */
  lemma WriteTargetByKey(fs: Fs, target: string, filePath: string, content: string)
    requires WellFormed(fs) && IsNormalAbs(target)
    ensures var key := Components(target); var parent := SplitPath(target).0;
      Components(parent) == (if key == [] then [] else key[..|key| - 1])
      && WriteTarget(fs, target, filePath, content)
      == if key in fs && fs[key] == Dir then (IsDirectoryError(filePath), fs)
         else match MakeDirsOutcome(fs, parent)
           case Failure(e) => ("Error: " + e, fs)
           case Success(made) => (SuccessMessage(filePath, content), made[key := File(content)])
  {
    SplitPathOfNormal(target);
    var key := Components(target);
    if key != [] && key in fs {
      PrefixesAreDirs(fs, key, |key| - 1);
    }
  }

  /** An existing directory as the target is refused, and nothing changes. */
  lemma WriteToDirectory(fs: Fs, cwd: string, workingDirectory: string, filePath: string, content: string)
    requires IsAbs(cwd) && WellFormed(fs)
    requires InitialSlashes(Abspath(cwd, workingDirectory)) == 1
    requires var target := Resolve(Abspath(cwd, workingDirectory), filePath);
      Components(Abspath(cwd, workingDirectory)) <= Components(target) && IsDir(fs, target)
    ensures WriteOutcome(fs, cwd, workingDirectory, filePath, content) == (IsDirectoryError(filePath), fs)
  {
    WriteInside(fs, cwd, workingDirectory, filePath, content);
  }

  /**
    With the target inside the working directory, not a directory, and no
    file on the way to it, the write succeeds: the target holds exactly
    `content`, every directory above it exists, and nothing else changes.
   */
  lemma WriteSucceeds(fs: Fs, cwd: string, workingDirectory: string, filePath: string, content: string)
    requires IsAbs(cwd) && WellFormed(fs)
    requires InitialSlashes(Abspath(cwd, workingDirectory)) == 1
    requires var key := Components(Resolve(Abspath(cwd, workingDirectory), filePath));
      Components(Abspath(cwd, workingDirectory)) <= key
      && !(key in fs && fs[key] == Dir)
      && key != [] && NoFileOnWay(fs, key[..|key| - 1])
    ensures var key := Components(Resolve(Abspath(cwd, workingDirectory), filePath));
      var (msg, after) := WriteOutcome(fs, cwd, workingDirectory, filePath, content);
      msg == SuccessMessage(filePath, content)
      && WellFormed(after)
      && key in after && after[key] == File(content)
      && (forall i :: 0 <= i < |key| ==> key[..i] in after && after[key[..i]] == Dir)
      && (forall k :: k in after <==> k in fs || k <= key)
      && (forall k :: k in fs && k != key ==> after[k] == fs[k])
  {
    var target := Resolve(Abspath(cwd, workingDirectory), filePath);
    var key := Components(target);
    var parent := SplitPath(target).0;
    WriteInside(fs, cwd, workingDirectory, filePath, content);
    MakeDirsSucceedsIff(fs, parent);
    var made := MakeDirsOutcome(fs, parent).value;
    assert WriteOutcome(fs, cwd, workingDirectory, filePath, content) == (SuccessMessage(filePath, content), made[key := File(content)]);
    MakeDirsEffect(fs, parent);
    StoreEffect(fs, key, made, content);
  }

  /** Storing the file after `makedirs` has made every directory above it. */
  lemma StoreEffect(fs: Fs, key: seq<string>, made: Fs, content: string)
    requires key != [] && !(key in fs && fs[key] == Dir)
    requires var dir := key[..|key| - 1];
      WellFormed(made)
      && (forall i :: 0 <= i <= |dir| ==> dir[..i] in made && made[dir[..i]] == Dir)
      && (forall k :: k in made <==> k in fs || k <= dir)
      && (forall k :: k in fs ==> made[k] == fs[k])
    ensures var after := made[key := File(content)];
      WellFormed(after)
      && (forall i :: 0 <= i < |key| ==> key[..i] in after && after[key[..i]] == Dir)
      && (forall k :: k in after <==> k in fs || k <= key)
      && (forall k :: k in fs && k != key ==> after[k] == fs[k])
  {
    var pk := key[..|key| - 1];
    assert pk[..|pk|] == pk;
    PutWellFormed(made, key, File(content));
    StoreDirs(key, made, content);
    StoreKeys(fs, key, made, content);
  }

  lemma StoreDirs(key: seq<string>, made: Fs, content: string)
    requires key != []
    requires var dir := key[..|key| - 1]; forall i :: 0 <= i <= |dir| ==> dir[..i] in made && made[dir[..i]] == Dir
    ensures var after := made[key := File(content)];
      forall i :: 0 <= i < |key| ==> key[..i] in after && after[key[..i]] == Dir
  {
    var pk := key[..|key| - 1];
    var after := made[key := File(content)];
    forall i | 0 <= i < |key| ensures key[..i] in after && after[key[..i]] == Dir {
      assert key[..i] == pk[..i];
      assert |key[..i]| < |key|;
    }
  }

  lemma StoreKeys(fs: Fs, key: seq<string>, made: Fs, content: string)
    requires key != []
    requires forall k :: k in made <==> k in fs || k <= key[..|key| - 1]
    ensures var after := made[key := File(content)]; forall k :: k in after <==> k in fs || k <= key
  {
    var pk := key[..|key| - 1];
    var after := made[key := File(content)];
    forall k ensures k in after <==> k in fs || k <= key {
      if k <= key && k != key {
        assert |k| < |key|;
        assert pk[..|k|] == key[..|k|];
      }
      if k <= pk {
        assert key[..|k|] == pk[..|k|];
      }
    }
  }

  /**
    With a file on the way to the target, `makedirs` fails: the message is
    an error and the disk is unchanged.
   */
  lemma WriteBlocked(fs: Fs, cwd: string, workingDirectory: string, filePath: string, content: string)
    requires IsAbs(cwd) && WellFormed(fs)
    requires InitialSlashes(Abspath(cwd, workingDirectory)) == 1
    requires var key := Components(Resolve(Abspath(cwd, workingDirectory), filePath));
      Components(Abspath(cwd, workingDirectory)) <= key
      && key != [] && !NoFileOnWay(fs, key[..|key| - 1])
    ensures var (msg, after) := WriteOutcome(fs, cwd, workingDirectory, filePath, content);
      StartsWith(msg, "Error: ") && after == fs
  {
    var target := Resolve(Abspath(cwd, workingDirectory), filePath);
    var key := Components(target);
    var parent := SplitPath(target).0;
    WriteInside(fs, cwd, workingDirectory, filePath, content);
    MakeDirsSucceedsIff(fs, parent);
    BlockedTargetMissing(fs, key);
    var e := MakeDirsOutcome(fs, parent).error;
    assert WriteOutcome(fs, cwd, workingDirectory, filePath, content) == ("Error: " + e, fs);
  }

  /** Nothing exists below a file on a well-formed disk. */
  lemma {:induction false} FileBlocksBelow(fs: Fs, dir: seq<string>, i: nat, j: nat)
    requires WellFormed(fs) && i < j <= |dir| && dir[..i] in fs && fs[dir[..i]] != Dir
    ensures dir[..j] !in fs
    decreases j
  {
    if j > i + 1 {
      FileBlocksBelow(fs, dir, i, j - 1);
    }
    assert dir[..j][..j - 1] == dir[..j - 1];
    if dir[..j] in fs {
      ParentIsDir(fs, dir[..j]);
    }
  }

  /** A target with a file on the way to it does not exist. */
  lemma BlockedTargetMissing(fs: Fs, key: seq<string>)
    requires WellFormed(fs) && key != [] && !NoFileOnWay(fs, key[..|key| - 1])
    ensures key !in fs
  {
    var pk := key[..|key| - 1];
    var i :| 0 <= i <= |pk| && pk[..i] in fs && fs[pk[..i]] != Dir;
    assert pk[..i] == key[..i];
    FileBlocksBelow(fs, key, i, |key|);
    assert key[..|key|] == key;
  }

  /** Every outcome leaves the disk well formed. */
  lemma WriteKeepsDiskWellFormed(fs: Fs, cwd: string, workingDirectory: string, filePath: string, content: string)
    requires IsAbs(cwd) && WellFormed(fs)
    ensures WellFormed(WriteOutcome(fs, cwd, workingDirectory, filePath, content).1)
  {
    var absWd := Abspath(cwd, workingDirectory);
    AbspathIsNormal(cwd, workingDirectory);
    var target := Target(cwd, absWd, filePath);
    AbspathIsNormal(cwd, JoinPath(absWd, filePath));
    if Permitted(absWd, target) {
      var parent := SplitPath(target).0;
      if !(Exists(fs, parent) && IsDir(fs, target)) && MakeDirsOutcome(fs, parent).Success? {
        WriteKeepsWellFormed(fs, target, MakeDirsOutcome(fs, parent).value);
      }
    }
  }

  /**
    Reading the target back after a successful write gives the content
    written as text mode reads it, cut as usual; content without a `\r`
    comes back as written.
   */
  lemma ReadAfterWrite(fs: Fs, cwd: string, workingDirectory: string, filePath: string, content: string, maxChars: nat)
    requires IsAbs(cwd) && WellFormed(fs)
    requires InitialSlashes(Abspath(cwd, workingDirectory)) == 1
    requires var key := Components(Resolve(Abspath(cwd, workingDirectory), filePath));
      Components(Abspath(cwd, workingDirectory)) <= key
      && !(key in fs && fs[key] == Dir)
      && key != [] && NoFileOnWay(fs, key[..|key| - 1])
    ensures var after := WriteOutcome(fs, cwd, workingDirectory, filePath, content).1;
      GetFileContent.GetFileContent(after, cwd, workingDirectory, filePath, maxChars)
      == GetFileContent.ReadLimited(GetFileContent.TextMode(content), filePath, maxChars)
    ensures var after := WriteOutcome(fs, cwd, workingDirectory, filePath, content).1;
      '\r' !in content ==>
        GetFileContent.GetFileContent(after, cwd, workingDirectory, filePath, maxChars)
        == GetFileContent.ReadLimited(content, filePath, maxChars)
  {
    WriteSucceeds(fs, cwd, workingDirectory, filePath, content);
    GetFileContent.ReadInside(WriteOutcome(fs, cwd, workingDirectory, filePath, content).1, cwd, workingDirectory, filePath, maxChars);
  }

  /**
    Whatever the outcome of a write, reading any path that does not name the
    written target gives what it gave before.
   */
  lemma ReadOthersUnchanged(fs: Fs, cwd: string, workingDirectory: string, filePath: string, content: string, other: string, maxChars: nat)
    requires IsAbs(cwd) && WellFormed(fs)
    requires var absWd := Abspath(cwd, workingDirectory);
      Components(Resolve(absWd, other)) != Components(Resolve(absWd, filePath))
    ensures var after := WriteOutcome(fs, cwd, workingDirectory, filePath, content).1;
      GetFileContent.GetFileContent(after, cwd, workingDirectory, other, maxChars)
      == GetFileContent.GetFileContent(fs, cwd, workingDirectory, other, maxChars)
  {
    var absWd := Abspath(cwd, workingDirectory);
    var key := Components(Resolve(absWd, filePath));
    var okey := Components(Resolve(absWd, other));
    var after := WriteOutcome(fs, cwd, workingDirectory, filePath, content).1;
    if WrittenOnly(fs, cwd, workingDirectory, filePath, content) {
      WriteSucceeds(fs, cwd, workingDirectory, filePath, content);
      KeptEntry(fs, after, key, okey);
      SameFileSameRead(fs, after, cwd, workingDirectory, other, maxChars);
    } else {
      WriteChangesNothing(fs, cwd, workingDirectory, filePath, content);
    }
  }

  /** Only the written key can hold a different file after a successful write. */
  lemma KeptEntry(fs: Fs, after: Fs, key: seq<string>, okey: seq<string>)
    requires okey != key
    requires forall i :: 0 <= i < |key| ==> key[..i] in after && after[key[..i]] == Dir
    requires forall k :: k in after <==> k in fs || k <= key
    requires forall k :: k in fs && k != key ==> after[k] == fs[k]
    ensures (okey in fs && fs[okey].File?) == (okey in after && after[okey].File?)
    ensures okey in fs && fs[okey].File? ==> fs[okey] == after[okey]
  {
    if okey in after && okey !in fs {
      assert okey == key[..|okey|];
    }
  }

  /** Two disks that agree on one path's file read the same there. */
  lemma SameFileSameRead(fs: Fs, fs': Fs, cwd: string, workingDirectory: string, filePath: string, maxChars: nat)
    requires IsAbs(cwd)
    requires var key := Components(Resolve(Abspath(cwd, workingDirectory), filePath));
      (key in fs && fs[key].File?) == (key in fs' && fs'[key].File?)
      && (key in fs && fs[key].File? ==> fs[key] == fs'[key])
    ensures GetFileContent.GetFileContent(fs', cwd, workingDirectory, filePath, maxChars)
      == GetFileContent.GetFileContent(fs, cwd, workingDirectory, filePath, maxChars)
  {
    var absWd := Abspath(cwd, workingDirectory);
    AbspathIsNormal(cwd, workingDirectory);
    GetFileContent.TargetIsResolve(cwd, absWd, filePath);
  }

  /** The conditions under which a write succeeds. */
  predicate WrittenOnly(fs: Fs, cwd: string, workingDirectory: string, filePath: string, content: string)
    requires IsAbs(cwd)
  {
    var absWd := Abspath(cwd, workingDirectory);
    var key := Components(Resolve(absWd, filePath));
    InitialSlashes(absWd) == 1
    && Components(absWd) <= key
    && !(key in fs && fs[key] == Dir)
    && key != [] && NoFileOnWay(fs, key[..|key| - 1])
  }

  /** Outside those conditions, the disk is left as it was. */
  lemma WriteChangesNothing(fs: Fs, cwd: string, workingDirectory: string, filePath: string, content: string)
    requires IsAbs(cwd) && WellFormed(fs)
    requires !WrittenOnly(fs, cwd, workingDirectory, filePath, content)
    ensures WriteOutcome(fs, cwd, workingDirectory, filePath, content).1 == fs
  {
    var absWd := Abspath(cwd, workingDirectory);
    var key := Components(Resolve(absWd, filePath));
    AbspathIsNormal(cwd, workingDirectory);
    if InitialSlashes(absWd) == 2 {
      WriteFromDoubleSlashWorkdir(fs, cwd, workingDirectory, filePath, content);
      assert WriteOutcome(fs, cwd, workingDirectory, filePath, content).1 == fs;
    } else if !(Components(absWd) <= key) {
      WriteOutside(fs, cwd, workingDirectory, filePath, content);
      assert WriteOutcome(fs, cwd, workingDirectory, filePath, content).1 == fs;
    } else if key in fs && fs[key] == Dir {
      WriteToDirectory(fs, cwd, workingDirectory, filePath, content);
      assert WriteOutcome(fs, cwd, workingDirectory, filePath, content).1 == fs;
    } else {
      WriteBlocked(fs, cwd, workingDirectory, filePath, content);
      assert WriteOutcome(fs, cwd, workingDirectory, filePath, content).1 == fs;
    }
  }
}
