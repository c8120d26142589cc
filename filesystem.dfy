/**
  The disk the file tools act on.  A path is looked up by its components
  (what `commonpath` compares), so `/a/b` and `//a//b` name the same entry,
  as they do on a POSIX system.
 */
module FileSystem {
  import opened Strings
  import opened Paths

  /** A regular file with its text, or a directory. */
  datatype Node = File(content: string) | Dir

  type Fs = map<seq<string>, Node>

  /** The root is a directory and every other entry sits inside a directory. */
  predicate WellFormed(fs: Fs) {
    [] in fs && fs[[]] == Dir
    && forall k {:trigger Parent(k)} :: k in fs && k != [] ==> Parent(k) in fs && fs[Parent(k)] == Dir
  }

  /** The key of the directory that holds the entry `k`. */
  function Parent(k: seq<string>): seq<string>
    requires k != []
  {
    k[..|k| - 1]
  }

  /** The directory above an entry of a well-formed disk exists. */
  lemma ParentIsDir(fs: Fs, k: seq<string>)
    requires WellFormed(fs) && k in fs && k != []
    ensures k[..|k| - 1] in fs && fs[k[..|k| - 1]] == Dir
  {
    assert Parent(k) in fs;
  }

  /** `os.path.exists(p)`. */
  predicate Exists(fs: Fs, p: string) {
    Components(p) in fs
  }

  /** `os.path.isfile(p)`. */
  predicate IsFile(fs: Fs, p: string) {
    Components(p) in fs && fs[Components(p)].File?
  }

  /** `os.path.isdir(p)`. */
  predicate IsDir(fs: Fs, p: string) {
    Components(p) in fs && fs[Components(p)] == Dir
  }

  /** The names `os.listdir` may report for the directory with components `dir`. */
  function Children(fs: Fs, dir: seq<string>): set<string> {
    set k | k in fs && |k| == |dir| + 1 && k[..|dir|] == dir :: k[|dir|]
  }

  /** What `os.listdir` returns for the directory with components `dir`: each child once, in some order. */
  predicate ListsChildren(fs: Fs, dir: seq<string>, items: seq<string>) {
    (forall i, j :: 0 <= i < j < |items| ==> items[i] != items[j])
    && (set k | 0 <= k < |items| :: items[k]) == Children(fs, dir)
  }

  /** `repr` of a path, for paths without quotes, backslashes or unprintable characters. */
  function Quoted(p: string): string {
    "'" + p + "'"
  }

  /** The text of an `OSError` raised for one path. */
  function OsError(errno: nat, text: string, p: string): string {
    "[Errno " + NatToString(errno) + "] " + text + ": " + Quoted(p)
  }

  const ENOTDIR: nat := 20
  const EEXIST: nat := 17

  /** Every proper prefix of an entry is a directory on a well-formed disk. */
  lemma {:induction false} PrefixesAreDirs(fs: Fs, key: seq<string>, i: nat)
    requires WellFormed(fs) && key in fs && i < |key|
    ensures key[..i] in fs && fs[key[..i]] == Dir
    decreases |key|
  {
    var p := key[..|key| - 1];
    ParentIsDir(fs, key);
    if i < |p| {
      PrefixesAreDirs(fs, p, i);
      assert p[..i] == key[..i];
    }
  }

  /** Storing a node under a key whose parent is a directory keeps the disk well formed, unless it would turn a directory into a file. */
  lemma PutWellFormed(fs: Fs, key: seq<string>, node: Node)
    requires WellFormed(fs) && key != []
    requires key[..|key| - 1] in fs && fs[key[..|key| - 1]] == Dir
    requires key in fs && fs[key] == Dir ==> node == Dir
    ensures WellFormed(fs[key := node])
  {
    var fs' := fs[key := node];
    forall k | k in fs' && k != [] ensures Parent(k) in fs' && fs'[Parent(k)] == Dir {
      if k != key {
        ParentIsDir(fs, k);
        if k[..|k| - 1] == key {
          assert fs[key] == Dir;
        }
      }
    }
  }
}
