/**
  The POSIX path rules every file tool applies before touching the disk:
  `os.path.join`, `os.path.normpath`, `os.path.abspath` and
  `os.path.commonpath`, and the containment test built from them
  (`commonpath([wd, target]) == wd`).
 */
module Paths {
  import opened Strings

  predicate IsAbs(p: string) {
    |p| > 0 && p[0] == '/'
  }

  /** `os.path.join(a, b)`: an absolute `b` replaces `a`. */
  function JoinPath(a: string, b: string): string {
    if IsAbs(b) then b
    else if a == "" || a[|a| - 1] == '/' then a + b
    else a + "/" + b
  }

  /** The number of leading slashes `normpath` keeps: POSIX gives exactly two a meaning of their own. */
  function InitialSlashes(p: string): (n: nat)
    ensures n <= 2
    ensures n == 0 <==> !IsAbs(p)
  {
    if !IsAbs(p) then 0
    else if |p| >= 2 && p[1] == '/' && !(|p| >= 3 && p[2] == '/') then 2
    else 1
  }

  function Slashes(n: nat): (s: string)
    ensures |s| == n && forall i :: 0 <= i < n ==> s[i] == '/'
  {
    if n == 0 then "" else "/" + Slashes(n - 1)
  }

  /** One turn of the component loop of `normpath`. */
  function NormStep(acc: seq<string>, comp: string, absolute: bool): seq<string> {
    if comp == "" || comp == "." then acc
    else if comp != ".." || (!absolute && acc == []) || (acc != [] && acc[|acc| - 1] == "..") then acc + [comp]
    else if acc != [] then acc[..|acc| - 1]
    else acc
  }

  function NormFold(acc: seq<string>, comps: seq<string>, absolute: bool): seq<string>
    decreases |comps|
  {
    if comps == [] then acc else NormFold(NormStep(acc, comps[0], absolute), comps[1..], absolute)
  }

  /** The components `normpath` keeps, in order. */
  function NormComponents(p: string): seq<string> {
    NormFold([], Split(p, '/'), InitialSlashes(p) > 0)
  }

  /** `os.path.normpath(p)`. */
  function Normpath(p: string): string {
    if p == "" then "."
    else
      var r := Slashes(InitialSlashes(p)) + Join(NormComponents(p), '/');
      if r == "" then "." else r
  }

  /** `os.path.abspath(p)`, with the process's current directory `cwd` given. */
  function Abspath(cwd: string, p: string): string {
    if IsAbs(p) then Normpath(p) else Normpath(JoinPath(cwd, p))
  }

  /** A component as a normalised absolute path holds it: never empty, `.`, `..`, or containing `/`. */
  predicate IsName(c: string) {
    c != "" && c != "." && c != ".." && '/' !in c
  }

  predicate AllNames(cs: seq<string>) {
    forall k :: 0 <= k < |cs| ==> IsName(cs[k])
  }

  /** The pieces `commonpath` compares: empty and `.` pieces are dropped. */
  function DropEmpty(ps: seq<string>): (r: seq<string>)
    ensures forall k :: 0 <= k < |r| ==> r[k] != "" && r[k] != "."
    ensures (forall k :: 0 <= k < |ps| ==> '/' !in ps[k]) ==> forall k :: 0 <= k < |r| ==> '/' !in r[k]
  {
    if ps == [] then []
    else if ps[0] == "" || ps[0] == "." then DropEmpty(ps[1..])
    else [ps[0]] + DropEmpty(ps[1..])
  }

  /** A path as `commonpath` sees it; also the key under which the disk stores it. */
  function Components(p: string): (cs: seq<string>)
    ensures forall k :: 0 <= k < |cs| ==> cs[k] != "" && '/' !in cs[k]
  {
    DropEmpty(Split(p, '/'))
  }

  /** The longest common prefix of two component lists. */
  function CommonPrefix(a: seq<string>, b: seq<string>): (r: seq<string>)
    ensures r <= a && r <= b
    ensures |r| < |a| && |r| < |b| ==> a[|r|] != b[|r|]
  {
    if a != [] && b != [] && a[0] == b[0] then
      var r := [a[0]] + CommonPrefix(a[1..], b[1..]);
      assert a == [a[0]] + a[1..] && b == [b[0]] + b[1..];
      r
    else []
  }

  /**
    `os.path.commonpath([a, b])`.  Python compares the smallest and the largest
    of the split lists; for two lists that is their longest common prefix.
   */
  function Commonpath(a: string, b: string): string
    requires IsAbs(a) == IsAbs(b)
  {
    (if IsAbs(a) then "/" else "") + Join(CommonPrefix(Components(a), Components(b)), '/')
  }

  /** The check all four tools make: `commonpath([abs_wd, target]) == abs_wd`. */
  predicate Permitted(absWd: string, target: string)
    requires IsAbs(absWd) && IsAbs(target)
  {
    Commonpath(absWd, target) == absWd
  }

  /** A path that `normpath` leaves as it is. */
  predicate IsNormalAbs(p: string) {
    IsAbs(p) && Normpath(p) == p
  }

  // ---------------------------------------------------------------------------
  // lemmas

  lemma {:induction false} NormFoldNames(acc: seq<string>, comps: seq<string>)
    requires AllNames(acc)
    requires forall k :: 0 <= k < |comps| ==> '/' !in comps[k]
    ensures AllNames(NormFold(acc, comps, true))
    decreases |comps|
  {
    if comps != [] {
      var next := NormStep(acc, comps[0], true);
      assert AllNames(next);
      NormFoldNames(next, comps[1..]);
    }
  }

  /** Folding names only appends them. */
  lemma {:induction false} NormFoldOfNames(acc: seq<string>, comps: seq<string>)
    requires AllNames(comps)
    ensures NormFold(acc, comps, true) == acc + comps
    decreases |comps|
  {
    if comps != [] {
      NormFoldOfNames(acc + [comps[0]], comps[1..]);
      assert acc + [comps[0]] + comps[1..] == acc + comps;
    }
  }

  lemma {:induction false} NormFoldSkipsEmpty(n: nat, rest: seq<string>)
    ensures NormFold([], Empties(n) + rest, true) == NormFold([], rest, true)
  {
    if n > 0 {
      var ps := Empties(n) + rest;
      assert ps[0] == "" && ps[1..] == Empties(n - 1) + rest;
      assert NormFold([], ps, true) == NormFold([], ps[1..], true);
      NormFoldSkipsEmpty(n - 1, rest);
    } else {
      assert Empties(n) + rest == rest;
    }
  }

  function Empties(n: nat): (r: seq<string>)
    ensures |r| == n && forall k :: 0 <= k < n ==> r[k] == ""
  {
    if n == 0 then [] else [""] + Empties(n - 1)
  }

  lemma {:induction false} DropEmptyOfEmpties(n: nat, rest: seq<string>)
    ensures DropEmpty(Empties(n) + rest) == DropEmpty(rest)
  {
    if n > 0 {
      var ps := Empties(n) + rest;
      assert ps[0] == "" && ps[1..] == Empties(n - 1) + rest;
      assert DropEmpty(ps) == DropEmpty(ps[1..]);
      DropEmptyOfEmpties(n - 1, rest);
    } else {
      assert Empties(n) + rest == rest;
    }
  }

  lemma {:induction false} DropEmptyOfNames(cs: seq<string>)
    requires AllNames(cs)
    ensures DropEmpty(cs) == cs
  {
    if cs != [] {
      DropEmptyOfNames(cs[1..]);
      assert cs == [cs[0]] + cs[1..];
    }
  }

  lemma {:induction false} SplitAfterSlashes(n: nat, rest: string)
    ensures Split(Slashes(n) + rest, '/') == Empties(n) + Split(rest, '/')
  {
    if n > 0 {
      SplitAfterSlash(n, rest);
      SplitAfterSlashes(n - 1, rest);
      EmptiesThen(n, Split(rest, '/'));
    } else {
      assert Slashes(n) + rest == rest;
    }
  }

  /** One more empty piece in front. */
  lemma EmptiesThen(n: nat, b: seq<string>)
    requires n > 0
    ensures [""] + (Empties(n - 1) + b) == Empties(n) + b
  {
    ConsAppend("", Empties(n - 1), b);
  }

  lemma ConsAppend(x: string, a: seq<string>, b: seq<string>)
    ensures [x] + (a + b) == ([x] + a) + b
  {
  }

  lemma SplitAfterSlash(n: nat, rest: string)
    requires n > 0
    ensures Split(Slashes(n) + rest, '/') == [""] + Split(Slashes(n - 1) + rest, '/')
  {
    var tail := Slashes(n - 1) + rest;
    assert Slashes(n) + rest == ['/'] + tail;
    SplitAfterSeparator('/', tail);
  }

  /** The pieces `split('/')` gives of a join of names: the names, or one empty piece. */
  function Pieces(cs: seq<string>): seq<string> {
    if cs == [] then [""] else cs
  }

  /** Splitting `n` slashes followed by a join of names. */
  lemma SplitOfNormalForm(n: nat, cs: seq<string>)
    requires AllNames(cs)
    ensures Split(Slashes(n) + Join(cs, '/'), '/') == Empties(n) + Pieces(cs)
  {
    SplitAfterSlashes(n, Join(cs, '/'));
    if cs != [] {
      SplitJoin(cs, '/');
    }
  }

  /** What `commonpath` sees in a normal form is just its names. */
  lemma ComponentsOfNormalForm(n: nat, cs: seq<string>)
    requires AllNames(cs)
    ensures Components(Slashes(n) + Join(cs, '/')) == cs
  {
    SplitOfNormalForm(n, cs);
    DropEmptyOfEmpties(n, Pieces(cs));
    if cs != [] {
      DropEmptyOfNames(cs);
    } else {
      assert DropEmpty([""]) == [];
    }
  }

  lemma InitialSlashesOfNormalForm(n: nat, cs: seq<string>)
    requires 1 <= n <= 2 && AllNames(cs)
    ensures InitialSlashes(Slashes(n) + Join(cs, '/')) == n
  {
    var s := Slashes(n) + Join(cs, '/');
    assert s[0] == '/';
    if cs != [] {
      JoinHead(cs, '/');
      assert s[n] == cs[0][0];
      assert cs[0][0] != '/' by {
        assert cs[0][0] in cs[0];
      }
    } else {
      assert |s| == n;
    }
    if n == 2 {
      assert s[1] == '/';
    }
  }

  /** The shape of `normpath` of an absolute path: its leading slashes, then its names joined by `/`. */
  lemma NormpathOfAbs(p: string)
    requires IsAbs(p)
    ensures AllNames(NormComponents(p))
    ensures Normpath(p) == Slashes(InitialSlashes(p)) + Join(NormComponents(p), '/')
    ensures Components(Normpath(p)) == NormComponents(p)
    ensures InitialSlashes(Normpath(p)) == InitialSlashes(p)
    ensures IsAbs(Normpath(p))
  {
    NormFoldNames([], Split(p, '/'));
    var n := InitialSlashes(p);
    var cs := NormComponents(p);
    assert (Slashes(n) + Join(cs, '/'))[0] == '/';
    ComponentsOfNormalForm(n, cs);
    InitialSlashesOfNormalForm(n, cs);
  }

  /** `normpath` is idempotent on absolute paths, so normalising twice changes nothing. */
  lemma NormpathIdempotent(p: string)
    requires IsAbs(p)
    ensures Normpath(Normpath(p)) == Normpath(p)
  {
    NormpathOfAbs(p);
    var n := InitialSlashes(p);
    var cs := NormComponents(p);
    var q := Normpath(p);
    SplitOfNormalForm(n, cs);
    NormFoldSkipsEmpty(n, Pieces(cs));
    if cs != [] {
      NormFoldOfNames([], cs);
    }
    assert NormComponents(q) == cs;
  }

  /** What `abspath` returns is absolute and normal. */
  lemma AbspathIsNormal(cwd: string, p: string)
    requires IsAbs(cwd)
    ensures IsNormalAbs(Abspath(cwd, p))
  {
    var q := if IsAbs(p) then p else JoinPath(cwd, p);
    assert IsAbs(q);
    NormpathOfAbs(q);
    NormpathIdempotent(q);
  }

  /** A normal absolute path is its leading slashes followed by its components joined by `/`. */
  lemma NormalForm(p: string)
    requires IsNormalAbs(p)
    ensures AllNames(Components(p))
    ensures p == Slashes(InitialSlashes(p)) + Join(Components(p), '/')
  {
    NormpathOfAbs(p);
  }

  /**
    The containment rule is component-wise: for a working directory spelled
    with one leading slash, a target is permitted exactly when the working
    directory's components are a prefix of the target's.
   */
  lemma PermittedIffPrefix(absWd: string, target: string)
    requires IsNormalAbs(absWd) && InitialSlashes(absWd) == 1
    requires IsAbs(target)
    ensures Permitted(absWd, target) <==> Components(absWd) <= Components(target)
  {
    NormalForm(absWd);
    var w := Components(absWd);
    var t := Components(target);
    var l := CommonPrefix(w, t);
    assert absWd == "/" + Join(w, '/');
    assert Commonpath(absWd, target) == "/" + Join(l, '/');
    if Permitted(absWd, target) {
      assert Join(l, '/') == Join(w, '/');
      assert forall k :: 0 <= k < |l| ==> l[k] == w[k];
      JoinInjective(l, w, '/');
    }
    if w <= t {
      assert l == w;
    }
  }

  /**
    A working directory spelled with exactly two leading slashes permits
    nothing: `commonpath` always answers with a single leading slash.
   */
  lemma DoubleSlashWorkdirPermitsNothing(absWd: string, target: string)
    requires IsNormalAbs(absWd) && InitialSlashes(absWd) == 2
    requires IsAbs(target)
    ensures !Permitted(absWd, target)
  {
    NormalForm(absWd);
    var l := CommonPrefix(Components(absWd), Components(target));
    if l != [] {
      JoinHead(l, '/');
      assert l[0][0] in l[0];
    }
  }

  /** An absolute second argument replaces the working directory in the join. */
  lemma AbsoluteReplacesWorkdir(base: string, p: string)
    requires IsAbs(p)
    ensures Normpath(JoinPath(base, p)) == Normpath(p)
  {
  }

  /** Folding a concatenation folds the second part from where the first left off. */
  lemma {:induction false} NormFoldAppend(acc: seq<string>, a: seq<string>, b: seq<string>, absolute: bool)
    ensures NormFold(acc, a + b, absolute) == NormFold(NormFold(acc, a, absolute), b, absolute)
    decreases |a|
  {
    if a != [] {
      assert (a + b)[0] == a[0] && (a + b)[1..] == a[1..] + b;
      NormFoldAppend(NormStep(acc, a[0], absolute), a[1..], b, absolute);
    } else {
      assert a + b == b;
    }
  }

  /** The path the tools resolve a relative or absolute argument to. */
  function Resolve(absWd: string, p: string): string {
    Normpath(JoinPath(absWd, p))
  }

  /**
    Resolving a relative path against a normal working directory continues
    `normpath`'s component loop from the working directory's components:
    `..` pops one of them, `.` and empty pieces are skipped.
   */
  lemma ResolveRelative(absWd: string, p: string)
    requires IsNormalAbs(absWd) && InitialSlashes(absWd) == 1
    requires !IsAbs(p)
    ensures IsNormalAbs(Resolve(absWd, p)) && InitialSlashes(Resolve(absWd, p)) == 1
    ensures Components(Resolve(absWd, p)) == NormFold(Components(absWd), Split(p, '/'), true)
  {
    var w := Components(absWd);
    var q := JoinPath(absWd, p);
    SplitOfRelativeJoin(absWd, p);
    FoldAfterWorkdir(w, Split(p, '/'));
    NormpathOfAbs(q);
    NormpathIdempotent(q);
  }

  /** The pieces of `join(wd, p)` for a relative `p`: one empty piece, the working directory's names, then `p`'s pieces. */
  lemma SplitOfRelativeJoin(absWd: string, p: string)
    requires IsNormalAbs(absWd) && InitialSlashes(absWd) == 1
    requires !IsAbs(p)
    ensures Split(JoinPath(absWd, p), '/') == [""] + (Components(absWd) + Split(p, '/'))
    ensures InitialSlashes(JoinPath(absWd, p)) == 1
    ensures AllNames(Components(absWd))
  {
    NormalForm(absWd);
    var w := Components(absWd);
    assert absWd == ['/'] + Join(w, '/');
    SplitOfSlashJoin(absWd, w, p);
  }

  lemma SplitOfSlashJoin(a: string, w: seq<string>, p: string)
    requires AllNames(w) && !IsAbs(p) && a == ['/'] + Join(w, '/')
    ensures Split(JoinPath(a, p), '/') == [""] + (w + Split(p, '/'))
    ensures InitialSlashes(JoinPath(a, p)) == 1
  {
    if w == [] {
      SlashJoinRoot(a, p);
    } else {
      SlashJoinBelow(a, w, p);
    }
  }

  lemma SlashJoinRoot(a: string, p: string)
    requires a == "/" && !IsAbs(p)
    ensures Split(JoinPath(a, p), '/') == [""] + Split(p, '/')
    ensures InitialSlashes(JoinPath(a, p)) == 1
  {
    assert JoinPath(a, p) == ['/'] + p;
    SplitAfterSeparator('/', p);
  }

  lemma SlashJoinBelow(a: string, w: seq<string>, p: string)
    requires AllNames(w) && w != [] && !IsAbs(p) && a == ['/'] + Join(w, '/')
    ensures Split(JoinPath(a, p), '/') == [""] + (w + Split(p, '/'))
    ensures InitialSlashes(JoinPath(a, p)) == 1
  {
    SlashJoinPath(a, w, p);
    JoinHead(w, '/');
    assert w[0][0] in w[0];
    var tail := Join(w, '/') + ['/'] + p;
    assert a + ['/'] + p == ['/'] + tail;
    SplitOfNamesThen(w, p, tail);
  }

  /** A working directory below the root gets a separator before a relative path. */
  lemma SlashJoinPath(a: string, w: seq<string>, p: string)
    requires AllNames(w) && w != [] && !IsAbs(p) && a == ['/'] + Join(w, '/')
    ensures JoinPath(a, p) == a + ['/'] + p
  {
    JoinLast(w, '/');
    var last := w[|w| - 1];
    assert last[|last| - 1] in last;
  }

  lemma SplitOfNamesThen(w: seq<string>, p: string, tail: string)
    requires AllNames(w) && w != [] && tail == Join(w, '/') + ['/'] + p
    ensures Split(['/'] + tail, '/') == [""] + (w + Split(p, '/'))
  {
    SplitAfterSeparator('/', tail);
    SplitAfterJoin(w, '/', p);
  }

  /** Folding an empty piece and a list of names, then more pieces, continues from the names. */
  lemma FoldAfterWorkdir(w: seq<string>, ps: seq<string>)
    requires AllNames(w)
    ensures NormFold([], [""] + (w + ps), true) == NormFold(w, ps, true)
  {
    assert [""] + (w + ps) == [""] + w + ps;
    NormFoldAppend([], [""] + w, ps, true);
    assert [""] + w == Empties(1) + w;
    NormFoldSkipsEmpty(1, w);
    NormFoldOfNames([], w);
    assert [] + w == w;
  }

  /** Two normal paths with the same leading slashes and the same components are equal. */
  lemma NormalUnique(p: string, q: string)
    requires IsNormalAbs(p) && IsNormalAbs(q)
    requires InitialSlashes(p) == InitialSlashes(q) && Components(p) == Components(q)
    ensures p == q
  {
    NormalForm(p);
    NormalForm(q);
  }

  /** The default directory "." resolves to the working directory itself, which is permitted. */
  lemma DotIsWorkdir(absWd: string)
    requires IsNormalAbs(absWd) && InitialSlashes(absWd) == 1
    ensures Resolve(absWd, ".") == absWd
    ensures Permitted(absWd, Resolve(absWd, "."))
  {
    ResolveRelative(absWd, ".");
    assert Split(".", '/') == ["."];
    assert NormFold(Components(absWd), ["."], true) == Components(absWd);
    NormalUnique(Resolve(absWd, "."), absWd);
    PermittedIffPrefix(absWd, absWd);
  }

  /** `../` leaves any working directory other than `/`, so it is refused. */
  lemma ParentIsOutside(absWd: string)
    requires IsNormalAbs(absWd) && InitialSlashes(absWd) == 1
    requires Components(absWd) != []
    ensures !Permitted(absWd, Resolve(absWd, "../"))
  {
    ResolveRelative(absWd, "../");
    NormalForm(absWd);
    var w := Components(absWd);
    SplitOfParent();
    FoldParent(w);
    PermittedIffPrefix(absWd, Resolve(absWd, "../"));
  }

  lemma SplitOfParent()
    ensures Split("../", '/') == ["..", ""]
  {
    assert "../" == ".." + ['/'] + "";
    SplitAfterFirstSeparator("..", '/', "");
  }

  /** `..` then an empty piece drops the last name. */
  lemma FoldParent(w: seq<string>)
    requires w != [] && AllNames(w)
    ensures NormFold(w, ["..", ""], true) == w[..|w| - 1]
  {
    assert w[|w| - 1] != "..";
    assert NormStep(w, "..", true) == w[..|w| - 1];
    assert ["..", ""][1..] == [""] && [""][1..] == [];
  }

  /** Containment compares whole components: `/a/bc` is not inside `/a/b`. */
  lemma ComponentWise()
    ensures IsNormalAbs("/a/b") && !Permitted("/a/b", "/a/bc")
  {
    assert "/a/b" == Slashes(1) + Join(["a", "b"], '/');
    assert "/a/bc" == Slashes(1) + Join(["a", "bc"], '/');
    assert AllNames(["a", "b"]) && AllNames(["a", "bc"]);
    NormpathOfNormalForm(1, ["a", "b"]);
    ComponentsOfNormalForm(1, ["a", "b"]);
    ComponentsOfNormalForm(1, ["a", "bc"]);
    InitialSlashesOfNormalForm(1, ["a", "b"]);
    PermittedIffPrefix("/a/b", "/a/bc");
  }

  /** `normpath` leaves a normal form unchanged. */
  lemma NormpathOfNormalForm(n: nat, cs: seq<string>)
    requires 1 <= n <= 2 && AllNames(cs)
    ensures Normpath(Slashes(n) + Join(cs, '/')) == Slashes(n) + Join(cs, '/')
  {
    var q := Slashes(n) + Join(cs, '/');
    InitialSlashesOfNormalForm(n, cs);
    SplitOfNormalForm(n, cs);
    NormFoldSkipsEmpty(n, Pieces(cs));
    if cs != [] {
      NormFoldOfNames([], cs);
    }
    assert NormComponents(q) == cs;
  }

  /** The normal absolute path with one leading slash and the given names. */
  function PathOf(cs: seq<string>): string {
    "/" + Join(cs, '/')
  }

  lemma PathOfNames(cs: seq<string>)
    requires AllNames(cs)
    ensures IsNormalAbs(PathOf(cs)) && InitialSlashes(PathOf(cs)) == 1
    ensures Components(PathOf(cs)) == cs
  {
    assert PathOf(cs) == Slashes(1) + Join(cs, '/');
    NormpathOfNormalForm(1, cs);
    InitialSlashesOfNormalForm(1, cs);
    ComponentsOfNormalForm(1, cs);
  }

  /** Whatever the argument, the resolved path is absolute and normal. */
  lemma ResolveIsNormal(absWd: string, p: string)
    requires IsAbs(absWd)
    ensures IsNormalAbs(Resolve(absWd, p))
  {
    var q := JoinPath(absWd, p);
    NormpathOfAbs(q);
    NormpathIdempotent(q);
  }

  /** `..` cancels the name before it: `name/../p` resolves where `p` does. */
  lemma NameThenParent(absWd: string, name: string, p: string)
    requires IsNormalAbs(absWd) && InitialSlashes(absWd) == 1
    requires IsName(name) && !IsAbs(p)
    ensures Resolve(absWd, name + "/../" + p) == Resolve(absWd, p)
  {
    var q := name + "/../" + p;
    SplitOfNameThenParent(name, p);
    ResolveRelative(absWd, q);
    ResolveRelative(absWd, p);
    NormalForm(absWd);
    FoldNameThenParent(Components(absWd), name, Split(p, '/'));
    NormalUnique(Resolve(absWd, q), Resolve(absWd, p));
  }

  lemma FoldNameThenParent(w: seq<string>, name: string, rest: seq<string>)
    requires AllNames(w) && IsName(name)
    ensures NormFold(w, [name, ".."] + rest, true) == NormFold(w, rest, true)
  {
    NormFoldAppend(w, [name, ".."], rest, true);
    assert NormStep(w, name, true) == w + [name];
    assert (w + [name])[..|w + [name]| - 1] == w;
    assert NormStep(w + [name], "..", true) == w;
    assert [name, ".."][1..] == [".."] && [".."][1..] == [];
    assert NormFold(w, [name, ".."], true) == NormFold(w + [name], [".."], true);
    assert NormFold(w, [name, ".."], true) == w;
  }

  lemma SplitOfNameThenParent(name: string, p: string)
    requires IsName(name)
    ensures !IsAbs(name + "/../" + p)
    ensures Split(name + "/../" + p, '/') == [name, ".."] + Split(p, '/')
  {
    var q := name + "/../" + p;
    assert q[0] == name[0];
    assert name[0] in name;
    var tail := ".." + ['/'] + p;
    assert q == name + ['/'] + tail;
    SplitPrepend("..", '/', p, Split(p, '/'));
    SplitPrepend(name, '/', tail, [".."] + Split(p, '/'));
  }

  /** The index of the last `c` in `s`, or -1 (`str.rfind`). */
  function RFind(s: string, c: char): (i: int)
    ensures -1 <= i < |s|
    ensures i >= 0 ==> s[i] == c
    ensures forall j :: i < j < |s| ==> s[j] != c
  {
    if s == [] then -1
    else if s[|s| - 1] == c then |s| - 1
    else RFind(s[..|s| - 1], c)
  }

  /** `s.rstrip('/')`. */
  function TrimSlashes(s: string): (r: string)
    ensures |r| <= |s| && r == s[..|r|]
    ensures r != [] ==> r[|r| - 1] != '/'
    ensures forall j :: |r| <= j < |s| ==> s[j] == '/'
  {
    if s != [] && s[|s| - 1] == '/' then TrimSlashes(s[..|s| - 1]) else s
  }

  /** `os.path.split(p)`: the head up to the last slash, without trailing slashes unless it is all slashes, and the tail. */
  function SplitPath(p: string): (string, string) {
    var i := RFind(p, '/') + 1;
    var head, tail := p[..i], p[i..];
    if head != "" && head != Slashes(|head|) then (TrimSlashes(head), tail) else (head, tail)
  }

  /** Splitting a normal form with at least one name gives its parent and its last name. */
  lemma SplitPathOfNames(n: nat, cs: seq<string>)
    requires 1 <= n <= 2 && AllNames(cs) && cs != []
    ensures SplitPath(Slashes(n) + Join(cs, '/')) == (Slashes(n) + Join(cs[..|cs| - 1], '/'), cs[|cs| - 1])
  {
    var init, last := cs[..|cs| - 1], cs[|cs| - 1];
    assert cs == init + [last];
    if init == [] {
      SplitPathOfOne(n, last);
    } else {
      SplitPathOfMany(n, init, last);
    }
  }

  lemma SplitPathOfOne(n: nat, last: string)
    requires 1 <= n <= 2 && IsName(last)
    ensures SplitPath(Slashes(n) + Join([last], '/')) == (Slashes(n) + Join([], '/'), last)
  {
    assert Join([last], '/') == last;
    SplitPathAt(Slashes(n), last);
    assert Slashes(n) + Join([], '/') == Slashes(n);
  }

  lemma SplitPathOfMany(n: nat, init: seq<string>, last: string)
    requires 1 <= n <= 2 && AllNames(init) && init != [] && IsName(last)
    ensures SplitPath(Slashes(n) + Join(init + [last], '/')) == (Slashes(n) + Join(init, '/'), last)
  {
    var h := Slashes(n) + Join(init, '/');
    SnocPath(Slashes(n), init, last);
    ParentHead(n, init);
    SplitPathAfterHead(Slashes(n) + Join(init + [last], '/'), h, last);
  }

  lemma SnocPath(lead: string, init: seq<string>, last: string)
    requires init != []
    ensures lead + Join(init + [last], '/') == (lead + Join(init, '/') + "/") + last
  {
    JoinSnoc(init, last, '/');
  }

  lemma SplitPathAfterHead(p: string, h: string, last: string)
    requires p == (h + "/") + last && '/' !in last
    requires h + "/" != Slashes(|h + "/"|) && TrimSlashes(h + "/") == h
    ensures SplitPath(p) == (h, last)
  {
    SplitPathAt(h + "/", last);
  }

  /** The head of a normal form with names is not all slashes and has none at its end. */
  lemma ParentHead(n: nat, init: seq<string>)
    requires 1 <= n <= 2 && AllNames(init) && init != []
    ensures var h := Slashes(n) + Join(init, '/');
      h + "/" != Slashes(|h + "/"|) && TrimSlashes(h + "/") == h
  {
    var h := Slashes(n) + Join(init, '/');
    JoinHead(init, '/');
    assert init[0][0] in init[0];
    assert (h + "/")[n] != '/';
    JoinLast(init, '/');
    var l := init[|init| - 1];
    assert l[|l| - 1] in l;
    assert h[|h| - 1] != '/';
    assert (h + "/")[..|h|] == h;
  }

  /** Splitting where the last slash ends `upto`. */
  lemma SplitPathAt(upto: string, last: string)
    requires upto != [] && upto[|upto| - 1] == '/' && '/' !in last
    ensures SplitPath(upto + last) == (if upto == Slashes(|upto|) then upto else TrimSlashes(upto), last)
  {
    var p := upto + last;
    SlashFreeTail(upto, last);
    assert p[..|upto|] == upto && p[|upto|..] == last;
  }

  /** Splitting bare slashes gives them back with an empty tail. */
  lemma SplitPathOfSlashes(n: nat)
    requires 1 <= n
    ensures SplitPath(Slashes(n)) == (Slashes(n), "")
  {
    assert Slashes(n)[n - 1] == '/';
    assert RFind(Slashes(n), '/') == n - 1;
    assert Slashes(n)[..n] == Slashes(n) && Slashes(n)[n..] == "";
  }

  /**
    `os.path.split` of a normal absolute path: the head has the path's
    components but the last, the tail is the last one (empty at the root).
   */
  lemma SplitPathOfNormal(p: string)
    requires IsNormalAbs(p)
    ensures var (head, tail) := SplitPath(p); var cs := Components(p);
      IsNormalAbs(head) && InitialSlashes(head) == InitialSlashes(p)
      && (cs == [] ==> Components(head) == [] && tail == "")
      && (cs != [] ==> Components(head) == cs[..|cs| - 1] && tail == cs[|cs| - 1])
  {
    NormalForm(p);
    var n, cs := InitialSlashes(p), Components(p);
    if cs == [] {
      assert p == Slashes(n) + "";
      assert p == Slashes(n);
      SplitPathOfSlashes(n);
    } else {
      SplitPathOfNames(n, cs);
      var init := cs[..|cs| - 1];
      assert SplitPath(p) == (Slashes(n) + Join(init, '/'), cs[|cs| - 1]);
      assert AllNames(init);
      NormpathOfNormalForm(n, init);
      InitialSlashesOfNormalForm(n, init);
      ComponentsOfNormalForm(n, init);
      assert IsAbs(Slashes(n) + Join(init, '/'));
    }
  }

  /** The last slash of `upto + last` is the last character of `upto` when `last` has none. */
  lemma SlashFreeTail(upto: string, last: string)
    requires upto != [] && upto[|upto| - 1] == '/' && '/' !in last
    ensures RFind(upto + last, '/') == |upto| - 1
  {
    var p := upto + last;
    assert p[|upto| - 1] == '/';
    forall j | |upto| <= j < |p| ensures p[j] != '/' {
      assert p[j] == last[j - |upto|];
    }
  }
}
