/**
  * The POSIX path functions of Node's `path` module that the commands use:
  * `basename` (with and without a suffix to drop), `dirname`, `normalize`
  * and two-argument `join`.
  */
module Paths {
  import opened Wrappers
  import opened Text

  // ----- basename -----

  /** `p` without its trailing run of `/`. */
  function StripTrailingSlashes(p: Str): (r: Str)
    ensures |r| <= |p| && r == p[..|r|]
    ensures r == [] || r[|r| - 1] != '/'
    ensures forall i :: |r| <= i < |p| ==> p[i] == '/'
    decreases |p|
  {
    if |p| > 0 && p[|p| - 1] == '/' then StripTrailingSlashes(p[..|p| - 1]) else p
  }

  /** The text after the last `/` of `p` (all of `p` when it has none). */
  function LastSegment(p: Str): (r: Str)
    ensures '/' !in r
    ensures |r| <= |p| && r == p[|p| - |r|..]
    ensures |r| < |p| ==> p[|p| - |r| - 1] == '/'
    decreases |p|
  {
    var k := IndexOf(p, '/');
    if k.None? then p else LastSegment(p[k.value + 1..])
  }

  /**
    * `path.basename(p, ext)`: the last non-empty segment, with `ext` removed
    * when it is a proper suffix of that segment. A path equal to `ext` gives
    * the empty string, and a path made only of slashes is returned as it is
    * when `ext` is no longer than it. An empty `ext` means no suffix.
    */
  function BaseName(p: Str, ext: Str): Str {
    if |ext| > 0 && |ext| <= |p| then
      if p == ext then []
      else if StripTrailingSlashes(p) == [] then p
      else
        var seg := LastSegment(StripTrailingSlashes(p));
        if |ext| < |seg| && seg[|seg| - |ext|..] == ext then seg[..|seg| - |ext|] else seg
    else
      LastSegment(StripTrailingSlashes(p))
  }

  lemma {:induction false} LastSegmentOfChild(prefix: Str, seg: Str)
    requires '/' !in seg
    requires prefix == [] || prefix[|prefix| - 1] == '/'
    ensures LastSegment(prefix + seg) == seg
    decreases |prefix|
  {
    var p := prefix + seg;
    if prefix == [] {
      assert p == seg;
    } else {
      assert '/' in prefix by { assert prefix[|prefix| - 1] == '/'; }
      var i := IndexOf(prefix, '/').value;
      IndexOfPrefix(prefix, seg, '/');
      assert p[i + 1..] == prefix[i + 1..] + seg;
      LastSegmentOfChild(prefix[i + 1..], seg);
    }
  }

  /**
    * A file named `name + ext` has base name `name` with `ext` dropped,
    * whatever directory it sits in.
    */
  lemma BaseNameOfChild(dir: Str, name: Str, ext: Str)
    requires dir == [] || dir[|dir| - 1] == '/'
    requires name != [] && '/' !in name
    requires ext != [] && '/' !in ext
    ensures BaseName(dir + name + ext, ext) == name
    ensures BaseName(dir + name + ext, []) == name + ext
  {
    var seg := name + ext;
    assert dir + name + ext == dir + seg;
    assert '/' !in seg;
    LastSegmentOfChild(dir, seg);
    NoTrailingSlash(dir + seg, seg);
    BaseNameOfSegment(dir + seg, name, ext);
  }

  /** A file directly inside a directory: its dirname is the directory, its basename its name. */
  lemma ChildOf(dir: Str, name: Str)
    requires dir != [] && dir[|dir| - 1] != '/'
    requires name != [] && '/' !in name
    ensures DirName(dir + "/" + name) == dir
    ensures BaseName(dir + "/" + name, []) == name
  {
    DirNameOfChild(dir, name);
    LastSegmentOfChild(dir + "/", name);
    NoTrailingSlash(dir + "/" + name, name);
  }

  lemma NoTrailingSlash(p: Str, seg: Str)
    requires seg != [] && '/' !in seg && LastSegment(p) == seg
    ensures StripTrailingSlashes(p) == p
  {
    assert p[|p| - 1] == seg[|seg| - 1];
    assert seg[|seg| - 1] in seg;
  }

  lemma BaseNameOfSegment(p: Str, name: Str, ext: Str)
    requires name != [] && ext != []
    requires StripTrailingSlashes(p) == p && LastSegment(p) == name + ext
    ensures BaseName(p, ext) == name
    ensures BaseName(p, []) == name + ext
  {
    BaseNameDropsExt(p, name, ext);
  }

  lemma BaseNameDropsExt(p: Str, name: Str, ext: Str)
    requires name != [] && ext != []
    requires StripTrailingSlashes(p) == p && LastSegment(p) == name + ext
    ensures BaseName(p, ext) == name
  {
    var seg := name + ext;
    assert |p| >= |seg| > |ext|;
    assert p != ext && StripTrailingSlashes(p) != [];
    assert seg[|seg| - |ext|..] == ext && seg[..|seg| - |ext|] == name by {
      DropSuffix(name, ext);
    }
  }

  lemma DropSuffix(name: Str, ext: Str)
    ensures var seg := name + ext; seg[|seg| - |ext|..] == ext && seg[..|seg| - |ext|] == name
  {
  }

  // ----- dirname -----

  /** The scan of `path.dirname`: from index `i` down to 1, the first `/` that follows a non-slash. */
  function DirEnd(p: Str, i: int, matchedSlash: bool): (e: int)
    requires i < |p|
    ensures e == -1 || (1 <= e <= i && p[e] == '/')
    decreases i
  {
    if i < 1 then -1
    else if p[i] == '/' then (if !matchedSlash then i else DirEnd(p, i - 1, true))
    else DirEnd(p, i - 1, false)
  }

  /** `path.dirname(p)`: `.` for a bare name, `/` for a top-level entry. */
  function DirName(p: Str): Str {
    if |p| == 0 then "."
    else
      var hasRoot := p[0] == '/';
      var e := DirEnd(p, |p| - 1, true);
      if e == -1 then (if hasRoot then "/" else ".")
      else if hasRoot && e == 1 then "//"
      else p[..e]
  }

  lemma {:induction false} DirEndFindsSlash(p: Str, i: int, k: int, matchedSlash: bool)
    requires 1 <= k <= i < |p| && p[k] == '/'
    requires forall j :: k < j <= i ==> p[j] != '/'
    requires k < i || !matchedSlash
    ensures DirEnd(p, i, matchedSlash) == k
    decreases i
  {
    if i > k {
      DirEndFindsSlash(p, i - 1, k, false);
    }
  }

  lemma {:induction false} DirEndNoSlash(p: Str, i: int, matchedSlash: bool)
    requires i < |p|
    requires forall j :: 1 <= j <= i ==> p[j] != '/'
    ensures DirEnd(p, i, matchedSlash) == -1
    decreases i
  {
    if i >= 1 {
      DirEndNoSlash(p, i - 1, false);
    }
  }

  /** The directory of `dir/name` is `dir`, and a bare name lives in `.`. */
  lemma DirNameOfChild(dir: Str, name: Str)
    requires name != [] && '/' !in name
    ensures dir != [] && dir[|dir| - 1] != '/' ==> DirName(dir + "/" + name) == dir
    ensures DirName(name) == "."
  {
    if dir != [] && dir[|dir| - 1] != '/' {
      var p := dir + "/" + name;
      assert p[|dir|] == '/';
      forall j | |dir| < j <= |p| - 1 ensures p[j] != '/' {
        assert p[j] == name[j - |dir| - 1];
      }
      DirEndFindsSlash(p, |p| - 1, |dir|, true);
      assert !(p[0] == '/' && |dir| == 1) by {
        if |dir| == 1 {
          assert p[0] == dir[|dir| - 1];
        }
      }
      assert p[..|dir|] == dir;
    }
    forall j | 1 <= j <= |name| - 1 ensures name[j] != '/' {
      assert name[j] in name;
    }
    DirEndNoSlash(name, |name| - 1, true);
    assert name[0] in name;
  }

  // ----- normalize and join -----

  /** A segment `normalize` keeps: not empty, not `.`, free of `/` (`..` allowed). */
  predicate KeptSegment(x: Str) {
    x != [] && x != "." && '/' !in x
  }

  /** A plain name: a kept segment other than `..`. */
  predicate PlainName(x: Str) {
    KeptSegment(x) && x != ".."
  }

  /**
    * The shape of a resolved segment list: kept segments, `..` only in a
    * leading run, and no `..` at all for an absolute path.
    */
  ghost predicate Resolved(st: seq<Str>, allowAboveRoot: bool) {
    && (forall i :: 0 <= i < |st| ==> KeptSegment(st[i]))
    && (forall i, j :: 0 <= i < j < |st| && st[j] == ".." ==> st[i] == "..")
    && (!allowAboveRoot ==> forall i :: 0 <= i < |st| ==> st[i] != "..")
  }

  /** One step of `normalizeString`: skip empty and `.`, let `..` pop a name, keep the rest. */
  function ResolveStep(st: seq<Str>, x: Str, allowAboveRoot: bool): seq<Str> {
    if x == [] || x == "." then st
    else if x == ".." then
      if |st| > 0 && st[|st| - 1] != ".." then st[..|st| - 1]
      else if allowAboveRoot then st + [".."]
      else st
    else st + [x]
  }

  function Resolve(st: seq<Str>, segs: seq<Str>, allowAboveRoot: bool): seq<Str>
    decreases |segs|
  {
    if segs == [] then st else Resolve(ResolveStep(st, segs[0], allowAboveRoot), segs[1..], allowAboveRoot)
  }

  /** A resolved list written out, with a leading `/` for an absolute path. */
  function Assemble(absolute: bool, st: seq<Str>): Str {
    (if absolute then "/" else "") + Join(st, '/')
  }

  /** `path.normalize(p)`. */
  function Normalize(p: Str): Str {
    if p == [] then "."
    else
      var absolute := p[0] == '/';
      var trailing := p[|p| - 1] == '/';
      var body := Join(Resolve([], Split(p, '/'), !absolute), '/');
      if body == [] then (if absolute then "/" else if trailing then "./" else ".")
      else Assemble(absolute, Resolve([], Split(p, '/'), !absolute)) + (if trailing then "/" else "")
  }

  /** `path.join(a, b)`: the non-empty arguments joined by `/`, then normalized. */
  function PathJoin(a: Str, b: Str): Str {
    if a == [] && b == [] then "."
    else Normalize(if a == [] then b else if b == [] then a else a + "/" + b)
  }

  lemma {:induction false} ResolveConcat(st: seq<Str>, a: seq<Str>, b: seq<Str>, allow: bool)
    ensures Resolve(st, a + b, allow) == Resolve(Resolve(st, a, allow), b, allow)
    decreases |a|
  {
    if a != [] {
      assert (a + b)[0] == a[0];
      assert (a + b)[1..] == a[1..] + b;
      ResolveConcat(ResolveStep(st, a[0], allow), a[1..], b, allow);
    } else {
      assert a + b == b;
    }
  }

  lemma StepKeepsResolved(st: seq<Str>, x: Str, allow: bool)
    requires Resolved(st, allow) && '/' !in x
    ensures Resolved(ResolveStep(st, x, allow), allow)
  {
    var st' := ResolveStep(st, x, allow);
    if x != [] && x != "." && x == ".." && |st| > 0 && st[|st| - 1] != ".." {
      assert st' == st[..|st| - 1];
    }
  }

  lemma {:induction false} ResolveKeepsResolved(st: seq<Str>, segs: seq<Str>, allow: bool)
    requires Resolved(st, allow)
    requires forall i :: 0 <= i < |segs| ==> '/' !in segs[i]
    ensures Resolved(Resolve(st, segs, allow), allow)
    decreases |segs|
  {
    if segs != [] {
      StepKeepsResolved(st, segs[0], allow);
      ResolveKeepsResolved(ResolveStep(st, segs[0], allow), segs[1..], allow);
    }
  }

  /** Resolving an already-resolved list changes nothing. */
  lemma {:induction false} ResolveOfResolved(acc: seq<Str>, xs: seq<Str>, allow: bool)
    requires Resolved(acc + xs, allow)
    ensures Resolve(acc, xs, allow) == acc + xs
    decreases |xs|
  {
    if xs != [] {
      var x := xs[0];
      assert (acc + xs)[|acc|] == x;
      assert KeptSegment(x);
      if x == ".." {
        assert allow;
        if |acc| > 0 {
          assert (acc + xs)[|acc| - 1] == acc[|acc| - 1];
        }
      }
      assert ResolveStep(acc, x, allow) == acc + [x];
      assert acc + [x] + xs[1..] == acc + xs;
      ResolveOfResolved(acc + [x], xs[1..], allow);
    }
  }

  lemma JoinNonEmpty(st: seq<Str>, sep: char)
    requires |st| >= 1 && st[|st| - 1] != []
    ensures |Join(st, sep)| >= 1 && Join(st, sep)[|Join(st, sep)| - 1] == st[|st| - 1][|st[|st| - 1]| - 1]
    decreases |st|
  {
    if |st| > 1 {
      JoinNonEmpty(st[1..], sep);
    }
  }

  /** Normalizing a written-out resolved list gives it back. */
  lemma NormalizeOfResolved(absolute: bool, st: seq<Str>)
    requires |st| >= 1 && Resolved(st, !absolute)
    ensures Normalize(Assemble(absolute, st)) == Assemble(absolute, st)
  {
    var p := Assemble(absolute, st);
    var joined := Join(st, '/');
    AssembledEnds(absolute, st);
    assert Resolve([], Split(p, '/'), !absolute) == st by {
      SplitOfAssembled(absolute, st);
      ResolveOfResolved([], st, !absolute);
      assert [] + st == st;
    }
    assert p + "" == p;
  }

  /** A written-out resolved list is non-empty, starts with `/` exactly when absolute, and has no trailing `/`. */
  lemma AssembledEnds(absolute: bool, st: seq<Str>)
    requires |st| >= 1 && Resolved(st, !absolute)
    ensures var p := Assemble(absolute, st);
            && Join(st, '/') != [] && p != []
            && (p[0] == '/' <==> absolute) && p[|p| - 1] != '/'
  {
    JoinFirst(st, '/');
    JoinNonEmpty(st, '/');
    assert st[0][0] in st[0];
    var last := st[|st| - 1];
    assert last[|last| - 1] in last;
  }

  lemma SplitOfAssembled(absolute: bool, st: seq<Str>)
    requires |st| >= 1 && Resolved(st, !absolute)
    ensures Resolve([], Split(Assemble(absolute, st), '/'), !absolute) == Resolve([], st, !absolute)
  {
    var joined := Join(st, '/');
    assert Split(joined, '/') == st by {
      assert forall i :: 0 <= i < |st| ==> '/' !in st[i];
      SplitJoin(st, '/');
    }
    if absolute {
      assert Assemble(absolute, st) == ['/'] + joined;
      SplitRooted(joined);
      assert ([[]] + st)[1..] == st;
      assert ResolveStep([], [], false) == [];
      assert Resolve([], [[]] + st, false) == Resolve([], st, false);
    } else {
      assert Assemble(absolute, st) == joined;
    }
  }

  /** Splitting `/x` gives an empty first segment, then the segments of `x`. */
  lemma SplitRooted(x: Str)
    ensures Split(['/'] + x, '/') == [[]] + Split(x, '/')
  {
    assert ['/'] + x == [] + ['/'] + x;
    SplitConcat([], x, '/');
    SplitNone([], '/');
  }

  lemma ResolvedAppend(st: seq<Str>, name: Str, allow: bool)
    requires Resolved(st, allow) && PlainName(name)
    ensures Resolved(st + [name], allow)
  {
    var all := st + [name];
    forall i, j | 0 <= i < j < |all| && all[j] == ".." ensures all[i] == ".." {
      assert j < |st|;
    }
  }

  /**
    * Appending a plain name to a normalized path is already normal:
    * `normalize(d + "/" + name) == d + "/" + name`.
    */
  lemma NormalizeAppendName(absolute: bool, st: seq<Str>, name: Str)
    requires |st| >= 1 && Resolved(st, !absolute)
    requires PlainName(name)
    ensures Normalize(Assemble(absolute, st) + "/" + name) == Assemble(absolute, st) + "/" + name
  {
    ResolvedAppend(st, name, !absolute);
    JoinAppend(st, name, '/');
    assert Assemble(absolute, st) + "/" + name == Assemble(absolute, st + [name]);
    NormalizeOfResolved(absolute, st + [name]);
  }

  /** The argument `path.join(x, name)` hands to `normalize`. */
  function ChildPath(x: Str, name: Str): Str {
    if x == [] then name else x + "/" + name
  }

  lemma ChildSegments(x: Str, name: Str)
    requires PlainName(name)
    ensures Split(ChildPath(x, name), '/') == (if x == [] then [] else Split(x, '/')) + [name]
  {
    SplitNone(name, '/');
    if x != [] {
      SplitConcat(x, name, '/');
    }
  }

  lemma ResolveChild(before: seq<Str>, name: Str, allow: bool)
    requires forall i :: 0 <= i < |before| ==> '/' !in before[i]
    requires PlainName(name)
    ensures var st := Resolve([], before + [name], allow);
            |st| >= 1 && Resolved(st, allow) && st[|st| - 1] == name
  {
    ResolveConcat([], before, [name], allow);
    ResolveKeepsResolved([], before, allow);
    var st0 := Resolve([], before, allow);
    var st := st0 + [name];
    assert Resolve(st0, [name], allow) == st;
    ResolvedAppend(st0, name, allow);
  }

  /** Whether `x + "/" + name` is absolute. */
  function ChildAbsolute(x: Str, name: Str): bool
    requires name != []
  {
    ChildPath(x, name)[0] == '/'
  }

  /** The segments of `x + "/" + name`, resolved. */
  function ChildStackOf(x: Str, name: Str): seq<Str>
    requires name != []
  {
    Resolve([], (if x == [] then [] else Split(x, '/')) + [name], !ChildAbsolute(x, name))
  }

  /** `normalize(x + "/" + name)` for any `x`: a resolved list ending in `name`. */
  lemma NormalizeChildShape(x: Str, name: Str) returns (absolute: bool, st: seq<Str>)
    requires PlainName(name)
    ensures |st| >= 1 && Resolved(st, !absolute) && st[|st| - 1] == name
    ensures PathJoin(x, name) == Assemble(absolute, st)
  {
    absolute := ChildAbsolute(x, name);
    st := ChildStackOf(x, name);
    ChildStack(x, name);
    ChildAssembled(x, name);
  }

  /** The last segment of a written-out resolved list is its last name. */
  lemma BaseNameOfAssembled(absolute: bool, st: seq<Str>)
    requires |st| >= 1 && Resolved(st, !absolute)
    ensures BaseName(Assemble(absolute, st), []) == st[|st| - 1]
  {
    var last := st[|st| - 1];
    var lead: Str := if absolute then "/" else "";
    var prefix: Str;
    if |st| == 1 {
      prefix := lead;
      assert Assemble(absolute, st) == prefix + last;
    } else {
      var front := st[..|st| - 1];
      assert st == front + [last];
      JoinAppend(front, last, '/');
      prefix := lead + Join(front, '/') + "/";
      assert Assemble(absolute, st) == prefix + last;
    }
    assert KeptSegment(last);
    LastSegmentOfChild(prefix, last);
    NoTrailingSlash(prefix + last, last);
  }

  /**
    * `path.join(x, name)` for a plain name: a non-empty path without a
    * trailing `/` whose base name is `name`, onto which a further plain
    * name is joined by plain concatenation.
    */
  lemma JoinedChild(x: Str, name: Str)
    requires PlainName(name)
    ensures var p := PathJoin(x, name);
            && p != [] && p[|p| - 1] != '/'
            && BaseName(p, []) == name
            && forall b :: PlainName(b) ==> PathJoin(p, b) == p + "/" + b
  {
    var absolute, st := NormalizeChildShape(x, name);
    var p := PathJoin(x, name);
    AssembledEnds(absolute, st);
    BaseNameOfAssembled(absolute, st);
    forall b | PlainName(b) ensures PathJoin(p, b) == p + "/" + b {
      NormalizeAppendName(absolute, st, b);
    }
  }

  /** The segments of `x + "/" + name` resolve to a list ending in `name`. */
  lemma ChildStack(x: Str, name: Str)
    requires PlainName(name)
    ensures var st := ChildStackOf(x, name);
            |st| >= 1 && Resolved(st, !ChildAbsolute(x, name)) && st[|st| - 1] == name
  {
    if x != [] {
      SplitPiecesFree(x, '/');
    }
    var before := if x == [] then [] else Split(x, '/');
    ResolveChild(before, name, !ChildAbsolute(x, name));
  }

  /** `path.join(x, name)` writes out that list. */
  lemma ChildAssembled(x: Str, name: Str)
    requires PlainName(name)
    ensures PathJoin(x, name) == Assemble(ChildAbsolute(x, name), ChildStackOf(x, name))
  {
    var p := ChildPath(x, name);
    var st := ChildStackOf(x, name);
    ChildStack(x, name);
    ChildSegments(x, name);
    JoinNonEmpty(st, '/');
    assert p[|p| - 1] == name[|name| - 1];
    assert name[|name| - 1] in name;
  }
}
