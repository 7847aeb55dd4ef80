/**
 POSIX path strings as Python's `posixpath` module handles them: `split('/')`,
 `join`, `basename`, `dirname`, `splitext`, `normpath`, `abspath` and `relpath`.

 A normalized absolute path is held as the sequence of its components
 (`Segs`, every component a `ValidName`); `Render` turns it back into the string
 Python would hold. The lemmas connect the string-level functions with that
 component form.
 */
module PosixPath {

  /** The components of a normalized absolute path, root first. */
  type Segs = seq<string>

  /** A component that normpath keeps: not empty, not `.` or `..`, no separator. */
  predicate ValidName(x: string) {
    x != "" && x != "." && x != ".." && '/' !in x
  }

  predicate ValidSegs(s: Segs) {
    forall i :: 0 <= i < |s| ==> ValidName(s[i])
  }

  /** A normalized absolute path, by components. */
  type Path = s: Segs | ValidSegs(s) witness []

  predicate NoSlash(parts: seq<string>) {
    forall i :: 0 <= i < |parts| ==> '/' !in parts[i]
  }

  /** posixpath.isabs */
  predicate IsAbs(s: string) {
    |s| > 0 && s[0] == '/'
  }

  predicate StartsWith(s: string, prefix: string) {
    |prefix| <= |s| && s[..|prefix|] == prefix
  }

  predicate IsPrefix(p: Segs, s: Segs) {
    |p| <= |s| && s[..|p|] == p
  }

  /** `s.split('/')`: the pieces between separators, empty ones included. */
  function Split(s: string): (r: seq<string>)
    ensures |r| >= 1
    decreases |s|
  {
    if |s| == 0 then [""]
    else
      var rest := Split(s[1..]);
      if s[0] == '/' then [""] + rest
      else [[s[0]] + rest[0]] + rest[1..]
  }

  /** `'/'.join(t)` */
  function JoinSegs(t: seq<string>): string
    decreases |t|
  {
    if |t| == 0 then ""
    else if |t| == 1 then t[0]
    else JoinSegs(t[..|t| - 1]) + "/" + t[|t| - 1]
  }

  /** The string form of a normalized absolute path. */
  function Render(s: Segs): string {
    "/" + JoinSegs(s)
  }

  /** posixpath.join with two arguments. */
  function Join(a: string, b: string): string {
    if IsAbs(b) then b
    else if a == "" || a[|a| - 1] == '/' then a + b
    else a + "/" + b
  }

  /** The component loop of posixpath.normpath for a path with one leading slash:
      empty and `.` components vanish, `..` drops the previous component and is
      itself dropped at the root. */
  function Normalize(acc: Segs, parts: seq<string>): Segs
    decreases |parts|
  {
    if |parts| == 0 then acc
    else
      var p := parts[0];
      var next :=
        if p == "" || p == "." then acc
        else if p == ".." then (if |acc| == 0 then acc else acc[..|acc| - 1])
        else acc + [p];
      Normalize(next, parts[1..])
  }

  /** posixpath.normpath of an absolute path. */
  function NormAbs(s: string): Segs
    requires IsAbs(s)
  {
    Normalize([], Split(s))
  }

  /** posixpath.abspath, with the process's working directory as a parameter. */
  function AbsPath(cwd: Segs, s: string): (r: Segs)
    requires ValidSegs(cwd)
    ensures ValidSegs(r)
    ensures r == Normalize(if IsAbs(s) then [] else cwd, Split(s))
  {
    if IsAbs(s) then
      SplitNoSlash(s);
      NormalizeKeepsValid([], Split(s));
      NormAbs(s)
    else
      JoinedUnder(cwd, s);
      NormAbs(Join(Render(cwd), s))
  }

  /** `normpath(join(dir, s))` for a relative `s`: the components of `s`
      normalized after those of `dir`. */
  lemma JoinedUnder(dir: Segs, s: string)
    requires ValidSegs(dir) && !IsAbs(s)
    ensures IsAbs(Join(Render(dir), s))
    ensures NormAbs(Join(Render(dir), s)) == Normalize(dir, Split(s))
    ensures ValidSegs(Normalize(dir, Split(s)))
  {
    assert Join(Render(dir), s)[0] == '/';
    JoinNormalize([], Render(dir), s);
    NormalizeRender(dir);
    SplitNoSlash(s);
    NormalizeKeepsValid(dir, Split(s));
  }

  /** `os.path.commonprefix` of two component lists: the length of their common prefix. */
  function CommonPrefixLen(a: Segs, b: Segs): (k: nat)
    ensures k <= |a| && k <= |b|
    ensures a[..k] == b[..k]
    ensures k < |a| && k < |b| ==> a[k] != b[k]
    decreases |a|
  {
    if |a| == 0 || |b| == 0 || a[0] != b[0] then 0
    else 1 + CommonPrefixLen(a[1..], b[1..])
  }

  function Repeat(x: string, n: nat): (r: seq<string>)
    ensures |r| == n
    ensures forall i :: 0 <= i < n ==> r[i] == x
  {
    if n == 0 then [] else Repeat(x, n - 1) + [x]
  }

  /** The components `relpath` joins: `..` for each level of `start` below the
      common prefix, then the rest of `path`. */
  function RelParts(path: Segs, start: Segs): seq<string> {
    var k := CommonPrefixLen(start, path);
    Repeat("..", |start| - k) + path[k..]
  }

  /** posixpath.relpath of two normalized absolute paths: climb out of `start`
      to the common prefix, then descend into `path`; `.` when they coincide. */
  function RelPath(path: Segs, start: Segs): string {
    var parts := RelParts(path, start);
    if |parts| == 0 then "." else JoinSegs(parts)
  }

  /** `p.rfind('/') + 1`: where the last component starts. */
  function LastSlashEnd(p: string): (i: nat)
    ensures i <= |p|
    decreases |p|
  {
    if |p| == 0 then 0
    else if p[|p| - 1] == '/' then |p|
    else LastSlashEnd(p[..|p| - 1])
  }

  predicate AllSlashes(s: string) {
    forall i :: 0 <= i < |s| ==> s[i] == '/'
  }

  function RStripSlashes(s: string): string
    decreases |s|
  {
    if |s| > 0 && s[|s| - 1] == '/' then RStripSlashes(s[..|s| - 1]) else s
  }

  /** posixpath.basename */
  function Basename(p: string): string {
    p[LastSlashEnd(p)..]
  }

  /** posixpath.dirname */
  function Dirname(p: string): string {
    var head := p[..LastSlashEnd(p)];
    if head != "" && !AllSlashes(head) then RStripSlashes(head) else head
  }

  /** Index of the last occurrence of `c` in `p`, or -1 (`str.rfind`). */
  function RFind(p: string, c: char): (i: int)
    ensures -1 <= i < |p|
    ensures 0 <= i ==> p[i] == c
    ensures forall j :: i < j < |p| ==> p[j] != c
    decreases |p|
  {
    if |p| == 0 then -1
    else if p[|p| - 1] == c then |p| - 1
    else RFind(p[..|p| - 1], c)
  }

  predicate AllDots(s: string) {
    forall i :: 0 <= i < |s| ==> s[i] == '.'
  }

  /** `os.path.splitext(p)[0]`: cut at the last dot of the last component, unless
      only dots precede that dot within the component (a leading-dot name such
      as `.bashrc` has no extension). */
  function SplitExtRoot(p: string): (r: string)
    ensures StartsWith(p, r)
  {
    var sepIndex := RFind(p, '/');
    var dotIndex := RFind(p, '.');
    if dotIndex > sepIndex && !AllDots(p[sepIndex + 1..dotIndex]) then p[..dotIndex]
    else p
  }

  lemma RFindAbsent(p: string, c: char)
    requires c !in p
    ensures RFind(p, c) == -1
  {
  }

  /** splitext on a file name: the extension is cut exactly when some dot of
      the name has another character before it, and the cut is then at the
      name's last dot. */
  lemma SplitExtName(n: string)
    requires '/' !in n
    ensures var r := SplitExtRoot(n);
            && (r != n <==> exists i, d :: 0 <= i < d < |n| && n[i] != '.' && n[d] == '.')
            && (r != n ==> |r| < |n| && n[|r|] == '.' && '.' !in n[|r| + 1..])
  {
    RFindAbsent(n, '/');
    var dot := RFind(n, '.');
    var r := SplitExtRoot(n);
    if r != n {
      var i :| 0 <= i < dot && n[..dot][i] != '.';
      assert n[i] != '.' && n[dot] == '.';
    }
    if exists i, d :: 0 <= i < d < |n| && n[i] != '.' && n[d] == '.' {
      var i, d :| 0 <= i < d < |n| && n[i] != '.' && n[d] == '.';
      assert d <= dot;
      assert n[..dot][i] == n[i];
    }
  }

  // ---------------------------------------------------------------------------
  // Lemmas about split and join

  lemma {:induction false} SplitNoSlash(s: string)
    ensures NoSlash(Split(s))
    ensures '/' !in s ==> Split(s) == [s]
    decreases |s|
  {
    if |s| > 0 {
      SplitNoSlash(s[1..]);
      if '/' !in s {
        assert '/' !in s[1..];
        assert [s[0]] + s[1..] == s;
      }
    }
  }

  /** Splitting at a separator splits the two sides independently. */
  lemma {:induction false} SplitConcat(a: string, b: string)
    ensures Split(a + "/" + b) == Split(a) + Split(b)
    decreases |a|
  {
    if |a| == 0 {
      SplitSlash(b);
      assert a + "/" + b == "/" + b;
    } else {
      assert a == [a[0]] + a[1..];
      SplitConcat(a[1..], b);
      SplitConcatStep(a[0], a[1..], b);
    }
  }

  /** One step of SplitConcat: from the rest of `a` to all of it. */
  lemma SplitConcatStep(c: char, a1: string, b: string)
    requires Split(a1 + "/" + b) == Split(a1) + Split(b)
    ensures Split([c] + a1 + "/" + b) == Split([c] + a1) + Split(b)
  {
    assert [c] + a1 + "/" + b == [c] + (a1 + "/" + b);
    if c != '/' {
      SplitCons(c, a1);
      SplitCons(c, a1 + "/" + b);
      ConsFirst(c, Split(a1), Split(b));
    } else {
      SplitSlashStep(a1, b);
    }
  }

  lemma SplitSlashStep(a1: string, b: string)
    requires Split(a1 + "/" + b) == Split(a1) + Split(b)
    ensures Split("/" + (a1 + "/" + b)) == Split("/" + a1) + Split(b)
  {
    SplitSlash(a1);
    SplitSlash(a1 + "/" + b);
  }

  lemma SplitSlash(t: string)
    ensures Split("/" + t) == [""] + Split(t)
  {
    assert ("/" + t)[1..] == t;
  }

  lemma ConsFirst(c: char, x: seq<string>, y: seq<string>)
    requires |x| >= 1
    ensures [[c] + (x + y)[0]] + (x + y)[1..] == ([[c] + x[0]] + x[1..]) + y
  {
    assert (x + y)[0] == x[0];
    assert (x + y)[1..] == x[1..] + y;
  }

  lemma SplitCons(c: char, t: string)
    requires c != '/'
    ensures Split([c] + t) == [[c] + Split(t)[0]] + Split(t)[1..]
  {
    assert ([c] + t)[1..] == t;
  }

  lemma {:induction false} JoinSegsFront(t: seq<string>)
    requires |t| >= 2
    ensures JoinSegs(t) == t[0] + "/" + JoinSegs(t[1..])
    decreases |t|
  {
    if |t| > 2 {
      var init := t[..|t| - 1];
      JoinSegsFront(init);
      assert init[1..] == t[1..][..|t[1..]| - 1];
    }
  }

  lemma {:induction false} JoinSegsConcat(s: seq<string>, t: seq<string>)
    requires |s| >= 1 && |t| >= 1
    ensures JoinSegs(s + t) == JoinSegs(s) + "/" + JoinSegs(t)
    decreases |t|
  {
    if |t| > 1 {
      var init := t[..|t| - 1];
      JoinSegsConcat(s, init);
      assert (s + t)[..|s + t| - 1] == s + init;
    } else {
      assert (s + t)[..|s + t| - 1] == s;
    }
  }

  /** A joined list of names begins with the first name and ends with the last
      name's last character. */
  lemma {:induction false} JoinSegsEnds(t: seq<string>)
    requires |t| >= 1 && ValidSegs(t)
    ensures |JoinSegs(t)| > 0
    ensures StartsWith(JoinSegs(t), t[0])
    ensures JoinSegs(t)[|JoinSegs(t)| - 1] == t[|t| - 1][|t[|t| - 1]| - 1]
  {
    if |t| >= 2 {
      JoinSegsFront(t);
    }
  }

  lemma {:induction false} SplitJoinSegs(t: seq<string>)
    requires |t| >= 1 && NoSlash(t)
    ensures Split(JoinSegs(t)) == t
    decreases |t|
  {
    if |t| == 1 {
      SplitNoSlash(t[0]);
    } else {
      var init := t[..|t| - 1];
      SplitJoinSegs(init);
      SplitConcat(JoinSegs(init), t[|t| - 1]);
      SplitNoSlash(t[|t| - 1]);
    }
  }

  lemma SplitRender(s: Segs)
    requires ValidSegs(s)
    ensures Split(Render(s)) == [""] + (if |s| == 0 then [""] else s)
  {
    assert Render(s) == "" + "/" + JoinSegs(s);
    SplitConcat("", JoinSegs(s));
    if |s| > 0 {
      SplitJoinSegs(s);
    }
  }

  // ---------------------------------------------------------------------------
  // Lemmas about normalization

  lemma {:induction false} NormalizeAppend(acc: Segs, xs: seq<string>, ys: seq<string>)
    ensures Normalize(acc, xs + ys) == Normalize(Normalize(acc, xs), ys)
    decreases |xs|
  {
    if |xs| > 0 {
      assert (xs + ys)[0] == xs[0];
      assert (xs + ys)[1..] == xs[1..] + ys;
      var p := xs[0];
      var next :=
        if p == "" || p == "." then acc
        else if p == ".." then (if |acc| == 0 then acc else acc[..|acc| - 1])
        else acc + [p];
      NormalizeAppend(next, xs[1..], ys);
    } else {
      assert xs + ys == ys;
    }
  }

  /** Valid names are appended as they are. */
  lemma {:induction false} NormalizeValid(acc: Segs, s: Segs)
    requires ValidSegs(s)
    ensures Normalize(acc, s) == acc + s
    decreases |s|
  {
    if |s| > 0 {
      NormalizeValid(acc + [s[0]], s[1..]);
      assert acc + [s[0]] + s[1..] == acc + s;
    }
  }

  lemma {:induction false} NormalizeKeepsValid(acc: Segs, parts: seq<string>)
    requires ValidSegs(acc) && NoSlash(parts)
    ensures ValidSegs(Normalize(acc, parts))
    decreases |parts|
  {
    if |parts| > 0 {
      var p := parts[0];
      var next :=
        if p == "" || p == "." then acc
        else if p == ".." then (if |acc| == 0 then acc else acc[..|acc| - 1])
        else acc + [p];
      assert ValidSegs(next);
      assert NoSlash(parts[1..]) by {
        forall i | 0 <= i < |parts[1..]| ensures '/' !in parts[1..][i] {
          assert parts[1..][i] == parts[i + 1];
        }
      }
      NormalizeKeepsValid(next, parts[1..]);
    }
  }

  /** Rendering then normalizing gives the components back. */
  lemma NormalizeRender(s: Segs)
    requires ValidSegs(s)
    ensures Normalize([], Split(Render(s))) == s
  {
    SplitRender(s);
    if |s| == 0 {
      NormalizeEmpties();
    } else {
      NormalizeAppend([], [""], s);
      NormalizeValid([], s);
    }
  }

  lemma NormalizeEmpties()
    ensures Normalize([], [""] + [""]) == []
  {
    var e: seq<string> := [""] + [""];
    var e1: seq<string> := [""];
    assert e[0] == "" && e[1..] == e1;
    assert Normalize([], e) == Normalize([], e1);
    assert e1[0] == "" && e1[1..] == [];
  }

  /** Joining then normalizing equals normalizing both sides in turn. */
  lemma JoinNormalize(acc: Segs, a: string, b: string)
    requires !IsAbs(b)
    ensures Normalize(acc, Split(Join(a, b))) == Normalize(Normalize(acc, Split(a)), Split(b))
  {
    if a == "" {
      assert Join(a, b) == b;
    } else if a[|a| - 1] == '/' {
      var a' := a[..|a| - 1];
      assert a == a' + "/" + "";
      assert Join(a, b) == a' + "/" + b;
      SplitConcat(a', b);
      SplitConcat(a', "");
      NormalizeAppend(acc, Split(a'), Split(b));
      NormalizeAppend(acc, Split(a'), [""]);
    } else {
      SplitConcat(a, b);
      NormalizeAppend(acc, Split(a), Split(b));
    }
  }

  lemma AbsPathRender(cwd: Segs, s: Segs)
    requires ValidSegs(cwd) && ValidSegs(s)
    ensures AbsPath(cwd, Render(s)) == s
  {
    NormalizeRender(s);
  }

  lemma {:induction false} NormalizeParents(acc: Segs, n: nat)
    requires n <= |acc|
    ensures Normalize(acc, Repeat("..", n)) == acc[..|acc| - n]
    decreases n
  {
    if n > 0 {
      var r := Repeat("..", n);
      assert r == Repeat("..", n - 1) + [".."];
      NormalizeAppend(acc, Repeat("..", n - 1), [".."]);
      NormalizeParents(acc, n - 1);
      assert acc[..|acc| - (n - 1)][..|acc| - n] == acc[..|acc| - n];
    }
  }

  /** Resolving `relpath(path, start)` against `start` gives `path` back. */
  lemma RelPathRoundTrip(path: Segs, start: Segs)
    requires ValidSegs(path) && ValidSegs(start)
    ensures AbsPath(start, RelPath(path, start)) == path
  {
    var parts := RelParts(path, start);
    NormalizeRelParts(path, start);
    if |parts| == 0 {
      SplitNoSlash(".");
    } else {
      var k := CommonPrefixLen(start, path);
      RelPartsNoSlash(path, start);
      assert parts[0] == ".." || parts[0] == path[k];
      JoinSegsEndsLoose(parts);
      SplitJoinSegs(parts);
    }
  }

  /** Climbing from `start` to the common prefix and descending again reaches
      `path`. */
  lemma NormalizeRelParts(path: Segs, start: Segs)
    requires ValidSegs(path) && ValidSegs(start)
    ensures Normalize(start, RelParts(path, start)) == path
  {
    var k := CommonPrefixLen(start, path);
    var dots := Repeat("..", |start| - k);
    SuffixSegsValid(path, k);
    calc {
      Normalize(start, RelParts(path, start));
      Normalize(start, dots + path[k..]);
      { NormalizeAppend(start, dots, path[k..]); }
      Normalize(Normalize(start, dots), path[k..]);
      { NormalizeParents(start, |start| - k); }
      Normalize(start[..k], path[k..]);
      { NormalizeValid(start[..k], path[k..]); }
      start[..k] + path[k..];
      { assert start[..k] == path[..k]; }
      path;
    }
  }

  lemma SuffixSegsValid(s: Segs, k: nat)
    requires ValidSegs(s) && k <= |s|
    ensures ValidSegs(s[k..])
  {
    forall i | 0 <= i < |s[k..]| ensures ValidName(s[k..][i]) {
      assert s[k..][i] == s[k + i];
    }
  }

  lemma RelPartsNoSlash(path: Segs, start: Segs)
    requires ValidSegs(path)
    ensures NoSlash(RelParts(path, start))
  {
    var k := CommonPrefixLen(start, path);
    var dots := Repeat("..", |start| - k);
    var parts := RelParts(path, start);
    forall i | 0 <= i < |parts| ensures '/' !in parts[i] {
      if i >= |dots| {
        assert parts[i] == path[k + i - |dots|];
      } else {
        assert parts[i] == "..";
      }
    }
  }

  /** A join of non-empty names without separators does not start with one. */
  lemma JoinSegsEndsLoose(t: seq<string>)
    requires |t| >= 1 && NoSlash(t) && t[0] != ""
    ensures !IsAbs(JoinSegs(t))
  {
    if |t| >= 2 {
      JoinSegsFront(t);
    }
    assert t[0][0] != '/';
  }

  // ---------------------------------------------------------------------------
  // Lemmas about basename and dirname

  lemma {:induction false} LastSlashEndNone(y: string)
    requires '/' !in y
    ensures LastSlashEnd(y) == 0
    decreases |y|
  {
    if |y| > 0 {
      LastSlashEndNone(y[..|y| - 1]);
    }
  }

  lemma {:induction false} LastSlashEndAfter(x: string, y: string)
    requires '/' !in y
    ensures LastSlashEnd(x + "/" + y) == |x| + 1
    decreases |y|
  {
    var p := x + "/" + y;
    if |y| > 0 {
      assert p[..|p| - 1] == x + "/" + y[..|y| - 1];
      LastSlashEndAfter(x, y[..|y| - 1]);
    } else {
      assert p[|p| - 1] == '/';
    }
  }

  lemma NameParts(y: string)
    requires '/' !in y
    ensures Basename(y) == y && Dirname(y) == ""
  {
    LastSlashEndNone(y);
  }

  lemma RStripOne(x: string)
    requires |x| > 0 && x[|x| - 1] != '/'
    ensures RStripSlashes(x + "/") == x
  {
    assert (x + "/")[..|x + "/"| - 1] == x;
  }

  /** The last component of `x/y` is `y` and its directory part is `x`, when `x`
      does not end in a separator. */
  lemma LastComponent(x: string, y: string)
    requires '/' !in y && |x| > 0 && x[|x| - 1] != '/'
    ensures Basename(x + "/" + y) == y
    ensures Dirname(x + "/" + y) == x
  {
    var p := x + "/" + y;
    LastSlashEndAfter(x, y);
    assert p[..|x| + 1] == x + "/";
    assert p[|x| + 1..] == y;
    assert !AllSlashes(x + "/") by {
      assert (x + "/")[|x| - 1] == x[|x| - 1];
    }
    RStripOne(x);
  }

  lemma JoinSegsParts(t: seq<string>)
    requires |t| >= 1 && ValidSegs(t)
    ensures Basename(JoinSegs(t)) == t[|t| - 1]
    ensures Dirname(JoinSegs(t)) == (if |t| == 1 then "" else JoinSegs(t[..|t| - 1]))
  {
    if |t| == 1 {
      NameParts(t[0]);
    } else {
      var init := t[..|t| - 1];
      JoinSegsEnds(init);
      LastComponent(JoinSegs(init), t[|t| - 1]);
    }
  }

  lemma RenderParts(s: Segs)
    requires ValidSegs(s)
    ensures Basename(Render(s)) == (if |s| == 0 then "" else s[|s| - 1])
    ensures Dirname(Render(s)) == Render(if |s| == 0 then [] else s[..|s| - 1])
  {
    if |s| == 0 {
      RenderPartsRoot();
    } else if |s| == 1 {
      RenderPartsSingle(s);
    } else {
      RenderPartsLonger(s);
    }
  }

  lemma RenderPartsRoot()
    ensures Basename(Render([])) == "" && Dirname(Render([])) == Render([])
  {
    assert Render([]) == "/";
    assert LastSlashEnd("/") == 1;
    assert AllSlashes("/");
  }

  lemma RenderPartsSingle(s: Segs)
    requires ValidSegs(s) && |s| == 1
    ensures Basename(Render(s)) == s[0] && Dirname(Render(s)) == Render([])
  {
    assert Render(s) == "" + "/" + s[0];
    LastSlashEndAfter("", s[0]);
    assert AllSlashes("/");
    assert Render(s)[..1] == "/";
  }

  lemma RenderPartsLonger(s: Segs)
    requires ValidSegs(s) && |s| >= 2
    ensures Basename(Render(s)) == s[|s| - 1] && Dirname(Render(s)) == Render(s[..|s| - 1])
  {
    var init := s[..|s| - 1];
    JoinSegsEnds(init);
    var x := "/" + JoinSegs(init);
    assert Render(s) == x + "/" + s[|s| - 1];
    assert x[|x| - 1] == JoinSegs(init)[|JoinSegs(init)| - 1];
    LastComponent(x, s[|s| - 1]);
  }

  // ---------------------------------------------------------------------------
  // Lemmas about building paths from components

  lemma JoinSegsNotAbs(t: Segs)
    requires ValidSegs(t) && |t| >= 1
    ensures !IsAbs(JoinSegs(t))
  {
    JoinSegsEnds(t);
    assert JoinSegs(t)[0] == t[0][0];
  }

  lemma RenderNoTrailingSlash(s: Segs)
    requires ValidSegs(s) && |s| >= 1
    ensures Render(s)[|Render(s)| - 1] != '/'
  {
    JoinSegsEnds(s);
  }

  /** `join(a, b)` inserts one separator when `a` does not end in one. */
  lemma JoinPlain(a: string, b: string)
    requires |a| > 0 && a[|a| - 1] != '/' && !IsAbs(b)
    ensures Join(a, b) == a + "/" + b
  {
  }

  lemma JoinRender(s: Segs, t: Segs)
    requires ValidSegs(s) && ValidSegs(t) && |t| >= 1
    ensures Join(Render(s), JoinSegs(t)) == Render(s + t)
  {
    if |s| == 0 {
      JoinSegsNotAbs(t);
      JoinRenderRoot(s, t);
    } else {
      JoinRenderNonEmpty(s, t);
    }
  }

  lemma JoinRenderRoot(s: Segs, t: Segs)
    requires |s| == 0 && !IsAbs(JoinSegs(t))
    ensures Join(Render(s), JoinSegs(t)) == Render(s + t)
  {
    assert s + t == t;
    assert Render(s) == "/";
  }

  lemma JoinRenderNonEmpty(s: Segs, t: Segs)
    requires ValidSegs(s) && ValidSegs(t) && |t| >= 1 && |s| >= 1
    ensures Join(Render(s), JoinSegs(t)) == Render(s + t)
  {
    var js, jt := JoinSegs(s), JoinSegs(t);
    calc {
      Join(Render(s), jt);
      { JoinSegsNotAbs(t); RenderNoTrailingSlash(s); JoinPlain(Render(s), jt); }
      Render(s) + "/" + jt;
      { SeqAssoc(js, jt); }
      "/" + (js + "/" + jt);
      { JoinSegsConcat(s, t); }
      Render(s + t);
    }
  }

  lemma SeqAssoc(x: string, y: string)
    ensures ("/" + x) + "/" + y == "/" + (x + "/" + y)
  {
  }

  lemma JoinRenderName(s: Segs, n: string)
    requires ValidSegs(s) && ValidName(n)
    ensures Join(Render(s), n) == Render(s + [n])
  {
    JoinRender(s, [n]);
  }

  /** `join(dir, "", name)`: an empty middle part only contributes a separator. */
  lemma JoinRenderEmpty(s: Segs, n: string)
    requires ValidSegs(s) && ValidName(n)
    ensures Join(Join(Render(s), ""), n) == Render(s + [n])
  {
    if |s| == 0 {
      JoinRenderEmptyRoot(s, n);
    } else {
      JoinRenderEmptyNonRoot(s, n);
    }
  }

  lemma JoinRenderEmptyRoot(s: Segs, n: string)
    requires |s| == 0 && ValidName(n)
    ensures Join(Join(Render(s), ""), n) == Render(s + [n])
  {
    assert n[0] != '/';
    assert s + [n] == [n];
    assert Render(s) == "/";
    assert Join("/", "") == "/";
  }

  lemma JoinRenderEmptyNonRoot(s: Segs, n: string)
    requires ValidSegs(s) && ValidName(n) && |s| >= 1
    ensures Join(Join(Render(s), ""), n) == Render(s + [n])
  {
    var r, js := Render(s), JoinSegs(s);
    calc {
      Join(Join(r, ""), n);
      { RenderNoTrailingSlash(s); JoinPlain(r, ""); }
      Join(r + "/" + "", n);
      { assert r + "/" + "" == r + "/"; }
      Join(r + "/", n);
      { SlashThen(r, n); }
      r + "/" + n;
      { SeqAssoc(js, n); }
      "/" + (js + "/" + n);
      { JoinSegsConcat(s, [n]); assert JoinSegs([n]) == n; }
      Render(s + [n]);
    }
  }

  /** `join(a + "/", b)` appends `b` when `b` is relative. */
  lemma SlashThen(a: string, b: string)
    requires ValidName(b)
    ensures Join(a + "/", b) == a + "/" + b
  {
    assert b[0] != '/';
    assert (a + "/")[|a + "/"| - 1] == '/';
  }
}
