/**
 Where an image is read from and where its AVIF copy is written
 (scripts/compress_images_to_avif.py: resolve_input_path, build_output_path
 and the in-place collision guard of main).

 Each string-level function follows the Python code; `OutputSegs` and
 `FinalOutputSegs` describe the same outputs by their components, and the
 lemmas prove the two descriptions agree and state the naming and
 containment properties on the component form.
 */
module OutputPath {
  import opened Wrappers
  import opened PosixPath

  /** `resolve_input_path`: no path for an empty string; an absolute path is
      normalized; a relative one is joined to the root and made absolute. */
  function ResolveInputPath(root: Segs, inputPath: string): (r: Option<Segs>)
    requires ValidSegs(root)
    ensures r.None? <==> inputPath == ""
    ensures r.Some? ==> ValidSegs(r.value)
    ensures r.Some? ==> r.value == Normalize(if IsAbs(inputPath) then [] else root, Split(inputPath))
  {
    if inputPath == "" then None
    else if IsAbs(inputPath) then
      SplitNoSlash(inputPath);
      NormalizeKeepsValid([], Split(inputPath));
      Some(NormAbs(inputPath))
    else
      JoinedUnder(root, inputPath);
      Some(NormAbs(Join(Render(root), inputPath)))
  }

  /** The escape test of build_output_path: the relative path climbs out of the
      root. */
  predicate Escapes(rel: string) {
    rel == ".." || StartsWith(rel, "../")
  }

  /** `build_output_path`. */
  function BuildOutputPath(root: Segs, outputDir: Option<Segs>, absoluteInput: Segs): (r: string)
    requires ValidSegs(root) && ValidSegs(absoluteInput)
    requires outputDir.Some? ==> ValidSegs(outputDir.value)
    ensures r == Render(OutputSegs(root, outputDir, absoluteInput))
  {
    var relativeInput := RelPath(absoluteInput, root);
    var safeRelative := if Escapes(relativeInput) then Basename(Render(absoluteInput)) else relativeInput;
    var baseName := SplitExtRoot(Basename(safeRelative));
    var relativeDir := Dirname(safeRelative);
    SafeRelativeParts(root, absoluteInput, safeRelative);
    if outputDir.Some? then
      JoinUnderOutputDir(root, outputDir.value, absoluteInput, safeRelative);
      Join(Join(Render(outputDir.value), relativeDir), baseName + ".avif")
    else
      JoinBesideInput(root, absoluteInput, safeRelative);
      Join(Dirname(Render(absoluteInput)), baseName + ".avif")
  }

  /** The in-place collision guard of main: an output that resolves to the input
      itself is renamed to `<stem>-compressed.avif` in the same directory. */
  function AvoidCollision(cwd: Segs, outputPath: string, absoluteInput: string): string
    requires ValidSegs(cwd)
  {
    if AbsPath(cwd, outputPath) == AbsPath(cwd, absoluteInput) then
      var baseName := SplitExtRoot(Basename(outputPath));
      Join(Dirname(outputPath), baseName + "-compressed.avif")
    else outputPath
  }

  // ---------------------------------------------------------------------------
  // The same outputs, by components

  /** `os.path.basename` of a normalized absolute path. */
  function BaseName(s: Segs): string {
    if |s| == 0 then "" else s[|s| - 1]
  }

  /** `os.path.dirname` of a normalized absolute path. */
  function Parent(s: Segs): Segs {
    if |s| == 0 then [] else s[..|s| - 1]
  }

  /** The output file name: the input's name without its extension, plus
      `.avif`; the root directory itself is seen through relpath as `.`. */
  function OutputName(root: Segs, input: Segs): string {
    SplitExtRoot(if input == root then "." else BaseName(input)) + ".avif"
  }

  /** The directories between the root and the input, kept under the output
      directory; none when the input is not below the root. */
  function RelDir(root: Segs, input: Segs): Segs {
    if IsPrefix(root, input) && |input| > |root| then input[|root|..|input| - 1] else []
  }

  function OutputSegs(root: Segs, outputDir: Option<Segs>, input: Segs): Segs {
    (if outputDir.Some? then outputDir.value + RelDir(root, input) else Parent(input)) + [OutputName(root, input)]
  }

  /** The name given instead when the output would overwrite the input. */
  function CompressedName(out: Segs): string {
    SplitExtRoot(BaseName(out)) + "-compressed.avif"
  }

  function FinalOutputSegs(root: Segs, outputDir: Option<Segs>, input: Segs): Segs {
    var out := OutputSegs(root, outputDir, input);
    if out == input then Parent(out) + [CompressedName(out)] else out
  }

  // ---------------------------------------------------------------------------
  // Lemmas

  lemma PrefixOfNoSlash(p: string, r: string)
    requires StartsWith(p, r) && '/' !in p
    ensures '/' !in r
  {
    forall i | 0 <= i < |r| ensures r[i] != '/' {
      assert r[i] == p[i];
    }
  }

  lemma RootNoSlash(x: string)
    requires '/' !in x
    ensures '/' !in SplitExtRoot(x)
  {
    PrefixOfNoSlash(x, SplitExtRoot(x));
  }

  /** Stripping the extension of `x.avif` gives `x` back, or leaves the name
      whole when `x` is only dots. */
  lemma StemOfAvif(x: string)
    ensures |SplitExtRoot(x + ".avif")| >= |x|
  {
    var p := x + ".avif";
    var d := RFind(p, '.');
    assert p[|x|] == '.';
    assert p[|x| + 1] == 'a' && p[|x| + 2] == 'v' && p[|x| + 3] == 'i' && p[|x| + 4] == 'f';
    assert d == |x|;
  }

  lemma OutputNameValid(root: Segs, input: Segs)
    requires ValidSegs(input)
    ensures ValidName(OutputName(root, input))
  {
    var x := if input == root then "." else BaseName(input);
    BaseNameNoSlash(input);
    assert '/' !in x;
    RootNoSlash(x);
    SuffixedNameValid(SplitExtRoot(x), ".avif");
  }

  lemma CompressedNameValid(out: Segs)
    requires ValidSegs(out)
    ensures ValidName(CompressedName(out))
  {
    BaseNameNoSlash(out);
    RootNoSlash(BaseName(out));
    SuffixedNameValid(SplitExtRoot(BaseName(out)), "-compressed.avif");
  }

  lemma BaseNameNoSlash(s: Segs)
    requires ValidSegs(s)
    ensures '/' !in BaseName(s)
  {
  }

  /** A slash-free stem with a slash-free suffix of three or more characters
      is a plain name. */
  lemma SuffixedNameValid(stem: string, suffix: string)
    requires '/' !in stem && '/' !in suffix && |suffix| >= 3
    ensures ValidName(stem + suffix)
  {
    var n := stem + suffix;
    forall i | 0 <= i < |n| ensures n[i] != '/' {
      if i < |stem| {
        assert n[i] == stem[i];
      } else {
        assert n[i] == suffix[i - |stem|];
      }
    }
  }

  lemma PrefixCommon(root: Segs, input: Segs)
    requires IsPrefix(root, input)
    ensures CommonPrefixLen(root, input) == |root|
    decreases |root|
  {
    if |root| > 0 {
      assert input[0] == root[0];
      assert IsPrefix(root[1..], input[1..]) by {
        assert input[1..][..|root| - 1] == input[..|root|][1..];
      }
      PrefixCommon(root[1..], input[1..]);
    }
  }

  lemma CommonFullIsPrefix(root: Segs, input: Segs)
    ensures CommonPrefixLen(root, input) == |root| ==> IsPrefix(root, input)
  {
  }

  /** The escape test fires exactly when the input is not inside the root. */
  lemma EscapeIffOutsideRoot(root: Segs, input: Segs)
    requires ValidSegs(root) && ValidSegs(input)
    ensures Escapes(RelPath(input, root)) <==> !IsPrefix(root, input)
  {
    if IsPrefix(root, input) {
      InsideDoesNotEscape(root, input);
    } else {
      OutsideEscapes(root, input);
    }
  }

  lemma InsideDoesNotEscape(root: Segs, input: Segs)
    requires ValidSegs(input) && IsPrefix(root, input)
    ensures !Escapes(RelPath(input, root))
  {
    var k := CommonPrefixLen(root, input);
    var parts := RelParts(input, root);
    PrefixCommon(root, input);
    assert parts == input[k..];
    if |parts| > 0 {
      assert parts[0] == input[k];
      NotEscapeNames(parts);
    }
  }

  lemma OutsideEscapes(root: Segs, input: Segs)
    requires !IsPrefix(root, input)
    ensures Escapes(RelPath(input, root))
  {
    var k := CommonPrefixLen(root, input);
    var parts := RelParts(input, root);
    CommonFullIsPrefix(root, input);
    assert parts[0] == "..";
    if |parts| >= 2 {
      JoinSegsFront(parts);
      assert JoinSegs(parts)[..3] == "../";
    }
  }

  /** A join of valid names neither is `..` nor starts with `../`. */
  lemma NotEscapeNames(t: Segs)
    requires |t| >= 1 && ValidName(t[0])
    ensures !Escapes(JoinSegs(t))
  {
    if |t| >= 2 {
      JoinSegsFront(t);
      NotEscapeString(t[0], JoinSegs(t[1..]));
    } else {
      NotEscapeString(t[0], "");
    }
  }

  lemma NotEscapeString(p0: string, rest: string)
    requires ValidName(p0)
    ensures !Escapes(p0) && !Escapes(p0 + "/" + rest)
  {
    var j := p0 + "/" + rest;
    assert |j| >= 2;
    if |p0| >= 3 {
      assert p0[2] != '/';
      assert j[2] == p0[2];
    } else if |p0| == 2 {
      assert j[..2] == p0;
    } else {
      assert j[1] == '/';
    }
  }

  /** build_output_path, input outside the root: the name alone is kept. */
  lemma BuildOutsideRoot(root: Segs, outputDir: Option<Segs>, input: Segs)
    requires ValidSegs(root) && ValidSegs(input)
    requires outputDir.Some? ==> ValidSegs(outputDir.value)
    requires !IsPrefix(root, input)
    ensures var safe := Basename(Render(input));
            safe == BaseName(input) && Basename(safe) == BaseName(input) && Dirname(safe) == ""
    ensures input != root && RelDir(root, input) == []
  {
    RenderParts(input);
    assert '/' !in BaseName(input);
    NameParts(BaseName(input));
  }

  /** build_output_path, input equal to the root: relpath gives `.`. */
  lemma BuildAtRoot(root: Segs)
    requires ValidSegs(root)
    ensures RelPath(root, root) == "."
    ensures Basename(".") == "." && Dirname(".") == ""
  {
    PrefixCommon(root, root);
    assert RelParts(root, root) == [];
    NameParts(".");
  }

  /** build_output_path, input strictly inside the root. */
  lemma BuildBelowRoot(root: Segs, input: Segs)
    requires ValidSegs(root) && ValidSegs(input)
    requires IsPrefix(root, input) && |input| > |root|
    ensures Basename(RelPath(input, root)) == BaseName(input)
    ensures Dirname(RelPath(input, root)) == DirString(RelDir(root, input))
  {
    var tail := input[|root|..];
    RelPathBelow(root, input);
    SuffixSegsValid(input, |root|);
    TailParts(tail, input[|root|..|input| - 1], BaseName(input));
    TailInit(input, |root|);
    assert RelDir(root, input) == input[|root|..|input| - 1];
  }

  /** The name and directory part of a relative path given by components. */
  lemma TailParts(tail: Segs, d: Segs, name: string)
    requires ValidSegs(tail) && |tail| >= 1
    requires tail[..|tail| - 1] == d && tail[|tail| - 1] == name
    ensures Basename(JoinSegs(tail)) == name
    ensures Dirname(JoinSegs(tail)) == DirString(d)
  {
    JoinSegsParts(tail);
  }

  /** Dropping the last of the components after position `k`. */
  lemma TailInit(s: Segs, k: nat)
    requires k < |s|
    ensures s[k..][..|s| - k - 1] == s[k..|s| - 1]
    ensures s[k..][|s| - k - 1] == BaseName(s)
  {
  }

  /** Below the root, relpath is the components after the root. */
  lemma RelPathBelow(root: Segs, input: Segs)
    requires IsPrefix(root, input) && |input| > |root|
    ensures RelPath(input, root) == JoinSegs(input[|root|..])
  {
    PrefixCommon(root, input);
    assert RelParts(input, root) == input[|root|..];
  }

  lemma PrefixOfLonger(root: Segs, input: Segs)
    requires IsPrefix(root, input)
    ensures input == root || |input| > |root|
  {
    if |input| == |root| {
      assert input == input[..|root|];
    }
  }

  /** The string `os.path.join` receives for a list of directories. */
  function DirString(d: Segs): string {
    if |d| == 0 then "" else JoinSegs(d)
  }

  /** What build_output_path extracts from the safe relative path: the output
      name and the directories to recreate under the output directory. */
  lemma SafeRelativeParts(root: Segs, input: Segs, safe: string)
    requires ValidSegs(root) && ValidSegs(input)
    requires safe == (if Escapes(RelPath(input, root)) then Basename(Render(input)) else RelPath(input, root))
    ensures SplitExtRoot(Basename(safe)) + ".avif" == OutputName(root, input)
    ensures Dirname(safe) == DirString(RelDir(root, input))
  {
    var rel := RelPath(input, root);
    EscapeIffOutsideRoot(root, input);
    if Escapes(rel) {
      BuildOutsideRoot(root, None, input);
    } else {
      PrefixOfLonger(root, input);
      if input == root {
        BuildAtRoot(root);
      } else {
        BuildBelowRoot(root, input);
      }
    }
  }

  lemma JoinOutput(od: Segs, d: Segs, name: string)
    requires ValidSegs(od) && ValidSegs(d) && ValidName(name)
    ensures Join(Join(Render(od), DirString(d)), name) == Render(od + d + [name])
  {
    if |d| == 0 {
      JoinRenderEmpty(od, name);
      assert od + d == od;
    } else {
      JoinRender(od, d);
      JoinRenderName(od + d, name);
    }
  }

  lemma JoinUnderOutputDir(root: Segs, od: Segs, input: Segs, safe: string)
    requires ValidSegs(root) && ValidSegs(input) && ValidSegs(od)
    requires SplitExtRoot(Basename(safe)) + ".avif" == OutputName(root, input)
    requires Dirname(safe) == DirString(RelDir(root, input))
    ensures Join(Join(Render(od), Dirname(safe)), SplitExtRoot(Basename(safe)) + ".avif")
              == Render(OutputSegs(root, Some(od), input))
  {
    OutputNameValid(root, input);
    assert ValidSegs(RelDir(root, input));
    JoinOutput(od, RelDir(root, input), OutputName(root, input));
  }

  lemma JoinBesideInput(root: Segs, input: Segs, safe: string)
    requires ValidSegs(root) && ValidSegs(input)
    requires SplitExtRoot(Basename(safe)) + ".avif" == OutputName(root, input)
    ensures Join(Dirname(Render(input)), SplitExtRoot(Basename(safe)) + ".avif")
              == Render(OutputSegs(root, None, input))
  {
    OutputNameValid(root, input);
    RenderParts(input);
    JoinRenderName(Parent(input), OutputName(root, input));
  }

  /** The output after the collision guard is the rendering of `FinalOutputSegs`. */
  lemma AvoidCollisionShape(cwd: Segs, root: Segs, outputDir: Option<Segs>, input: Segs)
    requires ValidSegs(cwd) && ValidSegs(root) && ValidSegs(input)
    requires outputDir.Some? ==> ValidSegs(outputDir.value)
    ensures AvoidCollision(cwd, BuildOutputPath(root, outputDir, input), Render(input))
              == Render(FinalOutputSegs(root, outputDir, input))
  {
    var out := OutputSegs(root, outputDir, input);
    OutputSegsValid(root, outputDir, input);
    AvoidCollisionRendered(cwd, out, input);
  }

  /** The collision guard on rendered paths: it fires exactly when the two
      components lists agree. */
  lemma AvoidCollisionRendered(cwd: Segs, out: Segs, input: Segs)
    requires ValidSegs(cwd) && ValidSegs(out) && ValidSegs(input)
    ensures out != input ==> AvoidCollision(cwd, Render(out), Render(input)) == Render(out)
    ensures out == input ==>
              AvoidCollision(cwd, Render(out), Render(input)) == Render(Parent(out) + [CompressedName(out)])
  {
    AbsPathRender(cwd, out);
    AbsPathRender(cwd, input);
    if out == input {
      CollisionRename(out);
    }
  }

  lemma CollisionRename(out: Segs)
    requires ValidSegs(out)
    ensures Join(Dirname(Render(out)), SplitExtRoot(Basename(Render(out))) + "-compressed.avif")
              == Render(Parent(out) + [CompressedName(out)])
  {
    RenderParts(out);
    CompressedNameValid(out);
    JoinRenderName(Parent(out), CompressedName(out));
  }

  lemma OutputSegsValid(root: Segs, outputDir: Option<Segs>, input: Segs)
    requires ValidSegs(input)
    requires outputDir.Some? ==> ValidSegs(outputDir.value)
    ensures ValidSegs(OutputSegs(root, outputDir, input))
    ensures |OutputSegs(root, outputDir, input)| > 0
  {
    OutputNameValid(root, input);
  }

  lemma FinalOutputValid(root: Segs, outputDir: Option<Segs>, input: Segs)
    requires ValidSegs(input)
    requires outputDir.Some? ==> ValidSegs(outputDir.value)
    ensures ValidSegs(FinalOutputSegs(root, outputDir, input))
    ensures |FinalOutputSegs(root, outputDir, input)| > 0
  {
    var o := OutputSegs(root, outputDir, input);
    OutputSegsValid(root, outputDir, input);
    if o == input {
      CompressedNameValid(o);
      ValidExtend(Parent(o), CompressedName(o));
    }
  }

  lemma ValidExtend(s: Segs, n: string)
    requires ValidSegs(s) && ValidName(n)
    ensures ValidSegs(s + [n])
  {
  }

  /** After the guard the output never resolves to the input. */
  lemma CollisionGuardSound(cwd: Segs, root: Segs, outputDir: Option<Segs>, input: Segs)
    requires ValidSegs(cwd) && ValidSegs(root) && ValidSegs(input)
    requires outputDir.Some? ==> ValidSegs(outputDir.value)
    ensures var out := BuildOutputPath(root, outputDir, input);
            var guarded := AvoidCollision(cwd, out, Render(input));
            && AbsPath(cwd, guarded) != input
            && (AbsPath(cwd, out) != input ==> guarded == out)
            && (AbsPath(cwd, out) == input ==>
                  Dirname(guarded) == Dirname(out)
                  && Basename(guarded) == SplitExtRoot(Basename(out)) + "-compressed.avif")
  {
    var o := OutputSegs(root, outputDir, input);
    var f := FinalOutputSegs(root, outputDir, input);
    OutputSegsValid(root, outputDir, input);
    AvoidCollisionShape(cwd, root, outputDir, input);
    AbsPathRender(cwd, o);
    GuardedOutput(cwd, root, outputDir, input, o, f);
  }

  lemma GuardedOutput(cwd: Segs, root: Segs, outputDir: Option<Segs>, input: Segs, o: Segs, f: Segs)
    requires ValidSegs(cwd) && ValidSegs(input) && ValidSegs(o) && |o| > 0
    requires outputDir.Some? ==> ValidSegs(outputDir.value)
    requires o == OutputSegs(root, outputDir, input) && f == FinalOutputSegs(root, outputDir, input)
    ensures AbsPath(cwd, Render(f)) != input
    ensures o != input ==> Render(f) == Render(o)
    ensures o == input ==>
              Dirname(Render(f)) == Dirname(Render(o))
              && Basename(Render(f)) == SplitExtRoot(Basename(Render(o))) + "-compressed.avif"
  {
    FinalOutputValid(root, outputDir, input);
    AbsPathRender(cwd, f);
    if o == input {
      FinalDiffers(root, outputDir, input);
      RenamedParts(o, f);
    }
  }

  lemma RenamedParts(o: Segs, f: Segs)
    requires ValidSegs(o) && |o| > 0 && f == Parent(o) + [CompressedName(o)]
    requires ValidSegs(f)
    ensures Dirname(Render(f)) == Dirname(Render(o))
    ensures Basename(Render(f)) == SplitExtRoot(Basename(Render(o))) + "-compressed.avif"
  {
    RenderParts(o);
    RenderParts(f);
    assert Parent(f) == Parent(o);
  }

  /** The renamed output differs from the input in its last component. */
  lemma FinalDiffers(root: Segs, outputDir: Option<Segs>, input: Segs)
    requires OutputSegs(root, outputDir, input) == input
    ensures FinalOutputSegs(root, outputDir, input) != input
    ensures Parent(FinalOutputSegs(root, outputDir, input)) == Parent(input)
  {
    var o := OutputSegs(root, outputDir, input);
    var f := FinalOutputSegs(root, outputDir, input);
    var stem := SplitExtRoot(if input == root then "." else BaseName(input));
    assert BaseName(o) == stem + ".avif";
    StemOfAvif(stem);
    assert |BaseName(f)| > |BaseName(o)|;
  }

  /** With an output directory, the output always lies strictly inside it,
      however far outside the root the input is. */
  lemma OutputInsideOutputDir(root: Segs, od: Segs, input: Segs)
    requires ValidSegs(root) && ValidSegs(od) && ValidSegs(input)
    ensures var f := FinalOutputSegs(root, Some(od), input);
            IsPrefix(od, f) && |f| > |od|
    ensures !IsPrefix(root, input) ==> |FinalOutputSegs(root, Some(od), input)| == |od| + 1
    ensures IsPrefix(root, input) && |input| > |root| ==>
              Parent(FinalOutputSegs(root, Some(od), input)) == od + input[|root|..|input| - 1]
  {
    var o := OutputSegs(root, Some(od), input);
    var f := FinalOutputSegs(root, Some(od), input);
    var d := RelDir(root, input);
    assert o == od + d + [OutputName(root, input)];
    assert Parent(o) == od + d;
    assert Parent(f) == od + d;
    assert f == Parent(f) + [f[|f| - 1]];
    assert f[..|od|] == od;
  }

  /** Without an output directory, the output sits beside the input. */
  lemma OutputBesideInput(root: Segs, input: Segs)
    ensures Parent(FinalOutputSegs(root, None, input)) == Parent(input)
  {
    var o := OutputSegs(root, None, input);
    assert Parent(o) == Parent(input);
  }

  /** The output's file name is the input's stem followed by `.avif`. */
  lemma OutputNameIsStem(root: Segs, outputDir: Option<Segs>, input: Segs)
    requires ValidSegs(root) && ValidSegs(input)
    requires outputDir.Some? ==> ValidSegs(outputDir.value)
    requires input != root
    ensures Basename(BuildOutputPath(root, outputDir, input)) == SplitExtRoot(Basename(Render(input))) + ".avif"
  {
    OutputSegsValid(root, outputDir, input);
    RenderParts(OutputSegs(root, outputDir, input));
    RenderParts(input);
  }

  /** Without an output directory, build_output_path keeps the input's directory. */
  lemma OutputDirnameBesideInput(root: Segs, input: Segs)
    requires ValidSegs(root) && ValidSegs(input)
    ensures Dirname(BuildOutputPath(root, None, input)) == Dirname(Render(input))
  {
    OutputSegsValid(root, None, input);
    RenderParts(OutputSegs(root, None, input));
    RenderParts(input);
  }
}
