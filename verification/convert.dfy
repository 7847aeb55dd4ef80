/**
 The per-entry classification and the result-record loop of main
 (scripts/compress_images_to_avif.py:154-222).

 The file system and the image library are parameters: `fileExists` stands for
 `os.path.exists`, `decode` for `Image.open` followed by `ImageOps.exif_transpose`
 (the size it reports, or a failure), and `save` for creating the output's
 directory and writing the AVIF file (success, or an exception).
 */
module Convert {
  import opened Wrappers
  import opened PosixPath
  import opened JsonValue
  import opened Manifest
  import opened OutputPath

  datatype Size = Size(width: nat, height: nat)

  datatype Env = Env(
    fileExists: Segs -> bool,
    decode: Segs -> Option<Size>,
    save: (Segs, Segs) -> bool)

  /** The run's fixed settings, all already resolved against the working
      directory. */
  datatype Config = Config(
    cwd: Path,
    root: Path,
    outputDir: Option<Path>,
    quality: int,
    dryRun: bool)

  datatype Status = Converted | DryRun

  datatype Reason = MissingPath | FileNotFound | ReadFailed

  /** One entry of the report's "items" list. A converted entry's "input" and
      "output" are relative to the root; a skipped entry's "input" (`rawInput`)
      is the manifest's own string, or `None` when there was none. */
  datatype Record =
    | Done(input: string, output: string, status: Status, sourceWidth: nat, sourceHeight: nat, quality: int)
    | Skipped(rawInput: Option<string>, reason: Reason)

  /** The guarded output path of an input, by components. */
  function OutputFor(cfg: Config, input: Segs): Segs {
    FinalOutputSegs(cfg.root, cfg.outputDir, input)
  }

  /** One pass of the loop body. `None` is the TypeError that escapes main when
      an object entry names a path that is truthy but not a string. */
  function ProcessEntry(cfg: Config, env: Env, entry: Value): (r: Option<Record>)
    ensures var v := NormalizeEntry(entry);
            && (r.None? <==> Truthy(v) && !v.JString?)
            && (r == Some(Skipped(None, MissingPath)) <==> !Truthy(v))
  {
    var inputPath := NormalizeEntry(entry);
    if !Truthy(inputPath) then
      Some(Skipped(None, MissingPath))
    else if !inputPath.JString? then
      None
    else
      var absoluteInput := ResolveInputPath(cfg.root, inputPath.s);
      if absoluteInput.None? || !env.fileExists(absoluteInput.value) then
        Some(Skipped(Some(inputPath.s), FileNotFound))
      else
        var input := absoluteInput.value;
        match env.decode(input)
        case None => Some(Skipped(Some(inputPath.s), ReadFailed))
        case Some(size) =>
          var outputPath := AvoidCollision(cfg.cwd, BuildOutputPath(cfg.root, cfg.outputDir, input), Render(input));
          AvoidCollisionShape(cfg.cwd, cfg.root, cfg.outputDir, input);
          FinalOutputValid(cfg.root, cfg.outputDir, input);
          AbsPathRender(cfg.cwd, OutputFor(cfg, input));
          var output := AbsPath(cfg.cwd, outputPath);
          if !cfg.dryRun && !env.save(input, output) then
            Some(Skipped(Some(inputPath.s), ReadFailed))
          else
            Some(Done(
              RelPath(input, cfg.root),
              RelPath(output, cfg.root),
              if cfg.dryRun then DryRun else Converted,
              size.width,
              size.height,
              cfg.quality))
  }

  /** The verdict on an entry whose path is a non-empty string: file_not_found
      exactly when the resolved file is absent; read_failed exactly when it is
      present but cannot be decoded, or (outside a dry run) cannot be saved;
      otherwise the conversion record, with the decoded size, the run's
      quality, and the input and guarded output relative to the root. */
  lemma EntryVerdict(cfg: Config, env: Env, entry: Value)
    requires NormalizeEntry(entry).JString? && NormalizeEntry(entry).s != ""
    ensures var p := NormalizeEntry(entry).s;
            var input := ResolveInputPath(cfg.root, p).value;
            var r := ProcessEntry(cfg, env, entry);
            && r.Some?
            && (r.value == Skipped(Some(p), FileNotFound) <==> !env.fileExists(input))
            && (r.value == Skipped(Some(p), ReadFailed) <==>
                  env.fileExists(input)
                  && (env.decode(input).None? || (!cfg.dryRun && !env.save(input, OutputFor(cfg, input)))))
            && (env.fileExists(input) && env.decode(input).Some?
                && (cfg.dryRun || env.save(input, OutputFor(cfg, input))) ==>
                  r.value == Done(
                    RelPath(input, cfg.root),
                    RelPath(OutputFor(cfg, input), cfg.root),
                    if cfg.dryRun then DryRun else Converted,
                    env.decode(input).value.width,
                    env.decode(input).value.height,
                    cfg.quality))
            && (r.value.Done? ==>
                  && env.fileExists(input)
                  && env.decode(input) == Some(Size(r.value.sourceWidth, r.value.sourceHeight))
                  && (cfg.dryRun || env.save(input, OutputFor(cfg, input)))
                  && r.value.input == RelPath(input, cfg.root)
                  && r.value.output == RelPath(OutputFor(cfg, input), cfg.root)
                  && (r.value.status == DryRun <==> cfg.dryRun)
                  && r.value.quality == cfg.quality)
  {
    var p := NormalizeEntry(entry).s;
    var input := ResolveInputPath(cfg.root, p).value;
    if env.fileExists(input) && env.decode(input).Some? {
      AvoidCollisionShape(cfg.cwd, cfg.root, cfg.outputDir, input);
      FinalOutputValid(cfg.root, cfg.outputDir, input);
      AbsPathRender(cfg.cwd, OutputFor(cfg, input));
    }
  }

  /** The loop body of a run with the given settings and environment. */
  function EntryStep(cfg: Config, env: Env): Value -> Option<Record> {
    e => ProcessEntry(cfg, env, e)
  }

  // ---------------------------------------------------------------------------
  // The loop, for any loop body `step`: a body returning `None` raises.

  /** The records of the entries in manifest order, or `None` when some entry
      raises. */
  function ProcessAll(step: Value -> Option<Record>, entries: seq<Value>): (r: Option<seq<Record>>)
    ensures r.Some? ==> |r.value| == |entries|
    decreases |entries|
  {
    if |entries| == 0 then Some([])
    else
      var prefix := ProcessAll(step, entries[..|entries| - 1]);
      var last := step(entries[|entries| - 1]);
      if prefix.None? || last.None? then None
      else Some(prefix.value + [last.value])
  }

  /** One record per entry, each the loop body's verdict on the entry at the
      same position; the loop completes exactly when no entry raises. */
  lemma {:induction false} ProcessAllPointwise(step: Value -> Option<Record>, entries: seq<Value>)
    ensures var r := ProcessAll(step, entries);
            && (r.Some? <==> forall i :: 0 <= i < |entries| ==> step(entries[i]).Some?)
            && (r.Some? ==> forall i :: 0 <= i < |entries| ==> step(entries[i]) == Some(r.value[i]))
    decreases |entries|
  {
    if |entries| > 0 {
      var n := |entries| - 1;
      var init := entries[..n];
      ProcessAllPointwise(step, init);
      assert forall i :: 0 <= i < n ==> init[i] == entries[i];
      var prefix := ProcessAll(step, init);
      var last := step(entries[n]);
      if prefix.Some? && last.Some? {
        var rs := prefix.value + [last.value];
        assert forall i :: 0 <= i < n ==> rs[i] == prefix.value[i];
      }
    }
  }

  /** One raising entry makes the whole loop raise. */
  lemma ProcessAllRaises(step: Value -> Option<Record>, entries: seq<Value>, i: nat)
    requires i < |entries| && step(entries[i]).None?
    ensures ProcessAll(step, entries).None?
  {
    ProcessAllPointwise(step, entries);
  }

  /** Two loop bodies that agree on every entry give the same records. */
  lemma {:induction false} ProcessAllAgree(f: Value -> Option<Record>, g: Value -> Option<Record>, entries: seq<Value>)
    requires forall i :: 0 <= i < |entries| ==> f(entries[i]) == g(entries[i])
    ensures ProcessAll(f, entries) == ProcessAll(g, entries)
    decreases |entries|
  {
    if |entries| > 0 {
      var init := entries[..|entries| - 1];
      assert forall i :: 0 <= i < |init| ==> init[i] == entries[i];
      ProcessAllAgree(f, g, init);
    }
  }

  /** Running the loop one entry further. */
  lemma ProcessAllSnoc(step: Value -> Option<Record>, entries: seq<Value>, i: nat, results: seq<Record>)
    requires i < |entries| && ProcessAll(step, entries[..i]) == Some(results) && step(entries[i]).Some?
    ensures ProcessAll(step, entries[..i + 1]) == Some(results + [step(entries[i]).value])
  {
    assert entries[..i + 1][..i] == entries[..i];
  }

  /** The "processed" counter: records that were converted (or would be). */
  function CountDone(rs: seq<Record>): (n: nat)
    ensures n <= |rs|
  {
    if |rs| == 0 then 0
    else CountDone(rs[..|rs| - 1]) + (if rs[|rs| - 1].Done? then 1 else 0)
  }

  /** The "skipped" counter. */
  function CountSkipped(rs: seq<Record>): (n: nat)
    ensures n <= |rs|
  {
    if |rs| == 0 then 0
    else CountSkipped(rs[..|rs| - 1]) + (if rs[|rs| - 1].Skipped? then 1 else 0)
  }

  lemma CountSnoc(rs: seq<Record>, x: Record)
    ensures CountDone(rs + [x]) == CountDone(rs) + (if x.Done? then 1 else 0)
    ensures CountSkipped(rs + [x]) == CountSkipped(rs) + (if x.Skipped? then 1 else 0)
  {
    assert (rs + [x])[..|rs|] == rs;
  }

  /** Every record is counted exactly once. */
  lemma {:induction false} CountsPartition(rs: seq<Record>)
    ensures CountDone(rs) + CountSkipped(rs) == |rs|
  {
    if |rs| > 0 {
      CountsPartition(rs[..|rs| - 1]);
    }
  }

  /** The loop of main, with its two counters. `aborted` is the uncaught
      TypeError: no report is produced. */
  method RunEntries(step: Value -> Option<Record>, entries: seq<Value>)
    returns (results: seq<Record>, processed: nat, skipped: nat, aborted: bool)
    ensures aborted <==> ProcessAll(step, entries).None?
    ensures !aborted ==> results == ProcessAll(step, entries).value
    ensures !aborted ==> processed == CountDone(results) && skipped == CountSkipped(results)
    ensures !aborted ==> processed + skipped == |entries| == |results|
  {
    results, processed, skipped, aborted := [], 0, 0, false;
    var i := 0;
    while i < |entries|
      invariant 0 <= i <= |entries|
      invariant ProcessAll(step, entries[..i]) == Some(results)
      invariant processed == CountDone(results) && skipped == CountSkipped(results)
      invariant processed + skipped == i
    {
      var r := step(entries[i]);
      if r.None? {
        ProcessAllRaises(step, entries, i);
        aborted := true;
        return;
      }
      ProcessAllSnoc(step, entries, i, results);
      CountSnoc(results, r.value);
      results := results + [r.value];
      if r.value.Done? {
        processed := processed + 1;
      } else {
        skipped := skipped + 1;
      }
      i := i + 1;
    }
    assert entries[..|entries|] == entries;
  }

  // ---------------------------------------------------------------------------
  // A mixed manifest

  /** A manifest of a present image, an object naming a missing one under
      one of the path keys, and an object with no path key (the mixed
      manifest `["a.jpg", {"file": "b.png"}, {"nope": "x"}]`, with any names):
      one conversion, then one file_not_found and one missing_path. */
  lemma MixedManifest(cfg: Config, env: Env, entries: seq<Value>, a: string, b: string, key: nat, other: string, x: string)
    requires ValidName(a) && ValidName(b)
    requires key < |PathKeys| && other !in PathKeys
    requires entries == [JString(a), JObject(map[PathKeys[key] := JString(b)]), JObject(map[other := JString(x)])]
    requires env.fileExists(cfg.root + [a]) && env.decode(cfg.root + [a]).Some?
    requires cfg.dryRun || env.save(cfg.root + [a], OutputFor(cfg, cfg.root + [a]))
    requires !env.fileExists(cfg.root + [b])
    ensures var r := ProcessAll(EntryStep(cfg, env), entries);
            && r.Some? && |r.value| == 3
            && r.value[0].Done? && r.value[0].input == a
            && r.value[1] == Skipped(Some(b), FileNotFound)
            && r.value[2] == Skipped(None, MissingPath)
            && CountDone(r.value) == 1 && CountSkipped(r.value) == 2
  {
    var rs := MixedVerdicts(cfg, env, entries, a, b, key, other, x);
    ProcessThree(EntryStep(cfg, env), entries, rs);
    Counts3(rs);
  }

  /** The verdicts on the three entries of the mixed manifest. */
  lemma MixedVerdicts(cfg: Config, env: Env, entries: seq<Value>, a: string, b: string, key: nat, other: string, x: string)
    returns (rs: seq<Record>)
    requires ValidName(a) && ValidName(b)
    requires key < |PathKeys| && other !in PathKeys
    requires entries == [JString(a), JObject(map[PathKeys[key] := JString(b)]), JObject(map[other := JString(x)])]
    requires env.fileExists(cfg.root + [a]) && env.decode(cfg.root + [a]).Some?
    requires cfg.dryRun || env.save(cfg.root + [a], OutputFor(cfg, cfg.root + [a]))
    requires !env.fileExists(cfg.root + [b])
    ensures |rs| == 3
    ensures EntryStep(cfg, env)(entries[0]) == Some(rs[0])
    ensures EntryStep(cfg, env)(entries[1]) == Some(rs[1])
    ensures EntryStep(cfg, env)(entries[2]) == Some(rs[2])
    ensures rs[0].Done? && rs[0].input == a
    ensures rs[1] == Skipped(Some(b), FileNotFound) && rs[2] == Skipped(None, MissingPath)
  {
    var rec := PresentEntry(cfg, env, entries[0], a);
    MissingEntry(cfg, env, entries[1], b, key);
    KeylessEntry(cfg, env, entries[2], other, x);
    rs := [rec, Skipped(Some(b), FileNotFound), Skipped(None, MissingPath)];
  }

  /** The loop over three entries whose verdicts are known. */
  lemma ProcessThree(step: Value -> Option<Record>, entries: seq<Value>, rs: seq<Record>)
    requires |entries| == 3 && |rs| == 3
    requires step(entries[0]) == Some(rs[0])
    requires step(entries[1]) == Some(rs[1])
    requires step(entries[2]) == Some(rs[2])
    ensures ProcessAll(step, entries) == Some(rs)
  {
    assert forall i :: 0 <= i < |entries| ==> step(entries[i]) == Some(rs[i]) by {
      forall i | 0 <= i < |entries| ensures step(entries[i]) == Some(rs[i]) {
        assert i == 0 || i == 1 || i == 2;
      }
    }
    ProcessAllPointwise(step, entries);
    var r := ProcessAll(step, entries);
    assert r.value == rs;
  }

  /** The counters over a converted record followed by two skipped ones. */
  lemma Counts3(r: seq<Record>)
    requires |r| == 3 && r[0].Done? && r[1].Skipped? && r[2].Skipped?
    ensures CountDone(r) == 1 && CountSkipped(r) == 2
  {
    var r1, r2 := r[..1], r[..2];
    assert r2[..1] == r1 && r1[..0] == [] && r2[1] == r[1] && r1[0] == r[0];
    assert CountDone(r1) == 1 && CountSkipped(r1) == 0;
    assert CountDone(r2) == 1 && CountSkipped(r2) == 1;
  }

  /** A present, decodable image named relative to the root is converted. */
  lemma PresentEntry(cfg: Config, env: Env, e: Value, a: string) returns (rec: Record)
    requires ValidName(a) && e == JString(a)
    requires env.fileExists(cfg.root + [a]) && env.decode(cfg.root + [a]).Some?
    requires cfg.dryRun || env.save(cfg.root + [a], OutputFor(cfg, cfg.root + [a]))
    ensures ProcessEntry(cfg, env, e) == Some(rec)
    ensures rec.Done? && rec.input == a
  {
    var input := cfg.root + [a];
    ResolvesBeside(cfg.root, a);
    PrefixCommon(cfg.root, input);
    assert RelParts(input, cfg.root) == [a];
    EntryVerdict(cfg, env, e);
    rec := ProcessEntry(cfg, env, e).value;
  }

  /** An object naming a missing file under a path key is file_not_found. */
  lemma MissingEntry(cfg: Config, env: Env, e: Value, b: string, key: nat)
    requires ValidName(b) && key < |PathKeys|
    requires e == JObject(map[PathKeys[key] := JString(b)])
    requires !env.fileExists(cfg.root + [b])
    ensures ProcessEntry(cfg, env, e) == Some(Skipped(Some(b), FileNotFound))
  {
    KeyedEntryAgrees(b, key);
    ResolvesBeside(cfg.root, b);
  }

  /** An object with no path key is missing_path. */
  lemma KeylessEntry(cfg: Config, env: Env, e: Value, other: string, x: string)
    requires other !in PathKeys
    requires e == JObject(map[other := JString(x)])
    ensures ProcessEntry(cfg, env, e) == Some(Skipped(None, MissingPath))
  {
    var fields := map[other := JString(x)];
    assert forall j :: 0 <= j < |PathKeys| ==> PathKeys[j] !in fields;
    assert !exists i :: FirstTruthyAt(fields, PathKeys, i);
  }

  /** A plain relative name resolves to that name inside the root. */
  lemma ResolvesBeside(root: Segs, name: string)
    requires ValidSegs(root) && ValidName(name)
    ensures ResolveInputPath(root, name) == Some(root + [name])
  {
    SplitNoSlash(name);
    NormalizeValid(root, [name]);
  }
}
