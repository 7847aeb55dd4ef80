/**
 The whole run of main (scripts/compress_images_to_avif.py:110-242): the
 quality check, the resolution of the root, manifest, output directory and
 report paths, the fatal exits, the entry loop and the report.

 Everything the process learns from outside is a field of `Host`: the working
 directory, the file-system and image oracles of `Convert.Env`, what reading
 the manifest gives, whether Pillow and its AVIF encoder are present, and
 whether creating the output directory and writing the report succeed.
 */
module Run {
  import opened Wrappers
  import opened PosixPath
  import opened JsonValue
  import opened Manifest
  import opened OutputPath
  import opened Convert

  const DefaultImages: string := "image-files.json"
  const DefaultQuality: int := 75
  const MappingName: string := "image-map.json"

  /** The command line after parsing. An optional string option that was not
      given is `""`: main only ever tests those options for truthiness, so an
      absent option and an empty one behave the same. */
  datatype Args = Args(
    images: string,
    outputDir: string,
    rootDir: string,
    quality: int,
    mappingFile: string,
    dryRun: bool)

  /** The command line with every option left at its default. */
  const DefaultArgs: Args := Args(DefaultImages, "", "", DefaultQuality, "", false)

  /** What opening and parsing the manifest gives: a JSON value, a
      `JSONDecodeError`, or any other failure (a directory, a permission or
      encoding error), which nothing catches. */
  datatype ListRead = Parsed(data: Value) | Malformed | Unreadable

  /** The report document, without its "generatedAt" time stamp. */
  datatype Report = Report(
    rootDir: string,
    outputDir: Option<string>,
    quality: int,
    items: seq<Record>)

  datatype Host = Host(
    cwd: Path,
    env: Env,
    readList: Segs -> ListRead,
    pillowInstalled: bool,
    avifSupported: bool,
    makeDirs: Segs -> bool,
    writeReport: (Segs, Report) -> bool)

  /** Why a run ends without finishing. The first seven are main's own exits
      with status 1; the last three are exceptions nothing catches. */
  datatype Fatal =
    | InvalidQuality
    | ListNotFound
    | ListMalformed
    | NoEntries
    | PillowMissing
    | AvifUnsupported
    | ListUnreadable
    | EntryPathNotString
    | OutputDirFailed
    | ReportWriteFailed

  /** The end of a run. `reportFile` is where the report was written, `None`
      in a dry run. */
  datatype Outcome =
    | Aborted(fatal: Fatal)
    | Completed(report: Report, reportFile: Option<Segs>, processed: nat, skipped: nat)

  predicate QualityInRange(q: int) {
    1 <= q <= 100
  }

  /** A path given relative to the root, made absolute as main does:
      `abspath(join(root_dir, p))`. */
  function UnderRoot(cwd: Segs, root: Segs, p: string): (r: Segs)
    requires ValidSegs(cwd) && ValidSegs(root)
    ensures ValidSegs(r)
    ensures p == "" ==> r == root
    ensures p != "" ==> Some(r) == ResolveInputPath(root, p)
  {
    UnderRootResolves(cwd, root, p);
    AbsPath(cwd, Join(Render(root), p))
  }

  /** `abspath(args.root_dir or os.getcwd())`. */
  function RootDir(cwd: Segs, rootDir: string): (r: Segs)
    requires ValidSegs(cwd)
    ensures ValidSegs(r)
    ensures rootDir == "" ==> r == cwd
    ensures rootDir != "" ==> r == Normalize(if IsAbs(rootDir) then [] else cwd, Split(rootDir))
  {
    AbsPathRender(cwd, cwd);
    AbsPath(cwd, if rootDir != "" then rootDir else Render(cwd))
  }

  /** The output directory, when one is given. */
  function OutputDirOf(cwd: Segs, root: Segs, outputDir: string): (r: Option<Path>)
    requires ValidSegs(cwd) && ValidSegs(root)
    ensures r == ResolveInputPath(root, outputDir)
  {
    if outputDir != "" then Some(UnderRoot(cwd, root, outputDir)) else None
  }

  /** The report's path before it is resolved against the root. */
  function ReportRelPath(args: Args): string {
    if args.mappingFile != "" then args.mappingFile
    else if args.outputDir != "" then Join(args.outputDir, MappingName)
    else MappingName
  }

  /** Where the report goes: the given mapping file, else "image-map.json"
      inside the output directory, else "image-map.json" in the root. */
  function ReportFileOf(cwd: Segs, root: Segs, args: Args): (r: Segs)
    requires ValidSegs(cwd) && ValidSegs(root)
    ensures ValidSegs(r)
    ensures args.mappingFile != "" ==> Some(r) == ResolveInputPath(root, args.mappingFile)
    ensures args.mappingFile == "" && args.outputDir != "" ==>
              r == ResolveInputPath(root, args.outputDir).value + [MappingName]
    ensures args.mappingFile == "" && args.outputDir == "" ==> r == root + [MappingName]
  {
    ReportFileResolves(root, args);
    UnderRoot(cwd, root, ReportRelPath(args))
  }

  /** The settings the entry loop runs with. */
  function ConfigOf(host: Host, args: Args): (cfg: Config)
    ensures cfg.cwd == host.cwd && cfg.root == RootDir(host.cwd, args.rootDir)
    ensures cfg.outputDir == ResolveInputPath(cfg.root, args.outputDir)
    ensures cfg.quality == args.quality && cfg.dryRun == args.dryRun
  {
    var root := RootDir(host.cwd, args.rootDir);
    Config(host.cwd, root, OutputDirOf(host.cwd, root, args.outputDir), args.quality, args.dryRun)
  }

  /** The manifest's absolute path. */
  function ListPath(host: Host, args: Args): Segs
  {
    UnderRoot(host.cwd, RootDir(host.cwd, args.rootDir), args.images)
  }

  /** The report's "outputDir": the output directory relative to the root. */
  function ReportOutputDir(cfg: Config): (r: Option<string>)
    ensures r.Some? <==> cfg.outputDir.Some?
    ensures r.Some? ==> AbsPath(cfg.root, r.value) == cfg.outputDir.value
  {
    if cfg.outputDir.Some? then
      RelPathRoundTrip(cfg.outputDir.value, cfg.root);
      Some(RelPath(cfg.outputDir.value, cfg.root))
    else None
  }

  /** The run after the manifest has been parsed. */
  /** The report document for the given records. */
  function ReportOf(cfg: Config, items: seq<Record>): Report {
    Report(Render(cfg.root), ReportOutputDir(cfg), cfg.quality, items)
  }

  /** main reaches its entry loop (line 154): the manifest has entries, Pillow
      is installed, and outside a dry run AVIF is available and the output
      directory, if any, could be created. */
  predicate ReachesLoop(host: Host, args: Args, entries: seq<Value>) {
    var cfg := ConfigOf(host, args);
    && |entries| > 0
    && host.pillowInstalled
    && (args.dryRun || host.avifSupported)
    && (args.dryRun || cfg.outputDir.None? || host.makeDirs(cfg.outputDir.value))
  }

  /** main after the manifest is parsed (lines 144-236). */
  function AfterParse(host: Host, args: Args, data: Value): (o: Outcome)
    ensures o.Aborted? ==> o.fatal !in {InvalidQuality, ListNotFound, ListMalformed, ListUnreadable}
  {
    var cfg := ConfigOf(host, args);
    var entries := NormalizeEntries(data);
    if |entries| == 0 then Aborted(NoEntries)
    else if !host.pillowInstalled then Aborted(PillowMissing)
    else if !args.dryRun && !host.avifSupported then Aborted(AvifUnsupported)
    else if cfg.outputDir.Some? && !args.dryRun && !host.makeDirs(cfg.outputDir.value) then Aborted(OutputDirFailed)
    else
      match ProcessAll(EntryStep(cfg, host.env), entries)
      case None => Aborted(EntryPathNotString)
      case Some(items) =>
        var report := ReportOf(cfg, items);
        var file := ReportFileOf(host.cwd, cfg.root, args);
        if !args.dryRun && !host.writeReport(file, report) then Aborted(ReportWriteFailed)
        else Completed(report, if args.dryRun then None else Some(file), CountDone(items), CountSkipped(items))
  }

  /** main. */
  function Run(host: Host, args: Args): (o: Outcome)
    ensures o == Aborted(InvalidQuality) <==> !QualityInRange(args.quality)
    ensures o.Completed? ==> host.env.fileExists(ListPath(host, args)) && host.readList(ListPath(host, args)).Parsed?
    ensures o.Completed? ==> host.pillowInstalled && (args.dryRun || host.avifSupported)
    ensures o.Completed? ==> (o.reportFile.None? <==> args.dryRun)
  {
    if !QualityInRange(args.quality) then Aborted(InvalidQuality)
    else
      var path := ListPath(host, args);
      if !host.env.fileExists(path) then Aborted(ListNotFound)
      else
        match host.readList(path)
        case Unreadable => Aborted(ListUnreadable)
        case Malformed => Aborted(ListMalformed)
        case Parsed(data) => AfterParse(host, args, data)
  }

  // ---------------------------------------------------------------------------
  // Lemmas

  /** Resolving against the root joins a relative path to it and leaves an
      absolute one alone, whatever the working directory. */
  lemma UnderRootResolves(cwd: Segs, root: Segs, p: string)
    requires ValidSegs(cwd) && ValidSegs(root)
    ensures AbsPath(cwd, Join(Render(root), p)) == Normalize(if IsAbs(p) then [] else root, Split(p))
  {
    if !IsAbs(p) {
      var j := Join(Render(root), p);
      assert j[0] == Render(root)[0];
      JoinNormalize([], Render(root), p);
      NormalizeRender(root);
    }
  }

  /** Joining a plain name to a path adds that name as its last component. */
  lemma JoinNameNormalize(acc: Segs, a: string, name: string)
    requires ValidName(name)
    ensures Normalize(acc, Split(Join(a, name))) == Normalize(acc, Split(a)) + [name]
  {
    JoinNormalize(acc, a, name);
    SplitNoSlash(name);
    NormalizeValid(Normalize(acc, Split(a)), [name]);
  }

  /** The report's path relative to the root, resolved as main resolves it. */
  lemma ReportFileResolves(root: Segs, args: Args)
    requires ValidSegs(root)
    ensures var rel := ReportRelPath(args);
            && (args.mappingFile == "" ==> rel != "")
            && (args.mappingFile == "" && args.outputDir != "" ==>
                  Normalize(if IsAbs(rel) then [] else root, Split(rel))
                    == Normalize(if IsAbs(args.outputDir) then [] else root, Split(args.outputDir)) + [MappingName])
            && (args.mappingFile == "" && args.outputDir == "" ==>
                  Normalize(if IsAbs(rel) then [] else root, Split(rel)) == root + [MappingName])
  {
    if args.mappingFile == "" {
      assert ValidName(MappingName);
      if args.outputDir != "" {
        NameInsideDir(root, args.outputDir, MappingName);
      } else {
        NameInRoot(root, MappingName);
      }
    }
  }

  /** `join(dir, name)` resolved against the root is `dir` resolved, then `name`. */
  lemma NameInsideDir(root: Segs, dir: string, name: string)
    requires ValidSegs(root) && dir != "" && ValidName(name)
    ensures var rel := Join(dir, name);
            Normalize(if IsAbs(rel) then [] else root, Split(rel))
              == Normalize(if IsAbs(dir) then [] else root, Split(dir)) + [name]
  {
    var acc := if IsAbs(dir) then [] else root;
    JoinNameNormalize(acc, dir, name);
    assert name[0] != '/';
    assert Join(dir, name)[0] == dir[0];
  }

  /** A bare name resolved against the root is the root plus that name. */
  lemma NameInRoot(root: Segs, name: string)
    requires ValidSegs(root) && ValidName(name)
    ensures Normalize(if IsAbs(name) then [] else root, Split(name)) == root + [name]
  {
    assert name[0] != '/';
    SplitNoSlash(name);
    NormalizeValid(root, [name]);
  }

  /** The exits before the manifest is parsed, each under exactly its own
      condition, in the order main tests them; once the manifest is parsed the
      run is decided by AfterParse. */
  lemma RunListExits(host: Host, args: Args)
    ensures var o := Run(host, args);
            var path := ListPath(host, args);
            var q := QualityInRange(args.quality);
            && (o == Aborted(ListNotFound) <==> q && !host.env.fileExists(path))
            && (o == Aborted(ListUnreadable) <==> q && host.env.fileExists(path) && host.readList(path).Unreadable?)
            && (o == Aborted(ListMalformed) <==> q && host.env.fileExists(path) && host.readList(path).Malformed?)
            && (q && host.env.fileExists(path) && host.readList(path).Parsed? ==>
                  o == AfterParse(host, args, host.readList(path).data))
  {
  }

  /** The exits between parsing the manifest and the entry loop, each under
      exactly its own condition, in the order main tests them. */
  lemma AfterParseEarlyExits(host: Host, args: Args, data: Value)
    ensures var o := AfterParse(host, args, data);
            var cfg := ConfigOf(host, args);
            var entries := NormalizeEntries(data);
            && (o == Aborted(NoEntries) <==> |entries| == 0)
            && (o == Aborted(PillowMissing) <==> |entries| > 0 && !host.pillowInstalled)
            && (o == Aborted(AvifUnsupported) <==>
                  |entries| > 0 && host.pillowInstalled && !args.dryRun && !host.avifSupported)
            && (o == Aborted(OutputDirFailed) <==>
                  && |entries| > 0 && host.pillowInstalled && !args.dryRun && host.avifSupported
                  && cfg.outputDir.Some? && !host.makeDirs(cfg.outputDir.value))
  {
  }

  /** The entry loop runs exactly when none of the early exits is taken. */
  lemma AfterParseReachesLoop(host: Host, args: Args, data: Value)
    ensures var o := AfterParse(host, args, data);
            ReachesLoop(host, args, NormalizeEntries(data)) <==>
              !(o.Aborted? && o.fatal in {NoEntries, PillowMissing, AvifUnsupported, OutputDirFailed})
  {
  }

  /** The end of a run that reaches its entry loop: it raises exactly when an
      entry raises; otherwise it fails exactly when the report cannot be
      written outside a dry run, and completes with that report, written to
      the report file outside a dry run, and the loop's two counters. */
  lemma AfterParseLoopExits(host: Host, args: Args, data: Value)
    requires ReachesLoop(host, args, NormalizeEntries(data))
    ensures var o := AfterParse(host, args, data);
            var cfg := ConfigOf(host, args);
            var rs := ProcessAll(EntryStep(cfg, host.env), NormalizeEntries(data));
            var file := ReportFileOf(host.cwd, cfg.root, args);
            && (o == Aborted(EntryPathNotString) <==> rs.None?)
            && (o == Aborted(ReportWriteFailed) <==>
                  rs.Some? && !args.dryRun && !host.writeReport(file, ReportOf(cfg, rs.value)))
            && (o.Completed? <==> rs.Some? && (args.dryRun || host.writeReport(file, ReportOf(cfg, rs.value))))
            && (o.Completed? ==>
                  && o.report == ReportOf(cfg, rs.value)
                  && o.reportFile == (if args.dryRun then None else Some(file))
                  && o.processed == CountDone(rs.value)
                  && o.skipped == CountSkipped(rs.value))
  {
  }

  /** A completed run has one record per manifest entry, in manifest order,
      each the loop body's verdict on its entry; the counters split the
      records; and the report carries the run's settings. */
  lemma RunCompleted(host: Host, args: Args)
    requires Run(host, args).Completed?
    ensures QualityInRange(args.quality)
    ensures host.readList(ListPath(host, args)).Parsed?
    ensures var o := Run(host, args);
            var cfg := ConfigOf(host, args);
            var entries := NormalizeEntries(host.readList(ListPath(host, args)).data);
            && |entries| > 0
            && |o.report.items| == |entries|
            && (forall i :: 0 <= i < |entries| ==> ProcessEntry(cfg, host.env, entries[i]) == Some(o.report.items[i]))
            && o.processed + o.skipped == |entries|
            && o.processed == CountDone(o.report.items)
            && o.report.rootDir == Render(cfg.root)
            && o.report.quality == args.quality
            && o.report.outputDir == ReportOutputDir(cfg)
  {
    var data := host.readList(ListPath(host, args)).data;
    assert Run(host, args) == AfterParse(host, args, data);
    AfterParseCompleted(host, args, data);
  }

  /** RunCompleted, once the manifest has been parsed. */
  lemma AfterParseCompleted(host: Host, args: Args, data: Value)
    requires AfterParse(host, args, data).Completed?
    ensures var o := AfterParse(host, args, data);
            var cfg := ConfigOf(host, args);
            var entries := NormalizeEntries(data);
            && |entries| > 0
            && |o.report.items| == |entries|
            && (forall i :: 0 <= i < |entries| ==> ProcessEntry(cfg, host.env, entries[i]) == Some(o.report.items[i]))
            && o.processed + o.skipped == |entries|
            && o.processed == CountDone(o.report.items)
            && o.report.rootDir == Render(cfg.root)
            && o.report.quality == args.quality
            && o.report.outputDir == ReportOutputDir(cfg)
  {
    var cfg := ConfigOf(host, args);
    var entries := NormalizeEntries(data);
    AfterParseReachesLoop(host, args, data);
    AfterParseLoopExits(host, args, data);
    var items := ProcessAll(EntryStep(cfg, host.env), entries).value;
    ProcessAllPointwise(EntryStep(cfg, host.env), entries);
    CountsPartition(items);
  }

  /** Every converted record carries the run's quality, and its status says
      whether the run was a dry run. */
  lemma RunRecordsCarrySettings(host: Host, args: Args)
    requires Run(host, args).Completed?
    ensures var items := Run(host, args).report.items;
            forall i :: 0 <= i < |items| && items[i].Done? ==>
              && items[i].quality == args.quality
              && (items[i].status == DryRun <==> args.dryRun)
  {
    RunCompleted(host, args);
    var cfg := ConfigOf(host, args);
    var entries := NormalizeEntries(host.readList(ListPath(host, args)).data);
    var items := Run(host, args).report.items;
    forall i | 0 <= i < |items| && items[i].Done?
      ensures items[i].quality == args.quality && (items[i].status == DryRun <==> args.dryRun)
    {
      assert ProcessEntry(cfg, host.env, entries[i]) == Some(items[i]);
      EntryVerdict(cfg, host.env, entries[i]);
    }
  }

  /** A dry run writes nothing: its outcome does not depend on whether saving
      an image, creating the output directory or writing the report would
      succeed, nor on whether AVIF encoding is available, and no report file
      is named. */
  lemma DryRunWritesNothing(host: Host, args: Args, save: (Segs, Segs) -> bool,
                            makeDirs: Segs -> bool, writeReport: (Segs, Report) -> bool, avif: bool)
    requires args.dryRun
    ensures var other := host.(env := host.env.(save := save), makeDirs := makeDirs,
                               writeReport := writeReport, avifSupported := avif);
            Run(host, args) == Run(other, args)
    ensures Run(host, args).Completed? ==> Run(host, args).reportFile.None?
  {
    var other := host.(env := host.env.(save := save), makeDirs := makeDirs,
                       writeReport := writeReport, avifSupported := avif);
    var cfg := ConfigOf(host, args);
    assert ConfigOf(other, args) == cfg;
    if QualityInRange(args.quality) && host.env.fileExists(ListPath(host, args))
       && host.readList(ListPath(host, args)).Parsed? {
      var entries := NormalizeEntries(host.readList(ListPath(host, args)).data);
      DryRunIgnoresSave(cfg, host.env, save, entries);
    }
  }

  /** In a dry run the loop's verdicts do not depend on the save oracle. */
  lemma DryRunIgnoresSave(cfg: Config, env: Env, save: (Segs, Segs) -> bool, entries: seq<Value>)
    requires cfg.dryRun
    ensures ProcessAll(EntryStep(cfg, env), entries) == ProcessAll(EntryStep(cfg, env.(save := save)), entries)
  {
    forall e | e in entries
      ensures ProcessEntry(cfg, env, e) == ProcessEntry(cfg, env.(save := save), e)
    {
    }
    ProcessAllAgree(EntryStep(cfg, env), EntryStep(cfg, env.(save := save)), entries);
  }

  /** An object entry whose path value is truthy but not a string ends the
      whole run, even when every other entry is fine. */
  lemma NonStringPathAborts(host: Host, args: Args, data: Value, k: nat)
    requires QualityInRange(args.quality)
    requires host.env.fileExists(ListPath(host, args))
    requires host.readList(ListPath(host, args)) == Parsed(data)
    requires k < |NormalizeEntries(data)|
    requires var v := NormalizeEntry(NormalizeEntries(data)[k]); Truthy(v) && !v.JString?
    ensures Run(host, args).Aborted?
    ensures host.pillowInstalled && (args.dryRun || host.avifSupported) ==>
              Run(host, args).fatal in {EntryPathNotString, OutputDirFailed}
  {
    assert Run(host, args) == AfterParse(host, args, data);
    AfterParseNonString(host, args, data, k);
  }

  /** NonStringPathAborts, once the manifest has been parsed. */
  lemma AfterParseNonString(host: Host, args: Args, data: Value, k: nat)
    requires k < |NormalizeEntries(data)|
    requires var v := NormalizeEntry(NormalizeEntries(data)[k]); Truthy(v) && !v.JString?
    ensures AfterParse(host, args, data).Aborted?
    ensures host.pillowInstalled && (args.dryRun || host.avifSupported) ==>
              AfterParse(host, args, data).fatal in {EntryPathNotString, OutputDirFailed}
  {
    var cfg := ConfigOf(host, args);
    var entries := NormalizeEntries(data);
    assert ProcessEntry(cfg, host.env, entries[k]).None?;
    ProcessAllPointwise(EntryStep(cfg, host.env), entries);
  }

  /** With every option at its default, the manifest is "image-files.json"
      and the report "image-map.json", both in the working directory, and
      the quality check passes. */
  lemma DefaultRun(host: Host)
    ensures ConfigOf(host, DefaultArgs).root == host.cwd
    ensures ListPath(host, DefaultArgs) == host.cwd + [DefaultImages]
    ensures ReportFileOf(host.cwd, host.cwd, DefaultArgs) == host.cwd + [MappingName]
    ensures ConfigOf(host, DefaultArgs).outputDir.None?
    ensures Run(host, DefaultArgs) != Aborted(InvalidQuality)
  {
    assert ValidName(DefaultImages);
    NameInRoot(host.cwd, DefaultImages);
  }
}
