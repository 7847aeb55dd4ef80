# compress_images_to_avif: a Dafny model of the decision core

`scripts/compress_images_to_avif.py` reads a JSON manifest of image paths and
converts each image to AVIF next to the original or under an output directory.
It then writes a JSON report ("mapping") with one record per manifest entry.
This project models everything in that script that does not touch a file or
the image library:

- the two manifest shapes, and how a path is picked out of an entry;
- POSIX path handling as Python's `posixpath` does it: `split('/')`, `join`,
  `basename`, `dirname`, `splitext`, `normpath`, `abspath`, `relpath`.
  A normalized absolute path is a sequence of components (`PosixPath.Path`);
- input resolution, output naming, the guard that keeps outputs of inputs
  outside the root from climbing out of the output directory, and the in-place
  collision guard;
- the per-entry classification (`missing_path`, `file_not_found`,
  `read_failed`, or a `converted` / `dry-run` record) and the loop with its two
  counters;
- the whole run of `main`: the quality check, the default paths, the fatal
  exits in the order the code takes them, and the report.

Everything the program learns from outside is a parameter:

- `Convert.Env.fileExists` stands for `os.path.exists`.
- `Convert.Env.decode` stands for `Image.open` plus `ImageOps.exif_transpose`.
  It gives the size after orientation correction, or a failure.
- `Convert.Env.save` stands for creating the output's directory and saving
  the AVIF file.
- `Run.Host` holds the working directory and what reading the manifest gives.
  It also says whether Pillow and its AVIF encoder are installed, and whether
  creating the output directory and writing the report succeed.

Modules, one per file: `Wrappers` (wrappers.dfy), `JsonValue` and `Manifest`
(manifest.dfy), `PosixPath` (posix_path.dfy), `OutputPath` (output_path.dfy),
`Convert` (convert.dfy), `Run` (run.dfy).

Behaviour of the code worth noting, all of it modelled as the code has it:

- An object entry whose path value is truthy but not a string, such as
  `{"path": 5}`, is not skipped. `resolve_input_path` raises `TypeError`
  outside the `try`, and the whole run ends without a report
  (`Fatal.EntryPathNotString`). "One record per entry" therefore holds only
  for runs that complete (`Run.RunCompleted`).
- An object entry yields the first *truthy* value of "path", "file" and
  "input": `{"path": "", "file": "a.jpg"}` names `a.jpg`.
- The recorded width and height are read after `exif_transpose`, so they are
  the size after orientation correction.
- Three failures are not caught by main and end the run. These are creating
  the output directory (line 152), writing the report (lines 233-236), and a
  manifest that exists but cannot be opened or decoded as text.

## Model

| member | source | states |
|---|---|---|
| Manifest.NormalizeEntries | scripts/compress_images_to_avif.py:72-77 | a list is the entry list itself; an object whose "images" is a list gives exactly that list; anything else gives no entries |
| Manifest.ShapesAgree | scripts/compress_images_to_avif.py:72-77 | wrapping an entry list as `{"images": [...]}` gives the same entries as the bare list |
| Manifest.NormalizeEntry | scripts/compress_images_to_avif.py:102-107 | a string entry is its own path; an entry that is neither string nor object gives None; an object's result is truthy exactly when one of "path", "file", "input" holds a truthy value, and is then the value of the first such key in that order |
| Manifest.KeyedEntryAgrees | scripts/compress_images_to_avif.py:102-107 | an object naming a path under any one of the three keys gives the same path as the plain string entry, and gives a falsy value exactly when that path is empty |
| OutputPath.ResolveInputPath | scripts/compress_images_to_avif.py:80-85 | no path exactly for an empty string; otherwise a normalized absolute path: an absolute input normalized alone, a relative one normalized after the root's components |
| PosixPath.AbsPath | scripts/compress_images_to_avif.py:85 | `abspath` of a relative path is the normalization of its components after the working directory; of an absolute path, the normalization of its own; the result is always a normalized component list |
| PosixPath.RelPathRoundTrip | scripts/compress_images_to_avif.py:210-211 | resolving `relpath(path, start)` against `start` gives `path` back, for any two normalized absolute paths |
| PosixPath.AbsPathRender | scripts/compress_images_to_avif.py:189 | `abspath` of the string form of a normalized absolute path is that path again |
| PosixPath.SplitExtName | scripts/compress_images_to_avif.py:95 | `splitext` of a file name cuts an extension exactly when some dot of the name has another character before it, and then cuts at the name's last dot, so the extension is one dot followed by no other dot |
| PosixPath.NameParts | scripts/compress_images_to_avif.py:95-96 | a name without a separator is its own `basename` and has an empty `dirname` |
| PosixPath.LastComponent | scripts/compress_images_to_avif.py:95-96 | `basename` of `x/y` is `y` and `dirname` is `x`, when `y` has no separator and `x` does not end in one |
| PosixPath.RenderParts | scripts/compress_images_to_avif.py:99 | `basename` of a normalized absolute path is its last component and `dirname` is the path of the components before it; the root is its own `dirname` |
| OutputPath.RelPathBelow | scripts/compress_images_to_avif.py:89 | `relpath` of a path strictly below the root is the components after the root joined by separators |
| OutputPath.BuildOutputPath | scripts/compress_images_to_avif.py:88-99 | the string `build_output_path` computes equals the rendering of the component-level output (`OutputSegs`): the output directory, then the input's directories below the root, then the output name; or, without an output directory, the input's own directory and the output name |
| OutputPath.EscapeIffOutsideRoot | scripts/compress_images_to_avif.py:89-93 | the escape test (relpath is `..` or starts with `../`) fires exactly when the input is not inside the root |
| OutputPath.OutputNameIsStem | scripts/compress_images_to_avif.py:95-99 | for any input other than the root itself, the output's file name is the input's file name without its extension, followed by `.avif` |
| OutputPath.OutputDirnameBesideInput | scripts/compress_images_to_avif.py:99 | without an output directory the output's directory string is the input's directory string |
| OutputPath.OutputInsideOutputDir | scripts/compress_images_to_avif.py:88-98 | with an output directory, the final output lies strictly inside it; an input outside the root lands directly in it; an input below the root lands in the output directory plus the input's directories below the root |
| OutputPath.OutputBesideInput | scripts/compress_images_to_avif.py:99 | without an output directory, the final output (after the collision guard) is in the input's directory |
| OutputPath.CollisionGuardSound | scripts/compress_images_to_avif.py:188-193 | after the collision guard the output never resolves to the input; an output that did not collide is unchanged; a colliding one keeps its directory and is renamed to its stem plus `-compressed.avif` |
| OutputPath.AvoidCollisionShape | scripts/compress_images_to_avif.py:188-193 | the guarded output string is the rendering of the component-level final output (`FinalOutputSegs`) |
| OutputPath.FinalDiffers | scripts/compress_images_to_avif.py:189-193 | when the output equals the input, the renamed output differs from it and stays in the same directory |
| Convert.ProcessEntry | scripts/compress_images_to_avif.py:158-222 | one loop pass raises exactly when the entry's path value is truthy but not a string; it records `missing_path` exactly when that value is falsy |
| Convert.EntryVerdict | scripts/compress_images_to_avif.py:171-222 | for a string path: `file_not_found` exactly when the resolved file is absent; `read_failed` exactly when it exists but decoding fails or, outside a dry run, saving fails; otherwise exactly the conversion record: input and guarded output relative to the root, status `dry-run` in a dry run and `converted` otherwise, the decoded size, and the run's quality |
| Convert.ProcessAllPointwise | scripts/compress_images_to_avif.py:154-222 | the loop completes exactly when no entry raises; then the i-th record is the loop body's verdict on the i-th entry, one record per entry in manifest order |
| Convert.ProcessAllAgree | scripts/compress_images_to_avif.py:158-222 | two loop bodies that agree on every entry produce the same records |
| Convert.CountsPartition | scripts/compress_images_to_avif.py:155-156 | every record is counted once: converted records plus skipped records is the number of records |
| Convert.RunEntries | scripts/compress_images_to_avif.py:154-222 | the loop with its two counters: it aborts exactly when some entry raises; otherwise its records are the loop's records, `processed` counts converted records, `skipped` the skipped ones, and their sum is the number of entries |
| Convert.MixedManifest | scripts/compress_images_to_avif.py:158-222 | a manifest of a present image, an object naming a missing file and an object without a path key gives one conversion, then `file_not_found`, then `missing_path`, with processed 1 and skipped 2 |
| Run.UnderRoot | scripts/compress_images_to_avif.py:118-131 | `abspath(join(root, p))` is the root for an empty `p` and otherwise resolves `p` exactly as an entry path is resolved |
| Run.RootDir | scripts/compress_images_to_avif.py:117 | the root is the working directory when no root is given, and otherwise the given root normalized against the working directory |
| Run.OutputDirOf | scripts/compress_images_to_avif.py:119-123 | the output directory is absent when none is given and otherwise resolves like an entry path under the root |
| Run.ReportFileOf | scripts/compress_images_to_avif.py:124-131 | the report goes to the given mapping file, resolved under the root; else to `image-map.json` inside the output directory; else to `image-map.json` in the root |
| Run.ReportOutputDir | scripts/compress_images_to_avif.py:227 | the report's "outputDir" is present exactly when an output directory is, and resolving it against the root gives the output directory back |
| Run.Run | scripts/compress_images_to_avif.py:110-242 | a run ends with `InvalidQuality` exactly when the quality is outside 1..100; a completed run found and parsed its manifest, had Pillow and, outside a dry run, AVIF support, and names a report file exactly when it is not a dry run |
| Run.RunListExits | scripts/compress_images_to_avif.py:133-142 | the run stops with "list not found" exactly when the quality is in range and the manifest is absent, and with an unreadable or malformed manifest exactly when it exists and reading it fails that way; once the manifest is parsed, the rest of the run is `AfterParse` on its contents |
| Run.AfterParseEarlyExits | scripts/compress_images_to_avif.py:144-152 | after parsing, the run stops for no entries, missing Pillow, missing AVIF support (outside a dry run) and a failed output-directory creation (outside a dry run), each exactly under its own condition and only when every earlier check passed |
| Run.AfterParseReachesLoop | scripts/compress_images_to_avif.py:144-154 | the entry loop is reached exactly when none of those four exits is taken |
| Run.AfterParseLoopExits | scripts/compress_images_to_avif.py:154-236 | once the loop is reached: the run raises exactly when the loop raises; it fails exactly when, outside a dry run, writing the report to the report file fails; it completes exactly otherwise, with the root, output directory, quality and loop records as its report, the report file named exactly outside a dry run, and the two counters of the records |
| Run.RunCompleted | scripts/compress_images_to_avif.py:113-236 | a completed run had a quality in range and a non-empty parsed manifest; its report has one record per entry, in order, each the loop body's verdict; processed plus skipped is the entry count; the report carries the root, the quality and the output directory |
| Run.RunRecordsCarrySettings | scripts/compress_images_to_avif.py:212-220 | every converted record of a completed run carries the run's quality, and its status is `dry-run` exactly when the run is a dry run |
| Run.DryRunWritesNothing | scripts/compress_images_to_avif.py:149-152 | a dry run's outcome does not depend on the save, make-directory and report-write operations or on AVIF support, and names no report file |
| Run.DryRunIgnoresSave | scripts/compress_images_to_avif.py:195-197 | in a dry run the loop's records do not depend on the save operation |
| Run.NonStringPathAborts | scripts/compress_images_to_avif.py:159-171 | an entry whose path value is truthy but not a string ends the run without a report; once the earlier checks pass, the reason is that entry or a failed output-directory creation |
| Run.DefaultRun | scripts/compress_images_to_avif.py:13-39 | with every option at its default, the root is the working directory, the manifest is `image-files.json` and the report `image-map.json` in it, there is no output directory, and the quality check passes |

## Left out

- Argument parsing (`parse_args`): `Run.Args` is the parsed command line, and
  an option that was not given is the empty string. main tests those options
  only for truthiness, so None and "" behave alike. A non-integer `--quality`
  is rejected by argparse before main and is not modelled.
- `load_pillow`: the import of Pillow and `pillow_avif` and the lookup of the
  `.avif` extension are two booleans of `Run.Host`. The messages it prints are
  not modelled.
- `Image.open`, `ImageOps.exif_transpose` and `image.save` are the `decode` and
  `save` parameters of `Convert.Env`. Any exception inside the `try` is a
  failed decode or a failed save.
- Reading and parsing the manifest (`Run.ListRead`), creating directories and
  writing the report are parameters. The JSON text of the report is not
  produced; `Run.Report` holds its content.
- The "generatedAt" time stamp (line 225) is left out; it is a clock reading.
- Console output (lines 52, 63-66, 114, 134, 141, 146, 238-242) is left out.
- Windows path semantics (drive letters, `\` separators) are left out; only
  POSIX paths are modelled.
- `posixpath.normpath` keeps exactly two leading slashes (`//a`); the model
  normalizes every absolute path to one leading slash.
- JSON numbers are exact rationals; only whether they are zero matters here.
- Convert.Env: `fileExists` and `decode` are one snapshot of the file system
  for the whole loop. The program writes AVIF files and directories during
  the loop, and a later entry naming a file written earlier sees it. For
  `["b.avif", "b.png", "b.avif"]` with only `b.png` present, the program
  records `file_not_found`, then converts `b.png` to `b.avif`, then converts
  that `b.avif` to `b-compressed.avif`. The model gives both `b.avif` entries
  the same verdict.
- OutputPath.CollisionGuardSound: "the output never resolves to the input"
  compares normalized path strings. Symbolic links and case-insensitive file
  systems (`x.AVIF` against `x.avif`) can still make the output overwrite the
  input, and the model does not see them.
- Two entries that map to the same output: the later one overwrites the
  earlier file. The report records both, and the model does the same; no
  property is claimed about it.
- Running the tool twice on the same manifest: the model is a function of
  its inputs, so nothing is stated beyond that determinism.
- `Convert.ProcessAll` returns `None` for the first raising entry without
  modelling the records already collected, because main discards them when
  it raises.
