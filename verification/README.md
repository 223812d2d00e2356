# lisensor, modelled in Dafny

lisensor checks, and on request rewrites, the two-line licence notice at the
top of source files: an SPDX line (`// SPDX-License-Identifier: MIT`)
followed by a copyright line (`// Copyright (c) 2021-2025 Holder`), or the
same with `# ` for the hash-comment languages. Which holder and licence a
file must carry comes from configuration: glob patterns mapped to a
(holder, licence) pair, given inline on the command line or in TOML files
whose globs are relative to the file's directory.

This project models the three pieces that make up the tool's logic, each as
pure Dafny functions over strings, sequences and maps:

- **Notice engine** (`src/format.rs`, module `Notice`): comment style from
  the file extension, the two prefix strippers, parsing of
  `YYYY[-YYYY] HOLDER`, rendering of the notice, `check_file` as a function
  of the file's lines, and `fix_file` as a left fold over the lines that
  yields the new file text or a duplicate-line error.
- **Config resolver** (`src/config.rs`, module `Config`): `Config::inline`,
  `Config::build` over the parsed holder → glob → licence table,
  `Config::absorb`, `Config::into_iter`, and the branch logic of
  `load_config`.
- **Runner** (`src/runner.rs`, module `Runner`): `run_glob`'s scheduling
  with the fix-mode claim table, the sequential search over all globs that
  collects every error, the per-file check and fix jobs, and the final
  tally of job results.

Supporting modules: `Wrappers` (Option and Result), `Text` (prefix
stripping, `splitn(2, _)`, and `BufRead::lines` with its inverse),
`Decimal` (`u32` parsing and rendering), `Lex` (Rust's byte-wise string
order, binary search, sorted key listing as a `BTreeMap` iterates), `Paths`
(the identity of a file path as a `PathBuf` key sees it).

Decisions worth knowing when reading the model:

- The clock is the parameter `year`; years are `u32` values (`U32`).
- A file is its text; `BufRead::lines` is modelled by `Text.Lines`, which
  splits on `'\n'` and drops a `'\r'` just before each `'\n'`; a final
  line without a terminating `'\n'` keeps a trailing `'\r'`. File
  contents, extensions, writability, glob expansion, `Path::parent`,
  `Path::join` with `into_utf8`, reading a TOML file and the probe for a
  default config file are all parameters (`Runner.Env`, `Config.Sources`).
- `cu::parse::<u32>` is modelled as Rust's `u32::from_str`: an optional
  leading `+`, then one or more ASCII digits, value below 2^32.
- `Arc<String>` comparison is value comparison, so pairs are plain strings
  (`Config.Claim`).
- Because building is free of side effects here, `load_config` builds every
  listed file up front and then absorbs them left to right, stopping at the
  first error; this gives the same result as the source's interleaved loop.
- The async pool and join set are replaced by a sequence of job results;
  the verdict is a fold over it and is proved independent of order.
- `path_map` is a `BTreeMap<PathBuf, _>`, and `PathBuf` keys are equal
  exactly when their `components()` are: repeated separators and a trailing
  separator do not count, and `.` is dropped except at the start of a
  relative path, so `src//a.rs`, `src/./a.rs` and `src/a.rs` are one file.
  `Paths.Components` models this for Unix paths. The scheduling lemmas take
  the file identity as a parameter `key`, and the run itself
  (`Runner.Searched`) uses `Paths.Components`. Jobs keep the path as the
  glob spelled it.

What the code does, and the model with it:
- a fixed file always ends its lines in `'\n'`, whatever line endings it
  had before;
- `fix_file` cannot tell a notice it wrote from one a user wrote: any SPDX
  or copyright line with the style's prefix is taken as the notice;
- a start year later than the current year is not rejected;
- a glob match is scheduled whether or not it is a regular file;
- `fix_file` is not idempotent: fixing a fixed file inserts one more blank
  line (`Notice.FixTwiceAddsBlankLine`);
- fixing an empty file writes the notice followed by one blank separator
  line (`Notice.FixEmptyFile`);
- in fix mode a job starts as soon as its glob entry is scheduled, while
  later globs are still being expanded; a run that then fails with a glob
  error may therefore already have rewritten some files. The model reports
  only the glob errors of such a run (see "Left out").

## Model

| member | source | states |
|---|---|---|
| Notice.HashFormatExtensionsSorted | src/format.rs:18-21 | the 19 hash-comment extensions are listed in strictly ascending byte order, the property binary search over them relies on |
| Lex.BinarySearch | src/format.rs:29 | on a strictly sorted table, searching the slice `[lo, hi)` finds the key exactly when the key occurs in that slice |
| Notice.FromPath | src/format.rs:24-33 | the style is `Hash` exactly when the path has a UTF-8 extension that is one of the hash-comment extensions; a missing extension gives `SlashSlash` |
| Notice.StripLicenseLine | src/format.rs:37-42 | yields a licence exactly when the line starts with the style's SPDX prefix, and then prefix followed by the result is the line |
| Notice.StripCopyrightLine | src/format.rs:86-91 | yields copyright info exactly when the line starts with the style's copyright prefix, and then prefix followed by the result is the line |
| Notice.PrefixesExclusive | src/format.rs:137-144 | no line carries both the SPDX prefix and the copyright prefix of a style, so a line is classified one way only |
| Notice.ParseCopyrightInfo | src/format.rs:177-196 | the end year is never below the start year, and info without a space has an empty holder |
| Notice.ParseCopyrightText | src/format.rs:177-196 | for info `start[-end][ holder]`: the holder is everything after the first space (or empty); the start year is the parsed start or 2025; a missing or unparsable end gives end = start, otherwise the larger of end and start |
| Decimal.ParseRender | src/format.rs:183-190 | parsing the decimal rendering of any `u32` gives that number back |
| Text.SplitOnceAt | src/format.rs:178-182 | splitting `before + sep + after` at the first separator, with no separator in `before`, gives `before` and `after` |
| Notice.LinesOfNotice | src/format.rs:52-79 | the rendered notice is exactly two lines, the SPDX line with the licence and then the copyright line with the year range and holder, and the text after it is split as before |
| Notice.RenderRoundTrip | src/format.rs:44-82 | reading a rendered notice back, the SPDX line strips to the licence and the copyright line parses to (start, the later of start and the current year, holder) |
| Notice.CheckFile | src/format.rs:94-124 | passes exactly when the first line is the SPDX line with the licence and the second is a copyright line with the holder and the current year as end; each error is reported exactly under its own condition |
| Notice.CheckFileReadsTwoLines | src/format.rs:97-121 | lines after the second never change the verdict |
| Notice.CheckRenderedNotice | src/format.rs:102-121 | a freshly rendered notice, whatever follows it, passes the check exactly when its start year is not after the current year |
| Text.LinesJoinLines | src/format.rs:157-163 | splitting newline-terminated lines that contain no newline gives the lines back |
| Notice.FixLines | src/format.rs:135-164 | the line loop fails exactly when the lines hold two SPDX lines or two copyright lines; otherwise its buffers hold the notice, separator and kept lines as described by `FixInvariant` |
| Notice.FixLinesNamesFirstDuplicate | src/format.rs:135-147 | the line loop reports a duplicate SPDX line exactly when a second SPDX line comes before any second copyright line, and a duplicate copyright line exactly when it is the other way round |
| Notice.FixFileNamesFirstDuplicate | src/format.rs:126-147 | `fix_file` names the duplicate kind that occurs first in line order |
| Notice.FixFile | src/format.rs:126-175 | fails exactly on a duplicate SPDX or copyright line; otherwise the output is the notice (start year of the first copyright line, or the current year), an optional blank separator, then every other line in order, each ending in a newline |
| Notice.SeparatorOmittedForBlankLine | src/format.rs:151-153 | the blank separator is left out exactly when the lines kept before the copyright line begin with an empty line |
| Notice.FixEmptyFile | src/format.rs:165-171 | fixing an empty file writes the notice with the current year and a blank line |
| Notice.FixedFileChecks | src/format.rs:126-175 | the text a fix writes passes `check_file` exactly when the start year it used is not after the current year |
| Notice.FixTwiceAddsBlankLine | src/format.rs:149-162 | fixing a fixed file again keeps its notice and inserts one more blank line after it, so the output differs from the input |
| Config.Inline | src/config.rs:68-85 | the table binds exactly the listed globs, repeats collapsed, each to the given pair |
| Config.Insert | src/config.rs:100-119 | adding a glob succeeds exactly when it is unbound or bound to the same pair, and then binds it; a conflict names the glob and both pairs |
| Config.MergeErrorIsConflict | src/config.rs:100-118 | a failed merge reports a conflict for some entry whose glob was already bound, by the table or an earlier entry, to a different pair |
| Config.Build | src/config.rs:87-124 | no parent directory is an error; otherwise building succeeds exactly when every glob joins to a UTF-8 path and no joined glob gets two different pairs, and then each joined glob is bound to its holder and licence and nothing else is bound |
| Config.Absorb | src/config.rs:126-153 | succeeds exactly when the tables agree on every shared glob; the result keeps the receiver's bindings and adds the other's, and a failure names a glob bound in both |
| Config.IntoIter | src/config.rs:156-162 | yields each glob of the table once, in strictly ascending order, with its pair |
| Config.IntoIterRebuilds | src/config.rs:156-162 | inserting the yielded entries into an empty table gives the table back |
| Config.LoadConfig | src/config.rs:12-48 | an inline pair with a default config present is an error; otherwise the inline table binds the listed globs; no paths and no default config is an error |
| Config.AbsorbAllSpec | src/config.rs:41-43 | absorbing built tables in order succeeds exactly when all built and agree with each other and with the start table, and then keeps every binding of each and adds none |
| Config.LoadConfigMerges | src/config.rs:27-46 | from config files, loading succeeds exactly when every file builds and every two agree, and the result binds each glob as its file does and nothing else |
| Runner.RunGlob | src/runner.rs:93-165 | a bad pattern is an error and schedules nothing; otherwise the glob succeeds exactly when no entry is unreadable and, in fix mode, no found path names a file (`PathBuf` key) claimed with another pair; on success it reports whether anything matched |
| Runner.ScheduleFails | src/runner.rs:103-131 | the scheduling loop fails exactly when some entry fails, and in check mode only through an unreadable entry |
| Runner.CheckModeSchedules | src/runner.rs:151-161 | in check mode the claim table is untouched and every found path before the first unreadable entry is scheduled, duplicates included, in order |
| Runner.FixModeSchedules | src/runner.rs:111-137 | in fix mode, with files compared by their `PathBuf` key, every scheduled file is claimed once and scheduled once, earlier jobs stay in front in their order, existing claims are never changed, new jobs and new claims carry the glob's pair and are for files it found, and on success every file it found is claimed |
| Runner.ScheduleExtendsJobs | src/runner.rs:103-161 | in either mode `run_glob` only appends jobs after those already scheduled, each for a path the glob found with the glob's pair |
| Runner.CheckModeSearch | src/runner.rs:27-47 | over all globs in check mode, the jobs are each glob's scheduled paths in order and the errors are each failing glob's error in order, later globs being processed after a failure |
| Runner.FixModeSearch | src/runner.rs:27-47 | over all globs in fix mode, with files compared by their `PathBuf` key, the claim table stays in step with the jobs, old claims and jobs are kept, and every new job is for a path some glob found, with that glob's pair; no error is recorded exactly when every glob expands cleanly, no file is found (under any spellings) by globs with different pairs, and none clashes with an earlier claim; and then every file any glob found is claimed |
| Runner.SearchErrorsFromGlobs | src/runner.rs:27-47 | in either mode the search adds at most one error per glob, and each error it adds names one of the globs it went through |
| Runner.CheckJob | src/runner.rs:152-158 | a check job never writes, and reports success exactly when the file is readable, its first line is the SPDX line for the job's licence, and its second line is a copyright line whose parsed holder is the job's holder and whose end year is the current year |
| Runner.CheckJobAgreesWithFixJob | src/runner.rs:138-158 | a check job passes a file exactly when the fix job for the same pair reports success without writing |
| Runner.FixJob | src/runner.rs:138-150 | a fix job whose check passes reports success without writing; otherwise it succeeds exactly when the file is readable, has no duplicate notice line and is writable, and then writes the fixed text |
| Runner.FixJobSettles | src/runner.rs:138-150 | once a fix job has written, running it again reports success without writing exactly when the start year it used is not after the current year |
| Runner.TallyCountsFailures | src/runner.rs:66-77 | the failure count is the number of false results |
| Runner.TallyOrderFree | src/runner.rs:66-77 | two result sequences that are permutations of each other give the same count |
| Runner.TallyZero | src/runner.rs:66-77 | the count is zero exactly when every job reported success |
| Runner.Run | src/runner.rs:50-90 | any search error fails the run with the collected errors before jobs are looked at; otherwise the run succeeds exactly when every job succeeds, reporting the job total, and fails with the number of failed jobs and the total |
| Runner.CheckModeRun | src/runner.rs:20-64 | in check mode the run's search errors and jobs are exactly those of the globs taken in order |
| Runner.FixModeRun | src/runner.rs:20-64 | in fix mode, with files compared as `PathBuf` keys (`Paths.Components`), the search has no error exactly when every glob expands cleanly and no file is found, under any spellings, by two globs with different pairs; every file has at most one job, with the pair that claimed it; every job is for a path some glob found, with that glob's pair; and without an error every file any glob found has a job with the pair of each glob that found it |
| Runner.RespelledFileConflicts | src/runner.rs:111-130 | two globs finding `dir//name` and `dir/name` with different pairs make a fix run fail, since both spellings are one `PathBuf` key |
| Paths.ComponentsShape | src/runner.rs:100 | a path key has the shape `Path::components` yields: the root component exactly when the path starts with `/`, after the first component only parents and names, and no name empty, `.`, `..` or holding a separator |
| Paths.SegmentsJoin | src/runner.rs:113 | cutting a path at its separators and joining the parts back gives the path, so the key is computed from all of the text |
| Paths.EmptyOrDotIgnored | src/runner.rs:113 | `a//b` and `a/./b` have the same key as `a/b`, for any `a` and `b` |
| Paths.TrailingSeparatorIgnored | src/runner.rs:113 | a non-empty path with one more trailing `/` has the same key |
| Paths.LeadingDotKept | src/runner.rs:113 | a relative path `./a` keeps its leading `.`, so its key differs from that of `a` |

## Left out

- File I/O: opening, reading and writing files and their failures, and errors while reading a line. A file is either readable text or not (`Env.contents`), and a write either happens or the job fails (`Env.writable`).
- `toml::parse`: a config file's contents are the parsed holder → glob → licence table (`Config.TomlConfig`); an unreadable or unparsable file is one error.
- `find_config_path`: whether `Lisensor.toml` or `lisensor.toml` exists is the parameter `Sources.defaultConfig`.
- `cu::fs::glob`: the expansion of a pattern is a parameter returning a pattern error or a sequence of entries, each a path or an unreadable entry.
- `Path::extension`, `Path::parent`, `Path::join` and `into_utf8`: parameters.
- The 1024-slot pool, the async join set, join errors (the job results are a plain sequence), the progress bar and all logging, including the warnings for repeated globs.
- `current_year` and its clock: the parameter `year`.
- The list of globs that matched nothing (`no_match_glob`) is collected and never used; the model keeps it without stating anything about it.
- `src/cli.rs`, `src/main.rs` and `src/lib.rs`: argument parsing and wiring only.
- Runner.SearchFrom: its own contract states only that errors accumulate. In check mode Runner.CheckModeSearch states the jobs and errors in full. In fix mode Runner.FixModeSearch states the claims and jobs and when the error list stays empty, and Runner.SearchErrorsFromGlobs that each added error names one of the globs, at most one per glob; the error values themselves are not stated for fix mode.
- Notice.ParseCopyrightInfo: its own contract states two bounds; the full parse is stated by Notice.ParseCopyrightText for every info that has the `start[-end][ holder]` shape.
- Notice.RenderNotice: its own contract states only that the text ends in a newline and starts with the SPDX prefix; its lines are stated by Notice.LinesOfNotice and read back by Notice.RenderRoundTrip.
- Runner.Tally: its own contract states only a bound; the count is stated by Runner.TallyCountsFailures, Runner.TallyZero and Runner.TallyOrderFree.
- Paths.Components: Unix paths only. Windows prefixes, `\` separators and verbatim paths are not modelled, nor any file-system lookup: two paths are one file exactly when their components agree, as `PathBuf` comparison has it, so symbolic links and `..` are not resolved.
- The text of the conflict error: `Runner.GlobError.ConflictingClaim` holds the file's key and both pairs, where the source's message shows the spelling that claimed the file first.
- The files a fix run writes before it fails with a glob error: Runner.Run reports only the errors of such a run and runs no job.
- Decimal.ParseU32: stated only for inputs without a leading `+`, and through Decimal.ParseRender; a `+` sign is accepted as Rust does but no lemma is about it.
