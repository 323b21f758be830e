# dproc-cli commands, modelled in Dafny

A model of the command-line front end of dproc-cli, written in Dafny. It covers four parts:

- `export` turns one markdown file into HTML, PDF and/or MDX. Each output sits next to the input, and an HTML export can carry a table of contents.
- `report` parses the report options, checks for an LLM key, and writes the report the engine produces.
- `ingest` chooses the output directory and the bundle name, and saves the bundle.
- The tool's own configuration store, `src/config/manager.ts`, holds `load`, `save`, `update` and the file's location.

Everything outside the tool's own logic is a parameter of the model:

- the markdown converter;
- the clock;
- the headless browser;
- the LLM report engine;
- the data connectors;
- the JSON codec;
- which paths cannot be written.

The file system is a value: `Fs.World` holds a map from path to text, the set of directories made, and the number of browser processes left running.

Modules, one per file:

- `Wrappers`: `Option`.
- `Text`: JavaScript string behaviour, including character classes, `trim`, `split`/`join`, first-match `replace`, ASCII lower-casing and decimal printing.
- `Paths`: Node's POSIX `basename`, `dirname`, `normalize` and `join`.
- `Fs`: the world and the two effects, `mkdir` and `writeFile`.
- `Toc`: `generateTOC`.
- `Render`: the HTML page and the MDX file.
- `Export`: the `export` command.
- `Report`: the `report` command.
- `Ingest`: the `ingest` command.
- `Config`: `ConfigManager`.

Where the code and its description differ, the model follows the code:

- The "Exported files" list names every requested format's path. This includes formats that failed.
- A failed PDF export leaves the temporary HTML file behind. When the page load or the PDF write fails, it also leaves the browser running.
- `export` does not fail when every format failed: the run completes, and the process exits with status 0 unless a browser was left running, which keeps it from exiting at all.
- `/^#{1,3}\s+.+$/gm` lets `\s` cross a line break. A line holding only `#`s and blanks therefore swallows the next line: `Toc.LoneHashTakesNextLine` states this.
- `options.x || default` treats the empty string as absent, everywhere it is used.

## Model

| member | source | states |
|---|---|---|
| Export.Formats | src/commands/export.ts:39-43 | a format is listed iff its flag is set, and the listed formats follow the order html, pdf, mdx, whatever order the flags came in |
| Export.Export | src/commands/export.ts:31-87 | the command stops with the world untouched exactly when the configuration fails, no format is requested (checked before the input is read), or the input is unreadable, and it names which; otherwise it has one outcome per requested format, and the "Exported files" list is exactly the output paths in format order |
| Export.ExitCode | src/commands/export.ts:45-48 | a stopped run exits with status 1; a completed run exits with status 0 when it left no browser running, and otherwise does not exit |
| Export.FailedFormatsStillExitZero | src/commands/export.ts:70-86 | when every requested format fails, the run still completes and every outcome is a failure; it exits with status 0 unless a PDF was requested and its page load or write failed, leaving the browser open and the process running |
| Export.OutputPath | src/commands/export.ts:58 | when the input's directory has no trailing `/` and its base name without `.md` is a plain segment, the output lies in that directory and its base name without `.<format>` is that stem |
| Export.OutputBesideInput | src/commands/export.ts:37-38 | for an input `dir/name.md` each output is `dir/name.<format>` |
| Export.OutputOfBareName | src/commands/export.ts:58 | an input `name.md` with no directory exports to `./name.<format>` |
| Export.OutputPathsDistinct | src/commands/export.ts:58 | two different formats never share an output path |
| Export.TempPath | src/commands/export.ts:134 | the temporary path equals the output path iff the latter holds no `.pdf`; otherwise it is six characters longer, `.pdf` having become `.temp.html` |
| Export.TempPathBeside | src/commands/export.ts:134 | when the first `.pdf` in the output path is its extension, the temporary page is the same path ending in `.temp.html` |
| Export.TempPathQuirk | src/commands/export.ts:134 | only the first `.pdf` is replaced, so `a.pdf/r.pdf` gets the temporary page `a.temp.html/r.pdf` |
| Export.TempPathIsNoOutput | src/commands/export.ts:134 | as path strings, the temporary page never equals one of the command's output paths |
| Export.Printing | src/commands/export.ts:138-152 | printing succeeds iff the browser works and the PDF path is writable; success writes the PDF and removes the temporary page; failure changes no file; a browser is left running iff the page load or the PDF write failed |
| Export.ExportPdf | src/commands/export.ts:132-153 | a PDF export succeeds iff the temporary page, the browser and the PDF path all work; it touches only the PDF and temporary paths; a failure after the page was written leaves that page on disk |
| Export.ExportOne | src/commands/export.ts:60-73 | one format succeeds iff its writes can happen, changes no file outside its own paths, and on success holds that format's document |
| Export.RunFormats | src/commands/export.ts:55-74 | one outcome per format, in order, each succeeding iff its own writes can happen, whatever earlier formats did; only the formats' own paths change |
| Export.OutputUntouchedByOthers | src/commands/export.ts:58 | the other formats of a run never write a format's output path |
| Export.RunContents | src/commands/export.ts:55-74 | every format that succeeded still holds its document at its path after the whole loop |
| Export.RunLeaks | src/commands/export.ts:138-148 | the loop leaves at most one browser running, exactly when the PDF format leaves one |
| Export.ExportContents | src/commands/export.ts:55-81 | after a completed run, each listed path whose format succeeded holds that format's document |
| Export.ExportKeepsOthers | src/commands/export.ts:55-74 | a completed run changes no file outside its output and temporary paths |
| Export.ExportBrowsers | src/commands/export.ts:138-148 | a completed run leaves a browser running iff a PDF was requested and its page load or write failed |
| Render.Title | src/commands/export.ts:95 | the title is the given one, or `Report` when it is absent or empty |
| Render.Author | src/commands/export.ts:96 | the author is the given one, or empty |
| Render.HtmlDocument | src/commands/export.ts:93-126 | for a title without `<`, the page's `<title>` reads back as the title, and the body reads back as the table of contents of the raw markdown (empty unless `--toc` is set and there is a heading), then the converted markdown, then the byline; the table of contents shows iff `--toc` is set and the markdown has a heading, and when no heading text holds `<` it reads back as exactly the markdown's entries; for any title, the byline shows iff the author is non-empty, and an author without `<` reads back from it |
| Render.HtmlPage | src/commands/export.ts:98-126 | the page's title, body and byline read back as the parts it was built from, in the order table of contents, converted markdown, byline |
| Render.PageParts | src/commands/export.ts:119-126 | the body between `<body>` and the page end reads back as the table of contents, the converted markdown and the byline, and the byline gives back an author without `<` |
| Render.NameRead | src/commands/export.ts:124 | a name without `<` framed by an opening tag and a closing text reads back from the end of the page |
| Toc.ReadItemsUntilOf | src/commands/export.ts:176-187 | list items followed by the closing `</ul></nav>` and any text read back as the entries and that text |
| Toc.TocThenRest | src/commands/export.ts:172-188 | a table of contents followed by any text reads back as the entries, leaving that text, when no heading text holds `<` |
| Render.MdxDocument | src/commands/export.ts:155-166 | when title, author and timestamp hold no newline, the MDX file's lines are the front matter lines, then the markdown's own lines, then an empty last line, and reading it back gives the title, the author (empty when absent), the timestamp and the markdown unchanged |
| Toc.Scan | src/commands/export.ts:173 | every match starts a line, is a match of the heading pattern at that point, and the matches come in document order without overlap; and every line start from which the pattern matches is covered by some match (none is missed) |
| Toc.LinesAgree | src/commands/export.ts:173 | on text where no `#`-only line runs into the next, the headings are exactly the lines made of one to three `#`, white space and at least one more character, in order |
| Toc.LoneHashTakesNextLine | src/commands/export.ts:173-183 | on `#` followed by the line `## B`, the pattern finds one heading spanning both lines, with level 1, text `## B` and anchor `-b` |
| Toc.Entries | src/commands/export.ts:178-184 | one entry per heading, in document order |
| Toc.HeadingParts | src/commands/export.ts:179-180 | for `n` `#`s, white space and a text, the level is `n` and the displayed text is that text |
| Toc.HeadingLevels | src/commands/export.ts:173-179 | every entry's level is between 1 and 3 |
| Toc.Slug | src/commands/export.ts:181 | the anchor holds only word characters and `-`, never two `-` in a row, and keeps a leading word character |
| Toc.SlugIsSqueezedDashes | src/commands/export.ts:181 | the anchor equals the text with every non-word character replaced by `-` and then each run of `-` squeezed to one |
| Toc.DuplicateAnchors | src/commands/export.ts:173-183 | the text `# A`, newline, `# a` gives two entries, `A` and `a`, both with the anchor `a`: anchors are not de-duplicated |
| Toc.IndentRoundTrip | src/commands/export.ts:183 | the printed indent reads back as `(level - 1) * 1.5` |
| Toc.IndentValues | src/commands/export.ts:183 | levels 1, 2 and 3 print as `0`, `1.5` and `3` |
| Toc.GenerateToc | src/commands/export.ts:172-188 | the table of contents is empty iff there is no heading; otherwise it starts with the `<nav class="toc">` block, and when no heading text holds `<` it reads back as exactly the entries, one `<li>` per heading in document order, each with its level, anchor and text |
| Toc.ReadItemsOf | src/commands/export.ts:178-184 | a run of list items reads back as the entries they were printed from, in order |
| Toc.LevelRoundTrip | src/commands/export.ts:183 | the printed indent reads back as the level it was printed from |
| Paths.BaseNameOfChild | src/commands/export.ts:37 | a file `dir/name + ext` has base name `name` with `ext` dropped, and `name + ext` without |
| Paths.ChildOf | src/commands/export.ts:38 | `dirname` of `dir/name` is `dir`, and its `basename` is `name` |
| Report.ParseFocus | src/commands/report.ts:72-77 | no list iff the option is absent or empty; otherwise its members are exactly the non-empty trimmed comma pieces, none holding a comma or edge white space (order and count: `Report.FocusOfPieces`) |
| Report.FocusOfPieces | src/commands/report.ts:72-77 | comma-free pieces joined by commas parse to the trimmed pieces, empty ones dropped, the rest in their order; an empty focus gives no list |
| Report.FilledAppend | src/commands/report.ts:76 | dropping empty pieces distributes over concatenation, so the kept pieces keep their relative order |
| Report.FocusKeepsOrder | src/commands/report.ts:72-77 | `b, a` parses to `[b, a]`: the given order is kept and the blank after the comma is trimmed |
| Report.FocusRoundTrip | src/commands/report.ts:72-77 | joining clean areas with commas and parsing gives the same areas in the same order |
| Report.BlankFocus | src/commands/report.ts:72-77 | a focus of only blanks and commas is given but names no area |
| Report.OutputPath | src/commands/report.ts:54-55 | the report path is the `--output` value when given, else `./output/<bundle base name without .bundle.json>-report.md` |
| Report.ReportOfIngestedBundle | src/commands/report.ts:54-56 | the bundle `ingest` saved as `<dir>/<name>.bundle.json` is reported to `./output/<name>-report.md`, whose directory is `./output` |
| Report.ModeOf | src/commands/report.ts:62-86 | the spec mode iff a non-empty spec path is given; otherwise the auto mode, whose settings carry the parsed focus, the title, and the defaults `default`, `standard`, `professional` for missing options |
| Report.Report | src/commands/report.ts:33-133 | the report is written iff the configuration loads, a key is set, the bundle loads, the directory and file can be written, and the engine returns content; a missing key fails with the world untouched; no failure writes a file; empty content fails after the directory was made |
| Report.ExitCode | src/commands/report.ts:38-42 | the exit status is 1 exactly for a failed run |
| Report.KeyCheckedFirst | src/commands/report.ts:38-50 | without a key the result does not depend on the bundle, the engine or the writable paths |
| Report.WrittenContent | src/commands/report.ts:91-96 | a written report holds the engine's non-empty content for the mode the spec path selects |
| Ingest.OutputDir | src/commands/ingest.ts:34 | the directory is `--output` if non-empty, else the configured one if non-empty, else `./output` |
| Ingest.OutputDirPrecedence | src/commands/ingest.ts:34 | the directory is the first non-empty candidate in that order, and never empty |
| Ingest.StripExtension | src/commands/ingest.ts:38 | where the pattern for a final extension matches, the name is cut there; where it matches nowhere, the name is kept |
| Ingest.StripOneExtension | src/commands/ingest.ts:38 | `stem.ext` becomes `stem`, whatever dots `stem` holds |
| Ingest.StripExamples | src/commands/ingest.ts:38 | `data.tar.gz` gives `data.tar`, `data` stays, `.env` gives the empty name, `notes.` stays |
| Ingest.BundleName | src/commands/ingest.ts:38 | the bundle name is `--name` when non-empty, else the file's base name without its last extension |
| Ingest.BundleOfDataFile | src/commands/ingest.ts:38 | without `--name`, `dir/stem.ext` is named `stem` |
| Ingest.BundlePath | src/commands/ingest.ts:39 | for a name without `/`, the bundle's base name without `.bundle.json` is the name, and with a directory without a trailing `/` it lies directly in that directory |
| Ingest.NameWithSlash | src/commands/ingest.ts:38-39 | a name `sub/leaf` puts the bundle in the subdirectory `<dir>/sub` |
| Ingest.Ingest | src/commands/ingest.ts:24-99 | the bundle is saved iff the configuration loads, the directory can be made, a connector reads the file and the bundle path can be written; it is then saved at `<dir>/<name>.bundle.json` with the built bundle; a failure writes no file |
| Ingest.ExitCode | src/commands/ingest.ts:95-99 | the exit status is 1 exactly for a failed run |
| Config.ConfigDir | src/config/manager.ts:18 | the configuration directory has no trailing `/` and its base name is `.dproc` |
| Config.ConfigFile | src/config/manager.ts:18-19 | the configuration file is the directory, `/`, `config.json`: its `dirname` is the directory and its base name `config.json` |
| Config.DirShape | src/config/manager.ts:18 | the configuration directory is a normalized path whose last segment is `.dproc` |
| Config.Load | src/config/manager.ts:29-36 | a missing or unparsable file loads as `{}`; otherwise the parsed value |
| Config.Save | src/config/manager.ts:38-45 | saving succeeds iff the directory and the file can be written; it then makes the directory and writes the encoded object; a failure writes no file |
| Config.SaveMakesParent | src/config/manager.ts:38-45 | after a save the file's parent directory exists and the file is present |
| Config.LoadAfterSave | src/config/manager.ts:29-45 | with a codec that round-trips objects, loading after a save gives the saved object |
| Config.Spread | src/config/manager.ts:49 | spreading an object gives its fields, an array or string its elements under the keys `0`, `1`, …, and anything else nothing |
| Config.Merge | src/config/manager.ts:49 | a key set in the partial takes its value, a key set to `undefined` is dropped, and every other key keeps its stored value |
| Config.Update | src/config/manager.ts:47-50 | the update succeeds iff the save can happen, and a failure writes no file |
| Config.UpdateReadBack | src/config/manager.ts:47-50 | after an update, the file reads back with every partial key's new value, no dropped key, and every other stored key unchanged |
| Config.UpdateFromNothing | src/config/manager.ts:29-50 | updating a missing or broken file saves just the partial's defined keys |
| Config.MergeIdempotent | src/config/manager.ts:49 | applying the same partial twice changes nothing more |
| Config.MergeNothing | src/config/manager.ts:49 | an empty partial keeps the stored object |
| Config.UpdatingModelDropsKey | src/config/manager.ts:49 | the merge is shallow: a partial `llm` holding only `model` replaces the stored `llm` and drops its `apiKey` |
| Config.Init | src/config/manager.ts:21-27 | `init` succeeds iff the directory can be made, and then makes it without touching any file |

## Left out

- Headless-browser printing is a single outcome (`Export.Browser`): it works, fails to launch, or fails to load the page. A write failure of the PDF itself comes from the denied paths.
- `marked.parse` is the parameter `parse`. `new Date().toISOString()` is the parameter `now`. `Date.now()` durations are not modelled.
- The report engine (`ReportEngine.generate`, `generateAuto`) is the parameter `generate`. The bundle loader is the flag `bundleLoads`. The connector lookup, the record reading and `BundleBuilder.create` together are the parameter `build`.
- The library `ConfigManager` that `export`, `report` and `ingest` call is the flag `configLoads` plus, for `ingest`, the configured directory, and, for `report`, the `llm.apiKey` it holds (the field `apiKey` of `Report.Env`, where an empty key counts as missing, as it does for `!config.llm?.apiKey`). The second `ConfigManager.load()` in `ingest` reads the same file as the first, so it is one load in the model. `ConfigManager.init(config)` in `report` has no effect the model can see.
- Console output is not modelled: spinners, logger lines, `Display` tables, `report --json`, and the ingest summary.
- `Text.Lower` lower-cases ASCII letters only. JavaScript's full Unicode `toLowerCase` is not modelled.
- JSON numbers are integers in `Config.Json`. `JSON.stringify` and `JSON.parse` are the parameter `codec`, and `Config.LoadAfterSave` assumes it round-trips objects.
- `Config.Update`: states only success and failure. What the saved file holds is stated by `Config.UpdateReadBack` and `Config.UpdateFromNothing`, because the codec is a parameter.
- Reading the markdown file is a lookup in the world's file map. Unlinking the temporary page is a map removal.
- Asynchronous ordering is not modelled: every effect runs in program order.
- `getConfigPath` and `getConfigDir` return `Config.ConfigFile` and `Config.ConfigDir` and are not separate members.
- Paths are compared as strings. Two strings naming the same file, such as `x/.pdf/../r.md` and `x/r.md`, are different keys of the file map. So `Export.TempPathIsNoOutput` does not rule out that removing the temporary page removes an output through such an alias.
- The browser is given the page as the URL `file://` followed by the temporary path. The model does not build that URL; a relative temporary path makes it `file://./…`, which the model does not judge.
- Render.HtmlDocument: inserts the author into the byline unescaped, so the author read-back holds only for authors without `<`; and it is the title's `<` that the title and body read-backs exclude.
- `report` reads `report.metadata.title`, `.style` and `.generatedAt` after writing the file (report.ts:109-116). An engine result without `metadata` makes that throw, so the command exits with status 1 with the report already written. The engine is a parameter returning only content, so this case is not modelled.
- Ingest.NameWithSlash: a name `sub/leaf` saves into `<dir>/sub`, which `ingest` never makes (only the output directory is made). Whether the bundle loader makes missing parent directories is not visible here, so the model's save succeeds whenever the bundle path is writable.
- `Toc.GenerateToc` inserts heading texts and anchors into the HTML unescaped. The read-back in its contract holds only for texts without `<`; a text holding `<` can break the list's markup.
