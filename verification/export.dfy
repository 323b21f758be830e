/**
  * `dproc-cli export <input> [--html] [--pdf] [--mdx]`: reads one markdown
  * file and writes it next to itself in each requested format, in the order
  * HTML, PDF, MDX. A format that fails is reported and skipped; only a
  * failure before the first format (configuration, no format, unreadable
  * input) ends the command with exit code 1.
  *
  * The markdown converter, the PDF printer, the clock, the browser's
  * behaviour and which paths cannot be written are all parts of `Env`.
  */
module Export {
  import opened Wrappers
  import opened Text
  import Paths
  import Fs
  import Render

  datatype Format = Html | Pdf | Mdx

  /** The file extension of a format, as the command spells it. */
  function Tag(f: Format): (t: Str)
    ensures |t| == (if f == Html then 4 else 3)
  {
    match f
    case Html => "html"
    case Pdf => "pdf"
    case Mdx => "mdx"
  }

  /** The position of a format in the order the command runs them. */
  function Rank(f: Format): nat {
    match f
    case Html => 0
    case Pdf => 1
    case Mdx => 2
  }

  /** The command-line options of one export. */
  datatype Request = Request(html: bool, pdf: bool, mdx: bool, options: Render.Options)

  function Wanted(req: Request, f: Format): bool {
    match f
    case Html => req.html
    case Pdf => req.pdf
    case Mdx => req.mdx
  }

  /** The formats to produce: each requested one, in the fixed order. */
  function Formats(req: Request): (fs: seq<Format>)
    ensures forall f :: f in fs <==> Wanted(req, f)
    ensures forall i, j :: 0 <= i < j < |fs| ==> Rank(fs[i]) < Rank(fs[j])
  {
    (if req.html then [Html] else []) + (if req.pdf then [Pdf] else []) + (if req.mdx then [Mdx] else [])
  }

  /**
    * Where format `f` is written: the input's directory, `/`, its base name
    * without `.md`, a dot and the tag. Unless the directory ends in `/` (the
    * root) or the base name is empty or holds `/` (a path of slashes), that
    * is a file in the input's directory named by its stem and the tag.
    */
  function OutputPath(input: Str, f: Format): (out: Str)
    ensures var dir := Paths.DirName(input);
            var stem := Paths.BaseName(input, ".md");
            dir != [] && dir[|dir| - 1] != '/' && stem != [] && '/' !in stem ==>
              Paths.DirName(out) == dir && Paths.BaseName(out, "." + Tag(f)) == stem
  {
    OutputLocation(Paths.DirName(input), Paths.BaseName(input, ".md"), Tag(f));
    Paths.DirName(input) + "/" + Paths.BaseName(input, ".md") + "." + Tag(f)
  }

  lemma OutputLocation(dir: Str, stem: Str, tag: Str)
    ensures dir != [] && dir[|dir| - 1] != '/' && stem != [] && '/' !in stem && tag != [] && '/' !in tag ==>
              Paths.DirName(dir + "/" + stem + "." + tag) == dir
              && Paths.BaseName(dir + "/" + stem + "." + tag, "." + tag) == stem
  {
    if dir != [] && dir[|dir| - 1] != '/' && stem != [] && '/' !in stem && tag != [] && '/' !in tag {
      OutputDirOf(dir, stem, tag);
      OutputBaseOf(dir, stem, tag);
    }
  }

  lemma OutputDirOf(dir: Str, stem: Str, tag: Str)
    requires dir != [] && dir[|dir| - 1] != '/' && stem != [] && '/' !in stem && '/' !in tag
    ensures Paths.DirName(dir + "/" + stem + "." + tag) == dir
  {
    var file := stem + "." + tag;
    assert '/' !in file by {
      assert forall i :: 0 <= i < |file| ==> file[i] != '/' by {
        assert file == stem + ("." + tag);
      }
    }
    assert dir + "/" + stem + "." + tag == dir + "/" + file;
    Paths.DirNameOfChild(dir, file);
  }

  lemma OutputBaseOf(dir: Str, stem: Str, tag: Str)
    requires stem != [] && '/' !in stem && tag != [] && '/' !in tag
    ensures Paths.BaseName(dir + "/" + stem + "." + tag, "." + tag) == stem
  {
    var ext := "." + tag;
    assert '/' !in ext;
    assert dir + "/" + stem + "." + tag == (dir + "/") + stem + ext;
    Paths.BaseNameOfChild(dir + "/", stem, ext);
  }

  /** The stem every output path shares, before the extension. */
  function Stem(input: Str): Str {
    Paths.DirName(input) + "/" + Paths.BaseName(input, ".md") + "."
  }

  lemma OutputPathParts(input: Str, f: Format)
    ensures OutputPath(input, f) == Stem(input) + Tag(f)
  {
  }

  /** A markdown file's outputs sit beside it under the same name. */
  lemma OutputBesideInput(dir: Str, name: Str, f: Format)
    requires dir != [] && dir[|dir| - 1] != '/'
    requires name != [] && '/' !in name
    ensures OutputPath(dir + "/" + name + ".md", f) == dir + "/" + name + "." + Tag(f)
  {
    MarkdownBaseName(dir + "/", name);
    MarkdownDirName(dir, name);
  }

  lemma MarkdownBaseName(dir: Str, name: Str)
    requires dir == [] || dir[|dir| - 1] == '/'
    requires name != [] && '/' !in name
    ensures Paths.BaseName(dir + name + ".md", ".md") == name
  {
    Paths.BaseNameOfChild(dir, name, ".md");
  }

  lemma MarkdownDirName(dir: Str, name: Str)
    requires dir != [] && dir[|dir| - 1] != '/'
    requires name != [] && '/' !in name
    ensures Paths.DirName(dir + "/" + name + ".md") == dir
  {
    var file := name + ".md";
    assert '/' !in file;
    Paths.DirNameOfChild(dir, file);
    assert dir + "/" + file == dir + "/" + name + ".md";
  }

  /** A bare file name is read from, and written to, the current directory. */
  lemma OutputOfBareName(name: Str, f: Format)
    requires name != [] && '/' !in name
    ensures OutputPath(name + ".md", f) == "." + "/" + name + "." + Tag(f)
  {
    var file := name + ".md";
    assert Paths.BaseName(file, ".md") == name by {
      MarkdownBaseName([], name);
      assert [] + name + ".md" == file;
    }
    assert Paths.DirName(file) == "." by {
      assert '/' !in file;
      Paths.DirNameOfChild([], file);
    }
  }

  /** Different formats never share an output path. */
  lemma OutputPathsDistinct(input: Str, f: Format, g: Format)
    requires f != g
    ensures OutputPath(input, f) != OutputPath(input, g)
  {
    var s := Stem(input);
    OutputPathParts(input, f);
    OutputPathParts(input, g);
    if |Tag(f)| == |Tag(g)| {
      var a := s + Tag(f);
      var b := s + Tag(g);
      assert a[|a| - 1] == Tag(f)[|Tag(f)| - 1];
      assert b[|b| - 1] == Tag(g)[|Tag(g)| - 1];
    }
  }

  // ----- the PDF's temporary page -----

  /** The PDF export's temporary page: the output path with its first `.pdf` (only the first) replaced by `.temp.html`. */
  function TempPath(out: Str): (temp: Str)
    ensures temp == out <==> FindFrom(out, ".pdf", 0).None?
    ensures |temp| == |out| + (if FindFrom(out, ".pdf", 0).Some? then 6 else 0)
  {
    ReplaceFirst(out, ".pdf", ".temp.html")
  }

  lemma FoundWhenOccurs(s: Str, pat: Str, k: nat)
    requires OccursAt(s, pat, k)
    ensures FindFrom(s, pat, 0).Some? && FindFrom(s, pat, 0).value <= k
  {
  }

  /** Replacing the extension `.pdf` of `stem + "pdf"` makes the path six characters longer. */
  lemma PdfTempLength(stem: Str)
    requires stem != [] && stem[|stem| - 1] == '.'
    ensures |TempPath(stem + "pdf")| == |stem| + 9
  {
    var out := stem + "pdf";
    assert out[|stem| - 1..] == ".pdf";
    FoundWhenOccurs(out, ".pdf", |stem| - 1);
  }

  /** The temporary page's path is six characters longer than the PDF's. */
  lemma TempPathLength(input: Str)
    ensures |TempPath(OutputPath(input, Pdf))| == |Stem(input)| + 9
  {
    OutputPathParts(input, Pdf);
    var s := Stem(input);
    assert s != [] && s[|s| - 1] == '.';
    PdfTempLength(s);
  }

  lemma StemNonEmpty(input: Str)
    ensures |Stem(input)| >= 2
  {
  }

  /** The temporary page never lands on any of the export's own outputs. */
  lemma TempPathIsNoOutput(input: Str, f: Format)
    ensures TempPath(OutputPath(input, Pdf)) != OutputPath(input, f)
  {
    TempPathLength(input);
    OutputPathParts(input, f);
  }

  /** When the extension is the only `.pdf`, the temporary page sits beside the PDF. */
  lemma TempPathBeside(stem: Str)
    requires FindFrom(stem + ".pdf", ".pdf", 0) == Some(|stem|)
    ensures TempPath(stem + ".pdf") == stem + ".temp.html"
  {
    var s := stem + ".pdf";
    ReplaceAtEnd(s, ".pdf", ".temp.html");
    assert s[..|stem|] == stem;
  }

  /** An earlier `.pdf` in the path is replaced instead of the extension. */
  lemma TempPathQuirk()
    ensures TempPath("a.pdf/r.pdf") == "a.temp.html/r.pdf"
  {
    var s := "a.pdf/r.pdf";
    assert s[1..5] == ".pdf";
    assert s[0..4] != ".pdf" by {
      assert s[0..4][0] == 'a';
    }
    assert FindFrom(s, ".pdf", 1) == Some(1);
    assert FindFrom(s, ".pdf", 0) == Some(1);
    var r := TempPath(s);
    assert r[..1] == "a";
    assert r[1..11] == ".temp.html";
    assert r[11..] == s[5..] == "/r.pdf";
    assert r == r[..1] + r[1..11] + r[11..];
  }

  // ----- one format -----

  /** How the headless browser behaves during this run. */
  datatype Browser = LaunchFails(reason: Str) | LoadFails(reason: Str) | Works

  /**
    * Everything outside the command's own logic: whether the configuration
    * loads, the markdown converter, the ISO timestamp, the PDF printer, the
    * paths that cannot be written, and the browser.
    */
  datatype Env = Env(configLoads: bool, parse: Str -> Str, now: Str, printer: Str -> Str,
                     denied: set<Str>, browser: Browser)

  /** The two documents a markdown text is rendered to: the HTML page and the MDX file. */
  datatype Docs = Docs(html: Str, mdx: Str)

  function Documents(md: Str, o: Render.Options, env: Env): Docs {
    Docs(Render.HtmlDocument(md, o, env.parse), Render.MdxDocument(md, o, env.now))
  }

  /** What a successful export of format `f` leaves at its output path. */
  function Content(f: Format, d: Docs, env: Env): Str {
    match f
    case Html => d.html
    case Pdf => env.printer(d.html)
    case Mdx => d.mdx
  }

  /** Whether a path and its directory can both be written. */
  predicate Writable(env: Env, path: Str) {
    Paths.DirName(path) !in env.denied && path !in env.denied
  }

  /** When the export of `f` to `out` succeeds. */
  predicate Succeeds(f: Format, out: Str, env: Env) {
    match f
    case Pdf => Writable(env, TempPath(out)) && env.browser.Works? && out !in env.denied
    case _ => Writable(env, out)
  }

  /** The PDF export opened a browser and then failed, so the browser is never closed. */
  predicate LeavesBrowser(f: Format, out: Str, env: Env) {
    f == Pdf && Writable(env, TempPath(out))
    && (env.browser.LoadFails? || (env.browser.Works? && out in env.denied))
  }

  datatype Outcome = Succeeded(format: Format, path: Str) | Failed(format: Format, path: Str, fault: Fs.Fault)

  datatype Attempt = Attempt(outcome: Outcome, world: Fs.World)

  /** Two file maps agree everywhere outside `keep`. */
  ghost predicate SameOutside(a: map<Str, Str>, b: map<Str, Str>, keep: set<Str>) {
    forall p :: p !in keep ==> (p in a <==> p in b) && (p in a ==> a[p] == b[p])
  }

  lemma SameOutsideTrans(a: map<Str, Str>, b: map<Str, Str>, c: map<Str, Str>, k1: set<Str>, k2: set<Str>)
    requires SameOutside(a, b, k1) && SameOutside(b, c, k2)
    ensures SameOutside(a, c, k2 + k1)
  {
  }

  /** The paths exporting `f` to `out` may write or remove. */
  function TouchedBy(f: Format, out: Str): set<Str> {
    if f == Pdf then {out, TempPath(out)} else {out}
  }

  /** Launching the browser, loading the page and printing it; then closing and removing the page. */
  function Printing(out: Str, temp: Str, html: Str, env: Env, w: Fs.World): (a: Attempt)
    ensures a.outcome.format == Pdf && a.outcome.path == out
    ensures a.outcome.Succeeded? <==> env.browser.Works? && out !in env.denied
    ensures a.world.browsers == w.browsers + (if env.browser.LoadFails? || (env.browser.Works? && out in env.denied) then 1 else 0)
    ensures a.outcome.Succeeded? ==> a.world.files == w.files[out := env.printer(html)] - {temp}
    ensures a.outcome.Failed? ==> a.world.files == w.files
  {
    match env.browser
    case LaunchFails(reason) => Attempt(Failed(Pdf, out, Fs.BrowserFault(reason)), w)
    case LoadFails(reason) => Attempt(Failed(Pdf, out, Fs.BrowserFault(reason)), w.(browsers := w.browsers + 1))
    case Works =>
      if out in env.denied then Attempt(Failed(Pdf, out, Fs.Denied(out)), w.(browsers := w.browsers + 1))
      else Attempt(Succeeded(Pdf, out), w.(files := w.files[out := env.printer(html)] - {temp}))
  }

  /** `exportToPdf`: the page goes to a temporary file, the browser prints it, the file is removed. */
  function ExportPdf(out: Str, d: Docs, env: Env, w: Fs.World): (a: Attempt)
    requires out != TempPath(out)
    ensures a.outcome.format == Pdf && a.outcome.path == out
    ensures a.outcome.Succeeded? <==> Succeeds(Pdf, out, env)
    ensures a.world.browsers == w.browsers + (if LeavesBrowser(Pdf, out, env) then 1 else 0)
    ensures SameOutside(a.world.files, w.files, {out, TempPath(out)})
    ensures a.outcome.Succeeded? ==> out in a.world.files && a.world.files[out] == env.printer(d.html)
    ensures a.outcome.Succeeded? ==> TempPath(out) !in a.world.files
    ensures a.outcome.Failed? && Writable(env, TempPath(out)) ==>
              a.world.files == w.files[TempPath(out) := d.html]
  {
    var temp := TempPath(out);
    var html := d.html;
    var staged := Fs.WriteWithParent(w, env.denied, temp, html);
    if staged.Broke? then Attempt(Failed(Pdf, out, staged.fault), staged.world)
    else Printing(out, temp, html, env, staged.world)
  }

  /** One iteration of the export loop: the outcome, and the machine after it. */
  function ExportOne(f: Format, out: Str, d: Docs, env: Env, w: Fs.World): (a: Attempt)
    requires f == Pdf ==> out != TempPath(out)
    ensures a.outcome.format == f && a.outcome.path == out
    ensures a.outcome.Succeeded? <==> Succeeds(f, out, env)
    ensures a.world.browsers == w.browsers + (if LeavesBrowser(f, out, env) then 1 else 0)
    ensures SameOutside(a.world.files, w.files, TouchedBy(f, out))
    ensures a.outcome.Succeeded? ==> out in a.world.files && a.world.files[out] == Content(f, d, env)
  {
    if f == Pdf then ExportPdf(out, d, env, w)
    else
      var s := Fs.WriteWithParent(w, env.denied, out, Content(f, d, env));
      if s.Broke? then Attempt(Failed(f, out, s.fault), s.world) else Attempt(Succeeded(f, out), s.world)
  }

  function Touched(input: Str, fs: seq<Format>): set<Str>
    decreases |fs|
  {
    if fs == [] then {} else TouchedBy(fs[0], OutputPath(input, fs[0])) + Touched(input, fs[1..])
  }

  /** How many browsers a run of `fs` leaves open. */
  function Leaks(input: Str, fs: seq<Format>, env: Env): nat
    decreases |fs|
  {
    if fs == [] then 0
    else (if LeavesBrowser(fs[0], OutputPath(input, fs[0]), env) then 1 else 0) + Leaks(input, fs[1..], env)
  }

  datatype Run = Run(outcomes: seq<Outcome>, world: Fs.World)

  /** The export loop over `fs`, each format caught on its own. */
  function RunFormats(input: Str, fs: seq<Format>, d: Docs, env: Env, w: Fs.World): (r: Run)
    ensures |r.outcomes| == |fs|
    ensures forall k :: 0 <= k < |fs| ==> r.outcomes[k].format == fs[k] && r.outcomes[k].path == OutputPath(input, fs[k])
    ensures forall k :: 0 <= k < |fs| ==> (r.outcomes[k].Succeeded? <==> Succeeds(fs[k], OutputPath(input, fs[k]), env))
    ensures r.world.browsers == w.browsers + Leaks(input, fs, env)
    ensures SameOutside(r.world.files, w.files, Touched(input, fs))
    decreases |fs|
  {
    if fs == [] then Run([], w)
    else
      var out := OutputPath(input, fs[0]);
      TempPathIsNoOutput(input, Pdf);
      var a := ExportOne(fs[0], out, d, env, w);
      var rest := RunFormats(input, fs[1..], d, env, a.world);
      SameOutsideTrans(rest.world.files, a.world.files, w.files, Touched(input, fs[1..]), TouchedBy(fs[0], out));
      ConsOutcomes(input, fs, env, a.outcome, rest.outcomes);
      Run([a.outcome] + rest.outcomes, rest.world)
  }

  /** The outcome of the first format, followed by those of the others, reports every format in order. */
  lemma ConsOutcomes(input: Str, fs: seq<Format>, env: Env, o: Outcome, os: seq<Outcome>)
    requires fs != [] && |os| == |fs| - 1
    requires o.format == fs[0] && o.path == OutputPath(input, fs[0])
    requires o.Succeeded? <==> Succeeds(fs[0], OutputPath(input, fs[0]), env)
    requires forall k :: 0 <= k < |fs[1..]| ==> os[k].format == fs[1..][k] && os[k].path == OutputPath(input, fs[1..][k])
    requires forall k :: 0 <= k < |fs[1..]| ==> (os[k].Succeeded? <==> Succeeds(fs[1..][k], OutputPath(input, fs[1..][k]), env))
    ensures forall k :: 0 <= k < |fs| ==> ([o] + os)[k].format == fs[k] && ([o] + os)[k].path == OutputPath(input, fs[k])
    ensures forall k :: 0 <= k < |fs| ==> (([o] + os)[k].Succeeded? <==> Succeeds(fs[k], OutputPath(input, fs[k]), env))
  {
    var all := [o] + os;
    forall k | 0 < k < |fs|
      ensures all[k] == os[k - 1] && fs[k] == fs[1..][k - 1]
    {
    }
  }

  // ----- the command -----

  datatype Abort = ConfigUnavailable | NoFormatSpecified | InputUnreadable(path: Str)

  /**
    * The command's result: stopped before any format, or a completed loop
    * with its outcomes and the "Exported files" list it prints.
    */
  datatype ExportRun =
    | Aborted(reason: Abort, world: Fs.World)
    | Completed(outcomes: seq<Outcome>, listed: seq<Str>, world: Fs.World)

  /** `dproc-cli export <input>` with the options in `req`. */
  function Export(input: Str, req: Request, env: Env, w: Fs.World): (r: ExportRun)
    ensures r.Aborted? <==> !env.configLoads || Formats(req) == [] || input !in w.files
    ensures r.Aborted? ==> r.world == w
    ensures r.Aborted? ==> r.reason == (if !env.configLoads then ConfigUnavailable
                                        else if Formats(req) == [] then NoFormatSpecified
                                        else InputUnreadable(input))
    ensures r.Completed? ==>
              && |r.outcomes| == |Formats(req)| && |r.listed| == |Formats(req)|
              && forall k :: 0 <= k < |r.listed| ==>
                   r.listed[k] == OutputPath(input, Formats(req)[k]) && r.outcomes[k].path == r.listed[k]
  {
    if !env.configLoads then Aborted(ConfigUnavailable, w)
    else
      var fs := Formats(req);
      if fs == [] then Aborted(NoFormatSpecified, w)
      else if input !in w.files then Aborted(InputUnreadable(input), w)
      else
        Loop(input, fs, Documents(w.files[input], req.options, env), env, w)
  }

  /** The export loop over `fs` and the "Exported files" list printed after it. */
  function Loop(input: Str, fs: seq<Format>, d: Docs, env: Env, w: Fs.World): (r: ExportRun)
    ensures r.Completed? && |r.outcomes| == |fs| && |r.listed| == |fs|
    ensures forall k :: 0 <= k < |fs| ==> r.listed[k] == OutputPath(input, fs[k]) && r.outcomes[k].path == r.listed[k]
  {
    var run := RunFormats(input, fs, d, env, w);
    Completed(run.outcomes, seq(|fs|, k requires 0 <= k < |fs| => OutputPath(input, fs[k])), run.world)
  }

  /** How the process ends: with an exit status, or not at all while a browser it launched is still open. */
  datatype Ending = Exits(status: nat) | KeepsRunning

  /**
   * A stopped run calls `process.exit(1)`. A completed run just returns, so the process
   * exits with status 0 once nothing keeps it alive; a browser the run left open does.
   * `w` is the world the run started from.
   */
  function ExitCode(r: ExportRun, w: Fs.World): (e: Ending)
    ensures e == Exits(1) <==> r.Aborted?
    ensures e == Exits(0) <==> r.Completed? && r.world.browsers <= w.browsers
    ensures e == KeepsRunning <==> r.Completed? && r.world.browsers > w.browsers
  {
    if r.Aborted? then Exits(1)
    else if r.world.browsers > w.browsers then KeepsRunning
    else Exits(0)
  }

  // ----- what a run leaves behind -----

  /** Formats in strictly increasing order, as `Formats` yields them. */
  predicate InOrder(fs: seq<Format>) {
    forall i, j :: 0 <= i < j < |fs| ==> Rank(fs[i]) < Rank(fs[j])
  }

  /** No other format's export writes or removes a format's output path. */
  lemma {:induction false} OutputUntouchedByOthers(input: Str, f: Format, fs: seq<Format>)
    requires f !in fs
    ensures OutputPath(input, f) !in Touched(input, fs)
    decreases |fs|
  {
    if fs != [] {
      OutputPathsDistinct(input, f, fs[0]);
      TempPathIsNoOutput(input, f);
      assert fs[0] in fs;
      OutputUntouchedByOthers(input, f, fs[1..]);
    }
  }

  /** After the loop, every format that succeeded has its document at its output path. */
  lemma {:induction false} RunContents(input: Str, fs: seq<Format>, d: Docs, env: Env, w: Fs.World)
    requires InOrder(fs)
    ensures var r := RunFormats(input, fs, d, env, w);
            forall k :: 0 <= k < |fs| && r.outcomes[k].Succeeded? ==>
              OutputPath(input, fs[k]) in r.world.files && r.world.files[OutputPath(input, fs[k])] == Content(fs[k], d, env)
    decreases |fs|
  {
    if fs != [] {
      var r := RunFormats(input, fs, d, env, w);
      var out := OutputPath(input, fs[0]);
      TempPathIsNoOutput(input, Pdf);
      var a := ExportOne(fs[0], out, d, env, w);
      var rest := RunFormats(input, fs[1..], d, env, a.world);
      assert r == Run([a.outcome] + rest.outcomes, rest.world);
      RunContents(input, fs[1..], d, env, a.world);
      assert fs[0] !in fs[1..] by {
        forall k | 0 <= k < |fs[1..]| ensures fs[1..][k] != fs[0] {
          assert Rank(fs[0]) < Rank(fs[k + 1]);
        }
      }
      OutputUntouchedByOthers(input, fs[0], fs[1..]);
      forall k | 0 <= k < |fs| && r.outcomes[k].Succeeded?
        ensures OutputPath(input, fs[k]) in r.world.files && r.world.files[OutputPath(input, fs[k])] == Content(fs[k], d, env)
      {
        if k > 0 {
          assert r.outcomes[k] == rest.outcomes[k - 1];
          assert fs[k] == fs[1..][k - 1];
        }
      }
    }
  }

  /** At most one browser is left running: the PDF export's, when it fails after launching. */
  lemma {:induction false} RunLeaks(input: Str, fs: seq<Format>, env: Env)
    requires InOrder(fs)
    ensures Leaks(input, fs, env) == if Pdf in fs && LeavesBrowser(Pdf, OutputPath(input, Pdf), env) then 1 else 0
    decreases |fs|
  {
    if fs != [] {
      RunLeaks(input, fs[1..], env);
      if fs[0] == Pdf {
        assert Pdf !in fs[1..] by {
          forall k | 0 <= k < |fs[1..]| ensures fs[1..][k] != Pdf {
            assert Rank(fs[0]) < Rank(fs[k + 1]);
          }
        }
      } else {
        assert Pdf in fs <==> Pdf in fs[1..] by {
          assert fs == [fs[0]] + fs[1..];
        }
      }
    }
  }

  /** A completed export leaves every successful format's document at its output path. */
  lemma ExportContents(input: Str, req: Request, env: Env, w: Fs.World)
    requires env.configLoads && Formats(req) != [] && input in w.files
    ensures var r := Export(input, req, env, w);
            var fs := Formats(req);
            var d := Documents(w.files[input], req.options, env);
            forall k :: 0 <= k < |fs| && r.outcomes[k].Succeeded? ==>
              r.listed[k] in r.world.files && r.world.files[r.listed[k]] == Content(fs[k], d, env)
  {
    var fs := Formats(req);
    var d := Documents(w.files[input], req.options, env);
    RunContents(input, fs, d, env, w);
    LoopContents(input, fs, d, env, w);
  }

  lemma LoopContents(input: Str, fs: seq<Format>, d: Docs, env: Env, w: Fs.World)
    requires var r := RunFormats(input, fs, d, env, w);
             forall k :: 0 <= k < |fs| && r.outcomes[k].Succeeded? ==>
               OutputPath(input, fs[k]) in r.world.files && r.world.files[OutputPath(input, fs[k])] == Content(fs[k], d, env)
    ensures var r := Loop(input, fs, d, env, w);
            forall k :: 0 <= k < |fs| && r.outcomes[k].Succeeded? ==>
              r.listed[k] in r.world.files && r.world.files[r.listed[k]] == Content(fs[k], d, env)
  {
  }

  /** A completed export changes no file outside the outputs and the PDF's temporary page. */
  lemma ExportKeepsOthers(input: Str, req: Request, env: Env, w: Fs.World)
    requires env.configLoads && Formats(req) != [] && input in w.files
    ensures SameOutside(Export(input, req, env, w).world.files, w.files, Touched(input, Formats(req)))
  {
  }

  /** A browser is left running exactly when the PDF export failed after launching one. */
  lemma ExportBrowsers(input: Str, req: Request, env: Env, w: Fs.World)
    requires env.configLoads && Formats(req) != [] && input in w.files
    ensures Export(input, req, env, w).world.browsers
            == w.browsers + (if req.pdf && LeavesBrowser(Pdf, OutputPath(input, Pdf), env) then 1 else 0)
  {
    RunLeaks(input, Formats(req), env);
  }

  /**
   * The loop's failures do not make the command fail: a run whose every format failed
   * still completes, and exits 0 unless the PDF export left its browser open.
   */
  lemma FailedFormatsStillExitZero(input: Str, req: Request, env: Env, w: Fs.World)
    requires env.configLoads && Formats(req) != [] && input in w.files
    requires forall f :: Wanted(req, f) ==> !Succeeds(f, OutputPath(input, f), env)
    ensures var r := Export(input, req, env, w);
            && r.Completed?
            && ExitCode(r, w) == (if req.pdf && LeavesBrowser(Pdf, OutputPath(input, Pdf), env) then KeepsRunning else Exits(0))
            && forall k :: 0 <= k < |r.outcomes| ==> r.outcomes[k].Failed?
  {
    var r := Export(input, req, env, w);
    var fs := Formats(req);
    ExportBrowsers(input, req, env, w);
    forall k | 0 <= k < |r.outcomes| ensures r.outcomes[k].Failed? {
      assert fs[k] in fs;
    }
  }
}
