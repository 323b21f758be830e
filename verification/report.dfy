/**
  * `dproc-cli report <bundle> [spec]`: checks that an LLM key is configured,
  * loads the bundle, makes the output directory, has the report engine write
  * the report (from the spec file when one is given, automatically
  * otherwise), refuses empty content, and saves the report.
  *
  * The configuration and bundle loaders, the report engine and which paths
  * cannot be written are parameters.
  */
module Report {
  import opened Wrappers
  import opened Text
  import Paths
  import Fs
  import Ingest

  // ----- the focus list -----

  /** The non-empty strings, in their order. */
  function Filled(xs: seq<Str>): (r: seq<Str>)
    ensures |r| <= |xs|
    ensures forall x :: x in r <==> x in xs && x != []
    decreases |xs|
  {
    if xs == [] then []
    else
      assert xs == [xs[0]] + xs[1..];
      (if xs[0] == [] then [] else [xs[0]]) + Filled(xs[1..])
  }

  /**
    * The focus list: `None` when the option is absent or empty; otherwise
    * the comma-separated pieces, trimmed, with the empty ones dropped. No area
    * holds a comma or has white space at its ends.
    */
  function ParseFocus(focus: Option<Str>): (r: Option<seq<Str>>)
    ensures r.None? <==> !Present(focus)
    ensures r.Some? ==> forall x :: x in r.value ==> x != [] && ',' !in x && Trim(x) == x
    ensures r.Some? ==> forall x :: x in r.value <==> x != [] && x in Trims(Split(focus.value, ','))
  {
    if !Present(focus) then None
    else
      var pieces := Split(focus.value, ',');
      CleanPieces(focus.value);
      Some(Filled(Trims(pieces)))
  }

  /** The trimmed pieces of a comma split hold no comma and are their own trim. */
  lemma CleanPieces(s: Str)
    ensures forall x :: x in Trims(Split(s, ',')) ==> ',' !in x && Trim(x) == x
  {
    var pieces := Split(s, ',');
    SplitPiecesFree(s, ',');
    forall i | 0 <= i < |pieces| ensures ',' !in Trim(pieces[i]) && Trim(Trim(pieces[i])) == Trim(pieces[i]) {
      TrimKeepsOut(pieces[i], ',');
      TrimTwice(pieces[i]);
    }
  }

  /** Pieces that are already clean pass the filter unchanged. */
  lemma {:induction false} FilledOfFilled(xs: seq<Str>)
    requires forall k :: 0 <= k < |xs| ==> xs[k] != []
    ensures Filled(xs) == xs
    decreases |xs|
  {
    if xs != [] {
      FilledOfFilled(xs[1..]);
    }
  }

  /** The filter distributes over concatenation, so the kept strings stay in their order. */
  lemma {:induction false} FilledAppend(xs: seq<Str>, ys: seq<Str>)
    ensures Filled(xs + ys) == Filled(xs) + Filled(ys)
    decreases |xs|
  {
    if xs != [] {
      assert (xs + ys)[1..] == xs[1..] + ys;
      FilledAppend(xs[1..], ys);
    } else {
      assert xs + ys == ys;
    }
  }

  /**
    * The focus written as comma-free pieces joined by commas parses to those
    * pieces, trimmed, with the empty ones dropped and the rest in order.
    */
  lemma FocusOfPieces(pieces: seq<Str>)
    requires |pieces| >= 1 && forall k :: 0 <= k < |pieces| ==> ',' !in pieces[k]
    ensures ParseFocus(Some(Join(pieces, ','))) ==
              if Join(pieces, ',') == [] then None else Some(Filled(Trims(pieces)))
  {
    SplitJoin(pieces, ',');
  }

  /**
    * `--focus "b, a"` gives `["b", "a"]`: the areas keep the order they were
    * given in, whatever it is, and the blank after the comma is trimmed away.
    */
  lemma FocusKeepsOrder(b: Str, a: Str)
    requires a != [] && b != [] && ',' !in a && ',' !in b
    requires Trim(a) == a && Trim(b) == b
    ensures ParseFocus(Some(b + ", " + a)) == Some([b, a])
  {
    var pieces := [b, [' '] + a];
    JoinSpaced(b, a);
    TrimsSpaced(b, a);
    FilledPair(b, a);
    assert Join(pieces, ',') != [] by {
      assert |b + ", " + a| > 0;
    }
    FocusOfPieces(pieces);
  }

  lemma FilledPair(x: Str, y: Str)
    requires x != [] && y != []
    ensures Filled([x, y]) == [x, y]
  {
    FilledAppend([x], [y]);
    assert [x] + [y] == [x, y];
    assert [x][1..] == [] && [y][1..] == [];
  }

  lemma JoinSpaced(b: Str, a: Str)
    ensures Join([b, [' '] + a], ',') == b + ", " + a
  {
    JoinAppend([b], [' '] + a, ',');
  }

  lemma TrimsSpaced(b: Str, a: Str)
    requires Trim(a) == a && Trim(b) == b
    ensures Trims([b, [' '] + a]) == [b, a]
  {
    var pieces := [b, [' '] + a];
    TrimLeadingSpace(' ', a);
    forall k | 0 <= k < 2 ensures [b, a][k] == Trim(pieces[k]) {
    }
    TrimsOf(pieces, [b, a]);
  }

  /** Joining focus areas with commas and parsing the result gives them back. */
  lemma FocusRoundTrip(areas: seq<Str>)
    requires |areas| >= 1
    requires forall k :: 0 <= k < |areas| ==> areas[k] != [] && ',' !in areas[k] && Trim(areas[k]) == areas[k]
    ensures ParseFocus(Some(Join(areas, ','))) == Some(areas)
  {
    JoinFirst(areas, ',');
    SplitJoin(areas, ',');
    assert Trims(areas) == areas;
    FilledOfFilled(areas);
  }

  /** A focus made only of commas and blanks is given, yet names no area. */
  lemma BlankFocus()
    ensures ParseFocus(Some(" ,")) == Some([])
  {
    SplitSome(" ,", ',', 1);
    assert " ,"[..1] == " " && " ,"[2..] == [];
    SplitNone([], ',');
    assert Split(" ,", ',') == [" ", []];
    assert Trim(" ") == [];
    assert Trims([" ", []]) == [[], []];
  }

  // ----- the output path -----

  const ReportsDir: Str := "./output"
  const ReportSuffix: Str := "-report.md"

  /** The report path: `--output` when non-empty, else `./output/<bundle base name without .bundle.json>-report.md`. */
  function OutputPath(output: Option<Str>, bundlePath: Str): (path: Str)
    ensures Present(output) ==> path == output.value
    ensures !Present(output) ==> path == ReportsDir + "/" + (Paths.BaseName(bundlePath, Ingest.Suffix) + ReportSuffix)
  {
    Or(output, ReportsDir + "/" + (Paths.BaseName(bundlePath, Ingest.Suffix) + ReportSuffix))
  }

  /**
    * The bundle `ingest` saved as `<dir>/<name>.bundle.json` is reported to
    * `./output/<name>-report.md` by default, and that file's directory is the
    * one `mkdir` creates.
    */
  lemma ReportOfIngestedBundle(dir: Str, name: Str)
    requires name != [] && '/' !in name
    ensures OutputPath(None, Ingest.BundlePath(dir, name)) == ReportsDir + "/" + (name + ReportSuffix)
    ensures Paths.DirName(OutputPath(None, Ingest.BundlePath(dir, name))) == ReportsDir
  {
    var file := name + ReportSuffix;
    assert '/' !in file by {
      assert '/' !in ReportSuffix;
    }
    assert OutputPath(None, Ingest.BundlePath(dir, name)) == ReportsDir + "/" + file;
    Paths.ChildOf(ReportsDir, file);
  }

  // ----- choosing the mode -----

  /** The auto report's settings, as passed to `generateAuto`. */
  datatype Settings = Settings(style: Str, depth: Str, focus: Option<seq<Str>>, tone: Str, title: Option<Str>)

  /** A report from a YAML spec file, or an automatic one. */
  datatype Mode = FromSpec(spec: Str) | Auto(settings: Settings)

  /** The command-line options; an absent option is `None`. */
  datatype Options = Options(output: Option<Str>, style: Option<Str>, depth: Option<Str>, focus: Option<Str>,
                             tone: Option<Str>, title: Option<Str>)

  /** An option's value, or its declared default when it was not given. */
  function Given(o: Option<Str>, default: Str): (r: Str)
    ensures o.Some? ==> r == o.value
    ensures o.None? ==> r == default
  {
    if o.Some? then o.value else default
  }

  /** The spec mode for a non-empty spec path, the auto mode otherwise. */
  function ModeOf(specPath: Option<Str>, o: Options): (m: Mode)
    ensures m.FromSpec? <==> Present(specPath)
    ensures m.FromSpec? ==> m.spec == specPath.value
    ensures m.Auto? ==> m.settings.focus == ParseFocus(o.focus) && m.settings.title == o.title
    ensures m.Auto? ==> m.settings.style == Given(o.style, "default") && m.settings.depth == Given(o.depth, "standard")
                        && m.settings.tone == Given(o.tone, "professional")
  {
    if Present(specPath) then FromSpec(specPath.value)
    else Auto(Settings(Given(o.style, "default"), Given(o.depth, "standard"), ParseFocus(o.focus),
                       Given(o.tone, "professional"), o.title))
  }

  // ----- the command -----

  /** What the report engine gives back: an error, or a report whose content may be missing. */
  datatype Generated = Threw(reason: Str) | Returned(content: Option<Str>)

  /**
    * Whether the configuration loads and the `llm.apiKey` it holds, whether
    * the bundle loads, the report engine, and the paths that cannot be written.
    */
  datatype Env = Env(configLoads: bool, apiKey: Option<Str>, bundleLoads: bool, generate: Mode -> Generated,
                     denied: set<Str>)

  datatype Failure =
    | ConfigUnavailable
    | LlmNotConfigured
    | BundleUnreadable
    | Denied(path: Str)
    | GenerationFailed(reason: Str)
    | EmptyContent

  datatype Run = Failed(reason: Failure, world: Fs.World) | Written(path: Str, world: Fs.World)

  /** The `report` action. */
  function Report(bundlePath: Str, specPath: Option<Str>, o: Options, env: Env, w: Fs.World): (r: Run)
    ensures r == Failed(LlmNotConfigured, w) <==> env.configLoads && !Present(env.apiKey)
    ensures r.Failed? && (r.reason == ConfigUnavailable || r.reason == LlmNotConfigured || r.reason == BundleUnreadable)
            ==> r.world == w
    ensures r.Failed? ==> r.world.files == w.files
    ensures var path := OutputPath(o.output, bundlePath);
            var made := Paths.DirName(path);
            var g := env.generate(ModeOf(specPath, o));
            && (r.Written? <==> env.configLoads && Present(env.apiKey) && env.bundleLoads && made !in env.denied
                                && g.Returned? && Present(g.content) && path !in env.denied)
            && (r.Written? ==> r.path == path
                               && r.world == Fs.World(w.files[path := g.content.value], w.dirs + {made}, w.browsers))
            && (r.Failed? && (r.reason.GenerationFailed? || r.reason == EmptyContent) ==> made in r.world.dirs)
            && (r.Failed? && r.reason == EmptyContent <==>
                  env.configLoads && Present(env.apiKey) && env.bundleLoads && made !in env.denied
                  && g.Returned? && !Present(g.content))
  {
    if !env.configLoads then Failed(ConfigUnavailable, w)
    else if !Present(env.apiKey) then Failed(LlmNotConfigured, w)
    else if !env.bundleLoads then Failed(BundleUnreadable, w)
    else
      var path := OutputPath(o.output, bundlePath);
      var made := Fs.Mkdir(w, env.denied, Paths.DirName(path));
      if made.Broke? then Failed(Denied(Paths.DirName(path)), w)
      else
        var g := env.generate(ModeOf(specPath, o));
        if g.Threw? then Failed(GenerationFailed(g.reason), made.world)
        else if !Present(g.content) then Failed(EmptyContent, made.world)
        else
          var saved := Fs.WriteFile(made.world, env.denied, path, g.content.value);
          if saved.Broke? then Failed(Denied(path), saved.world) else Written(path, saved.world)
  }

  /** The exit status: 1 for the missing key and for every error the `catch` handles. */
  function ExitCode(r: Run): (code: nat)
    ensures code == 1 <==> r.Failed?
    ensures code == 0 <==> r.Written?
  {
    if r.Failed? then 1 else 0
  }

  /**
    * Without a key the command stops before the bundle is loaded: the
    * bundle, the engine and the file system's permissions make no difference.
    */
  lemma KeyCheckedFirst(bundlePath: Str, specPath: Option<Str>, o: Options, env: Env, other: Env, w: Fs.World)
    requires env.configLoads && !Present(env.apiKey)
    requires other.configLoads == env.configLoads && other.apiKey == env.apiKey
    ensures Report(bundlePath, specPath, o, env, w) == Report(bundlePath, specPath, o, other, w) == Failed(LlmNotConfigured, w)
  {
  }

  /** A written report holds the engine's content for the mode the spec path selects. */
  lemma WrittenContent(bundlePath: Str, specPath: Option<Str>, o: Options, env: Env, w: Fs.World)
    requires Report(bundlePath, specPath, o, env, w).Written?
    ensures var r := Report(bundlePath, specPath, o, env, w);
            var m := ModeOf(specPath, o);
            && r.path in r.world.files
            && env.generate(m).Returned? && r.world.files[r.path] == env.generate(m).content.value
            && r.world.files[r.path] != []
            && (m.FromSpec? <==> Present(specPath))
  {
  }
}
