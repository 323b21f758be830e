/**
  * `dproc-cli ingest <file> [-o dir] [-n name]`: reads a data file through
  * the connector for its extension and saves it as
  * `<outputDir>/<bundleName>.bundle.json`.
  *
  * Reading the file and building the bundle is one parameter (`build`);
  * which paths cannot be written is another.
  */
module Ingest {
  import opened Wrappers
  import opened Text
  import Paths
  import Fs

  const DefaultDir: Str := "./output"

  /** The output directory: `--output`, else the configured default, else `./output`; an empty string counts as absent. */
  function OutputDir(output: Option<Str>, configured: Option<Str>): (dir: Str)
    ensures Present(output) ==> dir == output.value
    ensures !Present(output) && Present(configured) ==> dir == configured.value
    ensures !Present(output) && !Present(configured) ==> dir == DefaultDir
  {
    Or(output, Or(configured, DefaultDir))
  }

  /** The first candidate JavaScript counts as true, else the fallback. */
  function FirstPresent(candidates: seq<Option<Str>>, fallback: Str): Str
    decreases |candidates|
  {
    if candidates == [] then fallback
    else if Present(candidates[0]) then candidates[0].value
    else FirstPresent(candidates[1..], fallback)
  }

  /** The output directory is never empty: an empty option falls through to the next. */
  lemma OutputDirPrecedence(output: Option<Str>, configured: Option<Str>)
    ensures OutputDir(output, configured) == FirstPresent([output, configured], DefaultDir)
    ensures OutputDir(output, configured) != []
  {
    var cs := [output, configured];
    assert cs[1..] == [configured] && [configured][1..] == [];
    assert FirstPresent([], DefaultDir) == DefaultDir;
    assert FirstPresent([configured], DefaultDir) == Or(configured, DefaultDir);
  }

  // ----- the bundle name -----

  /** Where `/\.[^/.]+$/` matches: a dot followed by at least one character, none of them `/` or `.`, up to the end. */
  predicate ExtensionAt(s: Str, i: nat) {
    i + 1 < |s| && s[i] == '.' && forall j :: i < j < |s| ==> s[j] != '/' && s[j] != '.'
  }

  /** Drops the final extension (see `ExtensionAt`), if there is one. */
  function StripExtension(name: Str): (r: Str)
    ensures forall i: nat :: ExtensionAt(name, i) ==> r == name[..i]
    ensures (forall i: nat :: !ExtensionAt(name, i)) ==> r == name
  {
    var k := LastIndexOf(name, '.');
    if k.Some? && k.value + 1 < |name| && '/' !in name[k.value + 1..] then
      ExtensionAtLastDot(name, k.value);
      name[..k.value]
    else
      NoExtension(name);
      name
  }

  /** The last dot, followed by something free of `/`, is the one match. */
  lemma ExtensionAtLastDot(name: Str, k: nat)
    requires LastIndexOf(name, '.') == Some(k) && k + 1 < |name| && '/' !in name[k + 1..]
    ensures ExtensionAt(name, k)
    ensures forall i: nat :: ExtensionAt(name, i) ==> i == k
  {
    forall j | k < j < |name| ensures name[j] != '/' {
      assert name[j] == name[k + 1..][j - k - 1];
    }
    forall i: nat | i != k ensures !ExtensionAt(name, i) {
      if i < k {
        assert name[k] == '.';
      }
    }
  }

  /** Without a last dot followed by something free of `/`, nothing matches. */
  lemma NoExtension(name: Str)
    requires var k := LastIndexOf(name, '.'); !(k.Some? && k.value + 1 < |name| && '/' !in name[k.value + 1..])
    ensures forall i: nat :: !ExtensionAt(name, i)
  {
    var k := LastIndexOf(name, '.');
    forall i: nat ensures !ExtensionAt(name, i) {
      if i + 1 < |name| && name[i] == '.' {
        assert name[i] in name;
        if k.value == i {
          var j :| 0 <= j < |name[i + 1..]| && name[i + 1..][j] == '/';
          assert name[i + 1 + j] == '/';
        }
      }
    }
  }

  /** Only the last extension goes: `stem.ext` becomes `stem` whatever dots `stem` holds. */
  lemma StripOneExtension(stem: Str, ext: Str)
    requires ext != [] && '.' !in ext && '/' !in ext
    ensures StripExtension(stem + "." + ext) == stem
  {
    var s := stem + "." + ext;
    assert ExtensionAt(s, |stem|) by {
      forall j | |stem| < j < |s| ensures s[j] != '/' && s[j] != '.' {
        assert s[j] == ext[j - |stem| - 1];
      }
    }
  }

  /** A name without a dot is kept as it is. */
  lemma NoDotKept(name: Str)
    requires '.' !in name
    ensures StripExtension(name) == name
  {
  }

  /** The cases the bundle name's derivation distinguishes. */
  lemma StripExamples()
    ensures StripExtension("data.tar.gz") == "data.tar"
    ensures StripExtension("data") == "data"
    ensures StripExtension(".env") == ""
    ensures StripExtension("notes.") == "notes."
  {
    StripTarGz();
    NoDotKept("data");
    StripHidden();
    TrailingDotKept();
  }

  lemma StripTarGz()
    ensures StripExtension("data.tar.gz") == "data.tar"
  {
    StripOneExtension("data.tar", "gz");
    assert "data.tar" + "." + "gz" == "data.tar.gz";
  }

  /** A name that is all extension, like `.env`, strips to the empty name. */
  lemma StripHidden()
    ensures StripExtension(".env") == ""
  {
    StripOneExtension("", "env");
    assert "" + "." + "env" == ".env";
  }

  /** A final dot with nothing after it is no extension. */
  lemma TrailingDotKept()
    ensures StripExtension("notes.") == "notes."
  {
    assert forall i: nat :: !ExtensionAt("notes.", i);
  }

  /** The bundle name: `--name` when non-empty, else the file's base name without its final extension. */
  function BundleName(name: Option<Str>, filePath: Str): (r: Str)
    ensures Present(name) ==> r == name.value
    ensures !Present(name) ==> r == StripExtension(Paths.BaseName(filePath, []))
  {
    Or(name, StripExtension(Paths.BaseName(filePath, [])))
  }

  /**
    * Where the bundle is saved: `<dir>/<name>.bundle.json`. Its base name
    * without `.bundle.json` is the name; for a name without `/` and a
    * directory without a trailing `/` it lies directly in the directory.
    */
  function BundlePath(dir: Str, name: Str): (path: Str)
    ensures name != [] && '/' !in name ==> Paths.BaseName(path, Suffix) == name
    ensures dir != [] && dir[|dir| - 1] != '/' && '/' !in name ==> Paths.DirName(path) == dir
  {
    BundleNamed(dir, name);
    BundleBeside(dir, name);
    dir + "/" + name + Suffix
  }

  lemma BundleNamed(dir: Str, name: Str)
    ensures name != [] && '/' !in name ==> Paths.BaseName(dir + "/" + name + Suffix, Suffix) == name
  {
    if name != [] && '/' !in name {
      assert '/' !in Suffix;
      Paths.BaseNameOfChild(dir + "/", name, Suffix);
    }
  }

  lemma BundleBeside(dir: Str, name: Str)
    ensures dir != [] && dir[|dir| - 1] != '/' && '/' !in name ==> Paths.DirName(dir + "/" + name + Suffix) == dir
  {
    if dir != [] && dir[|dir| - 1] != '/' && '/' !in name {
      assert '/' !in Suffix;
      var file := name + Suffix;
      assert '/' !in file;
      assert dir + "/" + name + Suffix == dir + "/" + file;
      Paths.DirNameOfChild(dir, file);
    }
  }

  /** A name holding `/` puts the bundle in a subdirectory of the output directory. */
  lemma NameWithSlash(dir: Str, sub: Str, leaf: Str)
    requires sub != [] && sub[|sub| - 1] != '/' && '/' !in leaf
    ensures Paths.DirName(BundlePath(dir, sub + "/" + leaf)) == dir + "/" + sub
  {
    var file := leaf + Suffix;
    assert '/' !in file by {
      assert '/' !in Suffix;
    }
    assert BundlePath(dir, sub + "/" + leaf) == (dir + "/" + sub) + "/" + file;
    Paths.DirNameOfChild(dir + "/" + sub, file);
  }

  /** Without `--name`, `dir/stem.ext` is saved as `stem.bundle.json`. */
  lemma BundleOfDataFile(dir: Str, stem: Str, ext: Str)
    requires dir == [] || dir[|dir| - 1] == '/'
    requires stem != [] && '/' !in stem && ext != [] && '.' !in ext && '/' !in ext
    ensures BundleName(None, dir + stem + "." + ext) == stem
  {
    var dotted := "." + ext;
    assert Paths.BaseName(dir + stem + dotted, []) == stem + dotted by {
      assert '/' !in dotted;
      Paths.BaseNameOfChild(dir, stem, dotted);
    }
    assert dir + stem + dotted == dir + stem + "." + ext;
    assert stem + dotted == stem + "." + ext;
    StripOneExtension(stem, ext);
  }

  const Suffix: Str := ".bundle.json"

  // ----- the command -----

  /**
    * Whether the configuration loads, its `defaultOutputDir`, the connector
    * (from the file path and bundle name to the saved bundle text, or `None`
    * when no connector reads it), and the paths that cannot be written.
    */
  datatype Env = Env(configLoads: bool, configuredDir: Option<Str>, build: (Str, Str) -> Option<Str>, denied: set<Str>)

  datatype Failure = ConfigUnavailable | Denied(path: Str) | ReadFailed

  datatype Run = Failed(reason: Failure, world: Fs.World) | Ingested(path: Str, world: Fs.World)

  /** The `ingest` action: make the output directory, read the file, save the bundle. */
  function Ingest(filePath: Str, output: Option<Str>, name: Option<Str>, env: Env, w: Fs.World): (r: Run)
    ensures var dir := OutputDir(output, env.configuredDir);
            var path := BundlePath(dir, BundleName(name, filePath));
            && (r.Ingested? <==> env.configLoads && dir !in env.denied
                                 && env.build(filePath, BundleName(name, filePath)).Some? && path !in env.denied)
            && (r.Ingested? ==> r.path == path
                                && r.world == Fs.World(w.files[path := env.build(filePath, BundleName(name, filePath)).value],
                                                       w.dirs + {dir}, w.browsers))
            && (r.Failed? ==> r.world.files == w.files && r.world.browsers == w.browsers)
            && (r.Failed? && (r.reason == ReadFailed || r.reason == Denied(path)) ==> dir in r.world.dirs)
  {
    if !env.configLoads then Failed(ConfigUnavailable, w)
    else
      var dir := OutputDir(output, env.configuredDir);
      var made := Fs.Mkdir(w, env.denied, dir);
      if made.Broke? then Failed(Denied(dir), w)
      else
        var bundleName := BundleName(name, filePath);
        var path := BundlePath(dir, bundleName);
        var bundle := env.build(filePath, bundleName);
        if bundle.None? then Failed(ReadFailed, made.world)
        else
          var saved := Fs.WriteFile(made.world, env.denied, path, bundle.value);
          if saved.Broke? then Failed(Denied(path), saved.world) else Ingested(path, saved.world)
  }

  /** The exit status: 1 for every failure the command's error handler catches. */
  function ExitCode(r: Run): (code: nat)
    ensures code == 1 <==> r.Failed?
    ensures code == 0 <==> r.Ingested?
  {
    if r.Failed? then 1 else 0
  }
}
