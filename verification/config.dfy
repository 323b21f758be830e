/**
  * The command-line tool's own configuration store: one JSON file,
  * `<home>/.dproc/config.json`. `load` falls back to an empty object when the
  * file is missing or does not parse, `save` makes the directory and writes
  * the file, and `update` saves the shallow merge `{ ...stored, ...partial }`.
  *
  * The home directory and the JSON codec are parameters.
  */
module Config {
  import opened Wrappers
  import opened Text
  import Paths
  import Fs

  /** A JSON value as `JSON.parse` returns it (numbers restricted to integers). */
  datatype Json =
    | JNull
    | JBool(b: bool)
    | JNum(n: int)
    | JStr(s: Str)
    | JArr(items: seq<Json>)
    | JObj(fields: map<Str, Json>)

  /** `JSON.parse` (`None` when it throws) and `JSON.stringify(_, null, 2)`. */
  datatype Codec = Codec(parse: Str -> Option<Json>, stringify: Json -> Str)

  /** Objects survive a save and a load unchanged. */
  ghost predicate Faithful(codec: Codec) {
    forall m: map<Str, Json> :: codec.parse(codec.stringify(JObj(m))) == Some(JObj(m))
  }

  const Empty: Json := JObj(map[])

  // ----- where the file lives -----

  const DirSegment: Str := ".dproc"
  const FileSegment: Str := "config.json"

  /**
    * The configuration directory: `.dproc` joined onto the home directory,
    * so its last segment is `.dproc` and it has no trailing `/`.
    */
  function ConfigDir(home: Str): (dir: Str)
    ensures dir != [] && dir[|dir| - 1] != '/'
    ensures Paths.BaseName(dir, []) == DirSegment
  {
    SegmentsPlain();
    Paths.JoinedChild(home, DirSegment);
    Paths.PathJoin(home, DirSegment)
  }

  /**
    * The configuration file: `config.json` directly inside the configuration
    * directory.
    */
  function ConfigFile(home: Str): (file: Str)
    ensures file == ConfigDir(home) + "/" + FileSegment
    ensures Paths.DirName(file) == ConfigDir(home)
    ensures Paths.BaseName(file, []) == FileSegment
  {
    var dir := ConfigDir(home);
    SegmentsPlain();
    Paths.JoinedChild(home, DirSegment);
    assert Paths.PathJoin(dir, FileSegment) == dir + "/" + FileSegment;
    Paths.ChildOf(dir, FileSegment);
    Paths.PathJoin(dir, FileSegment)
  }

  lemma SegmentsPlain()
    ensures Paths.PlainName(DirSegment) && Paths.PlainName(FileSegment)
  {
    assert '/' !in DirSegment;
    assert '/' !in FileSegment;
  }

  /** The directory is a normalized path whose last segment is `.dproc`. */
  lemma DirShape(home: Str) returns (absolute: bool, st: seq<Str>)
    ensures |st| >= 1 && Paths.Resolved(st, !absolute) && ConfigDir(home) == Paths.Assemble(absolute, st)
    ensures st[|st| - 1] == DirSegment
  {
    SegmentsPlain();
    absolute, st := Paths.NormalizeChildShape(home, DirSegment);
  }

  // ----- spreading a value into an object -----

  /** The numerals of the indices below `n`. */
  function Numerals(n: nat): set<Str> {
    set i | 0 <= i < n :: Decimal(i)
  }

  lemma NumeralsStep(n: nat)
    ensures Numerals(n + 1) == Numerals(n) + {Decimal(n)}
  {
  }

  /** `{ ...items }` for an array: one property per index, named by its numeral. */
  function Indexed(items: seq<Json>): (r: map<Str, Json>)
    ensures r.Keys == Numerals(|items|)
    ensures forall i :: 0 <= i < |items| ==> r[Decimal(i)] == items[i]
    decreases |items|
  {
    if items == [] then map[]
    else
      var n := |items| - 1;
      var front := Indexed(items[..n]);
      IndexedStep(items, front);
      front[Decimal(n) := items[n]]
  }

  /** Adding the last index to the properties of the others. */
  lemma IndexedStep(items: seq<Json>, front: map<Str, Json>)
    requires items != []
    requires front.Keys == Numerals(|items| - 1)
    requires forall i :: 0 <= i < |items| - 1 ==> front[Decimal(i)] == items[..|items| - 1][i]
    ensures var r := front[Decimal(|items| - 1) := items[|items| - 1]];
            && r.Keys == Numerals(|items|)
            && forall i :: 0 <= i < |items| ==> r[Decimal(i)] == items[i]
  {
    var n := |items| - 1;
    var r := front[Decimal(n) := items[n]];
    NumeralsStep(n);
    DecimalDistinct(n);
    forall i | 0 <= i < |items| ensures r[Decimal(i)] == items[i] {
      if i < n {
        assert Decimal(i) in Numerals(n);
        assert front[Decimal(i)] == items[..n][i];
      }
    }
  }

  /** Different indices have different numerals. */
  lemma DecimalDistinct(n: nat)
    ensures forall i :: 0 <= i < n ==> Decimal(i) != Decimal(n)
  {
    forall i | 0 <= i < n ensures Decimal(i) != Decimal(n) {
      DecimalRoundTrip(i);
      DecimalRoundTrip(n);
    }
  }

  /** The characters of a string as one-character strings. */
  function Chars(s: Str): (r: seq<Json>)
    ensures |r| == |s| && forall i :: 0 <= i < |s| ==> r[i] == JStr([s[i]])
  {
    seq(|s|, i requires 0 <= i < |s| => JStr([s[i]]))
  }

  /**
    * The own properties `{ ...v }` copies: an object's fields, an array's or a
    * string's indices, and nothing for `null`, booleans and numbers.
    */
  function Spread(v: Json): (r: map<Str, Json>)
    ensures v.JObj? ==> r == v.fields
    ensures v.JNull? || v.JBool? || v.JNum? ==> r == map[]
    ensures v.JArr? ==> r.Keys == Numerals(|v.items|) && forall i :: 0 <= i < |v.items| ==> r[Decimal(i)] == v.items[i]
    ensures v.JStr? ==> r.Keys == Numerals(|v.s|) && forall i :: 0 <= i < |v.s| ==> r[Decimal(i)] == JStr([v.s[i]])
  {
    match v
    case JObj(m) => m
    case JArr(items) => Indexed(items)
    case JStr(s) => Indexed(Chars(s))
    case _ => map[]
  }

  // ----- the three operations -----

  /** `load()`: the parsed file, or `{}` when reading or parsing fails. */
  function Load(home: Str, codec: Codec, w: Fs.World): (v: Json)
    ensures ConfigFile(home) !in w.files ==> v == Empty
    ensures ConfigFile(home) in w.files && codec.parse(w.files[ConfigFile(home)]).None? ==> v == Empty
    ensures ConfigFile(home) in w.files && codec.parse(w.files[ConfigFile(home)]).Some? ==>
              v == codec.parse(w.files[ConfigFile(home)]).value
  {
    if ConfigFile(home) !in w.files then Empty
    else codec.parse(w.files[ConfigFile(home)]).GetOr(Empty)
  }

  /** `save(config)`: make the directory, then write the file. */
  function Save(cfg: map<Str, Json>, home: Str, codec: Codec, w: Fs.World, denied: set<Str>): (r: Fs.Step)
    ensures r.Done? <==> ConfigDir(home) !in denied && ConfigFile(home) !in denied
    ensures r.Done? ==> r.world == Fs.World(w.files[ConfigFile(home) := codec.stringify(JObj(cfg))],
                                            w.dirs + {ConfigDir(home)}, w.browsers)
    ensures r.Broke? ==> r.world.files == w.files
  {
    var made := Fs.Mkdir(w, denied, ConfigDir(home));
    if made.Broke? then made else Fs.WriteFile(made.world, denied, ConfigFile(home), codec.stringify(JObj(cfg)))
  }

  /**
    * `{ ...stored, ...partial }` as `JSON.stringify` sees it: `partial`'s
    * properties win, and one that `partial` sets to `undefined` (`None`) is
    * left out of the saved text.
    */
  function Merge(stored: map<Str, Json>, partial: map<Str, Option<Json>>): (r: map<Str, Json>)
    ensures forall k :: k in partial && partial[k].Some? ==> k in r && r[k] == partial[k].value
    ensures forall k :: k in partial && partial[k].None? ==> k !in r
    ensures forall k :: k !in partial ==> (k in r <==> k in stored) && (k in r ==> r[k] == stored[k])
  {
    map k | k in stored.Keys + partial.Keys && (k in partial ==> partial[k].Some?)
      :: if k in partial then partial[k].value else stored[k]
  }

  /** `update(partial)`: load, merge, save. */
  function Update(partial: map<Str, Option<Json>>, home: Str, codec: Codec, w: Fs.World, denied: set<Str>): (r: Fs.Step)
    ensures r.Done? <==> ConfigDir(home) !in denied && ConfigFile(home) !in denied
    ensures r.Broke? ==> r.world.files == w.files
  {
    Save(Merge(Spread(Load(home, codec, w)), partial), home, codec, w, denied)
  }

  /** `init()`: make the configuration directory. */
  function Init(home: Str, w: Fs.World, denied: set<Str>): (r: Fs.Step)
    ensures r.Done? <==> ConfigDir(home) !in denied
    ensures r.Done? ==> ConfigDir(home) in r.world.dirs && r.world.files == w.files
  {
    Fs.Mkdir(w, denied, ConfigDir(home))
  }

  // ----- what the operations promise together -----

  /** A save is read back by the next load. */
  lemma LoadAfterSave(cfg: map<Str, Json>, home: Str, codec: Codec, w: Fs.World, denied: set<Str>)
    requires Faithful(codec)
    requires Save(cfg, home, codec, w, denied).Done?
    ensures Load(home, codec, Save(cfg, home, codec, w, denied).world) == JObj(cfg)
  {
    assert codec.parse(codec.stringify(JObj(cfg))) == Some(JObj(cfg));
  }

  /** A successful save has made the directory that holds the file. */
  lemma SaveMakesParent(cfg: map<Str, Json>, home: Str, codec: Codec, w: Fs.World, denied: set<Str>)
    requires Save(cfg, home, codec, w, denied).Done?
    ensures var r := Save(cfg, home, codec, w, denied);
            Paths.DirName(ConfigFile(home)) in r.world.dirs && ConfigFile(home) in r.world.files
  {
  }

  /**
    * After an update, every property of `partial` reads back with its value,
    * and every other stored property reads back unchanged.
    */
  lemma UpdateReadBack(partial: map<Str, Option<Json>>, home: Str, codec: Codec, w: Fs.World, denied: set<Str>)
    requires Faithful(codec)
    requires Update(partial, home, codec, w, denied).Done?
    ensures var before := Spread(Load(home, codec, w));
            var after := Load(home, codec, Update(partial, home, codec, w, denied).world);
            && after.JObj?
            && (forall k :: k in partial && partial[k].Some? ==> k in after.fields && after.fields[k] == partial[k].value)
            && (forall k :: k in partial && partial[k].None? ==> k !in after.fields)
            && (forall k :: k !in partial ==>
                  && (k in after.fields <==> k in before)
                  && (k in before ==> after.fields[k] == before[k]))
  {
    LoadAfterSave(Merge(Spread(Load(home, codec, w)), partial), home, codec, w, denied);
  }

  /** A missing or unreadable file makes the update start from `{}`. */
  lemma UpdateFromNothing(partial: map<Str, Option<Json>>, home: Str, codec: Codec, w: Fs.World, denied: set<Str>)
    requires ConfigFile(home) !in w.files || codec.parse(w.files[ConfigFile(home)]).None?
    requires Update(partial, home, codec, w, denied).Done?
    ensures var r := Update(partial, home, codec, w, denied);
            r.world.files[ConfigFile(home)] == codec.stringify(JObj(map k | k in partial && partial[k].Some? :: partial[k].value))
  {
    assert Load(home, codec, w) == Empty;
    assert Spread(Empty) == map[];
    MergeIntoNothing(partial);
  }

  lemma MergeIntoNothing(partial: map<Str, Option<Json>>)
    ensures Merge(map[], partial) == map k | k in partial && partial[k].Some? :: partial[k].value
  {
  }

  /** Applying the same update twice stores what applying it once stores. */
  lemma MergeIdempotent(stored: map<Str, Json>, partial: map<Str, Option<Json>>)
    ensures Merge(Merge(stored, partial), partial) == Merge(stored, partial)
  {
    var once := Merge(stored, partial);
    var twice := Merge(once, partial);
    assert twice.Keys == once.Keys;
  }

  /** An empty update stores exactly what was there. */
  lemma MergeNothing(stored: map<Str, Json>)
    ensures Merge(stored, map[]) == stored
  {
    assert Merge(stored, map[]).Keys == stored.Keys;
  }

  /**
    * The merge is shallow: updating only `llm.model` replaces the whole
    * stored `llm` object, so its `apiKey` is lost.
    */
  lemma UpdatingModelDropsKey(key: Str, before: Str, after: Str)
    ensures var stored := map["llm" := JObj(map["apiKey" := JStr(key), "model" := JStr(before)])];
            var merged := Merge(stored, map["llm" := Some(JObj(map["model" := JStr(after)]))]);
            "llm" in merged && merged["llm"] == JObj(map["model" := JStr(after)])
            && "apiKey" !in merged["llm"].fields
  {
    assert "apiKey" != "model";
  }
}
