/**
 * `rucola(name, defaults, aliases, argv)` of index.js: check the name,
 * build the defaults, file, environment and command-line layers, merge
 * them in that order, and return the merged data together with the
 * checked and used file paths and a dotted-path getter. The process state
 * is a parameter.
 */
module Rucola {
  import opened Wrappers
  import opened Objects
  import opened Strings
  import opened Configs
  import opened Normalizer
  import opened Formats
  import opened Paths
  import opened Sources
  import opened DeepExtend
  import opened ConfigFiles
  import opened Loading

  /** What rucola reads from the process and the file system. */
  datatype World = World(
    isWin: bool,
    home: Option<Path>,
    cwd: Path,
    fileExists: string -> bool,
    read: string -> Option<string>,
    env: seq<(string, string)>,
    parsers: Parsers)

  datatype Error = NameNotString

  /**
   * The returned configuration: `data` is what serializes; `usedConfigs`,
   * `checkedConfigs` and `get` are the non-enumerable extras.
   */
  datatype Conf = Conf(data: Fields, usedConfigs: seq<string>, checkedConfigs: seq<string>)
  {
    /** `conf.get(keyPath)`: the value at the dotted path, or `undefined`. */
    function Get(keyPath: string): Option<Config>
    {
      GetIn(Node(data), Split(keyPath, '.'))
    }
  }

  /** The defaults layer: string defaults are parsed first; then `normalize(defaults || {})`. */
  function DefaultsLayer(ps: Parsers, defaults: Config): (r: Fields)
    ensures Normal(Node(r))
  {
    if defaults.Leaf? && defaults.value.Str? then Normalize(Node(Parse(ps, defaults.value.s)))
    else Normalize(defaults)
  }

  /** `argv.config`, read from the command-line layer when it is a string. */
  function ArgvConfig(argvLayer: Fields): Option<string>
  {
    var c := Lookup(argvLayer, "config");
    if c.Some? && c.value.Leaf? && c.value.value.Str? then Some(c.value.value.s) else None
  }

  function EnvLayer(name: string, w: World): Fields
  {
    Env(name + "_", w.env)
  }

  /** `allConfigFiles` */
  function CheckedConfigs(name: string, w: World, argvLayer: Fields): seq<string>
  {
    var found := Find(w.fileExists, w.cwd, ["." + name + "rc"]);
    RemoveDuplicates(Candidates(name, w.isWin, w.home, found, ArgvConfig(argvLayer)))
  }

  /** The layers merged over the defaults: the file layers in order, then the environment, then the command line. */
  function Layers(name: string, argv: Fields, w: World): seq<Fields>
  {
    var argvLayer := Argv(argv);
    ConfigValues(w.parsers, w.read, CheckedConfigs(name, w, argvLayer)) + [EnvLayer(name, w), argvLayer]
  }

  lemma LayersNormal(name: string, argv: Fields, w: World)
    ensures forall i :: 0 <= i < |Layers(name, argv, w)| ==> Normal(Node(Layers(name, argv, w)[i]))
  {
    var checked := CheckedConfigs(name, w, Argv(argv));
    ConfigValuesOfUsed(w.parsers, w.read, checked);
  }

  /** `rucola(name, defaults, aliases, argv)` with `argv` already parsed. */
  function Build(name: Option<string>, defaults: Config, argv: Fields, w: World): (r: Result<Conf, Error>)
    ensures r.Err? <==> name.None?
    ensures r.Ok? ==> Normal(Node(r.value.data))
  {
    if name.None? then Err(NameNotString)
    else
      var n := name.value;
      var checked := CheckedConfigs(n, w, Argv(argv));
      LayersNormal(n, argv, w);
      MergeAllNormal(DefaultsLayer(w.parsers, defaults), Layers(n, argv, w));
      Ok(Conf(
        MergeAll(DefaultsLayer(w.parsers, defaults), Layers(n, argv, w)),
        UsedConfigs(w.read, checked),
        checked))
  }

  lemma LayersWellFormed(n: string, defaults: Config, argv: Fields, w: World)
    ensures forall i :: 0 <= i < |Layers(n, argv, w)| ==> WellFormed(Node(Layers(n, argv, w)[i]))
  {
    LayersNormal(n, argv, w);
    forall i | 0 <= i < |Layers(n, argv, w)| ensures WellFormed(Node(Layers(n, argv, w)[i])) {
      NormalWellFormed(Node(Layers(n, argv, w)[i]));
    }
  }

  /** A command-line scalar is always the final value at its path. */
  lemma ArgvWins(n: string, defaults: Config, argv: Fields, w: World, p: seq<string>, v: Scalar)
    requires LeafAt(Node(Argv(argv)), p) == Some(v)
    ensures LeafAt(Node(Build(Some(n), defaults, argv, w).value.data), p) == Some(v)
  {
    var layers := Layers(n, argv, w);
    LayersWellFormed(n, defaults, argv, w);
    MergeAllPrecedence(DefaultsLayer(w.parsers, defaults), layers, |layers| - 1, p, v);
  }

  /** An environment scalar is the final value unless the command line reaches its path. */
  lemma EnvOverridesFiles(n: string, defaults: Config, argv: Fields, w: World, p: seq<string>, v: Scalar)
    requires LeafAt(Node(EnvLayer(n, w)), p) == Some(v)
    requires Silent(Argv(argv), p)
    ensures LeafAt(Node(Build(Some(n), defaults, argv, w).value.data), p) == Some(v)
  {
    var layers := Layers(n, argv, w);
    LayersWellFormed(n, defaults, argv, w);
    MergeAllPrecedence(DefaultsLayer(w.parsers, defaults), layers, |layers| - 2, p, v);
  }

  /**
   * A scalar of the file `usedConfigs[k]` is the final value unless a later
   * file, the environment or the command line reaches its path.
   */
  lemma FileWins(n: string, defaults: Config, argv: Fields, w: World, k: int, p: seq<string>, v: Scalar)
    requires var conf := Build(Some(n), defaults, argv, w).value;
      0 <= k < |conf.usedConfigs| && LeafAt(Node(Loaded(w.parsers, w.read, conf.usedConfigs[k])), p) == Some(v)
    requires forall i :: k < i < |Layers(n, argv, w)| ==> Silent(Layers(n, argv, w)[i], p)
    ensures LeafAt(Node(Build(Some(n), defaults, argv, w).value.data), p) == Some(v)
  {
    var checked := CheckedConfigs(n, w, Argv(argv));
    BuildShape(n, defaults, argv, w);
    LayersWellFormed(n, defaults, argv, w);
    FileLayerWins(w, checked, DefaultsLayer(w.parsers, defaults), [EnvLayer(n, w), Argv(argv)], k, p, v);
  }

  lemma FileLayerWins(w: World, checked: seq<string>, acc: Fields, rest: seq<Fields>, k: int, p: seq<string>, v: Scalar)
    requires 0 <= k < |UsedConfigs(w.read, checked)|
    requires LeafAt(Node(Loaded(w.parsers, w.read, UsedConfigs(w.read, checked)[k])), p) == Some(v)
    requires var layers := ConfigValues(w.parsers, w.read, checked) + rest;
      && (forall i :: 0 <= i < |layers| ==> WellFormed(Node(layers[i])))
      && (forall i :: k < i < |layers| ==> Silent(layers[i], p))
    ensures LeafAt(Node(MergeAll(acc, ConfigValues(w.parsers, w.read, checked) + rest)), p) == Some(v)
  {
    ConfigValuesOfUsed(w.parsers, w.read, checked);
    var layers := ConfigValues(w.parsers, w.read, checked) + rest;
    assert layers[k] == Loaded(w.parsers, w.read, UsedConfigs(w.read, checked)[k]);
    MergeAllPrecedence(acc, layers, k, p, v);
  }

  lemma BuildShape(n: string, defaults: Config, argv: Fields, w: World)
    ensures Build(Some(n), defaults, argv, w).value ==
      Conf(MergeAll(DefaultsLayer(w.parsers, defaults), Layers(n, argv, w)),
        UsedConfigs(w.read, CheckedConfigs(n, w, Argv(argv))),
        CheckedConfigs(n, w, Argv(argv)))
  {
  }

  /** A scalar of the defaults survives when no file, environment variable or flag reaches its path. */
  lemma DefaultsSurvive(n: string, defaults: Config, argv: Fields, w: World, p: seq<string>, v: Scalar)
    requires LeafAt(Node(DefaultsLayer(w.parsers, defaults)), p) == Some(v)
    requires forall i :: 0 <= i < |Layers(n, argv, w)| ==> Silent(Layers(n, argv, w)[i], p)
    ensures LeafAt(Node(Build(Some(n), defaults, argv, w).value.data), p) == Some(v)
  {
    LayersWellFormed(n, defaults, argv, w);
    MergeAllKeeps(DefaultsLayer(w.parsers, defaults), Layers(n, argv, w), p, v);
  }

  /** The data holds the top-level keys of the layers and nothing else; the extras are not among them unless a layer has them. */
  lemma DataKeys(n: string, defaults: Config, argv: Fields, w: World)
    ensures Keys(Build(Some(n), defaults, argv, w).value.data) ==
      Keys(DefaultsLayer(w.parsers, defaults)) + KeysOfAll(Layers(n, argv, w))
  {
    MergeAllKeys(DefaultsLayer(w.parsers, defaults), Layers(n, argv, w));
  }

  /** The raw candidate list for `name`. */
  function CandidateList(n: string, argv: Fields, w: World): seq<Option<string>>
  {
    Candidates(n, w.isWin, w.home, Find(w.fileExists, w.cwd, ["." + n + "rc"]), ArgvConfig(Argv(argv)))
  }

  /**
   * `checkedConfigs` holds every non-empty candidate exactly once, and
   * `usedConfigs` only checked paths whose files have content; outside
   * Windows `/etc/<name>/config` comes first and `/etc/<name>rc` is checked.
   */
  lemma Metadata(n: string, defaults: Config, argv: Fields, w: World)
    ensures forall a, b :: 0 <= a < b < |Build(Some(n), defaults, argv, w).value.checkedConfigs| ==>
      Build(Some(n), defaults, argv, w).value.checkedConfigs[a] != Build(Some(n), defaults, argv, w).value.checkedConfigs[b]
    ensures forall x :: x in Build(Some(n), defaults, argv, w).value.checkedConfigs <==>
      Some(x) in CandidateList(n, argv, w) && x != ""
    ensures forall x :: x in Build(Some(n), defaults, argv, w).value.usedConfigs ==>
      x in Build(Some(n), defaults, argv, w).value.checkedConfigs && Readable(w.read, x)
    ensures !w.isWin ==>
      |Build(Some(n), defaults, argv, w).value.checkedConfigs| >= 1 &&
      Build(Some(n), defaults, argv, w).value.checkedConfigs[0] == "/etc/" + n + "/config" &&
      "/etc/" + n + "rc" in Build(Some(n), defaults, argv, w).value.checkedConfigs
  {
    BuildShape(n, defaults, argv, w);
    var list := CandidateList(n, argv, w);
    RemoveDuplicatesSpec(list);
    if !w.isWin {
      CandidatesEtc(n, w.home, Find(w.fileExists, w.cwd, ["." + n + "rc"]), ArgvConfig(Argv(argv)));
    }
    var used := Build(Some(n), defaults, argv, w).value.usedConfigs;
    forall x | x in used ensures x in CheckedConfigs(n, w, Argv(argv)) && Readable(w.read, x) {
      var k :| 0 <= k < |used| && used[k] == x;
    }
  }

  /** `get` follows the dotted path: joining dot-free keys with `.` reaches the value at those keys. */
  lemma GetDotted(conf: Conf, p: seq<string>)
    requires |p| >= 1 && forall i :: 0 <= i < |p| ==> '.' !in p[i]
    ensures conf.Get(Join(p, '.')) == GetIn(Node(conf.data), p)
  {
    SplitJoin(p, '.');
  }

  /** `get` gives `undefined`, without failing, as soon as a segment of the path is missing. */
  lemma {:induction false} GetMissing(c: Config, p: seq<string>, k: nat, fs: Fields)
    requires k < |p| && GetIn(c, p[..k]) == Some(Node(fs)) && Lookup(fs, p[k]) == None
    ensures GetIn(c, p) == None
    decreases k
  {
    if k == 0 {
      assert p[..0] == [];
    } else {
      var child := Lookup(c.fields, p[0]).value;
      assert p[..k][1..] == p[1..][..k - 1];
      GetMissing(child, p[1..], k - 1, fs);
    }
  }
}
