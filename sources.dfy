/**
 * `env` and `argv` of lib/utils.js: the environment-variable layer and the
 * command-line layer. Both rename keys with a conditional transform and
 * normalize the result. The environment and the parsed command line are
 * parameters.
 */
module Sources {
  import opened Wrappers
  import opened Objects
  import opened Strings
  import opened Configs
  import opened KeyTransform
  import opened Normalizer

  // ---------------------------------------------------------------------
  // Shared: where an entry of a flat object ends up after normalize

  /**
   * In a flat object with distinct keys, the scalar under key `k` ends up at
   * `k` lower-cased and split at its dots, unless another key's path is
   * comparable with that one.
   */
  lemma FlatEntryLands(o: Fields, k: string, v: Scalar)
    requires Flat(o) && Distinct(o) && Lookup(o, k) == Some(Leaf(v))
    requires forall e :: e in o && e.0 != k ==>
      !Comparable(Split(ToLower(e.0), '.'), Split(ToLower(k), '.'))
    ensures LeafAt(Node(Normalize(Node(o))), Split(ToLower(k), '.')) == Some(v)
  {
    LookupSome(o, k);
    var m :| 0 <= m < |o| && o[m] == (k, Leaf(v));
    forall j | 0 <= j < |o| && j != m
      ensures !Comparable(Split(ToLower(o[j].0), '.'), Split(ToLower(o[m].0), '.'))
    {
      assert o[j] in o;
    }
    NormalizeFlatEntry(o, m);
  }

  /** The object built from a flat one by `conditionalTransformKeys` is flat, with distinct keys. */
  lemma TransformKeysFlat(o: Fields, cond: Condition<Config>, tr: (string, Config) -> string)
    requires Flat(o)
    ensures Flat(TransformKeys(o, cond, tr)) && Distinct(TransformKeys(o, cond, tr))
  {
    var t := TransformKeys(o, cond, tr);
    TransformKeysDistinct(o, cond, tr);
    forall j | 0 <= j < |t| ensures t[j].1.Leaf? {
      assert t[j] in t;
      TransformKeysSound(o, cond, tr, t[j]);
    }
  }

  // ---------------------------------------------------------------------
  // Environment variables

  /** `prefix.toUpperCase().replace(/[^A-Z0-9]+/g, '_')` */
  function EnvPrefix(prefix: string): string
  {
    ReplaceRuns(ToUpper(prefix), IsUpperAlnum, '_')
  }

  /** `s.substring(n)` */
  function Drop(s: string, n: nat): (r: string)
    ensures n <= |s| ==> s == s[..n] + r
    ensures n > |s| ==> r == []
  {
    if n <= |s| then s[n..] else []
  }

  predicate NotUnderscore(c: char)
  {
    c != '_'
  }

  /** `transformKey`: the prefix is cut off and each run of `_` becomes `.`. */
  function EnvKey(p: string, key: string): string
  {
    ReplaceRuns(Drop(key, |p|), NotUnderscore, '.')
  }

  /** `isAppVar`: the name starts with the prefix. */
  function EnvCondition(p: string): Condition<Config>
  {
    When((k: string, v: Config) => StartsWith(k, p))
  }

  function EnvRename(p: string): (string, Config) -> string
  {
    (k: string, v: Config) => EnvKey(p, k)
  }

  /** The environment as an object of string values. */
  function EnvFields(env: seq<(string, string)>): (r: Fields)
    ensures |r| == |env|
    ensures forall i :: 0 <= i < |env| ==> r[i] == (env[i].0, Leaf(Str(env[i].1)))
  {
    seq(|env|, i requires 0 <= i < |env| => (env[i].0, Leaf(Str(env[i].1))))
  }

  /** `env(prefix, env)` */
  function Env(prefix: string, env: seq<(string, string)>): (r: Fields)
    ensures Normal(Node(r))
  {
    var p := EnvPrefix(prefix);
    Normalize(Node(TransformKeys(EnvFields(env), EnvCondition(p), EnvRename(p))))
  }

  /** The path at which variable `key` ends up. */
  function EnvPath(p: string, key: string): seq<string>
  {
    Split(ToLower(EnvKey(p, key)), '.')
  }

  /**
   * The prefix holds only `A`-`Z`, `0`-`9` and `_`, never two `_` in a row,
   * and keeps every letter and digit of the upper-cased argument, in order;
   * a prefix of ASCII letters and digits is only upper-cased.
   */
  lemma EnvPrefixShape(prefix: string)
    ensures var r := EnvPrefix(prefix);
      && (forall i :: 0 <= i < |r| ==> IsUpperAlnum(r[i]) || r[i] == '_')
      && (forall i :: 0 <= i < |r| - 1 ==> !(r[i] == '_' && r[i + 1] == '_'))
      && Filter(r, IsUpperAlnum) == Filter(ToUpper(prefix), IsUpperAlnum)
    ensures (forall i :: 0 <= i < |prefix| ==> IsAlnum(prefix[i])) ==> EnvPrefix(prefix) == ToUpper(prefix)
  {
    ReplaceRunsSpec(ToUpper(prefix), IsUpperAlnum, '_', false);
  }

  /**
   * The prefix is rewritten run by run: a maximal run of characters other
   * than ASCII letters and digits becomes one `_` in its place, so `yolo_`
   * gives `YOLO_` and `a-b` gives `A_B`.
   */
  lemma EnvPrefixRun(x: string, w: string, y: string)
    requires x == [] || IsAlnum(x[|x| - 1])
    requires w != [] && forall i :: 0 <= i < |w| ==> !IsAlnum(w[i])
    requires y == [] || IsAlnum(y[0])
    ensures EnvPrefix(x + w + y) == EnvPrefix(x) + "_" + EnvPrefix(y)
  {
    var X, W, Y := ToUpper(x), ToUpper(w), ToUpper(y);
    assert ToUpper(x + w + y) == X + W + Y;
    assert X == [] || IsUpperAlnum(X[|X| - 1]) by {
      if x != [] { assert X[|X| - 1] == UpperChar(x[|x| - 1]); }
    }
    assert forall i :: 0 <= i < |W| ==> !IsUpperAlnum(W[i]) by {
      forall i | 0 <= i < |W| ensures !IsUpperAlnum(W[i]) { assert W[i] == UpperChar(w[i]); }
    }
    ReplaceRunsRun(X, W, Y, IsUpperAlnum, '_');
  }

  /** A character that a renamed variable keeps as it is: neither the `_` it replaces nor the `.` it inserts. */
  predicate NotSeparator(c: char)
  {
    c != '_' && c != '.'
  }

  /**
   * A renamed variable has no `_` left and is no longer than what follows
   * the prefix; every other character except `.` passes through in order,
   * and a rest without `_` is kept as it is.
   */
  lemma EnvKeyShape(p: string, key: string)
    ensures '_' !in EnvKey(p, key)
    ensures |EnvKey(p, key)| <= |Drop(key, |p|)|
    ensures Filter(EnvKey(p, key), NotSeparator) == Filter(Drop(key, |p|), NotSeparator)
    ensures '_' !in Drop(key, |p|) ==> EnvKey(p, key) == Drop(key, |p|)
  {
    ReplaceRunsSpec(Drop(key, |p|), NotUnderscore, '.', false);
    ReplaceRunsFilter(Drop(key, |p|), NotUnderscore, '.', false, NotSeparator);
    var r := EnvKey(p, key);
    assert forall i :: 0 <= i < |r| ==> r[i] != '_';
  }

  /**
   * The rest of a variable name is rewritten run by run: each maximal run
   * of `_` becomes one `.` in its place, so `YOLO_C__G` under the prefix
   * `YOLO_` gives `C.G`.
   */
  lemma EnvKeyRun(p: string, x: string, w: string, y: string)
    requires x == [] || x[|x| - 1] != '_'
    requires w != [] && forall i :: 0 <= i < |w| ==> w[i] == '_'
    requires y == [] || y[0] != '_'
    ensures EnvKey(p, p + x + w + y) == EnvKey(p, p + x) + "." + EnvKey(p, p + y)
  {
    assert (p + x + w + y)[|p|..] == x + w + y;
    assert (p + x)[|p|..] == x;
    assert (p + y)[|p|..] == y;
    ReplaceRunsRun(x, w, y, NotUnderscore, '.');
  }

  /** Every scalar of the environment layer is the string value of a variable that starts with the prefix. */
  lemma EnvValues(prefix: string, env: seq<(string, string)>, path: seq<string>)
    requires LeafAt(Node(Env(prefix, env)), path).Some?
    ensures exists i :: 0 <= i < |env| && StartsWith(env[i].0, EnvPrefix(prefix)) &&
                        LeafAt(Node(Env(prefix, env)), path) == Some(Str(env[i].1))
  {
    var p := EnvPrefix(prefix);
    var o := EnvFields(env);
    var vars := TransformKeys(o, EnvCondition(p), EnvRename(p));
    assert Flat(o);
    TransformKeysFlat(o, EnvCondition(p), EnvRename(p));
    NormalizeValue(Node(vars), path);
    FlattenFlat(vars);
    var j :| 0 <= j < |vars| && vars[j].1.value == LeafAt(Node(Env(prefix, env)), path).value;
    assert vars[j] in vars;
    TransformKeysSound(o, EnvCondition(p), EnvRename(p), vars[j]);
  }

  /** Without a variable that starts with the prefix, the environment layer is empty. */
  lemma EnvEmpty(prefix: string, env: seq<(string, string)>)
    requires forall i :: 0 <= i < |env| ==> !StartsWith(env[i].0, EnvPrefix(prefix))
    ensures Env(prefix, env) == []
  {
    var p := EnvPrefix(prefix);
    var o := EnvFields(env);
    var vars := TransformKeys(o, EnvCondition(p), EnvRename(p));
    if vars != [] {
      assert vars[0] in vars;
      TransformKeysSound(o, EnvCondition(p), EnvRename(p), vars[0]);
      assert false;
    }
    assert Flatten(Node([])) == [];
  }

  /**
   * A variable that starts with the prefix lands, as its unchanged string,
   * at its renamed, lower-cased and dot-split path, when no other such
   * variable's path is comparable with it: `YOLO_COLORS_GREEN` becomes
   * `colors.green` for the prefix `yolo_`.
   */
  lemma EnvLands(prefix: string, env: seq<(string, string)>, i: int)
    requires 0 <= i < |env| && StartsWith(env[i].0, EnvPrefix(prefix))
    requires forall j :: 0 <= j < |env| && j != i && StartsWith(env[j].0, EnvPrefix(prefix)) ==>
      !Comparable(EnvPath(EnvPrefix(prefix), env[j].0), EnvPath(EnvPrefix(prefix), env[i].0))
    ensures LeafAt(Node(Env(prefix, env)), EnvPath(EnvPrefix(prefix), env[i].0)) == Some(Str(env[i].1))
  {
    var p := EnvPrefix(prefix);
    var o := EnvFields(env);
    var cond, tr := EnvCondition(p), EnvRename(p);
    var vars := TransformKeys(o, cond, tr);
    var k := EnvKey(p, env[i].0);
    assert Picked(o, cond, i);
    assert tr(o[i].0, o[i].1) == k;
    TransformKeysEarliestWins(o, cond, tr, i);
    TransformKeysFlat(o, cond, tr);
    forall e | e in vars && e.0 != k ensures !Comparable(Split(ToLower(e.0), '.'), Split(ToLower(k), '.')) {
      TransformKeysSound(o, cond, tr, e);
    }
    FlatEntryLands(vars, k, Str(env[i].1));
  }

  // ---------------------------------------------------------------------
  // Command-line arguments

  /** `key.replace(/[^a-z0-9]+/gi, '.')` */
  function ArgKey(key: string): string
  {
    ReplaceRuns(key, IsAlnum, '.')
  }

  /** `canTransform`: every key but the positional list `_`. */
  predicate NotPositional(k: string, v: Config)
  {
    k != "_"
  }

  function ArgRename(k: string, v: Config): string
  {
    ArgKey(k)
  }

  /** `vars` in `argv(argv)`: renamed flags, with `_` put back unchanged after them. */
  function ArgVars(argv: Fields): Fields
  {
    var vars := TransformKeys(argv, When(NotPositional), ArgRename);
    var positional := Lookup(argv, "_");
    if positional.Some? then Put(vars, "_", positional.value) else vars
  }

  /** `argv(argv)` */
  function Argv(argv: Fields): (r: Fields)
    ensures Normal(Node(r))
  {
    Normalize(Node(ArgVars(argv)))
  }

  /** The path at which flag `key` ends up. */
  function ArgPath(key: string): seq<string>
  {
    Split(ToLower(ArgKey(key)), '.')
  }

  /** A renamed flag holds only letters, digits and `.`, never two `.` in a row, and keeps its letters and digits in order; a flag of letters and digits is kept as it is. */
  lemma ArgKeyShape(key: string)
    ensures var r := ArgKey(key);
      && (forall i :: 0 <= i < |r| ==> IsAlnum(r[i]) || r[i] == '.')
      && (forall i :: 0 <= i < |r| - 1 ==> !(r[i] == '.' && r[i + 1] == '.'))
      && Filter(r, IsAlnum) == Filter(key, IsAlnum)
    ensures (forall i :: 0 <= i < |key| ==> IsAlnum(key[i])) ==> ArgKey(key) == key
  {
    ReplaceRunsSpec(key, IsAlnum, '.', false);
  }

  /**
   * A flag is rewritten run by run: each maximal run of characters other
   * than ASCII letters and digits becomes one `.` in its place, so
   * `missing-nails-plural` gives `missing.nails.plural`.
   */
  lemma ArgKeyRun(x: string, w: string, y: string)
    requires x == [] || IsAlnum(x[|x| - 1])
    requires w != [] && forall i :: 0 <= i < |w| ==> !IsAlnum(w[i])
    requires y == [] || IsAlnum(y[0])
    ensures ArgKey(x + w + y) == ArgKey(x) + "." + ArgKey(y)
  {
    ReplaceRunsRun(x, w, y, IsAlnum, '.');
  }

  /** No flag's path begins with the segment `_`, so no flag collides with the positional list. */
  lemma ArgPathHead(key: string)
    ensures ArgPath(key)[0] != "_"
  {
    ReplaceRunsSpec(key, IsAlnum, '.', false);
    var r := ArgKey(key);
    var low := ToLower(r);
    assert forall i :: 0 <= i < |low| ==> low[i] != '_';
    var h := ArgPath(key)[0];
    if h == "_" {
      SplitChars(low, '.', 0, 0);
      assert false;
    }
  }

  lemma UnderscorePath()
    ensures Split(ToLower("_"), '.') == ["_"]
  {
    assert ToLower("_") == "_";
    assert IndexOf("_", '.') == 1;
  }

  /** Only the path `["_"]` itself and the empty path are comparable with `["_"]` among paths not starting with `_`. */
  lemma NotUnderPositional(q: seq<string>)
    requires |q| >= 1 && q[0] != "_"
    ensures !Comparable(q, ["_"]) && !Comparable(["_"], q)
  {
    assert q[..1] != ["_"];
  }

  /** With a flat command line, the positional list `_` is kept unchanged at `_`. */
  lemma ArgvPositional(argv: Fields, positional: Scalar)
    requires Flat(argv) && Lookup(argv, "_") == Some(Leaf(positional))
    ensures LeafAt(Node(Argv(argv)), ["_"]) == Some(positional)
  {
    var vars := TransformKeys(argv, When(NotPositional), ArgRename);
    var o := Put(vars, "_", Leaf(positional));
    TransformKeysFlat(argv, When(NotPositional), ArgRename);
    forall e | e in o ensures e.1.Leaf? {
      if e !in vars { PutNewEntry(vars, "_", Leaf(positional), e); }
    }
    assert Flat(o) by {
      forall j | 0 <= j < |o| ensures o[j].1.Leaf? { assert o[j] in o; }
    }
    forall e | e in o && e.0 != "_" ensures !Comparable(Split(ToLower(e.0), '.'), Split(ToLower("_"), '.')) {
      if e !in vars { PutNewEntry(vars, "_", Leaf(positional), e); }
      TransformKeysSound(argv, When(NotPositional), ArgRename, e);
      var j :| Picked(argv, When(NotPositional), j) && e == (ArgRename(argv[j].0, argv[j].1), argv[j].1);
      ArgPathHead(argv[j].0);
      UnderscorePath();
      NotUnderPositional(ArgPath(argv[j].0));
    }
    FlatEntryLands(o, "_", positional);
    UnderscorePath();
  }

  /**
   * A flag other than `_` lands, with its value, at its renamed, lower-cased
   * and dot-split path, when no other flag's path is comparable with it:
   * `--missing-nails-plural=slope` gives `missing.nails.plural`.
   */
  lemma ArgvLands(argv: Fields, i: int)
    requires Flat(argv) && 0 <= i < |argv| && argv[i].0 != "_"
    requires forall j :: 0 <= j < |argv| && j != i && argv[j].0 != "_" ==>
      !Comparable(ArgPath(argv[j].0), ArgPath(argv[i].0))
    ensures LeafAt(Node(Argv(argv)), ArgPath(argv[i].0)) == Some(argv[i].1.value)
  {
    var cond := When(NotPositional);
    var vars := TransformKeys(argv, cond, ArgRename);
    var k := ArgKey(argv[i].0);
    var P := ArgPath(argv[i].0);
    assert Picked(argv, cond, i);
    TransformKeysEarliestWins(argv, cond, ArgRename, i);
    TransformKeysFlat(argv, cond, ArgRename);
    ArgPathHead(argv[i].0);
    UnderscorePath();
    NotUnderPositional(P);
    var o := ArgVars(argv);
    var positional := Lookup(argv, "_");
    if positional.Some? {
      LookupSome(argv, "_");
      assert ("_", positional.value) in argv;
    }
    assert k != "_";
    assert Lookup(o, k) == Some(argv[i].1);
    forall e | e in o ensures e.1.Leaf? {
      if e !in vars {
        PutNewEntry(vars, "_", positional.value, e);
        var m :| 0 <= m < |argv| && argv[m] == ("_", positional.value);
      }
    }
    assert Flat(o) by {
      forall j | 0 <= j < |o| ensures o[j].1.Leaf? { assert o[j] in o; }
    }
    forall e | e in o && e.0 != k ensures !Comparable(Split(ToLower(e.0), '.'), P) {
      if e !in vars {
        PutNewEntry(vars, "_", positional.value, e);
      } else {
        TransformKeysSound(argv, cond, ArgRename, e);
      }
    }
    FlatEntryLands(o, k, argv[i].1.value);
  }
}
