/**
 * `normalize` of lib/utils.js: `nest(keysToLowerCase(flatten(obj || {})))`.
 * Flatten turns a tree into dotted-path entries, the keys are lower-cased
 * (earliest key wins on a collision), and nest splits every key at `.` and
 * assigns the scalar at that path, creating or replacing objects on the way.
 */
module Normalizer {
  import opened Wrappers
  import opened Objects
  import opened Strings
  import opened Configs
  import opened KeyTransform

  /** The scalars of `c` with their paths, in enumeration order, each path after `prefix`. */
  function FlatPaths(c: Config, prefix: seq<string>): seq<(seq<string>, Scalar)>
  {
    match c
    case Leaf(v) => [(prefix, v)]
    case Node(fs) => FlatFields(fs, prefix)
  }

  function FlatFields(fs: Fields, prefix: seq<string>): seq<(seq<string>, Scalar)>
    decreases fs
  {
    if fs == [] then []
    else
      var e := fs[0];
      assert e.1 < e;
      FlatPaths(e.1, prefix + [e.0]) + FlatFields(fs[1..], prefix)
  }

  /** `flatten(c)`: each scalar under its dotted path; an empty object contributes nothing. */
  function Flatten(c: Config): Obj<Scalar>
  {
    var fp := FlatPaths(c, []);
    seq(|fp|, i requires 0 <= i < |fp| => (Join(fp[i].0, '.'), fp[i].1))
  }

  /** The fields of the object under key `k`, or none when `k` holds no object. */
  function ObjectAt(fs: Fields, k: string): Fields
  {
    var x: Option<Config> := Lookup(fs, k);
    match x
    case Some(Node(inner)) => inner
    case _ => []
  }

  /** Assign scalar `v` at `path`, replacing a scalar that is in the way by an object. */
  function Insert(fs: Fields, path: seq<string>, v: Scalar): Fields
    requires |path| >= 1
    decreases |path|
  {
    var k := path[0];
    if |path| == 1 then Put(fs, k, Leaf(v))
    else
      var sub := ObjectAt(fs, k);
      Put(fs, k, Node(Insert(sub, path[1..], v)))
  }

  function NestInto(acc: Fields, flat: Obj<Scalar>): Fields
    decreases |flat|
  {
    if flat == [] then acc else NestInto(Insert(acc, Split(flat[0].0, '.'), flat[0].1), flat[1..])
  }

  /** `nest(flat)` */
  function Nest(flat: Obj<Scalar>): Fields
  {
    NestInto([], flat)
  }

  /** `normalize(obj)`; a falsy `obj` counts as `{}`. */
  function Normalize(c: Config): (r: Fields)
    ensures Normal(Node(r))
  {
    if Falsy(c) then []
    else
      var g := LowerKeys(Flatten(c));
      LowerKeysNoUpper(Flatten(c));
      NestNormal([], g);
      Nest(g)
  }

  /**
   * Reference meaning of nesting: at path `p` the last flat entry whose
   * path is comparable with `p` decides: its scalar if the path is `p`,
   * nothing otherwise; with no such entry, `acc` decides.
   */
  function NestedLeafAt(acc: Fields, flat: Obj<Scalar>, p: seq<string>): Option<Scalar>
    decreases |flat|
  {
    if flat == [] then LeafAt(Node(acc), p)
    else
      var last := flat[|flat| - 1];
      var q := Split(last.0, '.');
      if q == p then Some(last.1)
      else if Comparable(q, p) then None
      else NestedLeafAt(acc, flat[..|flat| - 1], p)
  }

  // ---------------------------------------------------------------------
  // Nest against its reference meaning

  lemma {:induction false} InsertLeafAt(fs: Fields, q: seq<string>, v: Scalar, p: seq<string>)
    requires |q| >= 1
    ensures LeafAt(Node(Insert(fs, q, v)), p) ==
      if p == q then Some(v) else if Comparable(p, q) then None else LeafAt(Node(fs), p)
    decreases |q|, 1
  {
    var r := Insert(fs, q, v);
    var k := q[0];
    if p != [] {
      if p[0] != k {
        assert !Comparable(p, q) by { assert p[..1] != q[..1]; }
        assert GetIn(Node(r), p) == GetIn(Node(fs), p);
      } else if |q| == 1 {
        if |p| > 1 {
          assert IsPrefix(q, p) by { assert p[..1] == [k] == q; }
          assert Lookup(r, k) == Some(Leaf(v));
          assert GetIn(Node(r), p) == GetIn(Leaf(v), p[1..]) == None;
          assert p != q;
        } else {
          assert p == q by { assert p == [p[0]]; }
          assert Lookup(r, k) == Some(Leaf(v));
          assert GetIn(Node(r), p) == GetIn(Leaf(v), p[1..]) == Some(Leaf(v));
        }
      } else {
        var sub := ObjectAt(fs, k);
        var child := Insert(sub, q[1..], v);
        assert Lookup(r, k) == Some(Node(child));
        if |p| == 1 {
          assert IsPrefix(p, q) by { assert q[..1] == [k] == p; }
          assert GetIn(Node(r), p) == GetIn(Node(child), p[1..]) == Some(Node(child));
          assert p != q;
        } else {
          InsertLeafAtDeep(fs, q, v, p);
        }
      }
    }
  }

  /** The recursive case of `InsertLeafAt`: both paths have more than one segment and share the first. */
  lemma {:induction false} InsertLeafAtDeep(fs: Fields, q: seq<string>, v: Scalar, p: seq<string>)
    requires |q| > 1 && |p| > 1 && p[0] == q[0]
    ensures LeafAt(Node(Insert(fs, q, v)), p) ==
      if p == q then Some(v) else if Comparable(p, q) then None else LeafAt(Node(fs), p)
    decreases |q|, 0
  {
    var k := q[0];
    var r := Insert(fs, q, v);
    var sub := ObjectAt(fs, k);
    var child := Insert(sub, q[1..], v);
    assert Lookup(r, k) == Some(Node(child));
    InsertLeafAt(sub, q[1..], v, p[1..]);
    assert GetIn(Node(r), p) == GetIn(Node(child), p[1..]);
    assert p == q <==> p[1..] == q[1..] by {
      assert p == [k] + p[1..] && q == [k] + q[1..];
    }
    assert Comparable(p, q) <==> Comparable(p[1..], q[1..]) by {
      assert p == [k] + p[1..] && q == [k] + q[1..];
      PrefixCons(k, p[1..], q[1..]);
      PrefixCons(k, q[1..], p[1..]);
    }
    if !Comparable(p, q) {
      var x: Option<Config> := Lookup(fs, k);
      match x
      case Some(Node(inner)) =>
        assert GetIn(Node(fs), p) == GetIn(Node(inner), p[1..]);
      case Some(Leaf(w)) =>
        assert GetIn(Node(fs), p) == GetIn(Leaf(w), p[1..]) == None;
        assert LeafAt(Node(sub), p[1..]) == None;
      case None =>
        assert LeafAt(Node(sub), p[1..]) == None;
    }
  }

  lemma PrefixCons(k: string, a: seq<string>, b: seq<string>)
    ensures IsPrefix([k] + a, [k] + b) <==> IsPrefix(a, b)
  {
    if IsPrefix([k] + a, [k] + b) {
      assert b[..|a|] == ([k] + b)[..|a| + 1][1..];
    }
    if IsPrefix(a, b) {
      assert ([k] + b)[..|a| + 1] == [k] + b[..|a|];
    }
  }

  lemma {:induction false} NestIntoSnoc(acc: Fields, flat: Obj<Scalar>, e: (string, Scalar))
    ensures NestInto(acc, flat + [e]) == Insert(NestInto(acc, flat), Split(e.0, '.'), e.1)
    decreases |flat|
  {
    if flat == [] {
      assert NestInto(acc, [e]) == NestInto(Insert(acc, Split(e.0, '.'), e.1), []);
    } else {
      assert (flat + [e])[0] == flat[0] && (flat + [e])[1..] == flat[1..] + [e];
      NestIntoSnoc(Insert(acc, Split(flat[0].0, '.'), flat[0].1), flat[1..], e);
    }
  }

  /** Nesting means what `NestedLeafAt` says: later entries win. */
  lemma {:induction false} NestLeafAt(acc: Fields, flat: Obj<Scalar>, p: seq<string>)
    ensures LeafAt(Node(NestInto(acc, flat)), p) == NestedLeafAt(acc, flat, p)
    decreases |flat|
  {
    if flat != [] {
      var init := flat[..|flat| - 1];
      var last := flat[|flat| - 1];
      assert flat == init + [last];
      NestIntoSnoc(acc, init, last);
      NestLeafAt(acc, init, p);
      InsertLeafAt(NestInto(acc, init), Split(last.0, '.'), last.1, p);
    }
  }

  // ---------------------------------------------------------------------
  // Normal form of the result

  lemma {:induction false} PutNormal(fs: Fields, k: string, c: Config)
    requires Normal(Node(fs)) && NormalKey(k) && Normal(c)
    ensures Normal(Node(Put(fs, k, c)))
  {
    if fs != [] && fs[0].0 != k {
      PutNormal(fs[1..], k, c);
      var r := Put(fs, k, c);
      assert r == [fs[0]] + Put(fs[1..], k, c);
      forall i | 0 <= i < |r| ensures NormalKey(r[i].0) && Normal(r[i].1) {
        if i > 0 { assert r[i] == Put(fs[1..], k, c)[i - 1]; }
      }
    } else if fs != [] {
      var r := Put(fs, k, c);
      forall i | 0 < i < |r| ensures NormalKey(r[i].0) && Normal(r[i].1) {
        assert r[i] == fs[i];
      }
    }
  }

  lemma {:induction false} InsertNormal(fs: Fields, path: seq<string>, v: Scalar)
    requires |path| >= 1 && Normal(Node(fs))
    requires forall i :: 0 <= i < |path| ==> NormalKey(path[i])
    ensures Normal(Node(Insert(fs, path, v)))
    decreases |path|
  {
    var k := path[0];
    if |path| == 1 {
      PutNormal(fs, k, Leaf(v));
    } else {
      var sub := ObjectAt(fs, k);
      if Lookup(fs, k).Some? { NormalLookup(fs, k); }
      InsertNormal(sub, path[1..], v);
      PutNormal(fs, k, Node(Insert(sub, path[1..], v)));
    }
  }

  lemma {:induction false} NestNormal(acc: Fields, flat: Obj<Scalar>)
    requires Normal(Node(acc))
    requires forall i :: 0 <= i < |flat| ==> NoUpper(flat[i].0)
    ensures Normal(Node(NestInto(acc, flat)))
    decreases |flat|
  {
    if flat != [] {
      var path := Split(flat[0].0, '.');
      SplitNoUpper(flat[0].0, '.');
      InsertNormal(acc, path, flat[0].1);
      NestNormal(Insert(acc, path, flat[0].1), flat[1..]);
    }
  }

  lemma LowerKeysNoUpper(o: Obj<Scalar>)
    ensures forall i :: 0 <= i < |LowerKeys(o)| ==> NoUpper(LowerKeys(o)[i].0)
  {
    forall i | 0 <= i < |LowerKeys(o)| ensures NoUpper(LowerKeys(o)[i].0) {
      TransformKeysSound(o, Always, LowerKey, LowerKeys(o)[i]);
    }
  }

  // ---------------------------------------------------------------------
  // Flatten against the tree

  /** Every flattened entry names a path of `c` that holds its scalar. */
  lemma {:induction false} FlatPathsSound(c: Config, pre: seq<string>, e: (seq<string>, Scalar))
    requires WellFormed(c) && e in FlatPaths(c, pre)
    ensures IsPrefix(pre, e.0) && LeafAt(c, e.0[|pre|..]) == Some(e.1)
    ensures Normal(c) ==> forall i :: |pre| <= i < |e.0| ==> NormalKey(e.0[i])
    decreases c
  {
    match c
    case Leaf(v) =>
      assert e.0[|pre|..] == [];
    case Node(fs) =>
      FlatFieldsSound(fs, pre, e);
  }

  lemma {:induction false} FlatFieldsSound(fs: Fields, pre: seq<string>, e: (seq<string>, Scalar))
    requires WellFormed(Node(fs)) && e in FlatFields(fs, pre)
    ensures IsPrefix(pre, e.0) && |e.0| > |pre| && LeafAt(Node(fs), e.0[|pre|..]) == Some(e.1)
    ensures e.0[|pre|] in Keys(fs)
    ensures Normal(Node(fs)) ==> forall i :: |pre| <= i < |e.0| ==> NormalKey(e.0[i])
    decreases fs
  {
    var f0 := fs[0];
    assert f0.1 < f0;
    var k0 := f0.0;
    if e in FlatPaths(f0.1, pre + [k0]) {
      FlatPathsSound(f0.1, pre + [k0], e);
      var q := e.0[|pre|..];
      assert e.0[..|pre|] == (pre + [k0])[..|pre|] == pre;
      assert q[0] == k0 && q[1..] == e.0[|pre| + 1..];
      assert Lookup(fs, k0) == Some(f0.1);
      assert GetIn(Node(fs), q) == GetIn(f0.1, q[1..]);
      if Normal(Node(fs)) {
        assert NormalKey(fs[0].0);
      }
    } else {
      DistinctCons(fs);
      assert WellFormed(Node(fs[1..])) by {
        forall i | 0 <= i < |fs[1..]| ensures WellFormed(fs[1..][i].1) {
          assert fs[1..][i] == fs[i + 1];
        }
      }
      FlatFieldsSound(fs[1..], pre, e);
      var q := e.0[|pre|..];
      var k := q[0];
      assert k != k0;
      assert Lookup(fs, k) == Lookup(fs[1..], k);
      assert GetIn(Node(fs), q) == GetIn(Node(fs[1..]), q);
      if Normal(Node(fs)) {
        assert Normal(Node(fs[1..])) by {
          forall i | 0 <= i < |fs[1..]| ensures NormalKey(fs[1..][i].0) && Normal(fs[1..][i].1) {
            assert fs[1..][i] == fs[i + 1];
          }
        }
      }
    }
  }

  /** Every path of `c` that holds a scalar is flattened. */
  lemma {:induction false} FlatPathsComplete(c: Config, pre: seq<string>, q: seq<string>, v: Scalar)
    requires LeafAt(c, q) == Some(v)
    ensures (pre + q, v) in FlatPaths(c, pre)
    decreases c
  {
    match c
    case Leaf(w) =>
      assert q == [] && pre + q == pre;
    case Node(fs) =>
      FlatFieldsComplete(fs, pre, q, v);
  }

  lemma {:induction false} FlatFieldsComplete(fs: Fields, pre: seq<string>, q: seq<string>, v: Scalar)
    requires LeafAt(Node(fs), q) == Some(v)
    ensures (pre + q, v) in FlatFields(fs, pre)
    decreases fs
  {
    var f0 := fs[0];
    assert f0.1 < f0;
    if f0.0 == q[0] {
      assert GetIn(Node(fs), q) == GetIn(f0.1, q[1..]);
      FlatPathsComplete(f0.1, pre + [q[0]], q[1..], v);
      assert pre + [q[0]] + q[1..] == pre + q;
    } else {
      assert GetIn(Node(fs), q) == GetIn(Node(fs[1..]), q);
      FlatFieldsComplete(fs[1..], pre, q, v);
    }
  }

  lemma {:induction false} JoinNoUpper(parts: seq<string>, d: char)
    requires !IsUpperAscii(d)
    requires forall i :: 0 <= i < |parts| ==> NoUpper(parts[i])
    ensures NoUpper(Join(parts, d))
  {
    if |parts| > 1 {
      JoinNoUpper(parts[1..], d);
    }
  }

  /** A flattened entry of a normal object, read back through its key. */
  lemma FlattenEntry(t: Fields, i: int)
    requires Normal(Node(t)) && 0 <= i < |Flatten(Node(t))|
    ensures var e := Flatten(Node(t))[i];
      && NoUpper(e.0)
      && LeafAt(Node(t), Split(e.0, '.')) == Some(e.1)
  {
    var fp := FlatPaths(Node(t), []);
    var path := fp[i].0;
    NormalWellFormed(Node(t));
    FlatFieldsSound(t, [], fp[i]);
    assert path[0..] == path;
    SplitJoin(path, '.');
    JoinNoUpper(path, '.');
  }

  // ---------------------------------------------------------------------
  // Idempotence

  /**
   * Nesting entries that all name scalars of one tree `c` rebuilds `c` at
   * every path some entry names, and nothing elsewhere.
   */
  lemma {:induction false} NestOfLeaves(c: Config, g: Obj<Scalar>, p: seq<string>)
    requires forall e :: e in g ==> LeafAt(c, Split(e.0, '.')) == Some(e.1)
    ensures NestedLeafAt([], g, p) ==
      if exists e :: e in g && Split(e.0, '.') == p then LeafAt(c, p) else None
    decreases |g|
  {
    if g == [] {
      assert LeafAt(Node([]), p) == None;
    } else {
      var init := g[..|g| - 1];
      var last := g[|g| - 1];
      var q := Split(last.0, '.');
      assert last in g;
      assert forall e :: e in init ==> e in g;
      if q == p {
      } else if Comparable(q, p) {
        if exists e :: e in g && Split(e.0, '.') == p {
          var e :| e in g && Split(e.0, '.') == p;
          LeafPathsDiverge(c, q, p);
        }
      } else {
        NestOfLeaves(c, init, p);
        assert g == init + [last];
        assert (exists e :: e in g && Split(e.0, '.') == p) <==> (exists e :: e in init && Split(e.0, '.') == p);
      }
    }
  }

  /** Each entry that normalize nests when re-normalizing `t` names a scalar of `t`. */
  lemma LowerFlattenSound(t: Fields, e: (string, Scalar))
    requires Normal(Node(t)) && e in LowerKeys(Flatten(Node(t)))
    ensures LeafAt(Node(t), Split(e.0, '.')) == Some(e.1)
  {
    var f := Flatten(Node(t));
    TransformKeysSound(f, Always, LowerKey, e);
    var i :| Picked(f, Always, i) && e == (LowerKey(f[i].0, f[i].1), f[i].1);
    FlattenEntry(t, i);
    ToLowerFixed(f[i].0);
  }

  /** Each scalar of `t` is named by an entry that normalize nests when re-normalizing `t`. */
  lemma LowerFlattenComplete(t: Fields, p: seq<string>, v: Scalar)
    requires Normal(Node(t)) && LeafAt(Node(t), p) == Some(v)
    ensures exists e :: e in LowerKeys(Flatten(Node(t))) && Split(e.0, '.') == p
  {
    var f := Flatten(Node(t));
    var g := LowerKeys(f);
    var fp := FlatPaths(Node(t), []);
    FlatPathsComplete(Node(t), [], p, v);
    assert [] + p == p;
    var i :| 0 <= i < |fp| && fp[i] == (p, v);
    assert f[i] == (Join(p, '.'), v);
    assert Picked(f, Always, i);
    TransformKeysComplete(f, Always, LowerKey, i);
    FlattenEntry(t, i);
    ToLowerFixed(f[i].0);
    LookupSome(g, f[i].0);
    var w := Lookup(g, f[i].0).value;
    assert (f[i].0, w) in g;
    NormalWellFormed(Node(t));
    FlatFieldsSound(t, [], fp[i]);
    assert p[0..] == p;
    SplitJoin(p, '.');
  }

  /** A tree already in normal form is a fixed point of normalize, path by path. */
  lemma NormalizeNormal(t: Fields, p: seq<string>)
    requires Normal(Node(t))
    ensures LeafAt(Node(Normalize(Node(t))), p) == LeafAt(Node(t), p)
  {
    var g := LowerKeys(Flatten(Node(t)));
    forall e | e in g ensures LeafAt(Node(t), Split(e.0, '.')) == Some(e.1) {
      LowerFlattenSound(t, e);
    }
    NestLeafAt([], g, p);
    NestOfLeaves(Node(t), g, p);
    if LeafAt(Node(t), p).Some? {
      LowerFlattenComplete(t, p, LeafAt(Node(t), p).value);
    }
  }

  /** normalize(normalize(x)) holds the same scalar as normalize(x) at every path. */
  lemma NormalizeIdempotent(c: Config, p: seq<string>)
    ensures LeafAt(Node(Normalize(Node(Normalize(c)))), p) == LeafAt(Node(Normalize(c)), p)
  {
    NormalizeNormal(Normalize(c), p);
  }

  // ---------------------------------------------------------------------
  // Flat objects: environment variables and command-line flags

  /** An object whose values are all scalars, such as `process.env`. */
  predicate Flat(o: Fields)
  {
    forall i :: 0 <= i < |o| ==> o[i].1.Leaf?
  }

  lemma {:induction false} FlatFieldsOfFlat(o: Fields)
    requires Flat(o)
    ensures FlatFields(o, []) == seq(|o|, i requires 0 <= i < |o| => ([o[i].0], o[i].1.value))
  {
    if o != [] {
      assert Flat(o[1..]) by {
        forall i | 0 <= i < |o[1..]| ensures o[1..][i].1.Leaf? { assert o[1..][i] == o[i + 1]; }
      }
      FlatFieldsOfFlat(o[1..]);
      assert [] + [o[0].0] == [o[0].0];
    }
  }

  /** Flattening a flat object keeps its keys, order and scalars. */
  lemma FlattenFlat(o: Fields)
    requires Flat(o)
    ensures Flatten(Node(o)) == seq(|o|, i requires 0 <= i < |o| => (o[i].0, o[i].1.value))
  {
    FlatFieldsOfFlat(o);
  }

  lemma {:induction false} NestedUnique(g: Obj<Scalar>, p: seq<string>, v: Scalar)
    requires exists e :: e in g && Split(e.0, '.') == p
    requires forall e :: e in g && Comparable(Split(e.0, '.'), p) ==> e == (e.0, v) && Split(e.0, '.') == p
    ensures NestedLeafAt([], g, p) == Some(v)
    decreases |g|
  {
    var init := g[..|g| - 1];
    var last := g[|g| - 1];
    assert last in g;
    if !Comparable(Split(last.0, '.'), p) {
      assert g == init + [last];
      var e :| e in g && Split(e.0, '.') == p;
      assert e in init;
      assert forall e :: e in init ==> e in g;
      NestedUnique(init, p, v);
    }
  }

  /** A top-level key that holds a scalar is flattened to itself, whatever else the object holds. */
  lemma {:induction false} TopEntryFlat(o: Fields, i: int)
    requires 0 <= i < |o| && o[i].1.Leaf?
    ensures ([o[i].0], o[i].1.value) in FlatFields(o, [])
  {
    if i == 0 {
      assert [] + [o[0].0] == [o[0].0];
    } else {
      assert o[1..][i - 1] == o[i];
      TopEntryFlat(o[1..], i - 1);
    }
  }

  /**
   * A top-level key of an object ends up split at its dots and lower-cased,
   * with its scalar, when no other flattened entry's lower-cased path is
   * comparable with it; the other keys may hold objects:
   * `{"A.b": 1, "c": {"d": 2}}` normalizes to `{a: {b: 1}, c: {d: 2}}`.
   */
  lemma NormalizeTopEntry(o: Fields, i: int)
    requires 0 <= i < |o| && o[i].1.Leaf?
    requires forall e :: e in Flatten(Node(o)) && Comparable(Split(ToLower(e.0), '.'), Split(ToLower(o[i].0), '.')) ==>
      e == (o[i].0, o[i].1.value)
    ensures LeafAt(Node(Normalize(Node(o))), Split(ToLower(o[i].0), '.')) == Some(o[i].1.value)
  {
    var f := Flatten(Node(o));
    var g := LowerKeys(f);
    var P := Split(ToLower(o[i].0), '.');
    var v := o[i].1.value;
    var fp := FlatPaths(Node(o), []);
    TopEntryFlat(o, i);
    var m :| 0 <= m < |fp| && fp[m] == ([o[i].0], v);
    assert f[m] == (o[i].0, v);
    forall e | e in g && Comparable(Split(e.0, '.'), P) ensures e == (e.0, v) && Split(e.0, '.') == P {
      TransformKeysSound(f, Always, LowerKey, e);
      var j :| Picked(f, Always, j) && e == (LowerKey(f[j].0, f[j].1), f[j].1);
      assert f[j] in f;
    }
    assert Picked(f, Always, m);
    TransformKeysComplete(f, Always, LowerKey, m);
    LookupSome(g, ToLower(o[i].0));
    assert (ToLower(o[i].0), Lookup(g, ToLower(o[i].0)).value) in g;
    NestedUnique(g, P, v);
    NestLeafAt([], g, P);
  }

  /**
   * The same for a flat object such as the environment, with the condition
   * stated on its keys: `{"A.b": 1}` normalizes to `{a: {b: 1}}`.
   */
  lemma NormalizeFlatEntry(o: Fields, i: int)
    requires Flat(o) && 0 <= i < |o|
    requires forall j :: 0 <= j < |o| && j != i ==>
      !Comparable(Split(ToLower(o[j].0), '.'), Split(ToLower(o[i].0), '.'))
    ensures LeafAt(Node(Normalize(Node(o))), Split(ToLower(o[i].0), '.')) == Some(o[i].1.value)
  {
    FlattenFlat(o);
    var f := Flatten(Node(o));
    forall e | e in f && Comparable(Split(ToLower(e.0), '.'), Split(ToLower(o[i].0), '.'))
      ensures e == (o[i].0, o[i].1.value)
    {
      var j :| 0 <= j < |f| && f[j] == e;
    }
    NormalizeTopEntry(o, i);
  }

  lemma {:induction false} NestedValue(g: Obj<Scalar>, p: seq<string>)
    requires NestedLeafAt([], g, p).Some?
    ensures exists e :: e in g && e.1 == NestedLeafAt([], g, p).value
    decreases |g|
  {
    assert LeafAt(Node([]), p) == None;
    if g != [] {
      var init := g[..|g| - 1];
      var last := g[|g| - 1];
      assert last in g;
      if Split(last.0, '.') != p {
        NestedValue(init, p);
        assert forall e :: e in init ==> e in g;
      }
    }
  }

  /** Every scalar in a normalized object is a scalar of the input, moved to a new path. */
  lemma NormalizeValue(c: Config, p: seq<string>)
    requires LeafAt(Node(Normalize(c)), p).Some?
    ensures exists i :: 0 <= i < |Flatten(c)| && Flatten(c)[i].1 == LeafAt(Node(Normalize(c)), p).value
  {
    assert LeafAt(Node([]), p) == None;
    if !Falsy(c) {
      var f := Flatten(c);
      var g := LowerKeys(f);
      NestLeafAt([], g, p);
      NestedValue(g, p);
      var e :| e in g && e.1 == NestedLeafAt([], g, p).value;
      TransformKeysSound(f, Always, LowerKey, e);
    }
  }

  /** `normalize(null)`, `normalize(undefined)` and every other falsy input give `{}`. */
  lemma NormalizeFalsy(c: Config)
    requires Falsy(c)
    ensures Normalize(c) == []
  {
  }

  // ---------------------------------------------------------------------
  // Case does not matter to normalize

  /** `c` with every key at every depth lower-cased in place. */
  function LowerTree(c: Config): Config
  {
    match c
    case Leaf(_) => c
    case Node(fs) => Node(LowerFields(fs))
  }

  function LowerFields(fs: Fields): Fields
    decreases fs
  {
    if fs == [] then []
    else
      var e := fs[0];
      assert e.1 < e;
      [(ToLower(e.0), LowerTree(e.1))] + LowerFields(fs[1..])
  }

  function LowerPath(p: seq<string>): seq<string>
  {
    seq(|p|, i requires 0 <= i < |p| => ToLower(p[i]))
  }

  /** Scalars with their paths, each segment lower-cased. */
  function LowerPaths(fp: seq<(seq<string>, Scalar)>): seq<(seq<string>, Scalar)>
  {
    seq(|fp|, i requires 0 <= i < |fp| => (LowerPath(fp[i].0), fp[i].1))
  }

  /** Flat entries with their keys lower-cased. */
  function LowerEntries(flat: Obj<Scalar>): Obj<Scalar>
  {
    seq(|flat|, i requires 0 <= i < |flat| => (ToLower(flat[i].0), flat[i].1))
  }

  lemma LowerPathsConcat(a: seq<(seq<string>, Scalar)>, b: seq<(seq<string>, Scalar)>)
    ensures LowerPaths(a + b) == LowerPaths(a) + LowerPaths(b)
  {
    assert forall i :: 0 <= i < |a + b| ==> LowerPaths(a + b)[i] == (LowerPaths(a) + LowerPaths(b))[i];
  }

  /** Lower-casing the keys of a tree lower-cases the segments of its flattened paths, in the same order. */
  lemma {:induction false} FlatPathsLower(c: Config, pre: seq<string>)
    ensures FlatPaths(LowerTree(c), LowerPath(pre)) == LowerPaths(FlatPaths(c, pre))
    decreases c
  {
    match c
    case Leaf(_) =>
    case Node(fs) => FlatFieldsLower(fs, pre);
  }

  lemma {:induction false} FlatFieldsLower(fs: Fields, pre: seq<string>)
    ensures FlatFields(LowerFields(fs), LowerPath(pre)) == LowerPaths(FlatFields(fs, pre))
    decreases fs
  {
    if fs != [] {
      var e := fs[0];
      assert e.1 < e;
      var l := LowerFields(fs);
      assert l[0] == (ToLower(e.0), LowerTree(e.1)) && l[1..] == LowerFields(fs[1..]);
      assert LowerPath(pre) + [ToLower(e.0)] == LowerPath(pre + [e.0]);
      FlatPathsLower(e.1, pre + [e.0]);
      FlatFieldsLower(fs[1..], pre);
      LowerPathsConcat(FlatPaths(e.1, pre + [e.0]), FlatFields(fs[1..], pre));
    }
  }

  /** `.` is not a letter, so joining lower-cased segments lower-cases the joined key. */
  lemma {:induction false} JoinLower(p: seq<string>)
    ensures Join(LowerPath(p), '.') == ToLower(Join(p, '.'))
  {
    if |p| > 1 {
      JoinLower(p[1..]);
      assert LowerPath(p)[1..] == LowerPath(p[1..]);
      ToLowerConcat(p[0] + ['.'], Join(p[1..], '.'));
      ToLowerConcat(p[0], ['.']);
    }
  }

  lemma FlattenLower(c: Config)
    ensures Flatten(LowerTree(c)) == LowerEntries(Flatten(c))
  {
    assert LowerPath([]) == [];
    FlatPathsLower(c, []);
    var fp := FlatPaths(c, []);
    forall i | 0 <= i < |fp| ensures Join(LowerPath(fp[i].0), '.') == ToLower(Join(fp[i].0, '.')) {
      JoinLower(fp[i].0);
    }
  }

  /** Lower-casing keys that are already lower-cased changes nothing. */
  lemma {:induction false} LowerKeysLowerEntries(o: Obj<Scalar>)
    ensures LowerKeys(LowerEntries(o)) == LowerKeys(o)
  {
    if o != [] {
      assert LowerEntries(o)[1..] == LowerEntries(o[1..]);
      LowerKeysLowerEntries(o[1..]);
      ToLowerNoUpper(o[0].0);
      ToLowerFixed(ToLower(o[0].0));
    }
  }

  /**
   * Keys that differ only in case normalize alike, collisions included:
   * `normalize({A: {B: 1}})` equals `normalize({a: {b: 1}})`.
   */
  lemma NormalizeLowerTree(c: Config)
    ensures Normalize(LowerTree(c)) == Normalize(c)
  {
    if !Falsy(c) {
      FlattenLower(c);
      LowerKeysLowerEntries(Flatten(c));
    }
  }
}
