/**
 * The merge that index.js performs with deep-extend: every key of a later
 * object is written into the accumulated one; a later object value merges
 * recursively into an earlier object and otherwise replaces (a copy of) what
 * was there, and a later scalar or array always replaces.
 */
module DeepExtend {
  import opened Wrappers
  import opened Objects
  import opened Configs
  import opened Normalizer

  /** The new value of one key, given what the target held (`prev`) and the source value `val`. */
  function Combine(prev: Option<Config>, val: Config): Config
    decreases val
  {
    match val
    case Leaf(_) => val
    case Node(vfs) =>
      if prev.Some? && prev.value.Node? then Node(Merge(prev.value.fields, vfs))
      else Node(Merge([], vfs))
  }

  /** `deepExtend(target, source)` */
  function Merge(target: Fields, source: Fields): Fields
    decreases source
  {
    if source == [] then target
    else
      var e := source[0];
      assert e.1 < e;
      Merge(Put(target, e.0, Combine(Lookup(target, e.0), e.1)), source[1..])
  }

  /** `deepExtend(acc, layers[0], layers[1], ...)` */
  function MergeAll(acc: Fields, layers: seq<Fields>): Fields
    decreases |layers|
  {
    if layers == [] then acc else MergeAll(Merge(acc, layers[0]), layers[1..])
  }

  /**
   * Layer `s` leaves path `p` alone: along `p` it holds only objects, and
   * nothing at `p` itself.
   */
  predicate Silent(s: Fields, p: seq<string>)
    decreases |p|
  {
    |p| >= 1 &&
    var x: Option<Config> := Lookup(s, p[0]);
    match x
    case None => true
    case Some(Leaf(_)) => false
    case Some(Node(sub)) => |p| > 1 && Silent(sub, p[1..])
  }

  /** The merge has exactly the keys of both sides. */
  lemma {:induction false} MergeKeys(t: Fields, s: Fields)
    ensures Keys(Merge(t, s)) == Keys(t) + Keys(s)
    decreases s
  {
    if s != [] {
      var e := s[0];
      MergeKeys(Put(t, e.0, Combine(Lookup(t, e.0), e.1)), s[1..]);
    }
  }

  /** Key by key: a key of the source gets the combined value, any other key keeps the target's. */
  lemma {:induction false} MergeLookup(t: Fields, s: Fields, k: string)
    requires Distinct(s)
    ensures Lookup(Merge(t, s), k) ==
      if Lookup(s, k).Some? then Some(Combine(Lookup(t, k), Lookup(s, k).value)) else Lookup(t, k)
    decreases s
  {
    if s != [] {
      var e := s[0];
      var t' := Put(t, e.0, Combine(Lookup(t, e.0), e.1));
      DistinctCons(s);
      MergeLookup(t', s[1..], k);
      if k == e.0 {
        LookupSome(s[1..], k);
      }
    }
  }

  /** A scalar of the later layer is what the merge holds at that path. */
  lemma {:induction false} MergeLaterWins(t: Fields, s: Fields, p: seq<string>, v: Scalar)
    requires WellFormed(Node(s)) && LeafAt(Node(s), p) == Some(v)
    ensures LeafAt(Node(Merge(t, s)), p) == Some(v)
    decreases |p|
  {
    var k := p[0];
    var x := Lookup(s, k).value;
    MergeLookup(t, s, k);
    var m := Merge(t, s);
    assert GetIn(Node(s), p) == GetIn(x, p[1..]);
    assert GetIn(Node(m), p) == GetIn(Combine(Lookup(t, k), x), p[1..]);
    if |p| == 1 {
      assert x == Leaf(v);
    } else {
      var xfs := x.fields;
      WellFormedLookup(s, k);
      var prev := Lookup(t, k);
      var base := if prev.Some? && prev.value.Node? then prev.value.fields else [];
      assert x == Node(xfs);
      assert Combine(prev, x) == Node(Merge(base, xfs));
      MergeLaterWins(base, xfs, p[1..], v);
    }
  }

  /** A scalar of the earlier layer survives where the later layer is silent. */
  lemma {:induction false} MergeEarlierSurvives(t: Fields, s: Fields, p: seq<string>, v: Scalar)
    requires WellFormed(Node(s)) && LeafAt(Node(t), p) == Some(v) && Silent(s, p)
    ensures LeafAt(Node(Merge(t, s)), p) == Some(v)
    decreases |p|
  {
    var k := p[0];
    MergeLookup(t, s, k);
    var m := Merge(t, s);
    if Lookup(s, k).Some? {
      var sfs := Lookup(s, k).value.fields;
      var tv := Lookup(t, k).value;
      assert GetIn(Node(t), p) == GetIn(tv, p[1..]);
      assert tv.Node?;
      WellFormedLookup(s, k);
      MergeEarlierSurvives(tv.fields, sfs, p[1..], v);
      assert GetIn(Node(m), p) == GetIn(Node(Merge(tv.fields, sfs)), p[1..]);
    } else {
      assert GetIn(Node(m), p) == GetIn(Node(t), p);
    }
  }

  /**
   * Layer precedence: the scalar that layer `j` holds at `p` is the merged
   * value when every later layer is silent at `p`; in particular the last
   * layer's scalars always win.
   */
  lemma {:induction false} MergeAllPrecedence(acc: Fields, layers: seq<Fields>, j: int, p: seq<string>, v: Scalar)
    requires 0 <= j < |layers|
    requires forall i :: 0 <= i < |layers| ==> WellFormed(Node(layers[i]))
    requires LeafAt(Node(layers[j]), p) == Some(v)
    requires forall i :: j < i < |layers| ==> Silent(layers[i], p)
    ensures LeafAt(Node(MergeAll(acc, layers)), p) == Some(v)
    decreases |layers|
  {
    if j == 0 {
      MergeLaterWins(acc, layers[0], p, v);
      MergeAllKeeps(Merge(acc, layers[0]), layers[1..], p, v);
    } else {
      MergeAllPrecedence(Merge(acc, layers[0]), layers[1..], j - 1, p, v);
    }
  }

  /** A scalar of the accumulator survives layers that are all silent at its path. */
  lemma {:induction false} MergeAllKeeps(acc: Fields, layers: seq<Fields>, p: seq<string>, v: Scalar)
    requires forall i :: 0 <= i < |layers| ==> WellFormed(Node(layers[i]))
    requires LeafAt(Node(acc), p) == Some(v)
    requires forall i :: 0 <= i < |layers| ==> Silent(layers[i], p)
    ensures LeafAt(Node(MergeAll(acc, layers)), p) == Some(v)
    decreases |layers|
  {
    if layers != [] {
      MergeEarlierSurvives(acc, layers[0], p, v);
      MergeAllKeeps(Merge(acc, layers[0]), layers[1..], p, v);
    }
  }

  /** All top-level keys of a list of layers. */
  function KeysOfAll(layers: seq<Fields>): set<string>
  {
    if layers == [] then {} else Keys(layers[0]) + KeysOfAll(layers[1..])
  }

  /** The merged object has exactly the keys of the layers and nothing else. */
  lemma {:induction false} MergeAllKeys(acc: Fields, layers: seq<Fields>)
    ensures Keys(MergeAll(acc, layers)) == Keys(acc) + KeysOfAll(layers)
    decreases |layers|
  {
    if layers != [] {
      MergeKeys(acc, layers[0]);
      MergeAllKeys(Merge(acc, layers[0]), layers[1..]);
    }
  }

  // ---------------------------------------------------------------------
  // Merging keeps the normal form that normalize produces

  lemma {:induction false} CombineNormal(prev: Option<Config>, val: Config)
    requires prev.Some? ==> Normal(prev.value)
    requires Normal(val)
    ensures Normal(Combine(prev, val))
    decreases val
  {
    if val.Node? {
      if prev.Some? && prev.value.Node? {
        MergeNormal(prev.value.fields, val.fields);
      } else {
        MergeNormal([], val.fields);
      }
    }
  }

  lemma {:induction false} MergeNormal(t: Fields, s: Fields)
    requires Normal(Node(t)) && Normal(Node(s))
    ensures Normal(Node(Merge(t, s)))
    decreases s
  {
    if s != [] {
      var e := s[0];
      assert e.1 < e;
      if Lookup(t, e.0).Some? { NormalLookup(t, e.0); }
      CombineNormal(Lookup(t, e.0), e.1);
      var t' := Put(t, e.0, Combine(Lookup(t, e.0), e.1));
      PutNormal(t, e.0, Combine(Lookup(t, e.0), e.1));
      DistinctCons(s);
      assert Normal(Node(s[1..])) by {
        forall i | 0 <= i < |s[1..]| ensures NormalKey(s[1..][i].0) && Normal(s[1..][i].1) {
          assert s[1..][i] == s[i + 1];
        }
      }
      MergeNormal(t', s[1..]);
    }
  }

  /** Merging normalized layers into a normalized accumulator gives a normalized object. */
  lemma {:induction false} MergeAllNormal(acc: Fields, layers: seq<Fields>)
    requires Normal(Node(acc))
    requires forall i :: 0 <= i < |layers| ==> Normal(Node(layers[i]))
    ensures Normal(Node(MergeAll(acc, layers)))
    decreases |layers|
  {
    if layers != [] {
      MergeNormal(acc, layers[0]);
      MergeAllNormal(Merge(acc, layers[0]), layers[1..]);
    }
  }
}
