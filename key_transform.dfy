/**
 * `keysToLowerCase` and `conditionalTransformKeys` of lib/utils.js. Both
 * build a fresh object by walking the input's keys from last to first
 * (`while (i--)`) and assigning `newObj[newKey] = value`, so on a collision
 * of new keys the earliest input key is assigned last and its value wins.
 */
module KeyTransform {
  import opened Wrappers
  import opened Objects
  import opened Strings

  /** The `condition` argument: the literal `true`, or a predicate on key and value. */
  datatype Condition<!V> = Always | When(test: (string, V) -> bool)

  predicate Accepts<V>(cond: Condition<V>, k: string, v: V)
  {
    cond.Always? || cond.test(k, v)
  }

  /** Entry `i` of `o` exists and passes `cond`. */
  predicate Picked<V>(o: Obj<V>, cond: Condition<V>, i: int)
  {
    0 <= i < |o| && Accepts(cond, o[i].0, o[i].1)
  }

  /**
   * The object the loop builds: the suffix `o[1..]` is processed first, then
   * entry 0 is assigned over it.
   */
  function TransformKeys<V>(o: Obj<V>, cond: Condition<V>, tr: (string, V) -> string): Obj<V>
  {
    if o == [] then []
    else
      var rest := TransformKeys(o[1..], cond, tr);
      if Accepts(cond, o[0].0, o[0].1) then Put(rest, tr(o[0].0, o[0].1), o[0].1) else rest
  }

  function LowerKey<V>(k: string, v: V): string
  {
    ToLower(k)
  }

  /** What `keysToLowerCase(o)` returns. */
  function LowerKeys<V>(o: Obj<V>): Obj<V>
  {
    TransformKeys(o, Always, LowerKey)
  }

  method ConditionalTransformKeys<V>(o: Obj<V>, cond: Condition<V>, tr: (string, V) -> string)
    returns (newObj: Obj<V>)
    ensures newObj == TransformKeys(o, cond, tr)
  {
    newObj := [];
    var i := |o|;
    while i > 0
      invariant 0 <= i <= |o|
      invariant newObj == TransformKeys(o[i..], cond, tr)
    {
      i := i - 1;
      var key := o[i].0;
      var value := o[i].1;
      assert o[i..][1..] == o[i + 1..];
      if Accepts(cond, key, value) {
        newObj := Put(newObj, tr(key, value), value);
      }
    }
    assert o[0..] == o;
  }

  method KeysToLowerCase<V>(o: Obj<V>) returns (newObj: Obj<V>)
    ensures newObj == LowerKeys(o)
  {
    newObj := [];
    var i := |o|;
    while i > 0
      invariant 0 <= i <= |o|
      invariant newObj == TransformKeys(o[i..], Always, LowerKey)
    {
      i := i - 1;
      var key := o[i].0;
      assert o[i..][1..] == o[i + 1..];
      newObj := Put(newObj, ToLower(key), o[i].1);
    }
    assert o[0..] == o;
  }

  /** The transformed keys never collide in the result. */
  lemma {:induction false} TransformKeysDistinct<V>(o: Obj<V>, cond: Condition<V>, tr: (string, V) -> string)
    ensures Distinct(TransformKeys(o, cond, tr))
  {
    if o != [] {
      TransformKeysDistinct(o[1..], cond, tr);
    }
  }

  /** Every entry of the result is an accepted input entry under its transformed key. */
  lemma {:induction false} TransformKeysSound<V>(o: Obj<V>, cond: Condition<V>, tr: (string, V) -> string, e: (string, V))
    requires e in TransformKeys(o, cond, tr)
    ensures exists i :: Picked(o, cond, i) && e == (tr(o[i].0, o[i].1), o[i].1)
  {
    var rest := TransformKeys(o[1..], cond, tr);
    if e in rest {
      TransformKeysSound(o[1..], cond, tr, e);
      var i :| Picked(o[1..], cond, i) && e == (tr(o[1..][i].0, o[1..][i].1), o[1..][i].1);
      assert Picked(o, cond, i + 1) && o[i + 1] == o[1..][i];
    } else {
      var r := TransformKeys(o, cond, tr);
      assert Accepts(cond, o[0].0, o[0].1);
      var k := tr(o[0].0, o[0].1);
      LookupSome(r, e.0);
      PutNewEntry(rest, k, o[0].1, e);
      assert Picked(o, cond, 0);
    }
  }

  /** An entry of `Put(o, k, v)` that was not in `o` is `(k, v)`. */
  lemma {:induction false} PutNewEntry<V>(o: Obj<V>, k: string, v: V, e: (string, V))
    requires e in Put(o, k, v) && e !in o
    ensures e == (k, v)
  {
    if o != [] && o[0].0 != k {
      assert Put(o, k, v) == [o[0]] + Put(o[1..], k, v);
      PutNewEntry(o[1..], k, v, e);
    }
  }

  /** Every accepted input key shows up, transformed, in the result. */
  lemma {:induction false} TransformKeysComplete<V>(o: Obj<V>, cond: Condition<V>, tr: (string, V) -> string, i: int)
    requires Picked(o, cond, i)
    ensures tr(o[i].0, o[i].1) in Keys(TransformKeys(o, cond, tr))
  {
    if i > 0 {
      assert o[1..][i - 1] == o[i];
      TransformKeysComplete(o[1..], cond, tr, i - 1);
    }
  }

  /**
   * On a collision of transformed keys the value of the earliest accepted
   * input key is the one kept.
   */
  lemma {:induction false} TransformKeysEarliestWins<V>(o: Obj<V>, cond: Condition<V>, tr: (string, V) -> string, i: int)
    requires Picked(o, cond, i)
    requires forall j :: 0 <= j < i && Picked(o, cond, j) ==> tr(o[j].0, o[j].1) != tr(o[i].0, o[i].1)
    ensures Lookup(TransformKeys(o, cond, tr), tr(o[i].0, o[i].1)) == Some(o[i].1)
  {
    if i > 0 {
      assert o[1..][i - 1] == o[i];
      forall j | 0 <= j < i - 1 && Picked(o[1..], cond, j)
        ensures tr(o[1..][j].0, o[1..][j].1) != tr(o[i].0, o[i].1)
      {
        assert o[1..][j] == o[j + 1] && Picked(o, cond, j + 1);
      }
      TransformKeysEarliestWins(o[1..], cond, tr, i - 1);
    }
  }

  /** A key that no accepted input key transforms to is absent. */
  lemma TransformKeysRejected<V>(o: Obj<V>, cond: Condition<V>, tr: (string, V) -> string, k: string)
    requires forall i :: Picked(o, cond, i) ==> tr(o[i].0, o[i].1) != k
    ensures Lookup(TransformKeys(o, cond, tr), k) == None
  {
    var r := TransformKeys(o, cond, tr);
    LookupSome(r, k);
    if Lookup(r, k).Some? {
      TransformKeysSound(o, cond, tr, (k, Lookup(r, k).value));
    }
  }
}
