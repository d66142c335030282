/**
 * A JavaScript object as its own enumerable keys in enumeration order, each
 * with its value. Assigning `obj[k] = v` keeps the position of an existing
 * key and appends a new one, which is what makes the key-collision
 * tie-breaks of lib/utils.js depend on key order.
 */
module Objects {
  import opened Wrappers

  type Obj<V> = seq<(string, V)>

  /** `obj[k]`: the value of the first entry with key `k`, or `undefined`. */
  function Lookup<V>(o: Obj<V>, k: string): Option<V>
  {
    if o == [] then None else if o[0].0 == k then Some(o[0].1) else Lookup(o[1..], k)
  }

  function Keys<V>(o: Obj<V>): set<string>
  {
    if o == [] then {} else {o[0].0} + Keys(o[1..])
  }

  lemma {:induction false} KeysIndex<V>(o: Obj<V>, k: string)
    ensures k in Keys(o) <==> exists i :: 0 <= i < |o| && o[i].0 == k
  {
    if o != [] {
      KeysIndex(o[1..], k);
      if k in Keys(o[1..]) {
        var i :| 0 <= i < |o[1..]| && o[1..][i].0 == k;
        assert o[i + 1].0 == k;
      }
      forall i | 0 < i < |o| && o[i].0 == k ensures k in Keys(o[1..]) {
        assert o[1..][i - 1].0 == k;
      }
    }
  }

  /** No key occurs twice, as in every real JavaScript object. */
  predicate Distinct<V>(o: Obj<V>)
  {
    forall i, j :: 0 <= i < j < |o| ==> o[i].0 != o[j].0
  }

  /** `obj[k] = v` */
  function Put<V>(o: Obj<V>, k: string, v: V): (r: Obj<V>)
    ensures Lookup(r, k) == Some(v)
    ensures forall k' :: k' != k ==> Lookup(r, k') == Lookup(o, k')
    ensures Keys(r) == Keys(o) + {k}
    ensures Distinct(o) ==> Distinct(r)
  {
    if o == [] then [(k, v)]
    else if o[0].0 == k then [(k, v)] + o[1..]
    else
      var t := Put(o[1..], k, v);
      var r := [o[0]] + t;
      assert r[1..] == t;
      DistinctCons(o);
      DistinctCons(r);
      r
  }

  lemma DistinctCons<V>(o: Obj<V>)
    requires o != []
    ensures Distinct(o) <==> o[0].0 !in Keys(o[1..]) && Distinct(o[1..])
  {
    KeysIndex(o[1..], o[0].0);
    if o[0].0 !in Keys(o[1..]) && Distinct(o[1..]) {
      forall i, j | 0 <= i < j < |o| ensures o[i].0 != o[j].0 {
        if i > 0 { assert o[1..][i - 1] == o[i] && o[1..][j - 1] == o[j]; }
        else { assert o[1..][j - 1] == o[j]; }
      }
    }
    if Distinct(o) {
      forall i, j | 0 <= i < j < |o[1..]| ensures o[1..][i].0 != o[1..][j].0 {
        assert o[1..][i] == o[i + 1] && o[1..][j] == o[j + 1];
      }
    }
  }

  lemma {:induction false} LookupSome<V>(o: Obj<V>, k: string)
    ensures Lookup(o, k).Some? <==> k in Keys(o)
    ensures Lookup(o, k).Some? ==> (k, Lookup(o, k).value) in o
  {
    if o != [] {
      LookupSome(o[1..], k);
    }
  }

  lemma {:induction false} LookupDistinct<V>(o: Obj<V>, i: nat)
    requires Distinct(o) && i < |o|
    ensures Lookup(o, o[i].0) == Some(o[i].1)
  {
    if i > 0 {
      LookupDistinct(o[1..], i - 1);
    }
  }
}
