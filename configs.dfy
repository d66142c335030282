/**
 * The configuration tree that rucola builds: a JavaScript object whose
 * values are scalars, arrays (kept whole, as leaves) or nested objects, and
 * the dotted-path lookup used by `conf.get` (flatnest's `seek`).
 */
module Configs {
  import opened Wrappers
  import opened Objects
  import opened Strings

  /** A non-object value; an array, such as the positional `_` list, is kept whole. */
  datatype Scalar = Str(s: string) | Num(n: int) | Bool(b: bool) | Null | List(items: seq<Scalar>)

  datatype Config = Leaf(value: Scalar) | Node(fields: Obj<Config>)

  type Fields = Obj<Config>

  /** The JavaScript falsy values among configuration values: `null`, `false`, `0`, `""`. */
  predicate Falsy(c: Config)
  {
    c == Leaf(Null) || c == Leaf(Bool(false)) || c == Leaf(Num(0)) || c == Leaf(Str(""))
  }

  /** The value reached from `c` by following the keys `p`, or `undefined`. */
  function GetIn(c: Config, p: seq<string>): Option<Config>
    decreases |p|
  {
    if p == [] then Some(c)
    else match c
      case Leaf(_) => None
      case Node(fs) =>
        match Lookup(fs, p[0])
        case None => None
        case Some(child) => GetIn(child, p[1..])
  }

  /** The scalar at path `p`, if `p` leads to a scalar. */
  function LeafAt(c: Config, p: seq<string>): Option<Scalar>
  {
    match GetIn(c, p)
    case Some(Leaf(v)) => Some(v)
    case _ => None
  }

  predicate IsPrefix(a: seq<string>, b: seq<string>)
  {
    |a| <= |b| && b[..|a|] == a
  }

  /** One path is a prefix of the other, so they cannot both hold scalars. */
  predicate Comparable(a: seq<string>, b: seq<string>)
  {
    IsPrefix(a, b) || IsPrefix(b, a)
  }

  /** Two paths that both lead to scalars are equal or diverge. */
  lemma {:induction false} LeafPathsDiverge(c: Config, p: seq<string>, q: seq<string>)
    requires LeafAt(c, p).Some? && LeafAt(c, q).Some? && Comparable(p, q)
    ensures p == q
    decreases |p|
  {
    if p != [] && q != [] {
      assert p[0] == q[0] by { assert p[..1] == q[..1]; }
      var child := Lookup(c.fields, p[0]).value;
      assert LeafAt(child, p[1..]) == LeafAt(c, p);
      assert LeafAt(child, q[1..]) == LeafAt(c, q);
      assert Comparable(p[1..], q[1..]) by {
        if IsPrefix(p, q) { assert q[1..][..|p| - 1] == q[..|p|][1..]; }
        else { assert p[1..][..|q| - 1] == p[..|q|][1..]; }
      }
      LeafPathsDiverge(child, p[1..], q[1..]);
      assert p == [p[0]] + p[1..] && q == [q[0]] + q[1..];
    }
  }

  /** A key as normalize leaves it: no upper-case letter and no `.`. */
  predicate NormalKey(k: string)
  {
    NoUpper(k) && '.' !in k
  }

  /** Every object in `c` has distinct, normal keys. */
  predicate Normal(c: Config)
  {
    c.Node? ==>
      && Distinct(c.fields)
      && forall i :: 0 <= i < |c.fields| ==> NormalKey(c.fields[i].0) && Normal(c.fields[i].1)
  }

  /** Every object in `c` has distinct keys. */
  predicate WellFormed(c: Config)
  {
    c.Node? ==>
      && Distinct(c.fields)
      && forall i :: 0 <= i < |c.fields| ==> WellFormed(c.fields[i].1)
  }

  lemma {:induction false} NormalWellFormed(c: Config)
    requires Normal(c)
    ensures WellFormed(c)
  {
    if c.Node? {
      forall i | 0 <= i < |c.fields| ensures WellFormed(c.fields[i].1) {
        NormalWellFormed(c.fields[i].1);
      }
    }
  }

  /** Every value stored in a normal object is normal. */
  lemma NormalLookup(fs: Fields, k: string)
    requires Normal(Node(fs)) && Lookup(fs, k).Some?
    ensures Normal(Lookup(fs, k).value)
  {
    LookupSome(fs, k);
  }

  lemma WellFormedLookup(fs: Fields, k: string)
    requires WellFormed(Node(fs)) && Lookup(fs, k).Some?
    ensures WellFormed(Lookup(fs, k).value)
  {
    LookupSome(fs, k);
  }
}
