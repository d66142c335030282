/**
 * String helpers used by lib/utils.js and index.js: ASCII case mapping
 * (`toLowerCase`/`toUpperCase`), `split('.')`/`join`, `indexOf(prefix) === 0`
 * and the regular-expression rewrite `replace(/[^...]+/g, rep)`, which
 * replaces every maximal run of unwanted characters by one character.
 */
module Strings {

  predicate IsUpperAscii(c: char) { 'A' <= c <= 'Z' }
  predicate IsLowerAscii(c: char) { 'a' <= c <= 'z' }
  predicate IsDigit(c: char) { '0' <= c <= '9' }

  /** `[A-Z0-9]`, the character class of the environment prefix. */
  predicate IsUpperAlnum(c: char) { IsUpperAscii(c) || IsDigit(c) }

  /** `[a-z0-9]` with the `i` flag, the character class of command-line keys. */
  predicate IsAlnum(c: char) { IsUpperAscii(c) || IsLowerAscii(c) || IsDigit(c) }

  function LowerChar(c: char): char
  {
    if IsUpperAscii(c) then (c as int + 32) as char else c
  }

  function UpperChar(c: char): char
  {
    if IsLowerAscii(c) then (c as int - 32) as char else c
  }

  function ToLower(s: string): (r: string)
    ensures |r| == |s|
  {
    seq(|s|, i requires 0 <= i < |s| => LowerChar(s[i]))
  }

  function ToUpper(s: string): (r: string)
    ensures |r| == |s|
  {
    seq(|s|, i requires 0 <= i < |s| => UpperChar(s[i]))
  }

  /** No character of `s` is an upper-case letter. */
  predicate NoUpper(s: string)
  {
    forall i :: 0 <= i < |s| ==> !IsUpperAscii(s[i])
  }

  lemma ToLowerNoUpper(s: string)
    ensures NoUpper(ToLower(s))
  {
  }

  lemma ToLowerFixed(s: string)
    requires NoUpper(s)
    ensures ToLower(s) == s
  {
  }

  lemma ToLowerConcat(a: string, b: string)
    ensures ToLower(a + b) == ToLower(a) + ToLower(b)
  {
  }

  /** `s.indexOf(prefix) === 0` */
  predicate StartsWith(s: string, prefix: string)
  {
    |prefix| <= |s| && s[..|prefix|] == prefix
  }

  /**
   * `s.indexOf(d)`: the index of the first `d` in `s`. When there is none
   * this gives `|s|` where JavaScript gives -1; `removeDuplicates` only
   * compares the result with a position of an item of the list, so the two
   * agree there.
   */
  function IndexOf<T(==)>(s: seq<T>, d: T): (i: nat)
    ensures i <= |s|
    ensures i < |s| ==> s[i] == d
    ensures forall j :: 0 <= j < i ==> s[j] != d
  {
    if s == [] then 0 else if s[0] == d then 0 else 1 + IndexOf(s[1..], d)
  }

  /** `s.split(d)` for a one-character separator: never empty; `"".split(d)` is `[""]`. */
  function Split(s: string, d: char): (r: seq<string>)
    ensures |r| >= 1
    ensures forall i :: 0 <= i < |r| ==> d !in r[i]
    decreases |s|
  {
    var i := IndexOf(s, d);
    if i == |s| then [s] else [s[..i]] + Split(s[i + 1..], d)
  }

  /** `parts.join(d)` */
  function Join(parts: seq<string>, d: char): string
  {
    if |parts| == 0 then ""
    else if |parts| == 1 then parts[0]
    else parts[0] + [d] + Join(parts[1..], d)
  }

  /** Every piece of `Split(s, d)` is made of characters of `s`. */
  lemma {:induction false} SplitChars(s: string, d: char, i: nat, j: nat)
    requires i < |Split(s, d)| && j < |Split(s, d)[i]|
    ensures Split(s, d)[i][j] in s
    decreases |s|
  {
    var k := IndexOf(s, d);
    if k < |s| && i > 0 {
      SplitChars(s[k + 1..], d, i - 1, j);
    }
  }

  lemma SplitNoUpper(s: string, d: char)
    requires NoUpper(s)
    ensures forall i :: 0 <= i < |Split(s, d)| ==> NoUpper(Split(s, d)[i])
  {
    forall i, j | 0 <= i < |Split(s, d)| && 0 <= j < |Split(s, d)[i]|
      ensures !IsUpperAscii(Split(s, d)[i][j])
    {
      SplitChars(s, d, i, j);
    }
  }

  lemma IndexOfAfter(a: string, d: char, b: string)
    requires d !in a
    ensures IndexOf(a + [d] + b, d) == |a|
  {
    var s := a + [d] + b;
    assert forall j :: 0 <= j < |a| ==> s[j] == a[j];
    assert s[|a|] == d;
  }

  /** Splitting undoes joining when no part holds the separator. */
  lemma {:induction false} SplitJoin(parts: seq<string>, d: char)
    requires |parts| >= 1
    requires forall i :: 0 <= i < |parts| ==> d !in parts[i]
    ensures Split(Join(parts, d), d) == parts
  {
    if |parts| == 1 {
      assert IndexOf(parts[0], d) == |parts[0]|;
    } else {
      var rest := Join(parts[1..], d);
      var s := parts[0] + [d] + rest;
      IndexOfAfter(parts[0], d, rest);
      assert s[..|parts[0]|] == parts[0];
      assert s[|parts[0]| + 1..] == rest;
      SplitJoin(parts[1..], d);
      assert parts == [parts[0]] + parts[1..];
    }
  }

  /**
   * `s.replace(/[^keep]+/g, rep)`: every maximal run of characters that
   * `keep` rejects becomes one `rep`. `inRun` says the previous character
   * was already replaced.
   */
  function ReplaceRunsFrom(s: string, keep: char -> bool, rep: char, inRun: bool): string
  {
    if s == [] then []
    else if keep(s[0]) then [s[0]] + ReplaceRunsFrom(s[1..], keep, rep, false)
    else if inRun then ReplaceRunsFrom(s[1..], keep, rep, true)
    else [rep] + ReplaceRunsFrom(s[1..], keep, rep, true)
  }

  function ReplaceRuns(s: string, keep: char -> bool, rep: char): string
  {
    ReplaceRunsFrom(s, keep, rep, false)
  }

  /** The characters of `s` that `f` accepts, in order. */
  function Filter(s: string, f: char -> bool): string
  {
    if s == [] then [] else (if f(s[0]) then [s[0]] else []) + Filter(s[1..], f)
  }

  /**
   * What `ReplaceRuns` produces: only kept characters and `rep`; the kept
   * characters other than `rep` pass through in order; and when `rep` is
   * not itself kept, exactly the kept characters pass through, no two `rep`
   * are adjacent, and the result neither grows nor changes a string without
   * rejected characters.
   */
  lemma {:induction false} ReplaceRunsSpec(s: string, keep: char -> bool, rep: char, inRun: bool)
    ensures var r := ReplaceRunsFrom(s, keep, rep, inRun);
      && (forall i :: 0 <= i < |r| ==> keep(r[i]) || r[i] == rep)
      && Filter(r, c => keep(c) && c != rep) == Filter(s, c => keep(c) && c != rep)
      && (!keep(rep) ==> Filter(r, keep) == Filter(s, keep))
      && |r| <= |s|
      && ((forall i :: 0 <= i < |s| ==> keep(s[i])) ==> r == s)
      && (!keep(rep) ==> forall i :: 0 <= i < |r| - 1 ==> !(r[i] == rep && r[i + 1] == rep))
      && (!keep(rep) && inRun && |r| > 0 ==> r[0] != rep)
  {
    if s != [] {
      var nextInRun := !keep(s[0]);
      ReplaceRunsSpec(s[1..], keep, rep, nextInRun);
      var r := ReplaceRunsFrom(s, keep, rep, inRun);
      var t := ReplaceRunsFrom(s[1..], keep, rep, nextInRun);
      if keep(s[0]) {
        assert r == [s[0]] + t;
        assert r[1..] == t;
      } else if inRun {
        assert r == t;
      } else {
        assert r == [rep] + t;
        assert r[1..] == t;
      }
    }
  }

  /** After a kept character the rewrite of the rest starts afresh. */
  lemma {:induction false} ReplaceRunsAppend(x: string, y: string, keep: char -> bool, rep: char, inRun: bool)
    requires x != [] && keep(x[|x| - 1])
    ensures ReplaceRunsFrom(x + y, keep, rep, inRun) ==
      ReplaceRunsFrom(x, keep, rep, inRun) + ReplaceRunsFrom(y, keep, rep, false)
    decreases |x|
  {
    assert (x + y)[0] == x[0] && (x + y)[1..] == x[1..] + y;
    if |x| > 1 {
      ReplaceRunsAppend(x[1..], y, keep, rep, !keep(x[0]));
    }
  }

  /** A non-empty run of rejected characters gives one `rep`, or nothing when a run is already open. */
  lemma {:induction false} ReplaceRunsRejected(w: string, y: string, keep: char -> bool, rep: char, inRun: bool)
    requires w != [] && forall i :: 0 <= i < |w| ==> !keep(w[i])
    ensures ReplaceRunsFrom(w + y, keep, rep, inRun) ==
      (if inRun then [] else [rep]) + ReplaceRunsFrom(y, keep, rep, true)
    decreases |w|
  {
    assert (w + y)[0] == w[0] && (w + y)[1..] == w[1..] + y;
    if |w| > 1 {
      ReplaceRunsRejected(w[1..], y, keep, rep, true);
    }
  }

  /**
   * The rewrite goes run by run: a maximal run `w` of rejected characters
   * becomes exactly one `rep` in its place, and the text on either side is
   * rewritten on its own. With the clause of `ReplaceRunsSpec` that leaves
   * a string of kept characters unchanged, this fixes the result for every
   * input.
   */
  lemma ReplaceRunsRun(x: string, w: string, y: string, keep: char -> bool, rep: char)
    requires x == [] || keep(x[|x| - 1])
    requires w != [] && forall i :: 0 <= i < |w| ==> !keep(w[i])
    requires y == [] || keep(y[0])
    ensures ReplaceRuns(x + w + y, keep, rep) == ReplaceRuns(x, keep, rep) + [rep] + ReplaceRuns(y, keep, rep)
  {
    ReplaceRunsRejected(w, y, keep, rep, false);
    assert ReplaceRunsFrom(y, keep, rep, true) == ReplaceRunsFrom(y, keep, rep, false);
    if x == [] {
      assert x + w + y == w + y;
    } else {
      assert x + w + y == x + (w + y);
      ReplaceRunsAppend(x, w + y, keep, rep, false);
    }
  }

  /** The characters that `f` accepts pass through the rewrite when `f` accepts only kept characters other than `rep`. */
  lemma {:induction false} ReplaceRunsFilter(s: string, keep: char -> bool, rep: char, inRun: bool, f: char -> bool)
    requires forall c :: f(c) ==> keep(c) && c != rep
    ensures Filter(ReplaceRunsFrom(s, keep, rep, inRun), f) == Filter(s, f)
  {
    if s != [] {
      var t := ReplaceRunsFrom(s[1..], keep, rep, !keep(s[0]));
      ReplaceRunsFilter(s[1..], keep, rep, !keep(s[0]), f);
      var r := ReplaceRunsFrom(s, keep, rep, inRun);
      if keep(s[0]) {
        assert r == [s[0]] + t && r[1..] == t;
      } else if !inRun {
        assert r == [rep] + t && r[1..] == t;
      }
    }
  }
}
