/**
 * `find` of lib/utils.js: look for `rel` in the working directory and then
 * in each parent directory up to the root. Absolute paths are sequences of
 * segments; the root is the empty sequence, the only path that is its own
 * dirname. The file-system test is a parameter.
 */
module Paths {
  import opened Wrappers
  import opened Strings

  /** An absolute path, as its segments below the root. */
  type Path = seq<string>

  /** The path as a string: `/` followed by the segments joined with `/`. */
  function Render(p: Path): string
  {
    "/" + Join(p, '/')
  }

  /** `path.dirname`: the parent directory; the root is its own parent. */
  function Dirname(p: Path): (r: Path)
    ensures r <= p
    ensures r == p <==> p == []
    ensures p != [] ==> |r| == |p| - 1
  {
    if p == [] then p else p[..|p| - 1]
  }

  /** `rel` exists below the ancestor of `start` that keeps its first `k` segments. */
  predicate FoundAt(fileExists: string -> bool, start: Path, rel: Path, k: nat)
    requires k <= |start|
  {
    fileExists(Render(start[..k] + rel))
  }

  /** The inner recursive `find(start, rel)`; `None` is `undefined`. */
  function FindFrom(fileExists: string -> bool, start: Path, rel: Path): (r: Option<string>)
    ensures r.Some? ==> fileExists(r.value)
    decreases |start|
  {
    var filePath := Render(start + rel);
    if fileExists(filePath) then Some(filePath)
    else if Dirname(start) != start then FindFrom(fileExists, Dirname(start), rel)
    else None
  }

  /** `find(...segments)`: the search starts in the working directory `cwd`. */
  function Find(fileExists: string -> bool, cwd: Path, rel: Path): (r: Option<string>)
    ensures r.Some? ==> fileExists(r.value)
  {
    FindFrom(fileExists, cwd, rel)
  }

  /**
   * The search answers with the nearest ancestor (the longest prefix of
   * `start`, `start` itself included) below which `rel` exists, and with
   * `undefined` exactly when there is none up to the root.
   */
  lemma {:induction false} FindNearest(fileExists: string -> bool, start: Path, rel: Path)
    ensures FindFrom(fileExists, start, rel).None? <==>
      forall k :: 0 <= k <= |start| ==> !FoundAt(fileExists, start, rel, k)
    ensures FindFrom(fileExists, start, rel).Some? ==>
      exists k :: 0 <= k <= |start| && FindFrom(fileExists, start, rel).value == Render(start[..k] + rel) &&
        forall k' :: k < k' <= |start| ==> !FoundAt(fileExists, start, rel, k')
    decreases |start|
  {
    assert start[..|start|] == start;
    if fileExists(Render(start + rel)) {
      assert FoundAt(fileExists, start, rel, |start|);
    } else if start == [] {
      assert !FoundAt(fileExists, start, rel, 0);
    } else {
      var up := Dirname(start);
      FindNearest(fileExists, up, rel);
      assert forall k :: 0 <= k <= |up| ==> up[..k] == start[..k];
      assert forall k :: 0 <= k <= |up| ==> (FoundAt(fileExists, up, rel, k) <==> FoundAt(fileExists, start, rel, k));
    }
  }
}
