/**
 * Loading the checked files in index.js: each path becomes a
 * `[path, null]` tuple (`tupleify`), `loadConfig` reads the file and, when
 * the content is non-empty, stores its parsed layer in the tuple; tuples
 * without a layer are dropped (`removeFalsy`) and the rest are split into
 * `usedConfigs` and the file layers (`detupleify`). The file reader is a
 * parameter.
 */
module Loading {
  import opened Wrappers
  import opened Configs
  import opened Formats

  /** `utils.file(path)` gave truthy content: the file was read and is not empty. */
  predicate Readable(read: string -> Option<string>, path: string)
  {
    read(path).Some? && read(path).value != ""
  }

  /** The layer that a readable file contributes. */
  function Loaded(ps: Parsers, read: string -> Option<string>, path: string): Fields
    requires Readable(read, path)
  {
    Parse(ps, read(path).value)
  }

  /** A `[path, config]` tuple. */
  class ConfigTuple {
    var path: string
    var config: Option<Fields>

    /** `tupleify(path)` */
    constructor (path: string)
      ensures this.path == path && config == None
    {
      this.path := path;
      config := None;
    }

    /** `loadConfig(tuple)`: fills in the layer when the file has content, and leaves the tuple alone otherwise. */
    method Load(ps: Parsers, read: string -> Option<string>)
      modifies this
      ensures path == old(path)
      ensures config == if Readable(read, path) then Some(Loaded(ps, read, path)) else old(config)
    {
      var content := read(path);
      if content.Some? && content.value != "" {
        config := Some(Parse(ps, content.value));
      }
    }
  }

  /** Positions of the checked paths whose files have content, in order. */
  function ReadableIndices(read: string -> Option<string>, checked: seq<string>): seq<nat>
  {
    if checked == [] then []
    else
      var n := |checked| - 1;
      ReadableIndices(read, checked[..n]) + (if Readable(read, checked[n]) then [n] else [])
  }

  /** `usedConfigs` */
  function UsedConfigs(read: string -> Option<string>, checked: seq<string>): (r: seq<string>)
    ensures |r| <= |checked|
    ensures forall k :: 0 <= k < |r| ==> Readable(read, r[k]) && r[k] in checked
  {
    if checked == [] then []
    else
      var n := |checked| - 1;
      UsedConfigs(read, checked[..n]) + (if Readable(read, checked[n]) then [checked[n]] else [])
  }

  /** `configValues`, the file layers of the merge. */
  function ConfigValues(ps: Parsers, read: string -> Option<string>, checked: seq<string>): seq<Fields>
  {
    if checked == [] then []
    else
      var n := |checked| - 1;
      ConfigValues(ps, read, checked[..n]) + (if Readable(read, checked[n]) then [Loaded(ps, read, checked[n])] else [])
  }

  /** The tuple pipeline, one checked path at a time. */
  method LoadConfigs(ps: Parsers, read: string -> Option<string>, checked: seq<string>)
    returns (used: seq<string>, values: seq<Fields>)
    ensures used == UsedConfigs(read, checked)
    ensures values == ConfigValues(ps, read, checked)
  {
    used, values := [], [];
    var i := 0;
    while i < |checked|
      invariant 0 <= i <= |checked|
      invariant used == UsedConfigs(read, checked[..i])
      invariant values == ConfigValues(ps, read, checked[..i])
    {
      var path := checked[i];
      var tuple := new ConfigTuple(path);
      tuple.Load(ps, read);
      if tuple.config.Some? {
        used := used + [tuple.path];
        values := values + [tuple.config.value];
      }
      LoadStep(ps, read, checked, i);
      i := i + 1;
    }
    assert checked[..i] == checked;
  }

  lemma LoadStep(ps: Parsers, read: string -> Option<string>, checked: seq<string>, i: int)
    requires 0 <= i < |checked|
    ensures UsedConfigs(read, checked[..i + 1]) ==
      UsedConfigs(read, checked[..i]) + (if Readable(read, checked[i]) then [checked[i]] else [])
    ensures ConfigValues(ps, read, checked[..i + 1]) ==
      ConfigValues(ps, read, checked[..i]) + (if Readable(read, checked[i]) then [Loaded(ps, read, checked[i])] else [])
  {
    assert checked[..i + 1][..i] == checked[..i];
  }

  /** The `k`-th file layer is the parsed content of `usedConfigs[k]`. */
  lemma {:induction false} ConfigValuesOfUsed(ps: Parsers, read: string -> Option<string>, checked: seq<string>)
    ensures |ConfigValues(ps, read, checked)| == |UsedConfigs(read, checked)|
    ensures forall k :: 0 <= k < |UsedConfigs(read, checked)| ==>
      ConfigValues(ps, read, checked)[k] == Loaded(ps, read, UsedConfigs(read, checked)[k])
  {
    if checked != [] {
      var init := checked[..|checked| - 1];
      ConfigValuesOfUsed(ps, read, init);
      var u, u0 := UsedConfigs(read, checked), UsedConfigs(read, init);
      var vs, vs0 := ConfigValues(ps, read, checked), ConfigValues(ps, read, init);
      forall k | 0 <= k < |u0| ensures u[k] == u0[k] && vs[k] == vs0[k] { }
    }
  }

  /** The readable positions are increasing positions of `checked`, and are exactly those whose files have content. */
  lemma {:induction false} ReadableIndicesSpec(read: string -> Option<string>, checked: seq<string>)
    ensures forall k :: 0 <= k < |ReadableIndices(read, checked)| ==> ReadableIndices(read, checked)[k] < |checked|
    ensures forall a, b :: 0 <= a < b < |ReadableIndices(read, checked)| ==>
      ReadableIndices(read, checked)[a] < ReadableIndices(read, checked)[b]
    ensures forall j :: 0 <= j < |checked| ==> (Readable(read, checked[j]) <==> j in ReadableIndices(read, checked))
  {
    if checked != [] {
      var n := |checked| - 1;
      var init := checked[..n];
      ReadableIndicesSpec(read, init);
      var idx, idx0 := ReadableIndices(read, checked), ReadableIndices(read, init);
      assert forall k :: 0 <= k < |idx0| ==> idx[k] == idx0[k];
      forall j | 0 <= j < n ensures (Readable(read, checked[j]) <==> j in idx) {
        assert init[j] == checked[j];
        assert (j in idx) <==> (j in idx0);
      }
    }
  }

  /**
   * `usedConfigs` is `checkedConfigs` read at the readable positions, so it
   * is the subsequence of checked paths whose files have content, in order.
   */
  lemma {:induction false} UsedConfigsSubsequence(read: string -> Option<string>, checked: seq<string>)
    ensures |UsedConfigs(read, checked)| == |ReadableIndices(read, checked)|
    ensures forall k :: 0 <= k < |ReadableIndices(read, checked)| ==>
      ReadableIndices(read, checked)[k] < |checked| &&
      UsedConfigs(read, checked)[k] == checked[ReadableIndices(read, checked)[k]]
  {
    if checked != [] {
      var n := |checked| - 1;
      var init := checked[..n];
      UsedConfigsSubsequence(read, init);
      ReadableIndicesSpec(read, checked);
      var idx, idx0 := ReadableIndices(read, checked), ReadableIndices(read, init);
      var u, u0 := UsedConfigs(read, checked), UsedConfigs(read, init);
      forall k | 0 <= k < |idx0| ensures idx[k] == idx0[k] && u[k] == u0[k] && u[k] == checked[idx[k]] {
        assert init[idx0[k]] == checked[idx0[k]];
      }
    }
  }
}
