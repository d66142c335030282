/**
 * The list of configuration files that index.js considers
 * (`allConfigFiles`): system-wide files under `/etc`, files in the home
 * directory, the nearest `.<name>rc` above the working directory and the
 * file named by `--config`, with falsy entries and later duplicates removed.
 */
module ConfigFiles {
  import opened Wrappers
  import opened Strings
  import opened Paths

  /** An entry of the raw list is used when it is a non-empty string (`false`, `undefined` and `""` are not). */
  predicate Truthy(item: Option<string>)
  {
    item.Some? && item.value != ""
  }

  /** The `removeDuplicates` callback keeps entry `i`. */
  predicate KeptAt(list: seq<Option<string>>, i: int)
  {
    0 <= i < |list| && Truthy(list[i]) && IndexOf(list, list[i]) == i
  }

  /** `list.filter(removeDuplicates)` from index `i` on. */
  function KeepFrom(list: seq<Option<string>>, i: nat): seq<string>
    requires i <= |list|
    decreases |list| - i
  {
    if i == |list| then []
    else (if KeptAt(list, i) then [list[i].value] else []) + KeepFrom(list, i + 1)
  }

  function RemoveDuplicates(list: seq<Option<string>>): seq<string>
  {
    KeepFrom(list, 0)
  }

  /** Every kept string first occurs at a kept index from `i` on. */
  lemma {:induction false} KeepFromSound(list: seq<Option<string>>, i: nat)
    requires i <= |list|
    ensures forall a :: 0 <= a < |KeepFrom(list, i)| ==>
      i <= IndexOf(list, Some(KeepFrom(list, i)[a])) && KeptAt(list, IndexOf(list, Some(KeepFrom(list, i)[a])))
    decreases |list| - i
  {
    if i < |list| {
      KeepFromSound(list, i + 1);
      var t := KeepFrom(list, i + 1);
      if KeptAt(list, i) {
        var r := KeepFrom(list, i);
        assert r == [list[i].value] + t;
        assert list[i] == Some(list[i].value);
        forall a | 0 <= a < |r|
          ensures i <= IndexOf(list, Some(r[a])) && KeptAt(list, IndexOf(list, Some(r[a])))
        {
          if a > 0 { assert r[a] == t[a - 1]; }
        }
      }
    }
  }

  /** The kept strings follow the order of their first occurrences. */
  lemma {:induction false} KeepFromOrdered(list: seq<Option<string>>, i: nat)
    requires i <= |list|
    ensures forall a, b :: 0 <= a < b < |KeepFrom(list, i)| ==>
      IndexOf(list, Some(KeepFrom(list, i)[a])) < IndexOf(list, Some(KeepFrom(list, i)[b]))
    decreases |list| - i
  {
    if i < |list| {
      KeepFromOrdered(list, i + 1);
      KeepFromSound(list, i + 1);
      var t := KeepFrom(list, i + 1);
      if KeptAt(list, i) {
        var r := KeepFrom(list, i);
        assert r == [list[i].value] + t;
        assert list[i] == Some(list[i].value);
        forall a, b | 0 <= a < b < |r| ensures IndexOf(list, Some(r[a])) < IndexOf(list, Some(r[b])) {
          assert r[b] == t[b - 1];
          if a > 0 { assert r[a] == t[a - 1]; }
        }
      }
    }
  }

  /** Every kept index from `i` on contributes its string. */
  lemma {:induction false} KeepFromComplete(list: seq<Option<string>>, i: nat, j: int)
    requires i <= j && KeptAt(list, j)
    ensures list[j].value in KeepFrom(list, i)
    decreases |list| - i
  {
    if i < j {
      KeepFromComplete(list, i + 1, j);
    }
  }

  /**
   * `removeDuplicates`: the result holds each non-empty string of the list
   * exactly once, in the order of first occurrence.
   */
  lemma RemoveDuplicatesSpec(list: seq<Option<string>>)
    ensures forall a, b :: 0 <= a < b < |RemoveDuplicates(list)| ==> RemoveDuplicates(list)[a] != RemoveDuplicates(list)[b]
    ensures forall s :: s in RemoveDuplicates(list) <==> Some(s) in list && s != ""
    ensures forall a, b :: 0 <= a < b < |RemoveDuplicates(list)| ==>
      IndexOf(list, Some(RemoveDuplicates(list)[a])) < IndexOf(list, Some(RemoveDuplicates(list)[b]))
  {
    KeepFromSound(list, 0);
    KeepFromOrdered(list, 0);
    var r := RemoveDuplicates(list);
    assert r == KeepFrom(list, 0);
    forall s | s in r ensures Some(s) in list && s != "" {
      var a :| 0 <= a < |r| && r[a] == s;
      var f := IndexOf(list, Some(s));
      assert KeptAt(list, f);
    }
    forall s | Some(s) in list && s != "" ensures s in r {
      var f := IndexOf(list, Some(s));
      assert KeptAt(list, f);
      KeepFromComplete(list, 0, f);
    }
  }

  /** `path.join(...)` of an absolute path and further segments. */
  function PathJoin(p: Path, segments: seq<string>): string
  {
    Render(p + segments)
  }

  /**
   * `allConfigFiles` before filtering, in order: three files under `/etc`
   * (not on Windows), four in the home directory (when it is known), the
   * nearest `.<name>rc` upward from `cwd`, and `argv.config`.
   */
  function Candidates(name: string, isWin: bool, home: Option<Path>, found: Option<string>, argvConfig: Option<string>): (r: seq<Option<string>>)
    ensures |r| == 9
  {
    var etc: Path := ["etc"];
    [ if isWin then None else Some(PathJoin(etc, [name, "config"])),
      if isWin then None else Some(PathJoin(etc, [name + "rc"])),
      if isWin then None else Some(PathJoin(etc, ["xdg", name, name + ".rc"])),
      if home.None? then None else Some(PathJoin(home.value, [".config", name, "config"])),
      if home.None? then None else Some(PathJoin(home.value, [".config", name])),
      if home.None? then None else Some(PathJoin(home.value, ["." + name, "config"])),
      if home.None? then None else Some(PathJoin(home.value, ["." + name + "rc"])),
      found,
      argvConfig ]
  }

  lemma EtcPaths(name: string)
    ensures PathJoin(["etc"], [name, "config"]) == "/etc/" + name + "/config"
    ensures PathJoin(["etc"], [name + "rc"]) == "/etc/" + name + "rc"
  {
    assert ["etc"] + [name, "config"] == ["etc", name, "config"];
    assert ["etc", name, "config"][1..] == [name, "config"];
    assert [name, "config"][1..] == ["config"];
    assert Join([name, "config"], '/') == name + "/" + "config";
    assert Join(["etc", name, "config"], '/') == "etc" + "/" + (name + "/" + "config");
    assert "/" + ("etc" + "/" + (name + "/" + "config")) == "/etc/" + name + "/config";
    assert ["etc"] + [name + "rc"] == ["etc", name + "rc"];
    assert ["etc", name + "rc"][1..] == [name + "rc"];
    assert Join(["etc", name + "rc"], '/') == "etc" + "/" + (name + "rc");
    assert "/" + ("etc" + "/" + (name + "rc")) == "/etc/" + name + "rc";
  }

  /** Outside Windows the list starts with `/etc/<name>/config`, and `/etc/<name>rc` is checked too. */
  lemma CandidatesEtc(name: string, home: Option<Path>, found: Option<string>, argvConfig: Option<string>)
    ensures |RemoveDuplicates(Candidates(name, false, home, found, argvConfig))| >= 1
    ensures RemoveDuplicates(Candidates(name, false, home, found, argvConfig))[0] == "/etc/" + name + "/config"
    ensures "/etc/" + name + "rc" in RemoveDuplicates(Candidates(name, false, home, found, argvConfig))
  {
    var list := Candidates(name, false, home, found, argvConfig);
    EtcPaths(name);
    RemoveDuplicatesSpec(list);
    assert list[0] == Some("/etc/" + name + "/config");
    assert list[1] == Some("/etc/" + name + "rc");
    var checked := RemoveDuplicates(list);
    assert KeptAt(list, 0);
    assert checked == [list[0].value] + KeepFrom(list, 1);
  }

  /** On Windows without a home directory only the upward search and `--config` can contribute. */
  lemma CandidatesWindowsHomeless(name: string, found: Option<string>, argvConfig: Option<string>)
    ensures forall x :: x in RemoveDuplicates(Candidates(name, true, None, found, argvConfig)) ==>
      Some(x) == found || Some(x) == argvConfig
  {
    RemoveDuplicatesSpec(Candidates(name, true, None, found, argvConfig));
  }
}
