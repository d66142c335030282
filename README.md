# rucola in Dafny

A verified model of the configuration-merge pipeline of rucola, a Node.js
library that builds one nested configuration object for an application.
Given an application name, it reads from four kinds of source:

- defaults, given as an object or as text;
- a fixed list of configuration-file locations;
- the environment variables `<NAME>_*`;
- the parsed command line.

It normalizes every source: keys are flattened to dotted paths,
lower-cased and nested again. It then deep-merges them in that order, later
sources winning. The result carries the list of files checked, the list of
files used, and a dotted-path getter.

The model follows `lib/utils.js` and `index.js`:

| module | file | models |
|---|---|---|
| `Wrappers`, `Strings`, `Objects`, `Configs` | `wrappers.dfy`, `strings.dfy`, `objects.dfy`, `configs.dfy` | option/result types; the ASCII string operations the code uses (`toLowerCase`, `toUpperCase`, `split`, `join`, `indexOf`, run-collapsing `replace`); JavaScript objects as ordered key/value sequences; the configuration tree and path lookup |
| `KeyTransform` | `key_transform.dfy` | `keysToLowerCase` and `conditionalTransformKeys`, as methods with their countdown loops, proved against the function `TransformKeys` |
| `Normalizer` | `normalizer.dfy` | `normalize` = nest ∘ lower-case keys ∘ flatten, with a reference meaning for nest and the idempotence proof |
| `Formats` | `parse.dfy` | `parse`: JSON after stripping comments, then YAML unless it yields a bare string, then INI |
| `Paths` | `paths.dfy` | `find`: the upward search for a file from the working directory |
| `Sources` | `sources.dfy` | `env` and `argv`: the environment and command-line layers |
| `DeepExtend` | `deep_extend.dfy` | the deep merge that index.js performs |
| `ConfigFiles` | `candidates.dfy` | the candidate file list and `removeDuplicates` |
| `Loading` | `loading.dfy` | the `tupleify`/`loadConfig`/`removeFalsy`/`detupleify` pipeline; the tuple is a class that `Load` updates in place |
| `Rucola` | `rucola.dfy` | `rucola(...)`: the name check, the defaults layer, the merge order, the `usedConfigs`/`checkedConfigs` metadata and `get` |

Modelling choices:

- **Objects** are sequences of entries (`Obj<V>`), and assignment is `Put`.
  `Put` keeps the position of an existing key and appends a new one, as
  JavaScript does for string keys.
- **The configuration tree** is `Config = Leaf(Scalar) | Node(Obj<Config>)`.
  Arrays are kept whole as `List` scalars; this covers the positional list
  `_`.
- **Absent values**: `undefined` and a thrown exception are `None`. As a configuration value, `undefined` is represented by `Null`: both are falsy and both normalize to `{}`.
- **The outside world** is passed in as parameters:
  - the four foreign parsers, as a `Parsers` record of functions;
  - `fs.existsSync` and `utils.file`, as `fileExists` and `read`;
  - `process.env`, the platform, the home directory and the working
    directory, in a `World` record.
- **The command line** arrives already parsed, as `Fields`.
- **Paths** are absolute sequences of segments, and `Render` writes them as
  strings.
- **Normal form**: `Normal(c)` says every key at every depth is lower-case
  and dot-free. Parsing, normalizing and merging all yield it.

`parse` rejects a YAML result only when it is a string (`lib/utils.js:16`).
A file holding just `true` or `42` is accepted by `JSON.parse` already. Text
that JSON rejects but YAML reads as a number or a boolean, such as `0x1F`,
is accepted from YAML, and the INI parser never sees it. `Formats.Parse`
models that check as written.

## Model

| member | source | states |
|---|---|---|
| Strings.ToLower | lib/utils.js:61 | `toLowerCase` on ASCII letters: the same length, each upper-case letter mapped to its lower-case one; its meaning is stated by ToLowerNoUpper |
| Strings.ToUpper | lib/utils.js:91 | `toUpperCase` on ASCII letters: the same length, each lower-case letter mapped to its upper-case one; its meaning is stated by EnvPrefixShape and EnvPrefixRun |
| Strings.ReplaceRunsFrom | lib/utils.js:91 | the regular-expression rewrite character by character, remembering whether a run of rejected characters is open; its meaning is stated by ReplaceRunsSpec, ReplaceRunsRun and ReplaceRunsFilter |
| Strings.ReplaceRuns | lib/utils.js:91 | `s.replace(/[^…]+/g, rep)`, also used at lib/utils.js:99 and 116; its meaning is stated by ReplaceRunsSpec, ReplaceRunsRun and ReplaceRunsFilter |
| Strings.ToLowerNoUpper | lib/utils.js:61 | a lower-cased key contains no upper-case ASCII letter |
| Strings.ReplaceRunsRun | lib/utils.js:91 | `replace(/[^…]+/g, rep)` goes run by run: a maximal run of rejected characters between kept text (or an end) becomes exactly one `rep` in its place, and the text on each side is rewritten on its own; with the unchanged-when-all-kept clause of `ReplaceRunsSpec` this fixes the result for every input |
| Strings.ReplaceRunsFilter | lib/utils.js:91 | every kept character other than `rep` passes through the rewrite, in order |
| Strings.ReplaceRunsSpec | lib/utils.js:91 | `replace(/[^…]+/g, rep)` produces only kept characters and `rep`; when `rep` is not kept: exactly the kept characters pass through in order, no two `rep` are adjacent, the result is never longer, and a string without rejected characters is unchanged |
| Objects.Put | lib/utils.js:79 | after `newObj[k] = v`, `k` maps to `v`, every other key keeps its value, the key set gains exactly `k`, and distinct keys stay distinct |
| KeyTransform.TransformKeys | lib/utils.js:67-84 | the object `conditionalTransformKeys` builds; its meaning is stated by TransformKeysSound, TransformKeysComplete, TransformKeysEarliestWins, TransformKeysRejected and TransformKeysDistinct |
| KeyTransform.LowerKeys | lib/utils.js:53-65 | the object `keysToLowerCase` builds: the transform with condition `true` and `toLowerCase`; its meaning is stated by the same lemmas |
| KeyTransform.ConditionalTransformKeys | lib/utils.js:67-84 | the countdown loop builds exactly `TransformKeys(o, cond, tr)`: the suffix is processed first, then each earlier entry is assigned over it |
| KeyTransform.KeysToLowerCase | lib/utils.js:53-65 | the countdown loop builds exactly `LowerKeys(o)`, the transform with condition `true` and `toLowerCase` |
| KeyTransform.TransformKeysSound | lib/utils.js:74-81 | every output entry is `(transform(k, v), v)` for an input entry `(k, v)` that passes the condition |
| KeyTransform.TransformKeysComplete | lib/utils.js:78-79 | the transformed key of every entry that passes the condition is in the output |
| KeyTransform.TransformKeysEarliestWins | lib/utils.js:74-80 | on a collision of transformed keys, the value of the earliest colliding input entry is the one kept |
| KeyTransform.TransformKeysRejected | lib/utils.js:78 | a key that no accepted entry transforms to is absent from the output |
| KeyTransform.TransformKeysDistinct | lib/utils.js:79 | the output never holds a key twice |
| Normalizer.Normalize | lib/utils.js:86-88 | the result is in normal form: at every depth every key is lower-case and contains no `.` |
| Normalizer.NestLeafAt | lib/utils.js:87 | after `nest`, the scalar at a path is decided by the last flat entry whose split key is comparable with the path: its value if it is that path, nothing if it is a proper prefix or extension |
| Normalizer.NormalizeNormal | lib/utils.js:86-88 | a tree already in normal form keeps the same scalar at every path after `normalize` |
| Normalizer.NormalizeIdempotent | lib/utils.js:86-88 | `normalize(normalize(x))` and `normalize(x)` hold the same scalar at every path |
| Normalizer.Flatten | lib/utils.js:87 | `flatten`: each scalar under its dotted path in enumeration order; its meaning is stated by FlattenFlat, FlattenLower and the nesting lemmas |
| Normalizer.Nest | lib/utils.js:87 | `nest`: each dotted key split at `.` and its scalar assigned at that path; its meaning is stated by NestLeafAt |
| Normalizer.NormalizeTopEntry | lib/utils.js:87 | a top-level key holding a scalar, such as `"A.b"`, ends up lower-cased and nested (`a` → `b`) with its scalar when no other flattened entry's lower-cased path is comparable with it, whatever objects the other keys hold (`{"A.b": 1, "c": {"d": 2}}`) |
| Normalizer.NormalizeFlatEntry | lib/utils.js:87 | the same for an object of scalars, with the condition stated on the other keys |
| Normalizer.NormalizeLowerTree | lib/utils.js:87 | keys are case-insensitive: lower-casing every key of the input in place leaves the result of `normalize` exactly the same, collisions included (`{A: {B: 1}}` and `{a: {b: 1}}` normalize alike) |
| Normalizer.NormalizeValue | lib/utils.js:87 | every scalar of the result is a scalar of the flattened input |
| Normalizer.NormalizeFalsy | lib/utils.js:87 | `null` (which also stands for `undefined`), `false`, `0` and `""` normalize to `{}` |
| Normalizer.FlattenFlat | lib/utils.js:87 | flattening an object of scalars keeps its keys, order and values |
| Formats.YamlAccepted | lib/utils.js:13-20 | a YAML result is used unless loading threw or gave a string; its meaning is stated by ParseYamlSecond and ParseIniLast |
| Formats.Parse | lib/utils.js:9-25 | whatever format decides, the parsed layer is in normal form |
| Formats.ParseJsonFirst | lib/utils.js:10-11 | when the comment-stripped text is JSON, the result is the normalized JSON value, whatever YAML and INI would say |
| Formats.ParseYamlSecond | lib/utils.js:13-20 | when JSON fails and YAML gives a non-string value, the result is the normalized YAML value, whatever INI would say |
| Formats.ParseIniLast | lib/utils.js:16-23 | when JSON fails and YAML throws or yields a string, the result is the normalized INI value |
| Paths.Dirname | lib/utils.js:45 | the parent is a prefix one segment shorter, and the root is the only path that is its own parent |
| Paths.FindFrom | lib/utils.js:38-48 | a returned path exists |
| Paths.Find | lib/utils.js:35-51 | the search starts at the working directory and a returned path exists |
| Paths.FindNearest | lib/utils.js:38-48 | the result is undefined exactly when `rel` exists below no ancestor up to the root; otherwise it is `rel` below the nearest such ancestor |
| Sources.Env | lib/utils.js:90-105 | `env(prefix, env)`: the prefixed variables, renamed and normalized; the layer is in normal form |
| Sources.EnvPrefix | lib/utils.js:91 | the prefix upper-cased, with each run of other characters replaced by one `_`; its meaning is stated by EnvPrefixShape and EnvPrefixRun |
| Sources.EnvCondition | lib/utils.js:94-96 | `isAppVar`: a variable is taken when its name starts with the prefix; its meaning is stated by EnvValues, EnvEmpty and EnvLands |
| Sources.EnvKey | lib/utils.js:98-100 | `transformKey`: the prefix cut off and each run of `_` replaced by one `.`; its meaning is stated by EnvKeyShape and EnvKeyRun |
| Sources.EnvPrefixShape | lib/utils.js:91 | the prefix holds only `A`-`Z`, `0`-`9` and `_`, never `__`, and keeps the letters and digits of the upper-cased name in order; a name of ASCII letters and digits is only upper-cased |
| Sources.EnvPrefixRun | lib/utils.js:91 | each maximal run of characters other than ASCII letters and digits becomes exactly one `_` in its place (`yolo_` → `YOLO_`, `a-b` → `A_B`) |
| Sources.EnvKeyShape | lib/utils.js:98-100 | a renamed variable contains no `_` and is no longer than what follows the prefix; every character other than `_` and `.` passes through in order; a rest without `_` is kept as it is |
| Sources.EnvKeyRun | lib/utils.js:98-100 | after the prefix, each maximal run of `_` becomes exactly one `.` in its place (`YOLO_C__G` → `C.G`) |
| Sources.EnvValues | lib/utils.js:90-105 | every scalar of the environment layer is the unchanged string value of a variable that starts with the prefix |
| Sources.EnvEmpty | lib/utils.js:94-104 | without a variable that starts with the prefix, the layer is `{}` |
| Sources.EnvLands | lib/utils.js:90-105 | a prefixed variable's string lands at its stripped, `_`→`.`, lower-cased, dot-split path when no other prefixed variable's path is comparable (`YOLO_COLORS_GREEN` → `colors.green`) |
| Sources.Argv | lib/utils.js:107-123 | `argv(argv)`: every flag but `_` renamed, `_` put back, the whole normalized; the layer is in normal form |
| Sources.NotPositional | lib/utils.js:111-113 | `canTransform`: every key but `_` is renamed; its meaning is stated by ArgPathHead and ArgvPositional |
| Sources.ArgVars | lib/utils.js:109-120 | every flag but `_` renamed, then `_` put back unchanged; its meaning is stated by ArgPathHead, ArgvPositional and ArgvLands |
| Sources.ArgKey | lib/utils.js:115-117 | `transformKey`: each run of characters other than letters and digits replaced by one `.`; its meaning is stated by ArgKeyShape and ArgKeyRun |
| Sources.ArgKeyShape | lib/utils.js:115-117 | a renamed flag holds only letters, digits and `.`, never `..`, and keeps its letters and digits in order; a flag of letters and digits is kept as it is |
| Sources.ArgKeyRun | lib/utils.js:115-117 | each maximal run of characters other than ASCII letters and digits becomes exactly one `.` in its place (`missing-nails-plural` → `missing.nails.plural`) |
| Sources.ArgPathHead | lib/utils.js:111-120 | no renamed flag's path begins with the segment `_`, so none collides with the positional list |
| Sources.ArgvPositional | lib/utils.js:107-123 | the positional list `_` is excluded from renaming and found unchanged at `_` |
| Sources.ArgvLands | lib/utils.js:107-123 | a flag other than `_` lands with its value at its renamed, lower-cased, dot-split path when no other flag's path is comparable (`--missing-nails-plural` → `missing.nails.plural`) |
| Sources.FlatEntryLands | lib/utils.js:87 | in an object of scalars with distinct keys, the scalar under `k` lands at `k` lower-cased and split at dots unless another key's path is comparable |
| DeepExtend.Combine | index.js:80 | deep-extend's rule for one key: a later scalar replaces, a later object merges into an earlier object or into `{}`; its meaning is stated by MergeLookup and CombineNormal |
| DeepExtend.Merge | index.js:80 | deep-extend of two objects; its meaning is stated by MergeKeys, MergeLookup, MergeLaterWins and MergeEarlierSurvives |
| DeepExtend.MergeAll | index.js:80 | `deepExtend(first, ...rest)`, folding `Merge` left to right; its meaning is stated by MergeAllPrecedence, MergeAllKeeps and MergeAllKeys |
| DeepExtend.MergeKeys | index.js:80 | the merge has exactly the keys of both sides |
| DeepExtend.MergeLookup | index.js:80 | a key of the later object gets the combined value (a later scalar replaces; a later object merges into an earlier object or a fresh one); any other key keeps the earlier value |
| DeepExtend.MergeLaterWins | index.js:80 | a scalar of the later object is the merged value at its path |
| DeepExtend.MergeEarlierSurvives | index.js:80 | a scalar of the earlier object survives where the later object holds only objects along the path and nothing at it |
| DeepExtend.MergeAllPrecedence | index.js:80 | across many layers, the scalar that layer `j` holds at a path is the merged value when every later layer is silent there |
| DeepExtend.MergeAllKeeps | index.js:80 | a scalar of the first argument survives layers that are all silent at its path |
| DeepExtend.MergeAllKeys | index.js:80 | the merged object's keys are exactly the keys of all layers |
| DeepExtend.MergeNormal | index.js:80 | merging two normal-form objects gives a normal-form object |
| DeepExtend.MergeAllNormal | index.js:80 | merging normal-form layers gives a normal-form object |
| Strings.IndexOf | index.js:29 | `indexOf`: the index of the first occurrence, with no earlier one. When the value is absent the model gives the length where JavaScript gives -1; the two agree at index.js:29, where the item is always in the list |
| ConfigFiles.RemoveDuplicates | index.js:28-30 | `allConfigFiles.filter(removeDuplicates)`; its meaning is stated by RemoveDuplicatesSpec |
| ConfigFiles.RemoveDuplicatesSpec | index.js:28-30 | the filtered list holds each non-empty candidate exactly once, nothing else, in the order of first occurrence |
| ConfigFiles.Candidates | index.js:56-66 | there are always nine raw candidates |
| ConfigFiles.CandidatesEtc | index.js:56-67 | outside Windows `/etc/<name>/config` is checked first and `/etc/<name>rc` is checked |
| ConfigFiles.CandidatesWindowsHomeless | index.js:56-67 | on Windows without a home directory only the upward search and `--config` can contribute |
| Loading.ConfigTuple.constructor | index.js:32-34 | `tupleify`: the tuple holds the path and no layer |
| Loading.ConfigTuple.Load | index.js:46-54 | `loadConfig` stores the parsed layer in place exactly when the file has non-empty content, and otherwise leaves the tuple unchanged |
| Loading.UsedConfigs | index.js:69-75 | every used path is a checked path whose file has content |
| Loading.LoadConfigs | index.js:69-78 | the loop over the tuples yields exactly `UsedConfigs` and `ConfigValues` |
| Loading.UsedConfigsSubsequence | index.js:69-75 | `usedConfigs` is `checkedConfigs` at the strictly increasing positions whose files have content, and at no others |
| Loading.ReadableIndicesSpec | index.js:69-75 | the positions kept by `removeFalsy` are strictly increasing positions of `checkedConfigs`, and a position is kept exactly when its file has content |
| Loading.ConfigValues | index.js:77-78 | the file layers, `configTuples.map(detupleify(1))`; its meaning is stated by LoadConfigs and ConfigValuesOfUsed |
| Loading.ConfigValuesOfUsed | index.js:69-78 | there are as many file layers as used paths, and the `k`-th layer is the parsed content of `usedConfigs[k]` |
| Rucola.DefaultsLayer | index.js:18-20 | the first merge argument, `utils.normalize(defaults)` of index.js:80: a string, `""` included, is parsed first; any other falsy value gives `{}`; the layer is in normal form |
| Rucola.EnvLayer | index.js:26 | `utils.env` with the prefix `<name>_`, the environment layer; its meaning is stated by EnvOverridesFiles |
| Rucola.Layers | index.js:80 | the merge arguments after the defaults: the file layers in order, then the environment, then the command line; its meaning is stated by FileWins, EnvOverridesFiles, ArgvWins and DefaultsSurvive |
| Rucola.ArgvConfig | index.js:65 | the last candidate, `argv.config`, when the command line gives it as a string |
| Rucola.CheckedConfigs | index.js:56-67 | `allConfigFiles`: the nine candidates filtered by `removeDuplicates`; its meaning is stated by Metadata |
| Rucola.Build | index.js:11-99 | the call fails exactly when `name` is not a string, and the merged data is in normal form |
| Rucola.ArgvWins | index.js:80 | a command-line scalar is always the final value at its path |
| Rucola.EnvOverridesFiles | index.js:80 | an environment scalar is the final value unless the command line reaches its path |
| Rucola.FileWins | index.js:69-80 | a scalar of the file `usedConfigs[k]` is the final value unless a later file, the environment or the command line reaches its path |
| Rucola.DefaultsSurvive | index.js:18-20 | a scalar of the normalized defaults survives when no other layer reaches its path |
| Rucola.DataKeys | index.js:80-97 | the data's keys are exactly those of the layers; the metadata lives outside the data |
| Rucola.Metadata | index.js:56-92 | `checkedConfigs` holds every non-empty candidate once; `usedConfigs` holds only checked paths with content; outside Windows `/etc/<name>/config` comes first and `/etc/<name>rc` is checked |
| Rucola.Conf.Get | index.js:94-96 | `conf.get(keyPath)`, flatnest's `seek` on the merged data; its meaning is stated by GetDotted and GetMissing |
| Rucola.GetDotted | index.js:94-97 | `get` of dot-free keys joined with `.` gives the value at those keys |
| Rucola.GetMissing | index.js:94-97 | `get` gives `undefined`, without failing, as soon as a segment of the path is missing |

## Left out

- Case mapping is ASCII only. `toLowerCase` and `toUpperCase` on non-ASCII letters, such as `ß` → `SS`, are not modelled.
- Key order is insertion order. JavaScript lists integer-like keys first in ascending order; that is not modelled.
- flatnest's bracket syntax for arrays is not modelled. Arrays are whole leaves.
- flatnest's `seek` is modelled on objects only. Property access on strings and other scalars, such as `length`, is not.
- Any truthy non-object value that `normalize` receives flattens to a single entry under the key `""`. This covers a truthy non-object `defaults` value, such as a number, and a parsed file whose JSON or YAML value is not an object, such as `42`, `true` or the JSON string `"abc"` (lib/utils.js:11, 20). flatnest's exact treatment of such a value is not modelled.
- deep-extend is a foreign library. The model keeps its merge rule:
  - a later object merges into an earlier object, or into a fresh one;
  - anything else replaces, and arrays are copied whole.
- deep-extend's guards against `__proto__` keys and self-reference, and its special copying of `Buffer`, `Date` and `RegExp`, are not modelled.
- DeepExtend.Merge returns a new value; it does not update its first argument in place. Aliasing of that argument is not modelled. The first argument is always the freshly normalized defaults, which nothing else holds.
- `path.join` normalisation is not modelled: no `.`/`..` resolution and no Windows separators. Paths are segment sequences, and the application name is treated as one segment.
- These are parameters, not modelled:
  - `fs.existsSync` and `utils.file`, as `fileExists` and `read`;
  - `process.env`, `process.platform`, `HOME` and `USERPROFILE`;
  - the working directory.
- A home directory given as an empty string is represented as absent.
- minimist and the `aliases` argument are not modelled. The command line arrives parsed and alias-resolved.
- The grammars of strip-json-comments, `JSON.parse`, yaml-js and `ini` are not modelled. They are parameter functions, and INI is taken to be total.
- Rucola.ArgvConfig keeps only a string `argv.config`. A truthy non-string value (`--config 5`), which index.js would list unread in `checkedConfigs`, is dropped.
- Sources.ArgVars: when the command line has no `_`, the model leaves `_` absent, as its own choice. The code assigns `undefined` to `_`. What flatnest and deep-extend do with that value is not modelled. If it survived them, by deep-extend's rule it would replace a `_` from the defaults, a file or the environment, which the model keeps.
- Loading.LoadConfigs runs `tupleify`, `loadConfig`, `removeFalsy` and `detupleify` in one loop, where the code makes five passes (`map(tupleify)`, `map(loadConfig)`, `filter(removeFalsy)` and the two `map(detupleify(…))`). The steps of one path do not affect another path, so the results are the same.
- `Object.defineProperty` is not modelled. The result is a record with separate `data`, `usedConfigs` and `checkedConfigs` fields and a `Get` member; writability and enumerability flags are not modelled.
- Sources.ArgvPositional and Sources.ArgvLands: stated for a command line whose values are all scalars. A nested value produced by minimist for a dotted flag is not covered.
- Sources.EnvLands, Sources.ArgvLands, Normalizer.NormalizeTopEntry and Normalizer.NormalizeFlatEntry: stated for keys whose paths do not collide. Collisions are covered by the separate rules:
  - TransformKeysEarliestWins for renaming;
  - Normalizer.NestLeafAt for nesting, where the last comparable entry decides.
- Normalizer.NormalizeIdempotent: stated path by path, not as equality of objects. Re-normalizing reverses key order, because the lower-casing loop runs last-to-first.
- Numbers are integers (`Num(n: int)`). Fractional numbers, `NaN` and `Infinity`, which JSON, YAML and INI values can produce, are not modelled; nothing in the pipeline computes with them.
- flatnest is a foreign library. Two choices of the model stand in for its behaviour:
  - Normalizer.Flatten drops an empty object, so `{a: {}}` flattens to nothing;
  - Normalizer.Insert replaces a scalar that lies on the way to a longer path with an object.
- Objects.Put: an assignment `newObj[k] = v` with `k` equal to `__proto__` creates no own key in JavaScript, and can happen for a flattened key in `keysToLowerCase`. `Put` creates the key all the same.
- Rucola.DataKeys, Rucola.GetDotted, Rucola.GetMissing: the code defines `get`, `usedConfigs` and `checkedConfigs` on the merged object itself (index.js:82-97), and the model keeps them beside the data. These effects are not captured:
  - a merged data key `get`, from a file, `YOLO_GET` or `--get`, is replaced by the accessor and hidden from enumeration, where the model keeps it in `data`;
  - `seek` runs on the object itself, so `conf.get('usedConfigs')`, `conf.get('checkedConfigs')` and `conf.get('get')` give the metadata and the accessor, where `Get` looks only in `data`.
