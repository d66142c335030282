/**
 * `parse` of lib/utils.js: the content of a configuration file (or string
 * defaults) is read as JSON after stripping comments, else as YAML unless
 * YAML yields a bare string, else as INI; the value found is normalized.
 * The four foreign libraries are parameters.
 */
module Formats {
  import opened Wrappers
  import opened Configs
  import opened Normalizer

  /**
   * strip-json-comments, `JSON.parse` and yaml-js's `load`, which may throw
   * (`None`), and `ini.parse`, which does not.
   */
  datatype Parsers = Parsers(
    stripComments: string -> string,
    json: string -> Option<Config>,
    yaml: string -> Option<Config>,
    ini: string -> Config)

  /** A YAML result is used unless loading threw or produced a string. */
  predicate YamlAccepted(y: Option<Config>)
  {
    y.Some? && !(y.value.Leaf? && y.value.value.Str?)
  }

  function Parse(ps: Parsers, content: string): (r: Fields)
    ensures Normal(Node(r))
  {
    var j := ps.json(ps.stripComments(content));
    if j.Some? then Normalize(j.value)
    else
      var y := ps.yaml(content);
      if YamlAccepted(y) then Normalize(y.value)
      else Normalize(ps.ini(content))
  }

  /** JSON is tried first, on the comment-stripped text; when it succeeds, YAML and INI play no part. */
  lemma ParseJsonFirst(ps: Parsers, content: string, yaml: string -> Option<Config>, ini: string -> Config)
    requires ps.json(ps.stripComments(content)).Some?
    ensures Parse(ps, content) == Normalize(ps.json(ps.stripComments(content)).value)
    ensures Parse(ps.(yaml := yaml, ini := ini), content) == Parse(ps, content)
  {
  }

  /** When JSON fails, an accepted YAML value is used and INI plays no part. */
  lemma ParseYamlSecond(ps: Parsers, content: string, ini: string -> Config)
    requires ps.json(ps.stripComments(content)).None?
    requires YamlAccepted(ps.yaml(content))
    ensures Parse(ps, content) == Normalize(ps.yaml(content).value)
    ensures Parse(ps.(ini := ini), content) == Parse(ps, content)
  {
  }

  /**
   * INI is the last resort: whenever JSON fails and YAML throws or yields a
   * bare string (INI text that YAML reads as one scalar), INI decides.
   */
  lemma ParseIniLast(ps: Parsers, content: string)
    requires ps.json(ps.stripComments(content)).None? && !YamlAccepted(ps.yaml(content))
    ensures Parse(ps, content) == Normalize(ps.ini(content))
  {
  }
}
