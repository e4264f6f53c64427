/**
 * The two export commands: the names of the files they write and the
 * entries the "unlocalized" export keeps. Serialisation and the write
 * itself are outside the model; whether the write succeeded is a parameter.
 */
module Exports {
  import opened Strings
  import opened Tables

  const PluginId: string := "shudnal.Relocalizer"
  /** Prefix of the file written by `savecurrentlocalization`. */
  const PrefixCurrentLocalization: string := PluginId + ".CurrentLocalization"
  /** Prefix of the file written by `saveunlocalizedstrings`. */
  const PrefixUnlocalized: string := PluginId + ".Unlocalized"

  /** `fileFormat.ToLower() == "json"` selects JSON; every other format writes YAML. */
  function Extension(fileFormat: string): (ext: string)
    ensures ext == "json" || ext == "yml"
    ensures '.' !in ext
  {
    if ToLower(fileFormat) == "json" then "json" else "yml"
  }

  /** `$"{prefix}.{language}.{extension}"`. */
  function ExportFileName(prefix: string, language: string, fileFormat: string): (name: string)
    ensures StartsWith(name, prefix)
    ensures Split(name, '.') == Split(prefix, '.') + Split(language, '.') + [Extension(fileFormat)]
  {
    var ext := Extension(fileFormat);
    var tail := language + ['.'] + ext;
    SplitSingle(ext, '.');
    SplitAround(language, ext, '.');
    SplitAround(prefix, tail, '.');
    assert prefix + ['.'] + language + ['.'] + ext == prefix + ['.'] + tail;
    prefix + ['.'] + language + ['.'] + ext
  }

  /**
   * For a language name without dots the export name has the shape the
   * config reader parses: the language is its second-to-last segment and
   * the chosen extension its last.
   */
  lemma ExportNameParses(prefix: string, language: string, fileFormat: string)
    requires '.' !in language
    ensures var parts := Split(ExportFileName(prefix, language, fileFormat), '.');
      |parts| >= 3 && parts[|parts| - 2] == language && parts[|parts| - 1] == Extension(fileFormat)
  {
    SplitSingle(language, '.');
  }

  /**
   * Whatever the language, the last segment of an export name is "json"
   * exactly when `fileFormat.ToLower() == "json"`, and "yml" otherwise.
   */
  lemma ExportExtension(prefix: string, language: string, fileFormat: string)
    ensures var parts := Split(ExportFileName(prefix, language, fileFormat), '.');
      (parts[|parts| - 1] == "json" <==> ToLower(fileFormat) == "json")
      && (parts[|parts| - 1] == "yml" <==> ToLower(fileFormat) != "json")
  {
  }

  /** `SaveLocalization`: the file name, or "" when the write failed. */
  function SaveLocalization(fileFormat: string, language: string, writeSucceeded: bool): (name: string)
    ensures name != "" <==> writeSucceeded
    ensures writeSucceeded ==> StartsWith(name, PrefixCurrentLocalization)
  {
    if writeSucceeded then ExportFileName(PrefixCurrentLocalization, language, fileFormat) else ""
  }

  /** `SaveUnlocalized`: the file name, or "" when the write failed. */
  function SaveUnlocalized(fileFormat: string, language: string, writeSucceeded: bool): (name: string)
    ensures name != "" <==> writeSucceeded
    ensures writeSucceeded ==> StartsWith(name, PrefixUnlocalized)
  {
    if writeSucceeded then ExportFileName(PrefixUnlocalized, language, fileFormat) else ""
  }

  /**
   * The entries `SaveUnlocalized` writes: the English entries, in order, whose
   * key the current translations lack or map to the very same text.
   */
  function Unlocalized(english: Table, current: map<string, string>): (r: Table)
    ensures forall e :: e in r <==> e in english && (e.key !in current || current[e.key] == e.value)
    ensures |r| <= |english|
  {
    if english == [] then []
    else
      var e := english[0];
      assert forall x :: x in english <==> x == e || x in english[1..];
      (if e.key !in current || current[e.key] == e.value then [e] else []) + Unlocalized(english[1..], current)
  }

  /** The export is itself a table with distinct keys whenever the English table is. */
  lemma {:induction false} UnlocalizedDistinct(english: Table, current: map<string, string>)
    requires DistinctKeys(english)
    ensures DistinctKeys(Unlocalized(english, current))
  {
    if english != [] {
      var e := english[0];
      DistinctHead(english);
      UnlocalizedDistinct(english[1..], current);
      var rest := Unlocalized(english[1..], current);
      if e.key !in current || current[e.key] == e.value {
        assert e.key !in Keys(rest) by {
          forall x | x in rest ensures x.key != e.key {
            assert x in english[1..];
          }
        }
        ConsDistinct(e, rest);
      }
    }
  }
}
