/**
 * `ReadConfigs`: which files of the config directory are read, and how their
 * dictionaries merge into one table per language. The directory listing is
 * given, already in the order `OrderBy(file => file.Name)` produces, each
 * file with the outcome of reading and deserialising it.
 */
module ConfigMerge {
  import opened Wrappers
  import opened Strings
  import opened Tables
  import Exports

  /**
   * What reading and deserialising one file gave: an exception while reading,
   * an exception while parsing (YAML or JSON syntax errors), or a document,
   * which deserialises to null (`None`) or to a dictionary.
   */
  datatype FileContent = Unreadable | Malformed | Document(parsed: Option<Table>)

  datatype ConfigFile = ConfigFile(name: string, content: FileContent)

  /** A deserialised dictionary, like any .NET `Dictionary`, never holds a key twice. */
  predicate DictionaryContent(f: ConfigFile) {
    f.content.Document? && f.content.parsed.Some? ==> DistinctKeys(f.content.parsed.value)
  }

  predicate WellFormed(files: seq<ConfigFile>) {
    forall i :: 0 <= i < |files| ==> DictionaryContent(files[i])
  }

  /**
   * `ReadConfigFile`: null when reading or parsing threw; a document that
   * deserialises to null is an empty dictionary, not null.
   */
  function ReadConfigFile(content: FileContent): (dict: Option<Table>)
    ensures dict.None? <==> content.Unreadable? || content.Malformed?
    ensures content == Document(None) ==> dict == Some([])
    ensures content.Document? && content.parsed.Some? ==> dict == content.parsed
  {
    match content
    case Document(parsed) => Some(parsed.GetOr([]))
    case _ => None
  }

  /** The fate of one file in `ReadConfigs`, one case per `continue` and the accepting path. */
  datatype Verdict =
    | Reserved
    | NoExtension
    | UnknownLanguage(language: string)
    | BadContent(language: string)
    | Accepted(language: string, dict: Table)

  /** The plugin's own export files, which are never read back. */
  predicate IsReserved(name: string) {
    StartsWith(name, Exports.PrefixCurrentLocalization) || StartsWith(name, Exports.PrefixUnlocalized)
  }

  /** The second-to-last dot-separated segment of a name that has a dot. */
  function LanguageOf(name: string): string
    requires '.' in name
  {
    SplitSingle(name, '.');
    var parts := Split(name, '.');
    parts[|parts| - 2]
  }

  function Classify(file: ConfigFile, languages: set<string>): (v: Verdict)
    ensures v.Reserved? <==> IsReserved(file.name)
    ensures v.NoExtension? <==> !IsReserved(file.name) && '.' !in file.name
    ensures v.UnknownLanguage? <==>
      !IsReserved(file.name) && '.' in file.name && LanguageOf(file.name) !in languages
    ensures v.Accepted? <==>
      !IsReserved(file.name) && '.' in file.name && LanguageOf(file.name) in languages
      && (file.content.Document?)
    ensures v.Accepted? ==>
      v.language == LanguageOf(file.name) && ReadConfigFile(file.content) == Some(v.dict)
  {
    if IsReserved(file.name) then Reserved
    else
      var filename := Split(file.name, '.');
      SplitSingle(file.name, '.');
      if |filename| < 2 then NoExtension
      else
        var language := filename[|filename| - 2];
        if language !in languages then UnknownLanguage(language)
        else
          match ReadConfigFile(file.content)
          case None => BadContent(language)
          case Some(dict) => Accepted(language, dict)
  }

  /** A file under a name the export commands write is skipped as reserved. */
  lemma ExportsAreNeverRead(language: string, fileFormat: string, content: FileContent, languages: set<string>)
    ensures Classify(ConfigFile(Exports.SaveLocalization(fileFormat, language, true), content), languages) == Reserved
    ensures Classify(ConfigFile(Exports.SaveUnlocalized(fileFormat, language, true), content), languages) == Reserved
  {
  }

  /** The policy chosen by "Overwrite duplicate keys". */
  function Merge(table: Table, dict: Table, overwrite: bool): Table {
    if overwrite then Overwrite(table, dict) else KeepFirst(table, dict)
  }

  /** One iteration of the `foreach` in `ReadConfigs`. */
  function Step(acc: map<string, Table>, file: ConfigFile, languages: set<string>, overwrite: bool): map<string, Table> {
    match Classify(file, languages)
    case Accepted(language, dict) =>
      if language !in acc then acc[language := dict]
      else acc[language := Merge(acc[language], dict, overwrite)]
    case _ => acc
  }

  /** The dictionary `ReadConfigs` publishes, the files taken in listing order. */
  function MergeAll(files: seq<ConfigFile>, languages: set<string>, overwrite: bool): map<string, Table>
    decreases |files|
  {
    if files == [] then map[]
    else
      var n := |files| - 1;
      Step(MergeAll(files[..n], languages, overwrite), files[n], languages, overwrite)
  }

  /** File `f` is accepted for `language` and its dictionary holds `key`. */
  predicate Supplies(f: ConfigFile, languages: set<string>, language: string, key: string) {
    var v := Classify(f, languages);
    v.Accepted? && v.language == language && key in Keys(v.dict)
  }

  predicate AcceptedFor(f: ConfigFile, languages: set<string>, language: string) {
    var v := Classify(f, languages);
    v.Accepted? && v.language == language
  }

  /** One file adds its language to the result exactly when it is accepted. */
  lemma StepLanguages(acc: map<string, Table>, f: ConfigFile, languages: set<string>, overwrite: bool, language: string)
    ensures language in Step(acc, f, languages, overwrite) <==> language in acc || AcceptedFor(f, languages, language)
  {
  }

  /** One file adds to a language's keys exactly the keys it supplies. */
  lemma StepKeys(acc: map<string, Table>, f: ConfigFile, languages: set<string>, overwrite: bool, language: string, key: string)
    requires language in Step(acc, f, languages, overwrite)
    ensures key in Keys(Step(acc, f, languages, overwrite)[language]) <==>
      (language in acc && key in Keys(acc[language])) || Supplies(f, languages, language, key)
  {
  }

  /** Some file of the listing is accepted for `language` exactly when one before the last is, or the last is. */
  lemma SomeAcceptedSplit(files: seq<ConfigFile>, n: nat, languages: set<string>, language: string)
    requires |files| == n + 1
    ensures (exists i :: 0 <= i < |files| && AcceptedFor(files[i], languages, language)) <==>
      (exists i :: 0 <= i < n && AcceptedFor(files[..n][i], languages, language))
      || AcceptedFor(files[n], languages, language)
  {
    if exists i :: 0 <= i < |files| && AcceptedFor(files[i], languages, language) {
      var i :| 0 <= i < |files| && AcceptedFor(files[i], languages, language);
      if i < n {
        assert files[..n][i] == files[i];
      }
    }
  }

  /** Some file of the listing supplies `key` exactly when one before the last does, or the last does. */
  lemma SomeSuppliesSplit(files: seq<ConfigFile>, n: nat, languages: set<string>, language: string, key: string)
    requires |files| == n + 1
    ensures (exists i :: 0 <= i < |files| && Supplies(files[i], languages, language, key)) <==>
      (exists i :: 0 <= i < n && Supplies(files[..n][i], languages, language, key))
      || Supplies(files[n], languages, language, key)
  {
    if exists i :: 0 <= i < |files| && Supplies(files[i], languages, language, key) {
      var i :| 0 <= i < |files| && Supplies(files[i], languages, language, key);
      if i < n {
        assert files[..n][i] == files[i];
      }
    }
  }

  /** A language has a table exactly when at least one of its files was accepted. */
  lemma {:induction false} MergedLanguages(files: seq<ConfigFile>, languages: set<string>, overwrite: bool, language: string)
    ensures language in MergeAll(files, languages, overwrite) <==>
      exists i :: 0 <= i < |files| && AcceptedFor(files[i], languages, language)
  {
    if files != [] {
      var n := |files| - 1;
      MergedLanguages(files[..n], languages, overwrite, language);
      StepLanguages(MergeAll(files[..n], languages, overwrite), files[n], languages, overwrite, language);
      SomeAcceptedSplit(files, n, languages, language);
    }
  }

  /** Every merged table has distinct keys. */
  lemma {:induction false} MergedDistinct(files: seq<ConfigFile>, languages: set<string>, overwrite: bool)
    requires WellFormed(files)
    ensures forall l :: l in MergeAll(files, languages, overwrite) ==> DistinctKeys(MergeAll(files, languages, overwrite)[l])
  {
    if files != [] {
      var n := |files| - 1;
      assert WellFormed(files[..n]);
      MergedDistinct(files[..n], languages, overwrite);
      assert DictionaryContent(files[n]);
    }
  }

  /** A language's keys are the union of the keys of its accepted files. */
  lemma {:induction false} MergedKeys(files: seq<ConfigFile>, languages: set<string>, overwrite: bool, language: string, key: string)
    requires language in MergeAll(files, languages, overwrite)
    ensures key in Keys(MergeAll(files, languages, overwrite)[language]) <==>
      exists i :: 0 <= i < |files| && Supplies(files[i], languages, language, key)
  {
    var n := |files| - 1;
    var prev := MergeAll(files[..n], languages, overwrite);
    StepKeys(prev, files[n], languages, overwrite, language, key);
    SomeSuppliesSplit(files, n, languages, language, key);
    if language in prev {
      MergedKeys(files[..n], languages, overwrite, language, key);
    } else {
      MergedLanguages(files[..n], languages, overwrite, language);
    }
  }

  /**
   * Overwrite policy: a key takes its value from the last accepted file, in
   * listing order, that holds it.
   */
  lemma {:induction false} OverwriteTakesLast(files: seq<ConfigFile>, languages: set<string>, language: string, key: string, i: nat)
    requires WellFormed(files)
    requires i < |files| && Supplies(files[i], languages, language, key)
    requires forall j :: i < j < |files| ==> !Supplies(files[j], languages, language, key)
    ensures language in MergeAll(files, languages, true)
    ensures Lookup(MergeAll(files, languages, true)[language], key) == Lookup(Classify(files[i], languages).dict, key)
  {
    var n := |files| - 1;
    var prev := MergeAll(files[..n], languages, true);
    assert WellFormed(files[..n]);
    assert DictionaryContent(files[n]);
    var v := Classify(files[n], languages);
    if i < n {
      OverwriteTakesLast(files[..n], languages, language, key, i);
      if v.Accepted? && v.language == language {
        OverwriteLookup(prev[language], v.dict, key);
      }
    } else if language in prev {
      OverwriteLookup(prev[language], v.dict, key);
    }
  }

  /** Keep-first, one file: a key the language already has keeps its value. */
  lemma KeepFirstStepKeeps(acc: map<string, Table>, f: ConfigFile, languages: set<string>, language: string, key: string)
    requires DictionaryContent(f) && language in acc && DistinctKeys(acc[language]) && key in Keys(acc[language])
    ensures language in Step(acc, f, languages, false)
    ensures Lookup(Step(acc, f, languages, false)[language], key) == Lookup(acc[language], key)
  {
    var v := Classify(f, languages);
    if v.Accepted? && v.language == language {
      KeepFirstLookup(acc[language], v.dict, key);
    }
  }

  /** Keep-first, one file: a key the language lacks takes the value of the file that supplies it. */
  lemma KeepFirstStepAdds(acc: map<string, Table>, f: ConfigFile, languages: set<string>, language: string, key: string)
    requires DictionaryContent(f) && Supplies(f, languages, language, key)
    requires language in acc ==> DistinctKeys(acc[language]) && key !in Keys(acc[language])
    ensures language in Step(acc, f, languages, false)
    ensures Lookup(Step(acc, f, languages, false)[language], key) == Lookup(Classify(f, languages).dict, key)
  {
    var v := Classify(f, languages);
    assert v.Accepted? && v.language == language;
    assert f.content.Document? && f.content.parsed.Some?;
    if language in acc {
      assert Step(acc, f, languages, false)[language] == KeepFirst(acc[language], v.dict);
      KeepFirstLookup(acc[language], v.dict, key);
    }
  }

  /**
   * Keep-first policy: a key keeps the value of the first accepted file, in
   * listing order, that holds it; later files never change it.
   */
  lemma {:induction false} KeepFirstTakesFirst(files: seq<ConfigFile>, languages: set<string>, language: string, key: string, i: nat)
    requires WellFormed(files)
    requires i < |files| && Supplies(files[i], languages, language, key)
    requires forall j :: 0 <= j < i ==> !Supplies(files[j], languages, language, key)
    ensures language in MergeAll(files, languages, false)
    ensures Lookup(MergeAll(files, languages, false)[language], key) == Lookup(Classify(files[i], languages).dict, key)
  {
    var n := |files| - 1;
    var prev := MergeAll(files[..n], languages, false);
    assert WellFormed(files[..n]);
    assert DictionaryContent(files[n]);
    MergedDistinct(files[..n], languages, false);
    if i < n {
      assert files[..n][i] == files[i];
      KeepFirstTakesFirst(files[..n], languages, language, key, i);
      MergedKeys(files[..n], languages, false, language, key);
      KeepFirstStepKeeps(prev, files[n], languages, language, key);
    } else {
      if language in prev {
        MergedKeys(files[..n], languages, false, language, key);
        forall j | 0 <= j < n ensures !Supplies(files[..n][j], languages, language, key) {
          assert files[..n][j] == files[j];
        }
      }
      KeepFirstStepAdds(prev, files[n], languages, language, key);
    }
  }

  /** A file that is not accepted, wherever it stands in the listing, changes nothing. */
  lemma {:induction false} SkippedFileChangesNothing(before: seq<ConfigFile>, f: ConfigFile, after: seq<ConfigFile>, languages: set<string>, overwrite: bool)
    requires !Classify(f, languages).Accepted?
    ensures MergeAll(before + [f] + after, languages, overwrite) == MergeAll(before + after, languages, overwrite)
    decreases |after|
  {
    if after == [] {
      var all := before + [f] + after;
      assert all == before + [f] && all[..|before|] == before && all[|before|] == f;
      assert Step(MergeAll(before, languages, overwrite), f, languages, overwrite) == MergeAll(before, languages, overwrite);
      assert before + after == before;
    } else {
      var n := |after| - 1;
      SkippedFileChangesNothing(before, f, after[..n], languages, overwrite);
      assert (before + [f] + after)[..|before| + 1 + n] == before + [f] + after[..n];
      assert (before + after)[..|before| + n] == before + after[..n];
    }
  }

  /**
   * The `foreach` of `ReadConfigs`: files in listing order, each skipped or
   * merged into a fresh dictionary that is only handed out when complete.
   */
  method LoadConfigs(files: seq<ConfigFile>, languages: set<string>, overwrite: bool) returns (newValue: map<string, Table>)
    ensures newValue == MergeAll(files, languages, overwrite)
  {
    newValue := map[];
    var i := 0;
    while i < |files|
      invariant 0 <= i <= |files|
      invariant newValue == MergeAll(files[..i], languages, overwrite)
    {
      var file := files[i];
      i := i + 1;
      assert files[..i][..i - 1] == files[..i - 1] && files[..i][i - 1] == file;
      ghost var before := newValue;
      assert MergeAll(files[..i], languages, overwrite) == Step(before, file, languages, overwrite);
      if IsReserved(file.name) {
        continue;
      }
      var filename := Split(file.name, '.');
      SplitSingle(file.name, '.');
      if |filename| < 2 {
        continue;
      }
      var language := filename[|filename| - 2];
      if language !in languages {
        continue;
      }
      var dict := ReadConfigFile(file.content);
      if dict.None? {
        continue;
      }
      assert Classify(file, languages) == Accepted(language, dict.value);
      if language !in newValue {
        newValue := newValue[language := dict.value];
      } else if overwrite {
        var merged := OverwriteInto(newValue[language], dict.value);
        newValue := newValue[language := merged];
      } else {
        newValue := newValue[language := KeepFirst(newValue[language], dict.value)];
      }
    }
    assert files[..i] == files;
  }

  /** `dict.Do(kvp => table[kvp.Key] = kvp.Value)`: entries stored one at a time, in order. */
  method OverwriteInto(table: Table, dict: Table) returns (r: Table)
    ensures r == Overwrite(table, dict)
  {
    r := table;
    var i := 0;
    while i < |dict|
      invariant 0 <= i <= |dict|
      invariant r == Overwrite(table, dict[..i])
    {
      assert dict[..i + 1][..i] == dict[..i];
      r := Put(r, dict[i].key, dict[i].value);
      i := i + 1;
    }
    assert dict[..i] == dict;
  }
}
