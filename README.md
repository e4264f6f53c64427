# Relocalizer core in Dafny

Relocalizer is a Valheim plugin that overrides the game's translations with
user-supplied tables. This project models the two parts of it that decide
which text the player sees:

- **Loading override tables** (`Relocalizer.cs`). `ReadConfigs` walks the
  config directory in file-name order. It skips the plugin's own export files,
  names without an extension, unknown language identifiers and files that do
  not read or parse. It merges each remaining file into its language's table,
  either overwriting duplicate keys or keeping the first value, and publishes
  the result in one assignment. `ReadConfigFile` tells a failed read (null)
  apart from an empty document (an empty dictionary). The file watcher and
  `UpdateReadConfigs` debounce reloads through a timer. The two export commands
  build their file names as `<prefix>.<language>.<json|yml>`, and the
  "unlocalized" export keeps the English entries that the current language
  does not translate.
- **Fixed-string substitution** (`FixedStringsLocalization.cs`). A
  `FixedStringsCollection` folds a language's rules (`text.Replace(key,
  value)`, in table order) over a text. It remembers, for each object
  identifier, the one rule to replay next time. A language change clears the
  memo. The global postfix folds the global rules with no memo.

Module layout:

| file | module | models |
|---|---|---|
| `strings.dfy` | `Strings` | `StartsWith` as an ordinal prefix test, `Split('.')`, `ToLower` as used against `"json"`, `IsNullOrWhiteSpace`, ordinal `Replace` |
| `tables.dfy` | `Tables` | `Dictionary<string,string>` as a sequence of entries in enumeration order; indexer store, `Concat`/`Where`/`ToDictionary`; `CustomSyncedValue` |
| `config_merge.dfy` | `ConfigMerge` | `ReadConfigFile`, the per-file decisions and the merge loop of `ReadConfigs` |
| `debounce.dfy` | `Debounce` | the `timeToReadConfigs` state machine as a pure transition function |
| `relocalizer.dfy` | `Relocalizer` | the plugin's mutable state: the timer and the published tables |
| `exports.dfy` | `Exports` | the export file names and the unlocalized-entry filter |
| `substitution.dfy` | `Substitution` | the rule fold and the memo entry a scan records |
| `fixed_strings.dfy` | `FixedStrings` | `FixedStringsCollection` and the static `FixedStringsLocalization` state |

Exceptions that the source lets escape are results in the model, with the
memo left as the source leaves it at the throw:

- `KeyNotFound` comes from `customSyncedValue.Value[language]` when the
  synchronised tables no longer hold the language.
- `EmptyOldValue` comes from `Replace` with an empty key.

The memo keeps the *last* rule whose `Replace` changed the text, not the
first, because `FixedStringsLocalization.cs:57-58` overwrites it on every
change; `LastChangeIsLastChangingRule` states this.

## Model

| member | source | states |
|---|---|---|
| Strings.StartsWith | Relocalizer.cs:156 | definition: `prefix` is a leading part of the name, character for character; its uses are stated by `ConfigMerge.Classify` and `ConfigMerge.ExportsAreNeverRead` |
| Strings.Split | Relocalizer.cs:159 | definition of `Split('.')`: at least one segment, empty segments kept; its properties are `JoinSplit`, `SplitSingle` and `SplitAround` |
| Strings.JoinSplit | Relocalizer.cs:159 | splitting a name on '.' loses nothing: joining the segments with '.' gives the name back |
| Strings.SplitSingle | Relocalizer.cs:159-160 | a name splits into fewer than two segments exactly when it contains no '.', and then the single segment is the whole name |
| Strings.SplitAround | Relocalizer.cs:159 | splitting `a + "." + b` gives the segments of `a` followed by those of `b` |
| Strings.ToLower | Relocalizer.cs:235 | definition: same length, each letter A to Z lower-cased and every other character kept; its property is `LowerIsJson` |
| Strings.IsNullOrWhiteSpace | FixedStringsLocalization.cs:43 | definition: empty or made only of Unicode white space; its uses are stated by `FixedStringsCollection.Localize` and `LocalizeGlobal` |
| Strings.LowerIsJson | Relocalizer.cs:235 | `fileFormat.ToLower() == "json"` holds exactly for the four-letter spellings of "json" in any mix of letter case |
| Strings.ReplaceAll | FixedStringsLocalization.cs:51 | `Replace` returns the text unchanged when the key does not occur or equals the value; the result is no shorter (no longer) than the text when the value is no shorter (no longer) than the key |
| Strings.ReplaceAllChanges | FixedStringsLocalization.cs:57 | the comparison `__result != (__result = __result.Replace(k, v))` is true exactly when `k` occurs in the text and `k != v` |
| Strings.CopiedThrough | FixedStringsLocalization.cs:51 | `Replace` copies through a prefix that holds no character that can start the key |
| Tables.Lookup | Relocalizer.cs:264 | reading a string-to-string table (`ContainsKey` and the indexer): a key is found exactly when it is one of the table's keys, and what is found is an entry of the table; the merge lemmas are stated through it |
| Tables.Put | Relocalizer.cs:183 | the dictionary indexer store adds the key to the key set and no other key |
| Tables.PutLookup | Relocalizer.cs:183 | after the store the key maps to the new value and every other key keeps its value |
| Tables.PutInPlace | Relocalizer.cs:183 | storing under an existing key updates that entry where it stands |
| Tables.PutAppends | Relocalizer.cs:183 | storing under a new key appends an entry at the end |
| Tables.Overwrite | Relocalizer.cs:182-183 | after `dict.Do(kvp => table[kvp.Key] = kvp.Value)` the keys are the union of both key sets and stay distinct |
| Tables.OverwriteLookup | Relocalizer.cs:182-183 | under overwrite a key takes the new file's value when that file has it, and otherwise keeps the old value |
| Tables.OverwriteOrder | Relocalizer.cs:183 | overwrite keeps the old entries in place, with refreshed values, and appends the new keys in the file's order |
| Tables.NewEntries | Relocalizer.cs:185 | `dict.Where(x => !table.Keys.Contains(x.Key))` keeps exactly the file's entries whose key the table lacks |
| Tables.KeepFirst | Relocalizer.cs:184-185 | keep-first concatenation: the keys are the union of both key sets and stay distinct, and the old table is a prefix |
| Tables.KeepFirstLookup | Relocalizer.cs:184-185 | under keep-first a key keeps its old value when the table already has it, and otherwise takes the file's value |
| Tables.SyncedValue.constructor | Relocalizer.cs:33 | a synchronised value starts with the given tables |
| ConfigMerge.ReadConfigFile | Relocalizer.cs:196-212 | null exactly when reading or parsing threw; a document that deserialises to null gives an empty dictionary; a parsed dictionary is returned as is |
| ConfigMerge.IsReserved | Relocalizer.cs:156 | definition: the name starts with either export prefix; its property is `ExportsAreNeverRead` |
| ConfigMerge.LanguageOf | Relocalizer.cs:159-166 | definition: the second-to-last segment of a name that has a '.'; its uses are stated by `Classify` and `Exports.ExportNameParses` |
| ConfigMerge.Classify | Relocalizer.cs:154-178 | one verdict per file, each characterised in both directions: reserved export name, no '.', second-to-last segment not a known language, unreadable content, or accepted with that language and the file's dictionary |
| ConfigMerge.ExportsAreNeverRead | Relocalizer.cs:156-157 | a file written by either export command is skipped as reserved, whatever its content |
| ConfigMerge.Step | Relocalizer.cs:155-185 | definition of one iteration of the `foreach`; its properties are `SkippedFileChangesNothing` and, through `MergeAll`, the merge lemmas |
| ConfigMerge.MergeAll | Relocalizer.cs:152-188 | definition: the fold of `Step` over the listing; its properties are `MergedLanguages`, `MergedDistinct`, `MergedKeys`, `OverwriteTakesLast`, `KeepFirstTakesFirst` and `SkippedFileChangesNothing`, and `LoadConfigs` is proved equal to it |
| ConfigMerge.MergedLanguages | Relocalizer.cs:180-181 | a language has a published table exactly when at least one of its files was accepted |
| ConfigMerge.MergedDistinct | Relocalizer.cs:180-185 | every published table has distinct keys |
| ConfigMerge.MergedKeys | Relocalizer.cs:180-185 | a language's keys are exactly the keys supplied by its accepted files, under either policy |
| ConfigMerge.OverwriteTakesLast | Relocalizer.cs:182-183 | with "Overwrite duplicate keys" on, a key's value comes from the last file in listing order that supplies it |
| ConfigMerge.KeepFirstTakesFirst | Relocalizer.cs:184-185 | with it off, a key's value comes from the first file in listing order that supplies it |
| ConfigMerge.SkippedFileChangesNothing | Relocalizer.cs:156-178 | a file that is not accepted changes nothing, wherever it stands in the listing |
| ConfigMerge.LoadConfigs | Relocalizer.cs:152-188 | the loop with its four `continue`s builds exactly the fold `MergeAll` of the listing |
| ConfigMerge.OverwriteInto | Relocalizer.cs:183 | storing the file's entries one at a time gives the overwrite merge |
| Debounce.Tick | Relocalizer.cs:219-230 | definition of `UpdateReadConfigs` on the timer; its properties are the `Debounce` lemmas below |
| Debounce.DisarmedStaysQuiet | Relocalizer.cs:219-222 | a disarmed timer stays disarmed and never reloads while no event arrives |
| Debounce.AtMostOneReloadWithoutEvents | Relocalizer.cs:219-230 | without file events the trigger reloads at most once, from any timer value and with any frame times |
| Debounce.NoReloadWithinQuietPeriod | Relocalizer.cs:223-229 | while the counted time stays within one second an armed timer only accumulates the frame times |
| Debounce.ReloadOnceAfterQuietPeriod | Relocalizer.cs:223-227 | once the counted time passes one second the next tick reloads exactly once and disarms |
| Debounce.BurstRearms | Relocalizer.cs:214-217 | a burst of events leaves the timer at 0 and fires nothing |
| Debounce.BurstThenQuietReloadsOnce | Relocalizer.cs:214-230 | a burst of events followed by more than one second of ticks causes exactly one reload and leaves the timer disarmed, whatever its state before |
| Debounce.EventsWithinWindowReloadOnce | Relocalizer.cs:214-230 | events that arrive within one second of counted time of each other, then more than one second of ticks, cause exactly one reload and leave the timer disarmed, whatever its state before |
| Relocalizer.Relocalizer.constructor | Relocalizer.cs:37 | the timer starts disarmed |
| Relocalizer.Relocalizer.ReadConfigs | Relocalizer.cs:150-194 | the published tables become the merge of the listing under the chosen policy |
| Relocalizer.Relocalizer.StartReadConfigs | Relocalizer.cs:214-217 | a watcher event arms the timer at 0 |
| Relocalizer.Relocalizer.UpdateReadConfigs | Relocalizer.cs:219-230 | the timer follows the transition function; the tables are reloaded exactly when it fires and are otherwise unchanged |
| Exports.Extension | Relocalizer.cs:235-236 | the extension is "json" or "yml" and holds no '.' |
| Exports.ExportFileName | Relocalizer.cs:236 | the export name starts with its prefix and splits into the prefix's segments, the language's segments and the extension |
| Exports.ExportNameParses | Relocalizer.cs:236 | for a dot-free language the reader's language segment is that language and the last segment is the chosen extension |
| Exports.ExportExtension | Relocalizer.cs:235-236 | for every language the last segment of the name is "json" exactly when `fileFormat.ToLower() == "json"`, and "yml" otherwise |
| Exports.SaveLocalization | Relocalizer.cs:233-251 | the name is empty exactly when the write failed, and otherwise starts with the current-localization prefix |
| Exports.SaveUnlocalized | Relocalizer.cs:253-276 | the name is empty exactly when the write failed, and otherwise starts with the unlocalized prefix |
| Exports.Unlocalized | Relocalizer.cs:259-264 | an English entry is exported exactly when the current language lacks its key or maps it to the same text |
| Exports.UnlocalizedDistinct | Relocalizer.cs:264 | the exported entries form a dictionary: their keys are distinct |
| Substitution.Substitute | FixedStringsLocalization.cs:56-57 | definition of the rule fold; its properties are `NoRuleMeansUnchanged`, `LastChangeIsLastChangingRule` and `ReplayCanDifferFromScan`, and `ScanRules` is proved to end in it |
| Substitution.LastChange | FixedStringsLocalization.cs:55-58 | a remembered rule is one of the language's rules |
| Substitution.ChangesAtMeans | FixedStringsLocalization.cs:57 | a rule counts as changing the text exactly when its key occurs in the intermediate text and differs from its value |
| Substitution.LastChangeIsLastChangingRule | FixedStringsLocalization.cs:55-58 | the memo is "no rule" exactly when no rule changed the text, and otherwise it is the last rule that did |
| Substitution.NoRuleMeansUnchanged | FixedStringsLocalization.cs:46-58 | when the memo says "no rule" the fold left the text as it was, so replaying it as "return unchanged" agrees with the scan |
| Substitution.ReplayCanDifferFromScan | FixedStringsLocalization.cs:46-58 | with rules a→b, b→c on "a" the scan gives "c" and remembers b→c, whose replay gives "a" |
| FixedStrings.FirstEmptyKey | FixedStringsLocalization.cs:56-57 | the position where `Replace` first throws: every earlier rule has a non-empty key and the rule there has an empty one |
| FixedStrings.FoldOutcome | FixedStringsLocalization.cs:171-172 | definition: the fold's text, or the empty-key exception when a rule has an empty key; `ScanRules` and `LocalizeGlobal` are proved to end in it |
| FixedStrings.FixedStringsCollection.constructor | FixedStringsLocalization.cs:22-25 | a collection starts with an empty memo, bound to its synchronised tables |
| FixedStrings.FixedStringsCollection.OnLanguageChange | FixedStringsLocalization.cs:27-31 | the memo is cleared, and the category is active exactly when its tables hold the language |
| FixedStrings.FixedStringsCollection.HaveStringsToLocalize | FixedStringsLocalization.cs:33-36 | definition: the flag; `OnLanguageChange` states that it holds exactly when the tables hold the language, and `Localize` that it guards every change |
| FixedStrings.FixedStringsCollection.Localize | FixedStringsLocalization.cs:38-60 | inactive category or blank text: unchanged. Memo hit: only the remembered rule is replayed, and the memo is untouched. Miss: missing language throws with a "no rule" memo; otherwise the result is the full fold, or the empty-key exception, and the memo gains the last changing rule before the throw |
| FixedStrings.FixedStringsCollection.ScanRules | FixedStringsLocalization.cs:55-58 | the scan loop ends in the fold's outcome, and the identifier's memo is the last rule that changed the text before any throw |
| FixedStrings.FixedStringsLocalization.constructor | FixedStringsLocalization.cs:63-68 | three distinct collections, each bound to its category's tables |
| FixedStrings.FixedStringsLocalization.OnLanguageChange | FixedStringsLocalization.cs:84-92 | records the language and whether global rules exist for it, clears all three memos and re-derives each category's flag |
| FixedStrings.FixedStringsLocalization.LocalizeGlobal | FixedStringsLocalization.cs:168-173 | the global postfix: unchanged when inactive or blank; otherwise the fold of the global rules, or the exception the source would raise |

## Left out

- The directory listing is an input, given in the order of `OrderBy(file => file.Name)`. The culture-sensitive comparer behind that order and the recursive directory walk are not modelled.
- File reading, YAML/JSON parsing and serialisation, `Trim`, and `File.WriteAllText` are not modelled. Their outcomes are parameters: `FileContent` per file, and `writeSucceeded` for the exports.
- A parsed dictionary is assumed to hold distinct keys (`WellFormed`), as every .NET `Dictionary` does. How the deserialiser treats a key written twice in one file is not modelled.
- `Localization.instance.GetLanguages()`, `GetSelectedLanguage()`, `m_translations` and `Time.fixedDeltaTime` become parameters.
- `FixedStringsCollection.OnLanguageChange` and `Localize` read the static `language` field; the model passes that value as an argument.
- Dictionary enumeration order is modelled as insertion order, with in-place update of existing keys. That is how .NET's `Dictionary` enumerates when nothing is ever removed, as here, although the framework does not document it.
- `Strings.StartsWith`: the file-name test at `Relocalizer.cs:156` uses the culture-sensitive one-argument `StartsWith`; the model compares ordinally, so culture rules (ignorable code points such as a soft hyphen, combining marks after the prefix) are not modelled.
- `ToLower` is modelled on ASCII letters only; the source's call is culture-sensitive. It is only ever compared with "json".
- `Debounce.Tick`: the timer is a 32-bit `float` in the source and a `real` here, so rounding of the accumulated frame times is not modelled.
- `Relocalizer.Relocalizer.ReadConfigs`: `CustomSyncedValue.AssignValueSafe` is a plain assignment. Synchronisation to clients (ServerSync) and the configuration lock are not modelled.
- Logging (`LogInfo`) and the per-language key counts printed after a reload are not modelled.
- A null `__result` is not modelled, because strings here cannot be null. `IsNullOrWhiteSpace(null)` would take the "unchanged" path.
- `SetupConfigWatcher` (including its initial `ReadConfigs`), the `FixedUpdate` guard around `UpdateReadConfigs`, `Relocalize`, `AddTranslations` and the console commands are not modelled; they are outside this core.
- The Harmony patches other than the global postfix, the `LRUCache`, and the UI text traversal are not modelled. The patches only call `Localize` with an identifier.
