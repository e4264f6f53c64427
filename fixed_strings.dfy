/**
 * `FixedStringsLocalization`: one memoised substitution engine per category
 * (hoverables, status effects, items) and the memo-less global postfix.
 * Exceptions the source lets escape are results here: `KeyNotFound` from
 * indexing a table by a language it no longer holds, `EmptyOldValue` from
 * `Replace` with an empty search string.
 */
module FixedStrings {
  import opened Strings
  import opened Tables
  import opened Substitution

  datatype Exception = KeyNotFound | EmptyOldValue

  datatype Outcome = Returned(text: string) | Threw(error: Exception)

  /** Index of the first rule with an empty key, or `|rules|` when there is none. */
  function FirstEmptyKey(rules: Table): (j: nat)
    ensures j <= |rules| && NonEmptyKeys(rules[..j])
    ensures j < |rules| ==> rules[j].key == []
    ensures j == |rules| <==> NonEmptyKeys(rules)
    decreases |rules|
  {
    if rules == [] then 0
    else if rules[0].key == [] then 0
    else
      var j := FirstEmptyKey(rules[1..]);
      assert rules[..j + 1] == [rules[0]] + rules[1..][..j];
      assert NonEmptyKeys(rules[1..]) ==> NonEmptyKeys(rules);
      j + 1
  }

  /** The first empty key met by a scan that got this far is the first empty key. */
  lemma {:induction false} FirstEmptyKeyAt(rules: Table, i: nat)
    requires i < |rules| && rules[i].key == [] && NonEmptyKeys(rules[..i])
    ensures FirstEmptyKey(rules) == i
    decreases i
  {
    if i > 0 {
      assert rules[..i][0] == rules[0];
      assert rules[1..][..i - 1] == rules[..i][1..];
      FirstEmptyKeyAt(rules[1..], i - 1);
    }
  }

  /** What the fold of `rules` over `text` ends in: the folded text, or the exception from the first empty key. */
  function FoldOutcome(text: string, rules: Table): Outcome {
    if FirstEmptyKey(rules) == |rules| then Returned(Substitute(text, rules)) else Threw(EmptyOldValue)
  }

  class FixedStringsCollection {
    var haveStringsToLocalize: bool
    /** The memo: object identifier -> the rule to replay. */
    var collection: map<string, Memo>
    /** The category's override tables, language -> table. */
    const customSyncedValue: SyncedValue

    /** Every remembered rule can be replayed without `Replace` throwing. */
    ghost predicate Valid()
      reads this
    {
      forall id :: id in collection && collection[id].Rule? ==> collection[id].key != []
    }

    constructor (syncedValue: SyncedValue)
      ensures Valid() && customSyncedValue == syncedValue
      ensures collection == map[] && !haveStringsToLocalize
    {
      customSyncedValue := syncedValue;
      collection := map[];
      haveStringsToLocalize := false;
    }

    /** Forgets every memo entry and records whether the category overrides `language`. */
    method OnLanguageChange(language: string)
      modifies this
      ensures Valid()
      ensures collection == map[]
      ensures haveStringsToLocalize == (language in customSyncedValue.value)
    {
      collection := map[];
      haveStringsToLocalize := language in customSyncedValue.value;
    }

    function HaveStringsToLocalize(): bool
      reads this
    {
      haveStringsToLocalize
    }

    /**
     * `Localize(objectName, ref text)` for the current `language`: nothing to
     * do, a memo hit replaying one rule, or a miss that folds every rule and
     * remembers the last one that changed the text.
     */
    method Localize(objectName: string, text: string, language: string) returns (outcome: Outcome)
      requires Valid()
      modifies this`collection
      ensures Valid()
      // nothing to do: the text comes back as it was and the memo is untouched
      ensures !haveStringsToLocalize || IsNullOrWhiteSpace(text) ==>
        outcome == Returned(text) && collection == old(collection)
      // memo hit: only the remembered rule is applied
      ensures haveStringsToLocalize && !IsNullOrWhiteSpace(text) && objectName in old(collection) ==>
        collection == old(collection)
        && outcome == match old(collection)[objectName]
                      case NoRule => Returned(text)
                      case Rule(k, v) => Returned(ReplaceAll(text, k, v))
      // memo miss: the full fold, and a memo entry for this identifier only
      ensures haveStringsToLocalize && !IsNullOrWhiteSpace(text) && objectName !in old(collection) ==>
        if language !in customSyncedValue.value then
          outcome == Threw(KeyNotFound) && collection == old(collection)[objectName := NoRule]
        else
          var rules := customSyncedValue.value[language];
          var j := FirstEmptyKey(rules);
          outcome == FoldOutcome(text, rules)
          && collection == old(collection)[objectName := LastChange(text, rules[..j])]
    {
      if !HaveStringsToLocalize() {
        return Returned(text);
      }
      if IsNullOrWhiteSpace(text) {
        return Returned(text);
      }
      if objectName in collection {
        var toLocalize := collection[objectName];
        if !toLocalize.Rule? {
          return Returned(text);
        }
        return Returned(ReplaceAll(text, toLocalize.key, toLocalize.value));
      }
      collection := collection[objectName := NoRule];
      if language !in customSyncedValue.value {
        return Threw(KeyNotFound);
      }
      outcome := ScanRules(objectName, text, customSyncedValue.value[language]);
    }

    /**
     * The miss path of `Localize`: folds every rule over the text, overwriting
     * the identifier's memo entry each time a rule changes the text.
     */
    method ScanRules(objectName: string, text: string, rules: Table) returns (outcome: Outcome)
      requires Valid()
      requires objectName in collection && collection[objectName] == NoRule
      modifies this`collection
      ensures Valid()
      ensures outcome == FoldOutcome(text, rules)
      ensures collection == old(collection)[objectName := LastChange(text, rules[..FirstEmptyKey(rules)])]
    {
      var result := text;
      var i := 0;
      while i < |rules|
        invariant 0 <= i <= |rules|
        invariant NonEmptyKeys(rules[..i])
        invariant result == Substitute(text, rules[..i])
        invariant collection == old(collection)[objectName := LastChange(text, rules[..i])]
        invariant Valid()
      {
        var fixedString := rules[i];
        if fixedString.key == [] {
          FirstEmptyKeyAt(rules, i);
          return Threw(EmptyOldValue);
        }
        ScanStep(text, rules, i);
        var replaced := ReplaceAll(result, fixedString.key, fixedString.value);
        if result != replaced {
          collection := collection[objectName := Rule(fixedString.key, fixedString.value)];
        }
        result := replaced;
        i := i + 1;
      }
      assert rules[..i] == rules;
      return Returned(result);
    }
  }

  /** The static state of `FixedStringsLocalization`. */
  class FixedStringsLocalization {
    var language: string
    var haveGlobalStringsToLocalize: bool
    const fixedGlobalStrings: SyncedValue
    const hoverableToLocalize: FixedStringsCollection
    const statusEffectsToLocalize: FixedStringsCollection
    const itemsToLocalize: FixedStringsCollection

    ghost predicate Valid()
      reads this, hoverableToLocalize, statusEffectsToLocalize, itemsToLocalize
    {
      && hoverableToLocalize != statusEffectsToLocalize
      && hoverableToLocalize != itemsToLocalize
      && statusEffectsToLocalize != itemsToLocalize
      && hoverableToLocalize.Valid() && statusEffectsToLocalize.Valid() && itemsToLocalize.Valid()
    }

    constructor (fixedGlobalStrings: SyncedValue, fixedHoverStrings: SyncedValue,
                 fixedStatusEffectsStrings: SyncedValue, fixedItemsStrings: SyncedValue)
      ensures Valid()
      ensures this.fixedGlobalStrings == fixedGlobalStrings && !haveGlobalStringsToLocalize
      ensures hoverableToLocalize.customSyncedValue == fixedHoverStrings
      ensures statusEffectsToLocalize.customSyncedValue == fixedStatusEffectsStrings
      ensures itemsToLocalize.customSyncedValue == fixedItemsStrings
    {
      this.fixedGlobalStrings := fixedGlobalStrings;
      hoverableToLocalize := new FixedStringsCollection(fixedHoverStrings);
      statusEffectsToLocalize := new FixedStringsCollection(fixedStatusEffectsStrings);
      itemsToLocalize := new FixedStringsCollection(fixedItemsStrings);
      language := "";
      haveGlobalStringsToLocalize := false;
    }

    /** The host's language-change notification, with the newly selected language. */
    method OnLanguageChange(selectedLanguage: string)
      requires Valid()
      modifies this, hoverableToLocalize, statusEffectsToLocalize, itemsToLocalize
      ensures Valid()
      ensures language == selectedLanguage
      ensures haveGlobalStringsToLocalize == (selectedLanguage in fixedGlobalStrings.value)
      ensures hoverableToLocalize.collection == map[]
      ensures hoverableToLocalize.haveStringsToLocalize == (selectedLanguage in hoverableToLocalize.customSyncedValue.value)
      ensures statusEffectsToLocalize.collection == map[]
      ensures statusEffectsToLocalize.haveStringsToLocalize == (selectedLanguage in statusEffectsToLocalize.customSyncedValue.value)
      ensures itemsToLocalize.collection == map[]
      ensures itemsToLocalize.haveStringsToLocalize == (selectedLanguage in itemsToLocalize.customSyncedValue.value)
    {
      language := selectedLanguage;
      haveGlobalStringsToLocalize := language in fixedGlobalStrings.value;
      hoverableToLocalize.OnLanguageChange(language);
      statusEffectsToLocalize.OnLanguageChange(language);
      itemsToLocalize.OnLanguageChange(language);
    }

    /**
     * `Localization_Localize_LocalizeFixedGlobalStrings.Postfix`: every global
     * rule folded over the text, with no memo.
     */
    method LocalizeGlobal(text: string) returns (outcome: Outcome)
      ensures !haveGlobalStringsToLocalize || IsNullOrWhiteSpace(text) ==> outcome == Returned(text)
      ensures haveGlobalStringsToLocalize && !IsNullOrWhiteSpace(text) ==>
        outcome == if language !in fixedGlobalStrings.value then Threw(KeyNotFound)
                   else FoldOutcome(text, fixedGlobalStrings.value[language])
    {
      if !haveGlobalStringsToLocalize || IsNullOrWhiteSpace(text) {
        return Returned(text);
      }
      if language !in fixedGlobalStrings.value {
        return Threw(KeyNotFound);
      }
      var rules := fixedGlobalStrings.value[language];
      var result := text;
      var i := 0;
      while i < |rules|
        invariant 0 <= i <= |rules|
        invariant NonEmptyKeys(rules[..i])
        invariant result == Substitute(text, rules[..i])
      {
        if rules[i].key == [] {
          FirstEmptyKeyAt(rules, i);
          return Threw(EmptyOldValue);
        }
        ScanStep(text, rules, i);
        result := ReplaceAll(result, rules[i].key, rules[i].value);
        i := i + 1;
      }
      assert rules[..i] == rules;
      return Returned(result);
    }
  }
}

/** A client of the engine: the same identifier localized twice, the second time from the memo. */
module FixedStringsClient {
  import opened Strings
  import opened Tables
  import opened Substitution
  import opened FixedStrings

  /** The one replacement the scenario needs. */
  lemma HelloTerra()
    ensures ReplaceAll("Hello World", "World", "Terra") == "Hello Terra"
  {
    var w, t := "World", "Terra";
    assert StartsWith(w, w) && w[|w|..] == [];
    assert ReplaceAll(w, w, t) == t;
    CopiedThrough("Hello ", w, w, t);
    assert "Hello " + w == "Hello World";
    assert "Hello " + t == "Hello Terra";
  }

  method FastPathScenario()
  {
    var items := new SyncedValue(map["English" := [Entry("World", "Terra")]]);
    var engine := new FixedStringsCollection(items);
    engine.OnLanguageChange("English");
    assert engine.haveStringsToLocalize;
    var rules := [Entry("World", "Terra")];
    assert !IsNullOrWhiteSpace("Hello World") by { assert "Hello World"[0] == 'H' && !IsWhiteSpace('H'); }
    HelloTerra();
    assert rules[..0] == [] && rules[..1] == rules;
    assert Substitute("Hello World", rules) == "Hello Terra";
    assert LastChange("Hello World", rules) == Rule("World", "Terra");
    var first := engine.Localize("obj1", "Hello World", "English");
    assert first == Returned("Hello Terra");
    assert engine.collection == map["obj1" := Rule("World", "Terra")];
    var second := engine.Localize("obj1", "Hello World", "English");
    assert second == Returned("Hello Terra");
    engine.OnLanguageChange("Klingon");
    assert engine.collection == map[] && !engine.haveStringsToLocalize;
  }
}
