/**
 * The rule fold of the substitution engine: every rule of a language table
 * applied to a text in table order, and the memo entry a scan records.
 */
module Substitution {
  import opened Strings
  import opened Tables

  /**
   * A memo entry, the source's `Tuple<bool, string, string>`: `NoRule` is
   * `(false, "", "")`, the only false entry ever stored, and `Rule(k, v)` is
   * `(true, k, v)`.
   */
  datatype Memo = NoRule | Rule(key: string, value: string)

  /** Rules `Replace` accepts: no empty search string. */
  predicate NonEmptyKeys(rules: Table) {
    forall i :: 0 <= i < |rules| ==> rules[i].key != []
  }

  /** The left fold: `text = text.Replace(rule.Key, rule.Value)` for each rule in order. */
  function Substitute(text: string, rules: Table): string
    requires NonEmptyKeys(rules)
    decreases |rules|
  {
    if rules == [] then text
    else
      var n := |rules| - 1;
      ReplaceAll(Substitute(text, rules[..n]), rules[n].key, rules[n].value)
  }

  /** Rule `i` changed the text it was applied to in the fold. */
  predicate ChangesAt(text: string, rules: Table, i: nat)
    requires NonEmptyKeys(rules) && i < |rules|
  {
    var before := Substitute(text, rules[..i]);
    ReplaceAll(before, rules[i].key, rules[i].value) != before
  }

  /**
   * The memo a scan records: starts as `NoRule` and is overwritten by every
   * rule whose replacement changed the intermediate text.
   */
  function LastChange(text: string, rules: Table): (m: Memo)
    requires NonEmptyKeys(rules)
    ensures m.Rule? ==> Entry(m.key, m.value) in rules
    decreases |rules|
  {
    if rules == [] then NoRule
    else
      var n := |rules| - 1;
      assert rules == rules[..n] + [rules[n]];
      if ChangesAt(text, rules, n) then Rule(rules[n].key, rules[n].value)
      else LastChange(text, rules[..n])
  }

  /** One more rule scanned: the fold applies it, and the memo takes it exactly when it changed the text. */
  lemma ScanStep(text: string, rules: Table, i: nat)
    requires i < |rules| && NonEmptyKeys(rules[..i]) && rules[i].key != []
    ensures NonEmptyKeys(rules[..i + 1])
    ensures var before := Substitute(text, rules[..i]);
      var after := ReplaceAll(before, rules[i].key, rules[i].value);
      Substitute(text, rules[..i + 1]) == after
      && LastChange(text, rules[..i + 1]) ==
         if after != before then Rule(rules[i].key, rules[i].value) else LastChange(text, rules[..i])
  {
    var scanned := rules[..i + 1];
    assert scanned[..i] == rules[..i] && scanned[i] == rules[i];
  }

  /** The fold over a prefix of the rules is the prefix of the fold. */
  lemma PrefixOfPrefix(rules: Table, i: nat, n: nat)
    requires i <= n <= |rules|
    ensures rules[..n][..i] == rules[..i]
  {
  }

  /**
   * A rule counts as changing the text exactly when its key occurs in the
   * intermediate text and differs from its value; so a rule whose key equals
   * its value never counts.
   */
  lemma ChangesAtMeans(text: string, rules: Table, i: nat)
    requires NonEmptyKeys(rules) && i < |rules|
    ensures ChangesAt(text, rules, i) <==>
      Contains(Substitute(text, rules[..i]), rules[i].key) && rules[i].key != rules[i].value
  {
    ReplaceAllChanges(Substitute(text, rules[..i]), rules[i].key, rules[i].value);
  }

  /** Whether rule `i` changes the text does not depend on the rules after it. */
  lemma ChangesAtPrefix(text: string, rules: Table, i: nat, n: nat)
    requires NonEmptyKeys(rules) && i < n <= |rules|
    ensures NonEmptyKeys(rules[..n])
    ensures ChangesAt(text, rules[..n], i) == ChangesAt(text, rules, i)
  {
    PrefixOfPrefix(rules, i, n);
  }

  /** The scan records `NoRule` exactly when no rule changed the text. */
  lemma {:induction false} NoRuleIffNoChange(text: string, rules: Table)
    requires NonEmptyKeys(rules)
    ensures LastChange(text, rules) == NoRule <==> forall i :: 0 <= i < |rules| ==> !ChangesAt(text, rules, i)
    decreases |rules|
  {
    if rules != [] {
      var n := |rules| - 1;
      NoRuleIffNoChange(text, rules[..n]);
      forall i | 0 <= i < n ensures ChangesAt(text, rules[..n], i) == ChangesAt(text, rules, i) {
        ChangesAtPrefix(text, rules, i, n);
      }
      if !ChangesAt(text, rules, n) {
        assert LastChange(text, rules) == LastChange(text, rules[..n]);
      }
    }
  }

  /** When rule `i` is the last one that changed the text, the scan records rule `i`. */
  lemma {:induction false} LastChangeAt(text: string, rules: Table, i: nat)
    requires NonEmptyKeys(rules) && i < |rules| && ChangesAt(text, rules, i)
    requires forall j :: i < j < |rules| ==> !ChangesAt(text, rules, j)
    ensures LastChange(text, rules) == Rule(rules[i].key, rules[i].value)
    decreases |rules|
  {
    var n := |rules| - 1;
    if i < n {
      assert !ChangesAt(text, rules, n);
      assert LastChange(text, rules) == LastChange(text, rules[..n]);
      ChangesAtPrefix(text, rules, i, n);
      forall j | i < j < n ensures !ChangesAt(text, rules[..n], j) {
        ChangesAtPrefix(text, rules, j, n);
      }
      LastChangeAt(text, rules[..n], i);
    }
  }

  /**
   * The memo holds the LAST rule that changed the intermediate text, not the
   * first, and `NoRule` exactly when no rule changed it.
   */
  lemma LastChangeIsLastChangingRule(text: string, rules: Table)
    requires NonEmptyKeys(rules)
    ensures LastChange(text, rules) == NoRule <==> forall i :: 0 <= i < |rules| ==> !ChangesAt(text, rules, i)
    ensures forall i :: (0 <= i < |rules| && ChangesAt(text, rules, i)
                         && (forall j :: i < j < |rules| ==> !ChangesAt(text, rules, j)))
                        ==> LastChange(text, rules) == Rule(rules[i].key, rules[i].value)
  {
    NoRuleIffNoChange(text, rules);
    forall i | 0 <= i < |rules| && ChangesAt(text, rules, i) && (forall j :: i < j < |rules| ==> !ChangesAt(text, rules, j))
      ensures LastChange(text, rules) == Rule(rules[i].key, rules[i].value)
    {
      LastChangeAt(text, rules, i);
    }
  }

  /** If the scan recorded `NoRule`, the fold left the text as it was. */
  lemma {:induction false} NoRuleMeansUnchanged(text: string, rules: Table)
    requires NonEmptyKeys(rules)
    requires LastChange(text, rules) == NoRule
    ensures Substitute(text, rules) == text
    decreases |rules|
  {
    if rules != [] {
      var n := |rules| - 1;
      NoRuleMeansUnchanged(text, rules[..n]);
    }
  }

  /**
   * The memo trades accuracy for speed: two rules that both apply on the first
   * scan give a different text from the replay of the remembered rule.
   */
  lemma ReplayCanDifferFromScan()
    ensures var rules := [Entry("a", "b"), Entry("b", "c")];
      Substitute("a", rules) == "c"
      && LastChange("a", rules) == Rule("b", "c")
      && ReplaceAll("a", "b", "c") == "a"
  {
    var rules := [Entry("a", "b"), Entry("b", "c")];
    assert rules[..1] == [Entry("a", "b")] && rules[..1][..0] == [];
    assert StartsWith("a", "a");
    assert ReplaceAll("a", "a", "b") == "b" + ReplaceAll("", "a", "b");
    assert Substitute("a", rules[..1]) == "b";
    assert StartsWith("b", "b");
    assert ReplaceAll("b", "b", "c") == "c" + ReplaceAll("", "b", "c");
  }
}
