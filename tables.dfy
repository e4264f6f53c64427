/**
 * A language table: the `Dictionary<string, string>` of literal -> replacement
 * pairs, kept as a sequence so that its enumeration order (insertion order,
 * updates in place) is part of the model.
 */
module Tables {
  import opened Wrappers

  datatype Entry = Entry(key: string, value: string)

  type Table = seq<Entry>

  /** No key appears twice, as in any `Dictionary`. */
  predicate DistinctKeys(t: Table) {
    forall i, j :: 0 <= i < j < |t| ==> t[i].key != t[j].key
  }

  function Keys(t: Table): set<string> {
    set e | e in t :: e.key
  }

  lemma KeysSplit(t: Table)
    requires t != []
    ensures Keys(t) == {t[0].key} + Keys(t[1..])
  {
    assert t == [t[0]] + t[1..];
  }

  lemma KeysConcat(a: Table, b: Table)
    ensures Keys(a + b) == Keys(a) + Keys(b)
  {
    assert forall e :: e in a + b <==> e in a || e in b;
  }

  /** The head of a table with distinct keys occurs nowhere in its tail. */
  lemma DistinctHead(t: Table)
    requires t != [] && DistinctKeys(t)
    ensures t[0].key !in Keys(t[1..]) && DistinctKeys(t[1..])
  {
  }

  /** Putting an entry with a new key in front keeps the keys distinct. */
  lemma ConsDistinct(e: Entry, t: Table)
    requires DistinctKeys(t) && e.key !in Keys(t)
    ensures DistinctKeys([e] + t)
  {
    var r := [e] + t;
    forall i, j | 0 <= i < j < |r| ensures r[i].key != r[j].key {
      assert r[j] == t[j - 1] && r[j] in t;
      if i > 0 {
        assert r[i] == t[i - 1];
      }
    }
  }

  /** The last key of a table with distinct keys occurs nowhere before it. */
  lemma DistinctLast(t: Table)
    requires t != [] && DistinctKeys(t)
    ensures t[|t| - 1].key !in Keys(t[..|t| - 1]) && DistinctKeys(t[..|t| - 1])
  {
  }

  /** `TryGetValue`: the value stored under `k`, if any. */
  function Lookup(t: Table, k: string): (r: Option<string>)
    ensures r.Some? <==> k in Keys(t)
    ensures r.Some? ==> Entry(k, r.value) in t
  {
    if t == [] then None
    else
      KeysSplit(t);
      if t[0].key == k then Some(t[0].value) else Lookup(t[1..], k)
  }

  /** In a table with distinct keys, every entry is what a lookup of its key finds. */
  lemma {:induction false} LookupEntry(t: Table, e: Entry)
    requires DistinctKeys(t) && e in t
    ensures Lookup(t, e.key) == Some(e.value)
  {
    if t[0] != e {
      assert e in t[1..];
      DistinctHead(t);
      LookupEntry(t[1..], e);
    }
  }

  /** Looking up in a table with one more entry at the end. */
  lemma {:induction false} LookupSnoc(a: Table, e: Entry, k: string)
    ensures Lookup(a + [e], k) ==
      if k in Keys(a) then Lookup(a, k) else if k == e.key then Some(e.value) else None
  {
    if a != [] {
      LookupSnoc(a[1..], e, k);
      assert (a + [e])[1..] == a[1..] + [e];
      KeysSplit(a);
    }
  }

  // ---------------------------------------------------------------------
  // Overwrite policy: `dict.Do(kvp => table[kvp.Key] = kvp.Value)`
  // ---------------------------------------------------------------------

  /**
   * `table[k] = v`: an existing key keeps its position and takes the new
   * value; a new key is appended at the end.
   */
  function Put(t: Table, k: string, v: string): (r: Table)
    ensures Keys(r) == Keys(t) + {k}
  {
    if t == [] then [Entry(k, v)]
    else
      KeysSplit(t);
      var r := if t[0].key == k then [Entry(k, v)] + t[1..] else [t[0]] + Put(t[1..], k, v);
      KeysSplit(r);
      assert r[1..] == if t[0].key == k then t[1..] else Put(t[1..], k, v);
      r
  }

  /** After `table[k] = v`, `k` maps to `v` and every other key keeps its value. */
  lemma {:induction false} PutLookup(t: Table, k: string, v: string, k': string)
    ensures Lookup(Put(t, k, v), k') == if k' == k then Some(v) else Lookup(t, k')
  {
    if t != [] && t[0].key != k {
      PutLookup(t[1..], k, v, k');
      assert Put(t, k, v)[1..] == Put(t[1..], k, v);
    }
  }

  /** A new key is appended at the end. */
  lemma {:induction false} PutAppends(t: Table, k: string, v: string)
    requires k !in Keys(t)
    ensures Put(t, k, v) == t + [Entry(k, v)]
  {
    if t != [] {
      KeysSplit(t);
      PutAppends(t[1..], k, v);
    }
  }

  /** An existing key is updated where it stands; nothing moves. */
  lemma {:induction false} PutInPlace(t: Table, k: string, v: string)
    requires k in Keys(t) && DistinctKeys(t)
    ensures |Put(t, k, v)| == |t|
    ensures forall i :: 0 <= i < |t| ==> Put(t, k, v)[i] == if t[i].key == k then Entry(k, v) else t[i]
  {
    KeysSplit(t);
    DistinctHead(t);
    if t[0].key != k {
      PutInPlace(t[1..], k, v);
    }
  }

  /** Storing a value never creates a duplicate key. */
  lemma {:induction false} PutDistinct(t: Table, k: string, v: string)
    requires DistinctKeys(t)
    ensures DistinctKeys(Put(t, k, v))
  {
    if k in Keys(t) {
      PutInPlace(t, k, v);
    } else {
      PutAppends(t, k, v);
    }
  }

  /** The overwrite merge: every entry of `d`, in order, stored into `t`. */
  function Overwrite(t: Table, d: Table): (r: Table)
    ensures Keys(r) == Keys(t) + Keys(d)
    ensures DistinctKeys(t) ==> DistinctKeys(r)
    decreases |d|
  {
    if d == [] then t
    else
      var n := |d| - 1;
      assert d == d[..n] + [d[n]];
      var r := Overwrite(t, d[..n]);
      if DistinctKeys(r) then PutDistinct(r, d[n].key, d[n].value); Put(r, d[n].key, d[n].value)
      else Put(r, d[n].key, d[n].value)
  }

  /** Under overwrite, a key of `d` takes its value from `d`; any other key keeps its value from `t`. */
  lemma {:induction false} OverwriteLookup(t: Table, d: Table, k: string)
    requires DistinctKeys(d)
    ensures Lookup(Overwrite(t, d), k) == if k in Keys(d) then Lookup(d, k) else Lookup(t, k)
    decreases |d|
  {
    if d != [] {
      var n := |d| - 1;
      var e := d[n];
      assert d == d[..n] + [e];
      OverwriteLookup(t, d[..n], k);
      PutLookup(Overwrite(t, d[..n]), e.key, e.value, k);
      LookupSnoc(d[..n], e, k);
      if k == e.key {
        LookupEntry(d, e);
      }
    }
  }

  // ---------------------------------------------------------------------
  // Keep-first policy: `table.Concat(dict.Where(x => !table.Keys.Contains(x.Key)))`
  // ---------------------------------------------------------------------

  /** The entries of `d` whose key is not in `present`, in `d`'s order. */
  function NewEntries(d: Table, present: set<string>): (r: Table)
    ensures forall e :: e in r <==> e in d && e.key !in present
    ensures Keys(r) == Keys(d) - present
  {
    if d == [] then []
    else
      var rest := NewEntries(d[1..], present);
      KeysSplit(d);
      assert forall e :: e in d <==> e == d[0] || e in d[1..];
      if d[0].key in present then rest
      else
        var r := [d[0]] + rest;
        KeysSplit(r);
        assert r[1..] == rest;
        r
  }

  /** Filtering a table with distinct keys keeps them distinct. */
  lemma {:induction false} NewEntriesDistinct(d: Table, present: set<string>)
    requires DistinctKeys(d)
    ensures DistinctKeys(NewEntries(d, present))
  {
    if d != [] {
      DistinctHead(d);
      NewEntriesDistinct(d[1..], present);
      if d[0].key !in present {
        ConsDistinct(d[0], NewEntries(d[1..], present));
      }
    }
  }

  /** Appending one entry to `d` appends it to the new entries unless its key is present. */
  lemma {:induction false} NewEntriesSnoc(d: Table, e: Entry, present: set<string>)
    ensures NewEntries(d + [e], present) == NewEntries(d, present) + (if e.key in present then [] else [e])
  {
    if d != [] {
      assert (d + [e])[1..] == d[1..] + [e];
      NewEntriesSnoc(d[1..], e, present);
    }
  }

  /** The keep-first merge: `t` unchanged, followed by the entries of `d` with new keys. */
  function KeepFirst(t: Table, d: Table): (r: Table)
    ensures |t| <= |r| && r[..|t|] == t
    ensures Keys(r) == Keys(t) + Keys(d)
    ensures DistinctKeys(t) && DistinctKeys(d) ==> DistinctKeys(r)
  {
    var added := NewEntries(d, Keys(t));
    var r := t + added;
    assert DistinctKeys(t) && DistinctKeys(d) ==> DistinctKeys(r) by {
      if DistinctKeys(t) && DistinctKeys(d) {
        NewEntriesDistinct(d, Keys(t));
        forall i, j | 0 <= i < j < |r| ensures r[i].key != r[j].key {
          if i < |t| && j >= |t| {
            assert r[j] in added;
            assert r[i] in t;
          }
        }
      }
    }
    r
  }

  /** Under keep-first, a key already in `t` keeps its value; only new keys come from `d`. */
  lemma KeepFirstLookup(t: Table, d: Table, k: string)
    requires DistinctKeys(t) && DistinctKeys(d)
    ensures Lookup(KeepFirst(t, d), k) == if k in Keys(t) then Lookup(t, k) else Lookup(d, k)
  {
    var r := KeepFirst(t, d);
    var l := Lookup(r, k);
    if l.Some? {
      LookupEntry(r, Entry(k, l.value));
      var e := Entry(k, l.value);
      if e in t {
        LookupEntry(t, e);
      } else {
        assert e in NewEntries(d, Keys(t));
        LookupEntry(d, e);
      }
    }
  }

  // ---------------------------------------------------------------------
  // Order of a merged table
  // ---------------------------------------------------------------------

  /** `t` in its own order, each value replaced by `d`'s when `d` has that key. */
  function Refreshed(t: Table, d: Table): (r: Table)
    ensures |r| == |t|
  {
    seq(|t|, i requires 0 <= i < |t| => Entry(t[i].key, Lookup(d, t[i].key).GetOr(t[i].value)))
  }

  lemma {:induction false} PutInFront(a: Table, b: Table, k: string, v: string)
    requires k in Keys(a)
    ensures Put(a + b, k, v) == Put(a, k, v) + b
  {
    var ab := a + b;
    assert ab[0] == a[0] && ab[1..] == a[1..] + b;
    if a[0].key != k {
      var e :| e in a && e.key == k;
      assert e in a[1..] by { assert a == [a[0]] + a[1..]; }
      PutInFront(a[1..], b, k, v);
    }
  }

  /** Refreshing never changes which keys a table has, nor their order. */
  lemma RefreshedKeys(t: Table, d: Table)
    ensures forall i :: 0 <= i < |t| ==> Refreshed(t, d)[i].key == t[i].key
    ensures Keys(Refreshed(t, d)) == Keys(t)
    ensures DistinctKeys(t) ==> DistinctKeys(Refreshed(t, d))
  {
    var a := Refreshed(t, d);
    forall x | x in Keys(t) ensures x in Keys(a) {
      var y :| y in t && y.key == x;
      var j :| 0 <= j < |t| && t[j] == y;
      assert a[j].key == x;
    }
  }

  /** One more entry of `d`: the refreshed table changes only at that entry's key. */
  lemma RefreshedSnoc(t: Table, d: Table, e: Entry)
    requires DistinctKeys(t) && e.key !in Keys(d)
    ensures e.key in Keys(t) ==> Refreshed(t, d + [e]) == Put(Refreshed(t, d), e.key, e.value)
    ensures e.key !in Keys(t) ==> Refreshed(t, d + [e]) == Refreshed(t, d)
  {
    var a := Refreshed(t, d);
    var a' := Refreshed(t, d + [e]);
    RefreshedKeys(t, d);
    forall i | 0 <= i < |t| ensures a'[i] == if t[i].key == e.key then Entry(e.key, e.value) else a[i] {
      LookupSnoc(d, e, t[i].key);
    }
    if e.key in Keys(t) {
      PutInPlace(a, e.key, e.value);
    }
  }

  /**
   * Under overwrite, the keys already present keep their positions and take
   * `d`'s values, and the new keys of `d` follow them in `d`'s order (under
   * keep-first the same holds with the old values, by definition).
   */
  lemma {:induction false} OverwriteOrder(t: Table, d: Table)
    requires DistinctKeys(t) && DistinctKeys(d)
    ensures Overwrite(t, d) == Refreshed(t, d) + NewEntries(d, Keys(t))
    decreases |d|
  {
    if d == [] {
      assert Refreshed(t, d) == t;
    } else {
      var n := |d| - 1;
      var d' := d[..n];
      var e := d[n];
      assert d == d' + [e];
      DistinctLast(d);
      OverwriteOrder(t, d');
      var a := Refreshed(t, d');
      var b := NewEntries(d', Keys(t));
      assert Overwrite(t, d) == Put(a + b, e.key, e.value);
      OverwriteOrderStep(t, d', e);
    }
  }

  lemma OverwriteOrderStep(t: Table, d: Table, e: Entry)
    requires DistinctKeys(t) && e.key !in Keys(d)
    ensures Put(Refreshed(t, d) + NewEntries(d, Keys(t)), e.key, e.value)
         == Refreshed(t, d + [e]) + NewEntries(d + [e], Keys(t))
  {
    NewEntriesSnoc(d, e, Keys(t));
    RefreshedSnoc(t, d, e);
    if e.key in Keys(t) {
      UpdateInFront(t, d, e);
    } else {
      AppendAtEnd(t, d, e);
    }
  }

  lemma UpdateInFront(t: Table, d: Table, e: Entry)
    requires DistinctKeys(t) && e.key in Keys(t)
    ensures Put(Refreshed(t, d) + NewEntries(d, Keys(t)), e.key, e.value)
         == Put(Refreshed(t, d), e.key, e.value) + NewEntries(d, Keys(t))
  {
    RefreshedKeys(t, d);
    PutInFront(Refreshed(t, d), NewEntries(d, Keys(t)), e.key, e.value);
  }

  lemma AppendAtEnd(t: Table, d: Table, e: Entry)
    requires e.key !in Keys(t) && e.key !in Keys(d)
    ensures Put(Refreshed(t, d) + NewEntries(d, Keys(t)), e.key, e.value)
         == Refreshed(t, d) + (NewEntries(d, Keys(t)) + [e])
  {
    var a := Refreshed(t, d);
    var b := NewEntries(d, Keys(t));
    assert e.key !in Keys(a) by { RefreshedKeys(t, d); }
    assert e.key !in Keys(a + b) by { KeysConcat(a, b); }
    PutAppends(a + b, e.key, e.value);
    assert a + b + [e] == a + (b + [e]);
  }

  // ---------------------------------------------------------------------
  // The shared, swap-published tables
  // ---------------------------------------------------------------------

  /**
   * A `CustomSyncedValue<Dictionary<string, Dictionary<string, string>>>`:
   * a reference whose whole value, language -> table, is replaced at once.
   */
  class SyncedValue {
    var value: map<string, Table>

    constructor (initial: map<string, Table>)
      ensures value == initial
    {
      value := initial;
    }
  }
}
