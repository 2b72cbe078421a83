/**
 * An insertion-ordered map from names to values, in the manner of
 * java.util.LinkedHashMap: a sequence of (key, value) entries with distinct
 * keys, where `put` overwrites an existing key in place and appends a new
 * key at the end.
 */
module LinkedMaps {
  import opened Wrappers

  /** The keys of the entries, in entry order. */
  function Keys<V>(entries: seq<(string, V)>): (keys: seq<string>)
    ensures |keys| == |entries|
    ensures forall i :: 0 <= i < |entries| ==> keys[i] == entries[i].0
  {
    seq(|entries|, i requires 0 <= i < |entries| => entries[i].0)
  }

  /** No string occurs twice. */
  ghost predicate Distinct(keys: seq<string>)
  {
    forall i, j :: 0 <= i < j < |keys| ==> keys[i] != keys[j]
  }

  /** The position of the first entry keyed `key`, or |entries| when there is none. */
  function IndexOf<V>(entries: seq<(string, V)>, key: string): (i: nat)
    ensures i <= |entries|
    ensures i < |entries| ==> entries[i].0 == key
    ensures forall j :: 0 <= j < i ==> entries[j].0 != key
    ensures i == |entries| <==> key !in Keys(entries)
    decreases |entries|
  {
    if entries == [] then 0
    else if entries[0].0 == key then 0
    else
      var i := IndexOf(entries[1..], key);
      assert forall j :: 1 <= j < |entries| ==> entries[j] == entries[1..][j - 1];
      assert key in Keys(entries) ==> key in Keys(entries[1..]);
      1 + i
  }

  /** `get(key)`: the value stored under `key`, or None. */
  function Lookup<V>(entries: seq<(string, V)>, key: string): (found: Option<V>)
    ensures found.Some? <==> key in Keys(entries)
  {
    var i := IndexOf(entries, key);
    if i < |entries| then Some(entries[i].1) else None
  }

  /** `put(key, value)`: overwrite the entry of `key` where it stands, or append a new entry. */
  function PutEntry<V>(entries: seq<(string, V)>, key: string, value: V): (after: seq<(string, V)>)
    ensures |after| == if key in Keys(entries) then |entries| else |entries| + 1
  {
    var i := IndexOf(entries, key);
    if i < |entries| then entries[i := (key, value)] else entries + [(key, value)]
  }

  /** The key order a series of puts produces: each key not yet present is appended. */
  function AppendNew(keys: seq<string>, names: seq<string>): (order: seq<string>)
    decreases |names|
  {
    if names == [] then keys
    else AppendNew(if names[0] in keys then keys else keys + [names[0]], names[1..])
  }

  /** A put keeps the keys distinct. */
  lemma PutEntryDistinct<V>(entries: seq<(string, V)>, key: string, value: V)
    requires Distinct(Keys(entries))
    ensures Distinct(Keys(PutEntry(entries, key, value)))
  {
  }

  /** IndexOf is the only position its contract describes. */
  lemma IndexOfUnique<V>(entries: seq<(string, V)>, key: string, n: nat)
    requires n <= |entries|
    requires n < |entries| ==> entries[n].0 == key
    requires n == |entries| ==> key !in Keys(entries)
    requires forall m :: 0 <= m < n ==> entries[m].0 != key
    ensures IndexOf(entries, key) == n
  {
  }

  /** After a put, `key` maps to `value`. */
  lemma PutEntryLookupSame<V>(entries: seq<(string, V)>, key: string, value: V)
    ensures Lookup(PutEntry(entries, key, value), key) == Some(value)
  {
    var r := PutEntry(entries, key, value);
    var i := IndexOf(entries, key);
    assert forall m :: 0 <= m < i ==> r[m] == entries[m];
    IndexOfUnique(r, key, i);
  }

  /** After a put, every other key maps to what it did before. */
  lemma PutEntryLookupOther<V>(entries: seq<(string, V)>, key: string, value: V, other: string)
    requires other != key
    ensures Lookup(PutEntry(entries, key, value), other) == Lookup(entries, other)
  {
    var r := PutEntry(entries, key, value);
    var j := IndexOf(entries, other);
    PutEntryKeys(entries, key, value);
    if j < |entries| {
      assert forall m :: 0 <= m < |entries| ==> r[m].0 == entries[m].0;
      IndexOfUnique(r, other, j);
    } else {
      assert other !in Keys(r);
    }
  }

  /** A put keeps every key where it was; a new key goes to the end. */
  lemma PutEntryKeys<V>(entries: seq<(string, V)>, key: string, value: V)
    ensures Keys(PutEntry(entries, key, value))
         == if key in Keys(entries) then Keys(entries) else Keys(entries) + [key]
  {
  }

  /** Putting the value a key already has changes nothing. */
  lemma PutEntrySame<V>(entries: seq<(string, V)>, key: string, value: V)
    requires Lookup(entries, key) == Some(value)
    ensures PutEntry(entries, key, value) == entries
  {
  }

  /** The keys already there stay, in their order, at the front. */
  lemma {:induction false} AppendNewPrefix(keys: seq<string>, names: seq<string>)
    ensures keys <= AppendNew(keys, names)
    decreases |names|
  {
    if names != [] {
      var next := if names[0] in keys then keys else keys + [names[0]];
      AppendNewPrefix(next, names[1..]);
    }
  }

  /** The resulting keys are exactly the old keys and the names. */
  lemma {:induction false} AppendNewElements(keys: seq<string>, names: seq<string>, x: string)
    ensures x in AppendNew(keys, names) <==> x in keys || x in names
    decreases |names|
  {
    if names != [] {
      var next := if names[0] in keys then keys else keys + [names[0]];
      AppendNewElements(next, names[1..], x);
      assert names == [names[0]] + names[1..];
    }
  }

  /** Distinct keys stay distinct, however many repeats the names hold. */
  lemma {:induction false} AppendNewDistinct(keys: seq<string>, names: seq<string>)
    requires Distinct(keys)
    ensures Distinct(AppendNew(keys, names))
    decreases |names|
  {
    if names != [] {
      var next := if names[0] in keys then keys else keys + [names[0]];
      AppendNewDistinct(next, names[1..]);
    }
  }

  /** One more name is appended only when it is new: keys follow first occurrences. */
  lemma {:induction false} AppendNewSnoc(keys: seq<string>, names: seq<string>, x: string)
    ensures AppendNew(keys, names + [x])
         == var r := AppendNew(keys, names); if x in r then r else r + [x]
    decreases |names|
  {
    if names == [] {
      assert [x][1..] == [];
    } else {
      var next := if names[0] in keys then keys else keys + [names[0]];
      assert (names + [x])[1..] == names[1..] + [x];
      AppendNewSnoc(next, names[1..], x);
    }
  }

  /** Names that are all distinct and new are appended as they are. */
  lemma {:induction false} AppendNewFresh(keys: seq<string>, names: seq<string>)
    requires Distinct(names)
    requires forall n :: n in names ==> n !in keys
    ensures AppendNew(keys, names) == keys + names
    decreases |names|
  {
    if names != [] {
      var next := keys + [names[0]];
      forall n | n in names[1..] ensures n !in next {
        var k :| 1 <= k < |names| && names[k] == n;
      }
      AppendNewFresh(next, names[1..]);
      assert next + names[1..] == keys + names;
    }
  }

  /** java.util.LinkedHashMap<String, V> restricted to what the configuration code uses. */
  class LinkedHashMap<V> {
    var entries: seq<(string, V)>

    ghost predicate Valid()
      reads this
    {
      Distinct(Keys(entries))
    }

    constructor ()
      ensures Valid() && entries == []
    {
      entries := [];
    }

    /** `put(key, value)`. */
    method Put(key: string, value: V)
      requires Valid()
      modifies this
      ensures Valid()
      ensures entries == PutEntry(old(entries), key, value)
      ensures Lookup(entries, key) == Some(value)
      ensures forall k :: k != key ==> Lookup(entries, k) == Lookup(old(entries), k)
    {
      PutEntryDistinct(entries, key, value);
      ghost var before := entries;
      entries := PutEntry(entries, key, value);
      forall k
        ensures k != key ==> Lookup(entries, k) == Lookup(before, k)
      {
        if k != key {
          PutEntryLookupOther(before, key, value, k);
        }
      }
      PutEntryLookupSame(before, key, value);
    }
  }
}
