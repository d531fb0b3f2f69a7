/** Allow-list filtering of records before they are written: only allowed keys survive,
    and the `createdAt` timestamp never does. The input record is a value and is never
    changed; the cleaners build a filtered copy. */
module Cleaner {
  import opened Wrappers
  import opened Dicts
  import opened SchemaModel
  import SchemaOperator

  /** The key that is always dropped. */
  const CreatedAt := "createdAt"

  /** `Object.keys` applied to an `undefined` allow-list raises a `TypeError`. */
  datatype CleanError = NoAllowList

  /** The record restricted to the allowed keys other than `createdAt`, in its own
      key order. */
  function Cleaned<V>(item: Dict<V>, allowed: set<string>): (r: Dict<V>)
    requires Valid(item)
    ensures Valid(r)
    ensures forall k :: k in r.vals <==> k in item.vals && k in allowed && k != CreatedAt
    ensures forall k :: k in r.vals ==> r.vals[k] == item.vals[k]
    ensures forall i, j :: 0 <= i < j < |r.keys| ==>
      exists i', j' :: 0 <= i' < j' < |item.keys| && item.keys[i'] == r.keys[i] && item.keys[j'] == r.keys[j]
  {
    var ks := allowed - {CreatedAt};
    FilterInOrder(item.keys, ks);
    KeepKeys(item, ks)
  }

  /** Filtering keeps the relative order of the elements it keeps. */
  lemma {:induction false} FilterInOrder(s: seq<string>, ks: set<string>)
    ensures forall i, j :: 0 <= i < j < |FilterIn(s, ks)| ==>
      exists i', j' :: 0 <= i' < j' < |s| && s[i'] == FilterIn(s, ks)[i] && s[j'] == FilterIn(s, ks)[j]
  {
    if s != [] {
      var p, x := s[..|s| - 1], s[|s| - 1];
      FilterInOrder(p, ks);
      var f, g := FilterIn(p, ks), FilterIn(s, ks);
      assert g == f + (if x in ks then [x] else []);
      forall i, j | 0 <= i < j < |FilterIn(s, ks)|
        ensures exists i', j' :: 0 <= i' < j' < |s| && s[i'] == FilterIn(s, ks)[i] && s[j'] == FilterIn(s, ks)[j]
      {
        if j < |f| {
          var i', j' :| 0 <= i' < j' < |p| && p[i'] == f[i] && p[j'] == f[j];
          assert s[i'] == g[i] && s[j'] == g[j];
        } else {
          assert g[i] in p by {
            assert g[i] == f[i] && f[i] in f;
          }
          var i' :| 0 <= i' < |p| && p[i'] == g[i];
          var j' := |s| - 1;
          assert j == |f| && g[j] == x;
          assert 0 <= i' < j' < |s| && s[i'] == g[i] && s[j'] == g[j];
        }
      }
    } else {
      assert FilterIn(s, ks) == [];
    }
  }

  /** The keys at positions `i` and after. */
  function Later(s: seq<string>, i: nat): set<string>
    requires i <= |s|
  {
    set k | k in s[i..]
  }

  /** The copy once the keys before position `i` have been examined. */
  function DroppedBefore<V>(item: Dict<V>, allowed: set<string>, i: nat): (r: Dict<V>)
    requires Valid(item)
    requires i <= |item.keys|
    ensures Valid(r)
  {
    KeepKeys(item, allowed + Later(item.keys, i))
  }

  lemma CleanStep<V>(item: Dict<V>, allowed: set<string>, i: nat)
    requires Valid(item)
    requires i < |item.keys|
    ensures var key := item.keys[i];
      DroppedBefore(item, allowed, i + 1)
        == if key in allowed then DroppedBefore(item, allowed, i) else Remove(DroppedBefore(item, allowed, i), key)
  {
    var key := item.keys[i];
    var s, s' := allowed + Later(item.keys, i), allowed + Later(item.keys, i + 1);
    assert forall k :: k in Later(item.keys, i) <==> k in Later(item.keys, i + 1) || k == key;
    assert key !in Later(item.keys, i + 1);
    if key in allowed {
      KeepKeysSame(item, s, s');
    } else {
      RemoveFromKept(item, s, key);
      KeepKeysSame(item, s - {key}, s');
    }
  }

  lemma CleanStart<V>(item: Dict<V>, allowed: set<string>)
    requires Valid(item)
    ensures item == DroppedBefore(item, allowed, 0)
  {
    KeepKeysAll(item);
    forall k | k in item.vals
      ensures k in Later(item.keys, 0)
    {
      var j :| 0 <= j < |item.keys| && item.keys[j] == k;
    }
    KeepKeysSame(item, item.vals.Keys, allowed + Later(item.keys, 0));
  }

  lemma CleanEnd<V>(item: Dict<V>, allowed: set<string>)
    requires Valid(item)
    ensures DroppedBefore(item, allowed, |item.keys|) == KeepKeys(item, allowed)
  {
    assert Later(item.keys, |item.keys|) == {};
    assert allowed + Later(item.keys, |item.keys|) == allowed;
  }

  /** The loop of `cleanFromDictionary`: deletes, key by key, the keys of the copy that
      the allow-list lacks. */
  method DropDisallowed<V>(original: Dict<V>, tKeys: set<string>) returns (copy: Dict<V>)
    requires Valid(original)
    ensures copy == KeepKeys(original, tKeys)
  {
    var itemsKeys := original.keys;
    copy := original;
    CleanStart(original, tKeys);
    var i := 0;
    while i < |itemsKeys|
      invariant 0 <= i <= |itemsKeys|
      invariant copy == DroppedBefore(original, tKeys, i)
    {
      var key := itemsKeys[i];
      CleanStep(original, tKeys, i);
      if key !in tKeys {
        copy := Remove(copy, key);
      }
      i := i + 1;
    }
    CleanEnd(original, tKeys);
  }

  /** `cleanFromDictionary`: an absent item gives nothing; otherwise the item's copy is
      stripped of every key the allow-list lacks and of `createdAt`. */
  method CleanFromDictionary<V, A>(item: Option<Dict<V>>, allowedKeys: Option<Dict<A>>)
    returns (r: Result<Option<Dict<V>>, CleanError>)
    requires item.Some? ==> Valid(item.value)
    ensures item.None? ==> r == Success(None)
    ensures item.Some? ==> (r.Failure? <==> allowedKeys.None?)
    ensures item.Some? && allowedKeys.Some? ==>
      r == Success(Some(Cleaned(item.value, allowedKeys.value.vals.Keys)))
  {
    if item.None? {
      return Success(None);
    }
    if allowedKeys.None? {
      return Failure(NoAllowList);
    }
    var original := item.value;
    var tKeys := allowedKeys.value.vals.Keys;
    var copy := DropDisallowed(original, tKeys);
    RemoveFromKept(original, tKeys, CreatedAt);
    copy := Remove(copy, CreatedAt);
    r := Success(Some(copy));
  }

  /** `cleanByArray`: cleaning against the listed keys; never fails. */
  method CleanByArray<V>(item: Option<Dict<V>>, allowedKeys: seq<string>) returns (r: Option<Dict<V>>)
    requires item.Some? ==> Valid(item.value)
    ensures item.None? ==> r.None?
    ensures item.Some? ==> r == Some(Cleaned(item.value, set k | k in allowedKeys))
  {
    if item.None? {
      return None;
    }
    var dictionary: Dict<()> := Empty();
    var i := 0;
    while i < |allowedKeys|
      invariant 0 <= i <= |allowedKeys|
      invariant forall k :: k in dictionary.vals <==> k in allowedKeys[..i]
    {
      assert allowedKeys[..i + 1] == allowedKeys[..i] + [allowedKeys[i]];
      dictionary := Put(dictionary, allowedKeys[i], ());
      i := i + 1;
    }
    assert allowedKeys[..i] == allowedKeys;
    assert dictionary.vals.Keys == set k | k in allowedKeys;
    var res := CleanFromDictionary(item, Some(dictionary));
    r := res.value;
  }

  /** `cleanByTableName`: cleaning against the table's columns; an unknown table fails
      as soon as there is an item. */
  method CleanByTableName<V>(schema: Schema, item: Option<Dict<V>>, tableName: string)
    returns (r: Result<Option<Dict<V>>, CleanError>)
    requires item.Some? ==> Valid(item.value)
    ensures item.None? ==> r == Success(None)
    ensures item.Some? ==> (r.Failure? <==> tableName !in schema.tables.vals)
    ensures item.Some? && tableName in schema.tables.vals ==>
      r == Success(Some(Cleaned(item.value, schema.tables.vals[tableName].vals.Keys)))
  {
    var table := Get(schema.tables, tableName);
    r := CleanFromDictionary(item, table);
  }

  /** Cleaning twice cleans once. */
  lemma CleanedIdempotent<V>(item: Dict<V>, allowed: set<string>)
    requires Valid(item)
    ensures Cleaned(Cleaned(item, allowed), allowed) == Cleaned(item, allowed)
  {
    var ks := allowed - {CreatedAt};
    KeepKeysTwice(item, ks, ks);
    assert ks * ks == ks;
  }

  /** Cleaning by a table is stripping the keys that name no column, then deleting
      `createdAt`. */
  lemma CleanedByTableIsStripped<V>(item: Dict<V>, table: Table)
    requires Valid(item)
    ensures Cleaned(item, table.vals.Keys) == Remove(SchemaOperator.Belonging(item, table), CreatedAt)
  {
    RemoveFromKept(item, table.vals.Keys, CreatedAt);
  }
}
