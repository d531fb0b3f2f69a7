/** Insertion-ordered dictionaries with string keys: the plain objects and `Map`s the
    source builds. Assigning `obj[k] = v` appends `k` when it is new and keeps its place
    otherwise; `delete obj[k]` drops `k` and keeps the order of the others. */
module Dicts {
  import opened Wrappers

  datatype Dict<V> = Dict(keys: seq<string>, vals: map<string, V>)

  predicate NoDups(s: seq<string>) {
    forall i, j :: 0 <= i < j < |s| ==> s[i] != s[j]
  }

  /** The key list enumerates the domain of the map, each key once. */
  predicate Valid<V>(d: Dict<V>) {
    && NoDups(d.keys)
    && (forall k :: k in d.vals ==> k in d.keys)
    && (forall k :: k in d.keys ==> k in d.vals)
  }

  function Empty<V>(): (d: Dict<V>)
    ensures Valid(d) && d.keys == [] && d.vals == map[]
  {
    Dict([], map[])
  }

  /** `obj[k] = v` */
  function Put<V>(d: Dict<V>, k: string, v: V): (r: Dict<V>)
    ensures Valid(d) ==> Valid(r)
    ensures r.vals == d.vals[k := v]
    ensures k in d.vals ==> r.keys == d.keys
    ensures k !in d.vals ==> r.keys == d.keys + [k]
  {
    if k in d.vals then Dict(d.keys, d.vals[k := v]) else Dict(d.keys + [k], d.vals[k := v])
  }

  /** `obj[k]`, with `None` for `undefined` */
  function Get<V>(d: Dict<V>, k: string): (r: Option<V>)
    ensures r.Some? <==> k in d.vals
    ensures r.Some? ==> r.value == d.vals[k]
  {
    if k in d.vals then Some(d.vals[k]) else None
  }

  /** `Object.values(obj)`, in key order */
  function Values<V>(d: Dict<V>): (r: seq<V>)
    requires Valid(d)
    ensures |r| == |d.keys|
    ensures forall i :: 0 <= i < |d.keys| ==> r[i] == d.vals[d.keys[i]]
  {
    seq(|d.keys|, i requires 0 <= i < |d.keys| => d.vals[d.keys[i]])
  }

  /** The listed values are exactly the values of the map. */
  lemma ValuesMembers<V>(d: Dict<V>)
    requires Valid(d)
    ensures forall v :: v in Values(d) <==> v in d.vals.Values
  {
    var vs := Values(d);
    forall v | v in d.vals.Values
      ensures v in vs
    {
      var k :| k in d.vals && d.vals[k] == v;
      var i :| 0 <= i < |d.keys| && d.keys[i] == k;
      assert vs[i] == v;
    }
  }

  /** The elements of `s` that lie in `ks`, in their order in `s`. */
  function FilterIn(s: seq<string>, ks: set<string>): (r: seq<string>)
    ensures forall x :: x in r <==> x in s && x in ks
    ensures NoDups(s) ==> NoDups(r)
  {
    if s == [] then []
    else
      var p := FilterIn(s[..|s| - 1], ks);
      var x := s[|s| - 1];
      assert NoDups(s) ==> x !in s[..|s| - 1];
      p + (if x in ks then [x] else [])
  }

  /** The entries whose keys lie in `ks`, in their original order. */
  function KeepKeys<V>(d: Dict<V>, ks: set<string>): (r: Dict<V>)
    requires Valid(d)
    ensures Valid(r)
    ensures forall k :: k in r.vals <==> k in d.vals && k in ks
    ensures forall k :: k in r.vals ==> r.vals[k] == d.vals[k]
  {
    Dict(FilterIn(d.keys, ks), map k | k in d.vals && k in ks :: d.vals[k])
  }

  /** `delete obj[k]` */
  function Remove<V>(d: Dict<V>, k: string): (r: Dict<V>)
    requires Valid(d)
    ensures Valid(r) && r.vals == d.vals - {k}
  {
    KeepKeys(d, d.vals.Keys - {k})
  }

  lemma {:induction false} FilterInSame(s: seq<string>, a: set<string>, b: set<string>)
    requires forall x :: x in s ==> (x in a <==> x in b)
    ensures FilterIn(s, a) == FilterIn(s, b)
  {
    if s != [] {
      FilterInSame(s[..|s| - 1], a, b);
    }
  }

  lemma {:induction false} FilterInTwice(s: seq<string>, a: set<string>, b: set<string>)
    ensures FilterIn(FilterIn(s, a), b) == FilterIn(s, a * b)
  {
    if s != [] {
      var p, x := s[..|s| - 1], s[|s| - 1];
      FilterInTwice(p, a, b);
      if x in a {
        var q := FilterIn(p, a) + [x];
        assert FilterIn(s, a) == q;
        assert q[..|q| - 1] == FilterIn(p, a) && q[|q| - 1] == x;
        assert FilterIn(q, b) == FilterIn(FilterIn(p, a), b) + (if x in b then [x] else []);
      } else {
        assert FilterIn(s, a) == FilterIn(p, a);
      }
    }
  }

  /** Only the keys that the dictionary has matter to `KeepKeys`. */
  lemma KeepKeysSame<V>(d: Dict<V>, a: set<string>, b: set<string>)
    requires Valid(d)
    requires forall k :: k in d.vals ==> (k in a <==> k in b)
    ensures KeepKeys(d, a) == KeepKeys(d, b)
  {
    FilterInSame(d.keys, a, b);
  }

  /** Filtering twice filters by both key sets. */
  lemma KeepKeysTwice<V>(d: Dict<V>, a: set<string>, b: set<string>)
    requires Valid(d)
    ensures KeepKeys(KeepKeys(d, a), b) == KeepKeys(d, a * b)
  {
    FilterInTwice(d.keys, a, b);
    var l, r := KeepKeys(KeepKeys(d, a), b), KeepKeys(d, a * b);
    assert l.keys == r.keys;
    assert l.vals == r.vals;
  }

  lemma {:induction false} FilterInAll(s: seq<string>, ks: set<string>)
    requires forall x :: x in s ==> x in ks
    ensures FilterIn(s, ks) == s
  {
    if s != [] {
      FilterInAll(s[..|s| - 1], ks);
      assert s == s[..|s| - 1] + [s[|s| - 1]];
    }
  }

  /** Keeping every key of the dictionary keeps the dictionary. */
  lemma KeepKeysAll<V>(d: Dict<V>)
    requires Valid(d)
    ensures KeepKeys(d, d.vals.Keys) == d
  {
    FilterInAll(d.keys, d.vals.Keys);
  }

  /** Deleting a key after filtering filters by one key fewer. */
  lemma RemoveFromKept<V>(d: Dict<V>, a: set<string>, k: string)
    requires Valid(d)
    ensures Remove(KeepKeys(d, a), k) == KeepKeys(d, a - {k})
  {
    var x := KeepKeys(d, a);
    KeepKeysTwice(d, a, x.vals.Keys - {k});
    KeepKeysSame(d, a * (x.vals.Keys - {k}), a - {k});
  }

  /** The first components, in order. */
  function Firsts<V>(kvs: seq<(string, V)>): (r: seq<string>)
    ensures |r| == |kvs|
    ensures forall i :: 0 <= i < |kvs| ==> r[i] == kvs[i].0
  {
    seq(|kvs|, i requires 0 <= i < |kvs| => kvs[i].0)
  }

  /** The distinct elements of `s`, in the order of their first appearance (`[...new Set(s)]`). */
  function Distinct(s: seq<string>): (r: seq<string>)
    ensures NoDups(r)
    ensures forall x :: x in r <==> x in s
  {
    if s == [] then []
    else
      var p := Distinct(s[..|s| - 1]);
      var x := s[|s| - 1];
      if x in p then p else p + [x]
  }

  /** Position of the first occurrence of `x` in `s`. */
  function FirstIndex(s: seq<string>, x: string): (i: nat)
    requires x in s
    ensures i < |s| && s[i] == x
    ensures forall j :: 0 <= j < i ==> s[j] != x
  {
    if s[0] == x then 0 else 1 + FirstIndex(s[1..], x)
  }

  lemma {:induction false} FirstIndexOfExtended(p: seq<string>, x: string, y: string)
    requires y in p
    ensures FirstIndex(p + [x], y) == FirstIndex(p, y)
  {
    if p[0] != y {
      assert (p + [x])[1..] == p[1..] + [x];
      FirstIndexOfExtended(p[1..], x, y);
    }
  }

  /** `Distinct` lists the elements in the order of their first appearance. */
  lemma {:induction false} DistinctInFirstAppearanceOrder(s: seq<string>)
    ensures forall i, j :: 0 <= i < j < |Distinct(s)| ==>
      FirstIndex(s, Distinct(s)[i]) < FirstIndex(s, Distinct(s)[j])
  {
    if s != [] {
      var p, x := s[..|s| - 1], s[|s| - 1];
      assert s == p + [x];
      DistinctInFirstAppearanceOrder(p);
      var d := Distinct(p);
      forall i, j | 0 <= i < j < |Distinct(s)|
        ensures FirstIndex(s, Distinct(s)[i]) < FirstIndex(s, Distinct(s)[j])
      {
        FirstIndexOfExtended(p, x, d[i]);
        if j < |d| {
          FirstIndexOfExtended(p, x, d[j]);
        } else {
          assert x !in p && Distinct(s)[j] == x;
          assert FirstIndex(s, x) == |p|;
        }
      }
    }
  }

  /** Assigns the pairs in order, as a `forEach` that does `obj[k] = v`. */
  function PutAll<V>(d: Dict<V>, kvs: seq<(string, V)>): (r: Dict<V>)
    ensures Valid(d) ==> Valid(r)
  {
    if kvs == [] then d
    else
      var last := kvs[|kvs| - 1];
      Put(PutAll(d, kvs[..|kvs| - 1]), last.0, last.1)
  }

  /** Starting from an empty object, the keys are the distinct keys assigned, first
      appearance first, and the domain is exactly the keys assigned. */
  lemma {:induction false} PutAllKeys<V>(kvs: seq<(string, V)>)
    ensures PutAll(Empty(), kvs).keys == Distinct(Firsts(kvs))
    ensures forall k :: k in PutAll(Empty(), kvs).vals <==> k in Firsts(kvs)
  {
    if kvs != [] {
      var p := kvs[..|kvs| - 1];
      PutAllKeys(p);
      assert Firsts(kvs)[..|kvs| - 1] == Firsts(p);
    }
  }

  /** When several pairs assign one key, the last assignment wins. */
  lemma {:induction false} PutAllLastWins<V>(d: Dict<V>, kvs: seq<(string, V)>, i: nat)
    requires i < |kvs|
    requires forall j :: i < j < |kvs| ==> kvs[j].0 != kvs[i].0
    ensures kvs[i].0 in PutAll(d, kvs).vals
    ensures PutAll(d, kvs).vals[kvs[i].0] == kvs[i].1
  {
    if i < |kvs| - 1 {
      PutAllLastWins(d, kvs[..|kvs| - 1], i);
    }
  }

  /** A key that no pair assigns keeps its value. */
  lemma {:induction false} PutAllUntouched<V>(d: Dict<V>, kvs: seq<(string, V)>, k: string)
    requires forall j :: 0 <= j < |kvs| ==> kvs[j].0 != k
    ensures k in PutAll(d, kvs).vals <==> k in d.vals
    ensures k in d.vals ==> PutAll(d, kvs).vals[k] == d.vals[k]
  {
    if kvs != [] {
      PutAllUntouched(d, kvs[..|kvs| - 1], k);
    }
  }

  /** Appending one pair assigns it last. */
  lemma PutAllSnoc<V>(d: Dict<V>, kvs: seq<(string, V)>, k: string, v: V)
    ensures PutAll(d, kvs + [(k, v)]) == Put(PutAll(d, kvs), k, v)
  {
    assert (kvs + [(k, v)])[..|kvs|] == kvs;
  }

  /** Every value the result holds was there before or was assigned under that key. */
  lemma {:induction false} PutAllValueFrom<V>(d: Dict<V>, kvs: seq<(string, V)>, k: string)
    requires k in PutAll(d, kvs).vals
    ensures || (k in d.vals && PutAll(d, kvs).vals[k] == d.vals[k])
            || exists i :: 0 <= i < |kvs| && kvs[i] == (k, PutAll(d, kvs).vals[k])
  {
    if kvs != [] {
      var p := kvs[..|kvs| - 1];
      if kvs[|kvs| - 1].0 != k {
        PutAllValueFrom(d, p, k);
        if exists i :: 0 <= i < |p| && p[i] == (k, PutAll(d, p).vals[k]) {
          var i :| 0 <= i < |p| && p[i] == (k, PutAll(d, p).vals[k]);
          assert kvs[i] == p[i];
        }
      }
    }
  }
}
