/** The list helpers of the enum pipeline: grouping by a key and comparing option lists as sets. */
module Misc {
  import opened Dicts

  // ---------------------------------------------------------------- groupBy

  /** The key of every item, in input order (`items.map(t => t[column])`). */
  function KeysOf<T>(items: seq<T>, key: T -> string): (r: seq<string>)
    ensures |r| == |items|
    ensures forall i :: 0 <= i < |items| ==> r[i] == key(items[i])
  {
    seq(|items|, i requires 0 <= i < |items| => key(items[i]))
  }

  /** The items whose key is `k`, in input order. */
  function Group<T>(items: seq<T>, key: T -> string, k: string): seq<T> {
    if items == [] then []
    else
      var t := items[|items| - 1];
      Group(items[..|items| - 1], key, k) + (if key(t) == k then [t] else [])
  }

  lemma GroupSnoc<T>(items: seq<T>, t: T, key: T -> string, k: string)
    ensures Group(items + [t], key, k) == Group(items, key, k) + (if key(t) == k then [t] else [])
  {
    assert (items + [t])[..|items|] == items;
  }

  /** An item is in the group of `k` exactly when it is an input item whose key is `k`. */
  lemma {:induction false} GroupMembers<T>(items: seq<T>, key: T -> string, k: string)
    ensures forall x :: x in Group(items, key, k) <==> x in items && key(x) == k
  {
    if items != [] {
      var p, t := items[..|items| - 1], items[|items| - 1];
      assert items == p + [t];
      GroupMembers(p, key, k);
    }
  }

  /** Grouping a concatenation groups each part in turn: groups keep input order. */
  lemma {:induction false} GroupAppend<T>(a: seq<T>, b: seq<T>, key: T -> string, k: string)
    ensures Group(a + b, key, k) == Group(a, key, k) + Group(b, key, k)
  {
    if b == [] {
      assert a + b == a;
    } else {
      var p, t := b[..|b| - 1], b[|b| - 1];
      assert a + b == (a + p) + [t];
      GroupAppend(a, p, key, k);
      GroupSnoc(a + p, t, key, k);
      GroupSnoc(p, t, key, k);
      assert b == p + [t];
    }
  }

  /** Every key that occurs has a non-empty group. */
  lemma GroupNonEmpty<T>(items: seq<T>, key: T -> string, k: string)
    requires k in KeysOf(items, key)
    ensures |Group(items, key, k)| > 0
  {
    var i :| 0 <= i < |items| && KeysOf(items, key)[i] == k;
    GroupMembers(items, key, k);
    assert items[i] in Group(items, key, k);
  }

  /** The total size of the groups of the keys `ks`. */
  function GroupSizes<T>(items: seq<T>, key: T -> string, ks: seq<string>): nat {
    if ks == [] then 0
    else GroupSizes(items, key, ks[..|ks| - 1]) + |Group(items, key, ks[|ks| - 1])|
  }

  /** The number of items whose key is in `ks`. */
  function CountKeyed<T>(items: seq<T>, key: T -> string, ks: set<string>): nat {
    if items == [] then 0
    else CountKeyed(items[..|items| - 1], key, ks) + (if key(items[|items| - 1]) in ks then 1 else 0)
  }

  lemma {:induction false} CountKeyedAddKey<T>(items: seq<T>, key: T -> string, ks: set<string>, k: string)
    requires k !in ks
    ensures CountKeyed(items, key, ks + {k}) == CountKeyed(items, key, ks) + |Group(items, key, k)|
  {
    if items != [] {
      CountKeyedAddKey(items[..|items| - 1], key, ks, k);
    }
  }

  lemma {:induction false} GroupSizesCount<T>(items: seq<T>, key: T -> string, ks: seq<string>)
    requires NoDups(ks)
    ensures GroupSizes(items, key, ks) == CountKeyed(items, key, SetOf(ks))
  {
    if ks == [] {
      assert SetOf(ks) == {};
      CountKeyedNone(items, key);
    } else {
      var p, k := ks[..|ks| - 1], ks[|ks| - 1];
      assert NoDups(p) by {
        forall i, j | 0 <= i < j < |p| ensures p[i] != p[j] { assert p[i] == ks[i] && p[j] == ks[j]; }
      }
      assert k !in p by {
        forall i | 0 <= i < |p| ensures p[i] != k { assert p[i] == ks[i]; }
      }
      GroupSizesCount(items, key, p);
      CountKeyedAddKey(items, key, SetOf(p), k);
      assert SetOf(ks) == SetOf(p) + {k} by {
        assert ks == p + [k];
      }
    }
  }

  lemma {:induction false} CountKeyedNone<T>(items: seq<T>, key: T -> string)
    ensures CountKeyed(items, key, {}) == 0
  {
    if items != [] {
      CountKeyedNone(items[..|items| - 1], key);
    }
  }

  lemma {:induction false} CountKeyedAll<T>(items: seq<T>, key: T -> string, ks: set<string>)
    requires forall i :: 0 <= i < |items| ==> key(items[i]) in ks
    ensures CountKeyed(items, key, ks) == |items|
  {
    if items != [] {
      CountKeyedAll(items[..|items| - 1], key, ks);
    }
  }

  /** The groups of `groupBy` partition the input: their sizes add up to its length. */
  lemma GroupSizesSum<T>(items: seq<T>, key: T -> string)
    ensures GroupSizes(items, key, Distinct(KeysOf(items, key))) == |items|
  {
    var ks := Distinct(KeysOf(items, key));
    GroupSizesCount(items, key, ks);
    forall i | 0 <= i < |items| ensures key(items[i]) in SetOf(ks) {
      assert KeysOf(items, key)[i] == key(items[i]);
    }
    CountKeyedAll(items, key, SetOf(ks));
  }

  /** `groupBy`: one entry per distinct key, in the order the keys first appear, each
      holding the items with that key in input order. */
  method GroupBy<T>(items: seq<T>, key: T -> string) returns (dict: Dict<seq<T>>)
    ensures Valid(dict)
    ensures dict.keys == Distinct(KeysOf(items, key))
    ensures forall k :: k in dict.vals <==> k in KeysOf(items, key)
    ensures forall k :: k in dict.vals ==> dict.vals[k] == Group(items, key, k)
  {
    var keys := Distinct(KeysOf(items, key));
    dict := Empty();
    var i := 0;
    while i < |keys|
      invariant 0 <= i <= |keys|
      invariant InitialisedSoFar(dict, keys, i)
    {
      InitStep(dict, keys, i);
      dict := Put(dict, keys[i], []);
      i := i + 1;
    }
    InitDone(dict, items, key);
    var j := 0;
    while j < |items|
      invariant 0 <= j <= |items|
      invariant GroupedSoFar(dict, items, key, j)
    {
      var t := items[j];
      var k := key(t);
      assert KeysOf(items, key)[j] == k;
      PushStep(dict, items, key, j);
      dict := Put(dict, k, dict.vals[k] + [t]);
      j := j + 1;
    }
    GroupDone(dict, items, key);
  }

  /** The state of `groupBy`'s first loop after the first `i` keys got an empty list. */
  ghost predicate InitialisedSoFar<T>(dict: Dict<seq<T>>, keys: seq<string>, i: nat)
    requires i <= |keys|
  {
    && Valid(dict)
    && dict.keys == keys[..i]
    && forall k :: k in dict.vals ==> dict.vals[k] == []
  }

  lemma InitStep<T>(dict: Dict<seq<T>>, keys: seq<string>, i: nat)
    requires NoDups(keys) && i < |keys| && InitialisedSoFar(dict, keys, i)
    ensures InitialisedSoFar(Put(dict, keys[i], []), keys, i + 1)
  {
    assert keys[i] !in dict.vals by {
      assert forall a :: 0 <= a < i ==> keys[a] != keys[i];
    }
    assert keys[..i + 1] == keys[..i] + [keys[i]];
  }

  lemma InitDone<T>(dict: Dict<seq<T>>, items: seq<T>, key: T -> string)
    requires InitialisedSoFar(dict, Distinct(KeysOf(items, key)), |Distinct(KeysOf(items, key))|)
    ensures GroupedSoFar(dict, items, key, 0)
  {
    var keys := Distinct(KeysOf(items, key));
    assert keys[..|keys|] == keys;
    assert forall k :: k in dict.vals <==> k in keys;
  }

  /** The state of `groupBy`'s second loop after the first `j` items have been pushed. */
  ghost predicate GroupedSoFar<T>(dict: Dict<seq<T>>, items: seq<T>, key: T -> string, j: nat)
    requires j <= |items|
  {
    && Valid(dict)
    && dict.keys == Distinct(KeysOf(items, key))
    && (forall k :: k in dict.vals <==> k in KeysOf(items, key))
    && (forall k :: k in dict.vals ==> dict.vals[k] == Group(items[..j], key, k))
  }

  lemma GroupDone<T>(dict: Dict<seq<T>>, items: seq<T>, key: T -> string)
    requires GroupedSoFar(dict, items, key, |items|)
    ensures forall k :: k in dict.vals ==> dict.vals[k] == Group(items, key, k)
  {
    assert items[..|items|] == items;
  }

  lemma PushStep<T>(dict: Dict<seq<T>>, items: seq<T>, key: T -> string, j: nat)
    requires j < |items| && GroupedSoFar(dict, items, key, j)
    requires key(items[j]) in dict.vals
    ensures var k := key(items[j]);
      GroupedSoFar(Put(dict, k, dict.vals[k] + [items[j]]), items, key, j + 1)
  {
    var t := items[j];
    var k := key(t);
    var d' := Put(dict, k, dict.vals[k] + [t]);
    assert items[..j + 1] == items[..j] + [t];
    forall k' | k' in d'.vals
      ensures d'.vals[k'] == Group(items[..j + 1], key, k')
    {
      GroupSnoc(items[..j], t, key, k');
    }
  }

  // ---------------------------------------------------------------- equalAsSets

  /** `setsEqual`: same size and every element of the first in the second. */
  function SetsEqual(aSet: set<string>, bSet: set<string>): (r: bool)
    ensures r <==> aSet == bSet
  {
    if |aSet| != |bSet| then false
    else
      var every := forall v :: v in aSet ==> v in bSet;
      if every then SubsetOfSameSize(aSet, bSet); true else false
  }

  lemma {:induction false} SubsetOfSameSize(a: set<string>, b: set<string>)
    requires a <= b && |a| == |b|
    ensures a == b
  {
    if a != b {
      assert !(b <= a);
      var x :| x in b && x !in a;
      SubsetCardinality(a, b - {x});
    }
  }

  lemma {:induction false} SubsetCardinality(a: set<string>, b: set<string>)
    requires a <= b
    ensures |a| <= |b|
    decreases |a|
  {
    if a != {} {
      var x :| x in a;
      SubsetCardinality(a - {x}, b - {x});
    }
  }

  /** The set of the elements of a list (`new Set(a)`). */
  function SetOf(a: seq<string>): set<string> {
    set x | x in a
  }

  /** `equalAsSets`: the lists have the same length and the same distinct elements; the
      order and the multiplicities are not compared. */
  function EqualAsSets(a: seq<string>, b: seq<string>): (r: bool)
    ensures r <==> |a| == |b| && (forall x :: x in a <==> x in b)
  {
    if |a| != |b| then false
    else
      var r := SetsEqual(SetOf(a), SetOf(b));
      assert r <==> forall x :: x in a <==> x in b by {
        assert forall x :: x in a <==> x in SetOf(a);
        assert forall x :: x in b <==> x in SetOf(b);
        if forall x :: x in a <==> x in b {
          assert SetOf(a) == SetOf(b);
        }
      }
      r
  }

  lemma SetsEqualSymmetric(a: set<string>, b: set<string>)
    ensures SetsEqual(a, b) == SetsEqual(b, a)
  {
  }

  lemma SetsEqualReflexive(a: set<string>)
    ensures SetsEqual(a, a)
  {
  }

  /** `equalAsSets` ignores order: a list equals every permutation of it. */
  lemma EqualAsSetsPermutation(a: seq<string>, b: seq<string>)
    requires multiset(a) == multiset(b)
    ensures EqualAsSets(a, b)
  {
    assert |a| == |multiset(a)| == |multiset(b)| == |b|;
    forall x ensures x in a <==> x in b {
      assert x in a <==> x in multiset(a);
      assert x in b <==> x in multiset(b);
    }
  }

  /** `equalAsSets` does not compare multiplicities: two lists of the same length with the
      same elements repeated differently compare equal. */
  lemma EqualAsSetsIgnoresMultiplicity()
    ensures EqualAsSets(["a", "a", "b"], ["a", "b", "b"])
    ensures multiset(["a", "a", "b"]) != multiset(["a", "b", "b"])
  {
    assert multiset(["a", "a", "b"])["a"] == 2;
    assert multiset(["a", "b", "b"])["a"] == 1;
  }
}
