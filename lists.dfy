/** `Array.prototype.filter` on immutable lists, with the facts every caller needs. */
module Lists {

  /** The elements of `s` satisfying `p`, in order. */
  function Filter<T>(s: seq<T>, p: T -> bool): seq<T> {
    if s == [] then []
    else Filter(s[..|s| - 1], p) + (if p(s[|s| - 1]) then [s[|s| - 1]] else [])
  }

  /** An element is kept exactly when it is in the input and satisfies the predicate. */
  lemma {:induction false} FilterMembers<T>(s: seq<T>, p: T -> bool)
    ensures forall x :: x in Filter(s, p) <==> x in s && p(x)
  {
    if s != [] {
      var q := s[..|s| - 1];
      FilterMembers(q, p);
      assert s == q + [s[|s| - 1]];
    }
  }

  /** Filtering keeps input order: filtering a concatenation filters each part. */
  lemma {:induction false} FilterAppend<T>(a: seq<T>, b: seq<T>, p: T -> bool)
    ensures Filter(a + b, p) == Filter(a, p) + Filter(b, p)
  {
    if b == [] {
      assert a + b == a;
    } else {
      var q := b[..|b| - 1];
      assert (a + b)[..|a + b| - 1] == a + q;
      assert (a + b)[|a + b| - 1] == b[|b| - 1];
      FilterAppend(a, q, p);
    }
  }

  /** The result is never longer than the input. */
  lemma {:induction false} FilterLength<T>(s: seq<T>, p: T -> bool)
    ensures |Filter(s, p)| <= |s|
  {
    if s != [] {
      FilterLength(s[..|s| - 1], p);
    }
  }

  /** Extending a prefix by one element. */
  lemma PrefixSnoc<T>(s: seq<T>, i: nat)
    requires i < |s|
    ensures s[..i + 1] == s[..i] + [s[i]]
  {
  }
}
