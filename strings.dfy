/** Character and string helpers shared by the model: ASCII lower-casing,
    `Array.prototype.join`, and the code-unit order used by `Array.prototype.sort`. */
module Strings {

  predicate IsDigit(c: char) {
    '0' <= c <= '9'
  }

  /** `toLowerCase` restricted to ASCII, so that it never changes a length. */
  function LowerChar(c: char): char {
    if 'A' <= c <= 'Z' then (c as int - 'A' as int + 'a' as int) as char else c
  }

  function Lower(s: string): (r: string)
    ensures |r| == |s|
    ensures forall i :: 0 <= i < |s| ==> r[i] == LowerChar(s[i])
  {
    seq(|s|, i requires 0 <= i < |s| => LowerChar(s[i]))
  }

  predicate IsLowerCase(s: string) {
    Lower(s) == s
  }

  lemma LowerIsLowerCase(s: string)
    ensures IsLowerCase(Lower(s))
  {
  }

  /** `xs.join(sep)`: the empty list joins to the empty string. */
  function Join(sep: string, xs: seq<string>): string {
    if |xs| == 0 then ""
    else if |xs| == 1 then xs[0]
    else xs[0] + sep + Join(sep, xs[1..])
  }

  /** The default order of `Array.prototype.sort` on strings: lexicographic on code units. */
  predicate LessEq(a: string, b: string) {
    |a| == 0 || (|b| > 0 && (a[0] < b[0] || (a[0] == b[0] && LessEq(a[1..], b[1..]))))
  }

  lemma {:induction false} LessEqReflexive(a: string)
    ensures LessEq(a, a)
  {
    if |a| > 0 {
      LessEqReflexive(a[1..]);
    }
  }

  lemma {:induction false} LessEqTotal(a: string, b: string)
    ensures LessEq(a, b) || LessEq(b, a)
  {
    if |a| > 0 && |b| > 0 && a[0] == b[0] {
      LessEqTotal(a[1..], b[1..]);
    }
  }

  lemma {:induction false} LessEqAntisymmetric(a: string, b: string)
    requires LessEq(a, b) && LessEq(b, a)
    ensures a == b
  {
    if |a| > 0 && |b| > 0 {
      LessEqAntisymmetric(a[1..], b[1..]);
      assert a == [a[0]] + a[1..] && b == [b[0]] + b[1..];
    }
  }

  lemma {:induction false} LessEqTransitive(a: string, b: string, c: string)
    requires LessEq(a, b) && LessEq(b, c)
    ensures LessEq(a, c)
  {
    if |a| > 0 && |b| > 0 && |c| > 0 && a[0] == b[0] && b[0] == c[0] {
      LessEqTransitive(a[1..], b[1..], c[1..]);
    }
  }

  predicate Sorted(s: seq<string>) {
    forall i, j :: 0 <= i < j < |s| ==> LessEq(s[i], s[j])
  }

  function Insert(x: string, s: seq<string>): (r: seq<string>)
    requires Sorted(s)
    ensures Sorted(r)
    ensures multiset(r) == multiset(s) + multiset{x}
  {
    if s == [] then [x]
    else if LessEq(x, s[0]) then
      assert forall j :: 0 < j < |s| ==> LessEq(x, s[j]) by {
        forall j | 0 < j < |s| ensures LessEq(x, s[j]) { LessEqTransitive(x, s[0], s[j]); }
      }
      [x] + s
    else
      LessEqTotal(x, s[0]);
      var t := Insert(x, s[1..]);
      ConsSorted(s, x, t);
      [s[0]] + t
  }

  /** Putting the head of a sorted sequence before a sorted rearrangement of its tail
      and one more element not below the head keeps it sorted. */
  lemma ConsSorted(s: seq<string>, x: string, t: seq<string>)
    requires Sorted(s) && |s| > 0 && LessEq(s[0], x)
    requires Sorted(t) && multiset(t) == multiset(s[1..]) + multiset{x}
    ensures Sorted([s[0]] + t)
    ensures multiset([s[0]] + t) == multiset(s) + multiset{x}
  {
    assert s == [s[0]] + s[1..];
    forall j | 0 <= j < |t|
      ensures LessEq(s[0], t[j])
    {
      assert t[j] in multiset(t);
      if t[j] != x {
        assert t[j] in multiset(s[1..]);
        var k :| 0 <= k < |s[1..]| && s[1..][k] == t[j];
        assert s[k + 1] == t[j];
      }
    }
  }

  /** `[...options].sort()` on strings. */
  function Sort(s: seq<string>): (r: seq<string>)
    ensures Sorted(r)
    ensures multiset(r) == multiset(s)
  {
    if s == [] then [] else
      assert s == [s[0]] + s[1..];
      Insert(s[0], Sort(s[1..]))
  }

  /** The head of a sorted sequence is below each of its elements. */
  lemma SortedHeadIsLeast(a: seq<string>, x: string)
    requires Sorted(a) && x in a
    ensures LessEq(a[0], x)
  {
    var i :| 0 <= i < |a| && a[i] == x;
    if i == 0 { LessEqReflexive(x); }
  }

  /** A sorted arrangement of a multiset of strings is unique. */
  lemma {:induction false} SortedUnique(a: seq<string>, b: seq<string>)
    requires Sorted(a) && Sorted(b) && multiset(a) == multiset(b)
    ensures a == b
  {
    if a != [] {
      SameHead(a, b);
      var a', b' := a[1..], b[1..];
      assert a == [a[0]] + a' && b == [b[0]] + b';
      assert multiset(a') == multiset(a) - multiset{a[0]};
      assert multiset(b') == multiset(b) - multiset{b[0]};
      SortedUnique(a', b');
    }
  }

  /** Two sorted arrangements of one non-empty multiset start alike. */
  lemma SameHead(a: seq<string>, b: seq<string>)
    requires Sorted(a) && Sorted(b) && multiset(a) == multiset(b) && a != []
    ensures b != [] && a[0] == b[0]
  {
    assert |b| == |multiset(b)| == |multiset(a)| == |a|;
    assert a[0] in multiset(b) && b[0] in multiset(a);
    SortedHeadIsLeast(b, a[0]);
    SortedHeadIsLeast(a, b[0]);
    LessEqAntisymmetric(a[0], b[0]);
  }

  /** Sorting ignores the order of its input. */
  lemma SortPermutationInvariant(a: seq<string>, b: seq<string>)
    requires multiset(a) == multiset(b)
    ensures Sort(a) == Sort(b)
  {
    SortedUnique(Sort(a), Sort(b));
  }
}
