/** The enum merger: holders with the same option hash are grouped, and a group whose
    constant-cased field names share a long enough common substring gets a synthesised
    holder that replaces its members. */
module EnumMerger {
  import opened Wrappers
  import opened Dicts
  import opened Misc
  import opened EnumBuilder

  /** The library functions the merger calls: constant case, pascal case and the longest
      common substring. Their bodies are not part of this model. */
  datatype Naming = Naming(
    constant: string -> string,
    pascal: string -> string,
    lcs: (string, string) -> string)

  /** A common substring must be longer than this to yield a holder. */
  const LcsThreshold := 5

  function Indices(n: nat): (r: seq<nat>)
    ensures |r| == n
    ensures forall i :: 0 <= i < n ==> r[i] == i
  {
    seq(n, i requires 0 <= i < n => i)
  }

  /** The grouping key of the holder at position `i`. */
  function HashKey(enums: seq<EnumHolder>): nat -> string {
    (i: nat) => if i < |enums| then enums[i].optionHash else ""
  }

  /** The positions of the holders whose option hash is `k`, in registry order. */
  function GroupOf(enums: seq<EnumHolder>, k: string): (g: seq<nat>)
    ensures forall j :: 0 <= j < |g| ==> g[j] < |enums| && enums[g[j]].optionHash == k
  {
    var g := Group(Indices(|enums|), HashKey(enums), k);
    GroupMembers(Indices(|enums|), HashKey(enums), k);
    assert forall j :: 0 <= j < |g| ==> g[j] in g;
    g
  }

  /** The option hashes in order of first appearance: the keys of `groupBy`. */
  function GroupKeys(enums: seq<EnumHolder>): (ks: seq<string>)
    ensures NoDups(ks)
  {
    Distinct(KeysOf(Indices(|enums|), HashKey(enums)))
  }

  /** `value.reduce((p, c) => lcs(p, constant(c.field)), acc)` */
  function FoldLcs(acc: string, enums: seq<EnumHolder>, g: seq<nat>, naming: Naming): string
    requires forall j :: 0 <= j < |g| ==> g[j] < |enums|
  {
    if g == [] then acc
    else naming.lcs(FoldLcs(acc, enums, g[..|g| - 1], naming), naming.constant(enums[g[|g| - 1]].field))
  }

  /** The holder one group yields, if any. A group is never empty; a single holder is left
      alone. */
  function Candidate(enums: seq<EnumHolder>, g: seq<nat>, naming: Naming): Option<EnumHolder>
    requires forall j :: 0 <= j < |g| ==> g[j] < |enums|
  {
    if |g| <= 1 then None
    else
      var common := FoldLcs(naming.constant(enums[g[0]].field), enums, g, naming);
      if |common| > LcsThreshold then
        var newName := naming.constant(common);
        Some(EnumHolder(naming.pascal(newName), newName, enums[g[0]].options, enums[g[0]].optionHash, None, g))
      else None
  }

  function CandidateOf(enums: seq<EnumHolder>, k: string, naming: Naming): Option<EnumHolder> {
    Candidate(enums, GroupOf(enums, k), naming)
  }

  /** A synthesised holder stands for a whole group of two or more holders with the same
      options, has a field name cased from a common substring longer than the threshold,
      the pascal-cased name as its table, and no link of its own. */
  lemma CandidateShape(enums: seq<EnumHolder>, k: string, naming: Naming)
    requires CandidateOf(enums, k, naming).Some?
    ensures var h := CandidateOf(enums, k, naming).value;
      var g := GroupOf(enums, k);
      && |g| >= 2
      && h.replacementFor == g
      && h.optionHash == k
      && h.options == enums[g[0]].options
      && h.replacedBy == None
      && h.table == naming.pascal(h.field)
      && |FoldLcs(naming.constant(enums[g[0]].field), enums, g, naming)| > LcsThreshold
      && h.field == naming.constant(FoldLcs(naming.constant(enums[g[0]].field), enums, g, naming))
  {
  }

  /** The store step: a holder is stored under its field name unless one is stored there
      already whose group is at least as large. */
  function Offer(kept: Dict<EnumHolder>, c: Option<EnumHolder>): Dict<EnumHolder> {
    match c
    case None => kept
    case Some(h) =>
      match Get(kept, h.field)
      case Some(existing) =>
        if |existing.replacementFor| < |h.replacementFor| then Put(kept, h.field, h) else kept
      case None => Put(kept, h.field, h)
  }

  /** The `newEnums` map after the groups with hashes `ks` have been visited. */
  function Kept(enums: seq<EnumHolder>, ks: seq<string>, naming: Naming): (kept: Dict<EnumHolder>)
    ensures Valid(kept)
  {
    if ks == [] then Empty()
    else Offer(Kept(enums, ks[..|ks| - 1], naming), CandidateOf(enums, ks[|ks| - 1], naming))
  }

  /** The synthesised holders in the order their names were first stored. */
  function Synthesized(enums: seq<EnumHolder>, naming: Naming): seq<EnumHolder> {
    Values(Kept(enums, GroupKeys(enums), naming))
  }

  /** The positions every holder in `arr` stands for lie in `[0, n)`. */
  predicate TargetsBelow(arr: seq<EnumHolder>, n: nat) {
    forall j, t :: 0 <= j < |arr| && 0 <= t < |arr[j].replacementFor| ==> arr[j].replacementFor[t] < n
  }

  /** `targets.forEach(s => s.replacedBy = link)` on the registry list. A target outside
      the list, which the merger never produces, is skipped. */
  function SetLinks(reg: seq<EnumHolder>, targets: seq<nat>, link: nat): (r: seq<EnumHolder>)
    ensures |r| == |reg|
  {
    if targets == [] then reg
    else
      var r := SetLinks(reg, targets[..|targets| - 1], link);
      var t := targets[|targets| - 1];
      if t < |r| then r[t := r[t].(replacedBy := Some(link))] else r
  }

  /** The back-linking pass: every member of the holder at `arr[j]` gets `base + j`. */
  function Backlinks(enums: seq<EnumHolder>, arr: seq<EnumHolder>, base: nat): (r: seq<EnumHolder>)
    ensures |r| == |enums|
  {
    if arr == [] then enums
    else
      var m := |arr| - 1;
      SetLinks(Backlinks(enums, arr[..m], base), arr[m].replacementFor, base + m)
  }

  /** What `mergeEnums` returns: the input holders, back-linked, then the synthesised ones. */
  function Merged(enums: seq<EnumHolder>, naming: Naming): (r: seq<EnumHolder>)
    ensures |r| == |enums| + |Synthesized(enums, naming)|
    ensures r[|enums|..] == Synthesized(enums, naming)
  {
    var arr := Synthesized(enums, naming);
    SynthesizedTargets(enums, naming);
    Backlinks(enums, arr, |enums|) + arr
  }

  // ---------------------------------------------------------------- facts about Kept

  /** Each stored holder sits under its own field name and is the holder of one visited group. */
  lemma {:induction false} KeptFrom(enums: seq<EnumHolder>, ks: seq<string>, naming: Naming)
    ensures forall n :: n in Kept(enums, ks, naming).vals ==>
      KeptFromGroup(enums, ks, Kept(enums, ks, naming).vals[n], naming) && Kept(enums, ks, naming).vals[n].field == n
  {
    if ks != [] {
      var p, k := ks[..|ks| - 1], ks[|ks| - 1];
      KeptFrom(enums, p, naming);
      var before := Kept(enums, p, naming);
      var c := CandidateOf(enums, k, naming);
      var kept := Kept(enums, ks, naming);
      assert kept == Offer(before, c);
      forall n | n in kept.vals
        ensures KeptFromGroup(enums, ks, kept.vals[n], naming) && kept.vals[n].field == n
      {
        OfferEffect(before, c, n);
        if n in before.vals && kept.vals[n] == before.vals[n] {
          assert KeptFromGroup(enums, p, before.vals[n], naming);
          var j :| 0 <= j < |p| && CandidateOf(enums, p[j], naming) == Some(before.vals[n]);
          assert ks[j] == p[j];
        } else {
          assert c == Some(kept.vals[n]);
          assert ks[|p|] == k;
        }
      }
    }
  }

  /** The store step keeps every stored name and adds at most the offered one; every value
      it holds was stored before or is the offered holder, which sits under its own name. */
  lemma OfferEffect(kept: Dict<EnumHolder>, c: Option<EnumHolder>, n: string)
    ensures n in Offer(kept, c).vals <==> n in kept.vals || (c.Some? && c.value.field == n)
    ensures n in Offer(kept, c).vals ==>
      (n in kept.vals && Offer(kept, c).vals[n] == kept.vals[n]) ||
      (c == Some(Offer(kept, c).vals[n]) && c.value.field == n)
  {
  }

  /** `h` is the holder of one of the groups `ks`. */
  predicate KeptFromGroup(enums: seq<EnumHolder>, ks: seq<string>, h: EnumHolder, naming: Naming) {
    exists j :: 0 <= j < |ks| && CandidateOf(enums, ks[j], naming) == Some(h)
  }

  /** The synthesised holders stand for groups of the registry. */
  lemma SynthesizedFrom(enums: seq<EnumHolder>, naming: Naming)
    ensures var arr := Synthesized(enums, naming);
      forall j :: 0 <= j < |arr| ==> KeptFromGroup(enums, GroupKeys(enums), arr[j], naming)
  {
    var ks := GroupKeys(enums);
    var kept := Kept(enums, ks, naming);
    KeptFrom(enums, ks, naming);
    forall j | 0 <= j < |kept.keys|
      ensures KeptFromGroup(enums, ks, Values(kept)[j], naming)
    {
      var n := kept.keys[j];
      assert n in kept.vals;
      assert Values(kept)[j] == kept.vals[n];
      assert KeptFromGroup(enums, ks, kept.vals[n], naming);
    }
  }

  /** The synthesised holders only name positions of the input. */
  lemma SynthesizedTargets(enums: seq<EnumHolder>, naming: Naming)
    ensures TargetsBelow(Synthesized(enums, naming), |enums|)
  {
    var arr := Synthesized(enums, naming);
    var ks := GroupKeys(enums);
    SynthesizedFrom(enums, naming);
    forall j, t | 0 <= j < |arr| && 0 <= t < |arr[j].replacementFor|
      ensures arr[j].replacementFor[t] < |enums|
    {
      assert KeptFromGroup(enums, ks, arr[j], naming);
      var i :| 0 <= i < |ks| && CandidateOf(enums, ks[i], naming) == Some(arr[j]);
      CandidateShape(enums, ks[i], naming);
    }
  }

  function Size(enums: seq<EnumHolder>, k: string): nat {
    |GroupOf(enums, k)|
  }

  /** The name the group with hash `k` would be stored under, if it yields a holder. */
  function NameOf(enums: seq<EnumHolder>, k: string, naming: Naming): Option<string> {
    match CandidateOf(enums, k, naming)
    case None => None
    case Some(h) => Some(h.field)
  }

  /** Reference definition of the tie-break: the group at `ks[w]` is the first, among the
      groups yielding name `n`, of maximal size. */
  predicate IsWinner(enums: seq<EnumHolder>, ks: seq<string>, n: string, w: nat, naming: Naming) {
    && w < |ks|
    && NameOf(enums, ks[w], naming) == Some(n)
    && (forall i :: 0 <= i < |ks| && NameOf(enums, ks[i], naming) == Some(n) ==> Size(enums, ks[i]) <= Size(enums, ks[w]))
    && (forall i :: 0 <= i < w && NameOf(enums, ks[i], naming) == Some(n) ==> Size(enums, ks[i]) < Size(enums, ks[w]))
  }

  /** A name is stored exactly when some visited group yields it. */
  lemma {:induction false} KeptNames(enums: seq<EnumHolder>, ks: seq<string>, n: string, naming: Naming)
    ensures n in Kept(enums, ks, naming).vals <==> exists i :: 0 <= i < |ks| && NameOf(enums, ks[i], naming) == Some(n)
  {
    if ks != [] {
      var p, k := ks[..|ks| - 1], ks[|ks| - 1];
      KeptNames(enums, p, n, naming);
      var c := CandidateOf(enums, k, naming);
      assert Kept(enums, ks, naming) == Offer(Kept(enums, p, naming), c);
      OfferEffect(Kept(enums, p, naming), c, n);
      assert (c.Some? && c.value.field == n) <==> NameOf(enums, k, naming) == Some(n);
      assert forall i :: 0 <= i < |p| ==> ks[i] == p[i];
      assert ks[|p|] == k;
    }
  }

  /** The stored holder under a name is the one of the first largest group yielding that
      name: a later group replaces an earlier one only when it is strictly larger. */
  lemma KeptIsWinner(enums: seq<EnumHolder>, ks: seq<string>, n: string, naming: Naming)
    requires n in Kept(enums, ks, naming).vals
    ensures exists w: nat ::
      IsWinner(enums, ks, n, w, naming) && Some(Kept(enums, ks, naming).vals[n]) == CandidateOf(enums, ks[w], naming)
  {
    var w := KeptWinner(enums, ks, n, naming);
  }

  /** `KeptIsWinner` with the winning position as its result. */
  lemma {:induction false} KeptWinner(enums: seq<EnumHolder>, ks: seq<string>, n: string, naming: Naming)
    returns (w: nat)
    requires n in Kept(enums, ks, naming).vals
    ensures WinnerStored(enums, ks, n, w, naming)
  {
    var p := ks[..|ks| - 1];
    if n !in Kept(enums, p, naming).vals {
      w := FirstWinner(enums, ks, n, naming);
    } else {
      var v := KeptWinner(enums, p, n, naming);
      w := NextWinner(enums, ks, n, v, naming);
    }
  }

  /** The group at `ks[w]` wins name `n` and its holder is the one stored under `n`. */
  predicate WinnerStored(enums: seq<EnumHolder>, ks: seq<string>, n: string, w: nat, naming: Naming) {
    && n in Kept(enums, ks, naming).vals
    && IsWinner(enums, ks, n, w, naming)
    && Some(Kept(enums, ks, naming).vals[n]) == CandidateOf(enums, ks[w], naming)
  }

  /** The first group yielding a name wins so far. */
  lemma FirstWinner(enums: seq<EnumHolder>, ks: seq<string>, n: string, naming: Naming) returns (w: nat)
    requires ks != [] && n in Kept(enums, ks, naming).vals && n !in Kept(enums, ks[..|ks| - 1], naming).vals
    ensures WinnerStored(enums, ks, n, w, naming)
  {
    var p, k := ks[..|ks| - 1], ks[|ks| - 1];
    assert ks == p + [k];
    KeptNames(enums, p, n, naming);
    assert Kept(enums, ks, naming).vals[n] == CandidateOf(enums, k, naming).value;
    WinnerNew(enums, p, k, n, naming);
    w := |p|;
  }

  /** The winner among `ks` once the winner `v` among all but the last group is known. */
  lemma NextWinner(enums: seq<EnumHolder>, ks: seq<string>, n: string, v: nat, naming: Naming) returns (w: nat)
    requires ks != [] && WinnerStored(enums, ks[..|ks| - 1], n, v, naming)
    ensures WinnerStored(enums, ks, n, w, naming)
  {
    if NameOf(enums, ks[|ks| - 1], naming) != Some(n) {
      OtherNameWinner(enums, ks, n, v, naming);
      w := v;
    } else {
      w := SameNameWinner(enums, ks, n, v, naming);
    }
  }

  /** A last group yielding another name leaves the winner in place. */
  lemma OtherNameWinner(enums: seq<EnumHolder>, ks: seq<string>, n: string, v: nat, naming: Naming)
    requires ks != [] && WinnerStored(enums, ks[..|ks| - 1], n, v, naming)
    requires NameOf(enums, ks[|ks| - 1], naming) != Some(n)
    ensures WinnerStored(enums, ks, n, v, naming)
  {
    var p, k := ks[..|ks| - 1], ks[|ks| - 1];
    assert ks == p + [k];
    OfferOtherName(Kept(enums, p, naming), CandidateOf(enums, k, naming), n);
    WinnerUnchanged(enums, p, k, n, v, naming);
  }

  /** A holder offered under another name leaves a stored name as it was. */
  lemma OfferOtherName(kept: Dict<EnumHolder>, c: Option<EnumHolder>, n: string)
    requires n in kept.vals && (c.None? || c.value.field != n)
    ensures n in Offer(kept, c).vals && Offer(kept, c).vals[n] == kept.vals[n]
  {
  }

  /** A last group yielding the same name wins exactly when it is strictly larger. */
  lemma SameNameWinner(enums: seq<EnumHolder>, ks: seq<string>, n: string, v: nat, naming: Naming)
    returns (w: nat)
    requires ks != [] && WinnerStored(enums, ks[..|ks| - 1], n, v, naming)
    requires NameOf(enums, ks[|ks| - 1], naming) == Some(n)
    ensures WinnerStored(enums, ks, n, w, naming)
  {
    var p, k := ks[..|ks| - 1], ks[|ks| - 1];
    assert ks == p + [k];
    var before := Kept(enums, p, naming);
    CandidateSize(enums, k, naming);
    CandidateSize(enums, p[v], naming);
    OfferSameName(before, CandidateOf(enums, k, naming), n);
    if Size(enums, p[v]) < Size(enums, k) {
      WinnerReplaced(enums, p, k, n, v, naming);
      w := |p|;
    } else {
      WinnerKept(enums, p, k, n, v, naming);
      w := v;
    }
  }

  /** A holder offered under a stored name replaces the stored one exactly when it stands
      for more positions. */
  lemma OfferSameName(kept: Dict<EnumHolder>, c: Option<EnumHolder>, n: string)
    requires n in kept.vals && c.Some? && c.value.field == n
    ensures Offer(kept, c).vals[n] ==
      if |kept.vals[n].replacementFor| < |c.value.replacementFor| then c.value else kept.vals[n]
  {
  }

  /** A group's holder stands for each member of the group. */
  lemma CandidateSize(enums: seq<EnumHolder>, k: string, naming: Naming)
    requires CandidateOf(enums, k, naming).Some?
    ensures |CandidateOf(enums, k, naming).value.replacementFor| == Size(enums, k)
  {
    CandidateShape(enums, k, naming);
  }

  lemma WinnerNew(enums: seq<EnumHolder>, p: seq<string>, k: string, n: string, naming: Naming)
    requires forall i :: 0 <= i < |p| ==> NameOf(enums, p[i], naming) != Some(n)
    requires NameOf(enums, k, naming) == Some(n)
    ensures IsWinner(enums, p + [k], n, |p|, naming)
  {
    assert forall i :: 0 <= i < |p| ==> (p + [k])[i] == p[i];
  }

  lemma WinnerUnchanged(enums: seq<EnumHolder>, p: seq<string>, k: string, n: string, w: nat, naming: Naming)
    requires IsWinner(enums, p, n, w, naming) && NameOf(enums, k, naming) != Some(n)
    ensures IsWinner(enums, p + [k], n, w, naming)
  {
    assert forall i :: 0 <= i < |p| ==> (p + [k])[i] == p[i];
  }

  lemma WinnerReplaced(enums: seq<EnumHolder>, p: seq<string>, k: string, n: string, w: nat, naming: Naming)
    requires IsWinner(enums, p, n, w, naming) && NameOf(enums, k, naming) == Some(n)
    requires Size(enums, p[w]) < Size(enums, k)
    ensures IsWinner(enums, p + [k], n, |p|, naming)
  {
    assert forall i :: 0 <= i < |p| ==> (p + [k])[i] == p[i];
  }

  lemma WinnerKept(enums: seq<EnumHolder>, p: seq<string>, k: string, n: string, w: nat, naming: Naming)
    requires IsWinner(enums, p, n, w, naming) && NameOf(enums, k, naming) == Some(n)
    requires Size(enums, k) <= Size(enums, p[w])
    ensures IsWinner(enums, p + [k], n, w, naming)
  {
    assert forall i :: 0 <= i < |p| ==> (p + [k])[i] == p[i];
  }

  /** The number of groups among `ks` with at least two holders. */
  function SharedGroups(enums: seq<EnumHolder>, ks: seq<string>): nat {
    if ks == [] then 0
    else SharedGroups(enums, ks[..|ks| - 1]) + (if Size(enums, ks[|ks| - 1]) >= 2 then 1 else 0)
  }

  /** There are never more stored holders than groups of two or more. */
  lemma {:induction false} KeptCount(enums: seq<EnumHolder>, ks: seq<string>, naming: Naming)
    ensures |Kept(enums, ks, naming).keys| <= SharedGroups(enums, ks)
  {
    if ks != [] {
      var k := ks[|ks| - 1];
      KeptCount(enums, ks[..|ks| - 1], naming);
      if CandidateOf(enums, k, naming).Some? {
        CandidateShape(enums, k, naming);
      }
    }
  }

  // ---------------------------------------------------------------- facts about Backlinks

  lemma {:induction false} SetLinksEffect(reg: seq<EnumHolder>, targets: seq<nat>, link: nat)
    requires forall t :: 0 <= t < |targets| ==> targets[t] < |reg|
    ensures forall i :: 0 <= i < |reg| ==>
      SetLinks(reg, targets, link)[i] == if i in targets then reg[i].(replacedBy := Some(link)) else reg[i]
  {
    if targets != [] {
      SetLinksEffect(reg, targets[..|targets| - 1], link);
      assert targets == targets[..|targets| - 1] + [targets[|targets| - 1]];
    }
  }

  /** No position is in both lists. */
  predicate NoCommon(a: seq<nat>, b: seq<nat>) {
    forall i :: i in a ==> i !in b
  }

  /** No position is claimed by two holders of `arr`. */
  predicate Disjoint(arr: seq<EnumHolder>) {
    forall j1, j2 :: 0 <= j1 < j2 < |arr| ==> NoCommon(arr[j1].replacementFor, arr[j2].replacementFor)
  }

  /** Each member of a holder of `arr` is linked to that holder; every other holder is
      left as it was. */
  lemma BacklinksEffect(enums: seq<EnumHolder>, arr: seq<EnumHolder>, base: nat)
    requires TargetsBelow(arr, |enums|) && Disjoint(arr)
    ensures forall i, j :: 0 <= i < |enums| && 0 <= j < |arr| && i in arr[j].replacementFor ==>
      Backlinks(enums, arr, base)[i] == enums[i].(replacedBy := Some(base + j))
    ensures forall i :: 0 <= i < |enums| && (forall j :: 0 <= j < |arr| ==> i !in arr[j].replacementFor) ==>
      Backlinks(enums, arr, base)[i] == enums[i]
  {
    BacklinksLinked(enums, arr, base);
    BacklinksUntouched(enums, arr, base);
  }

  /** Each member of a holder of `arr` is linked to that holder. */
  lemma {:induction false} BacklinksLinked(enums: seq<EnumHolder>, arr: seq<EnumHolder>, base: nat)
    requires TargetsBelow(arr, |enums|) && Disjoint(arr)
    ensures forall i, j :: 0 <= i < |enums| && 0 <= j < |arr| && i in arr[j].replacementFor ==>
      Backlinks(enums, arr, base)[i] == enums[i].(replacedBy := Some(base + j))
  {
    if arr != [] {
      var m := |arr| - 1;
      var p := arr[..m];
      assert TargetsBelow(p, |enums|);
      assert Disjoint(p);
      BacklinksLinked(enums, p, base);
      BacklinksUntouched(enums, p, base);
      SetLinksEffect(Backlinks(enums, p, base), arr[m].replacementFor, base + m);
      forall i, j | 0 <= i < |enums| && 0 <= j < |arr| && i in arr[j].replacementFor
        ensures Backlinks(enums, arr, base)[i] == enums[i].(replacedBy := Some(base + j))
      {
        if j < m {
          assert p[j] == arr[j];
          assert i !in arr[m].replacementFor;
        } else {
          forall j' | 0 <= j' < |p| ensures i !in p[j'].replacementFor {
            assert p[j'] == arr[j'];
          }
        }
      }
    }
  }

  /** A holder that is a member of no holder of `arr` is left as it was. */
  lemma {:induction false} BacklinksUntouched(enums: seq<EnumHolder>, arr: seq<EnumHolder>, base: nat)
    requires TargetsBelow(arr, |enums|)
    ensures forall i :: 0 <= i < |enums| && (forall j :: 0 <= j < |arr| ==> i !in arr[j].replacementFor) ==>
      Backlinks(enums, arr, base)[i] == enums[i]
  {
    if arr != [] {
      var m := |arr| - 1;
      var p := arr[..m];
      assert TargetsBelow(p, |enums|);
      BacklinksUntouched(enums, p, base);
      SetLinksEffect(Backlinks(enums, p, base), arr[m].replacementFor, base + m);
      forall i | 0 <= i < |enums| && (forall j :: 0 <= j < |arr| ==> i !in arr[j].replacementFor)
        ensures Backlinks(enums, arr, base)[i] == enums[i]
      {
        forall j' | 0 <= j' < |p| ensures i !in p[j'].replacementFor {
          assert p[j'] == arr[j'];
        }
      }
    }
  }

  // ---------------------------------------------------------------- facts about Merged

  /** Every `replacedBy` in the registry points at a holder that is not itself replaced. */
  predicate WellLinked(reg: seq<EnumHolder>) {
    forall i :: 0 <= i < |reg| && reg[i].replacedBy.Some? ==>
      reg[i].replacedBy.value < |reg| && reg[reg[i].replacedBy.value].replacedBy.None?
  }

  /** The synthesised holders have distinct field names. */
  lemma SynthesizedNames(enums: seq<EnumHolder>, naming: Naming)
    ensures var arr := Synthesized(enums, naming);
      forall j1, j2 :: 0 <= j1 < j2 < |arr| ==> arr[j1].field != arr[j2].field
  {
    var kept := Kept(enums, GroupKeys(enums), naming);
    KeptFrom(enums, GroupKeys(enums), naming);
    forall j | 0 <= j < |kept.keys| ensures Values(kept)[j].field == kept.keys[j] {
      assert kept.keys[j] in kept.vals;
    }
  }

  /** No input position is claimed by two synthesised holders: they stand for different groups. */
  lemma SynthesizedDisjoint(enums: seq<EnumHolder>, naming: Naming)
    ensures Disjoint(Synthesized(enums, naming))
  {
    var arr := Synthesized(enums, naming);
    var ks := GroupKeys(enums);
    SynthesizedFrom(enums, naming);
    SynthesizedNames(enums, naming);
    forall j1, j2, i | 0 <= j1 < j2 < |arr| && i in arr[j1].replacementFor
      ensures i !in arr[j2].replacementFor
    {
      assert KeptFromGroup(enums, ks, arr[j1], naming);
      assert KeptFromGroup(enums, ks, arr[j2], naming);
      var a :| 0 <= a < |ks| && CandidateOf(enums, ks[a], naming) == Some(arr[j1]);
      var b :| 0 <= b < |ks| && CandidateOf(enums, ks[b], naming) == Some(arr[j2]);
      CandidateShape(enums, ks[a], naming);
      CandidateShape(enums, ks[b], naming);
      assert a != b;
      assert ks[a] != ks[b];
      var t :| 0 <= t < |arr[j1].replacementFor| && arr[j1].replacementFor[t] == i;
      assert enums[i].optionHash == ks[a];
    }
  }

  /** `Merged` is the back-linked input followed by the synthesised holders. */
  lemma MergedSplit(enums: seq<EnumHolder>, naming: Naming)
    ensures TargetsBelow(Synthesized(enums, naming), |enums|)
    ensures Merged(enums, naming) ==
      Backlinks(enums, Synthesized(enums, naming), |enums|) + Synthesized(enums, naming)
  {
    SynthesizedTargets(enums, naming);
  }

  /** The result is the input list, in order and changed only in `replacedBy`, followed by
      the synthesised holders, of which there are no more than groups of two or more. */
  lemma MergedShape(enums: seq<EnumHolder>, naming: Naming)
    ensures var r := Merged(enums, naming);
      && |r| == |enums| + |Synthesized(enums, naming)|
      && r[|enums|..] == Synthesized(enums, naming)
      && (forall i :: 0 <= i < |enums| ==> r[i].(replacedBy := enums[i].replacedBy) == enums[i])
      && |r| - |enums| <= SharedGroups(enums, GroupKeys(enums))
  {
    var arr := Synthesized(enums, naming);
    MergedSplit(enums, naming);
    var bl := Backlinks(enums, arr, |enums|);
    var r := Merged(enums, naming);
    assert r == bl + arr;
    BacklinksOnlyLinks(enums, arr, |enums|);
    KeptCount(enums, GroupKeys(enums), naming);
    assert r[|enums|..] == arr;
    forall i | 0 <= i < |enums| ensures r[i].(replacedBy := enums[i].replacedBy) == enums[i] {
      assert r[i] == bl[i];
    }
  }

  /** The back-linking pass changes nothing but `replacedBy`. */
  lemma {:induction false} BacklinksOnlyLinks(enums: seq<EnumHolder>, arr: seq<EnumHolder>, base: nat)
    requires TargetsBelow(arr, |enums|)
    ensures forall i :: 0 <= i < |enums| ==>
      Backlinks(enums, arr, base)[i].(replacedBy := enums[i].replacedBy) == enums[i]
  {
    if arr != [] {
      var m := |arr| - 1;
      assert TargetsBelow(arr[..m], |enums|);
      BacklinksOnlyLinks(enums, arr[..m], base);
      SetLinksEffect(Backlinks(enums, arr[..m], base), arr[m].replacementFor, base + m);
    }
  }

  /** Each member of a synthesised holder points at it; an input holder no synthesised
      holder stands for is left exactly as it was. */
  lemma MergedLinks(enums: seq<EnumHolder>, naming: Naming)
    ensures var r := Merged(enums, naming);
      && (forall i, j :: 0 <= i < |enums| <= j < |r| && i in r[j].replacementFor ==> r[i].replacedBy == Some(j))
      && (forall i :: 0 <= i < |enums| && (forall j :: |enums| <= j < |r| ==> i !in r[j].replacementFor) ==>
            r[i] == enums[i])
  {
    MergedClaimed(enums, naming);
    MergedUnclaimed(enums, naming);
  }

  /** Each member of a synthesised holder points at that holder. */
  lemma MergedClaimed(enums: seq<EnumHolder>, naming: Naming)
    ensures var r := Merged(enums, naming);
      forall i, j :: 0 <= i < |enums| <= j < |r| && i in r[j].replacementFor ==> r[i].replacedBy == Some(j)
  {
    SynthesizedTargets(enums, naming);
    SynthesizedDisjoint(enums, naming);
    var arr := Synthesized(enums, naming);
    assert Merged(enums, naming) == Backlinks(enums, arr, |enums|) + arr;
    LinkedClaimed(enums, arr);
  }

  /** An input holder that no synthesised holder stands for is unchanged. */
  lemma MergedUnclaimed(enums: seq<EnumHolder>, naming: Naming)
    ensures var r := Merged(enums, naming);
      forall i :: 0 <= i < |enums| && (forall j :: |enums| <= j < |r| ==> i !in r[j].replacementFor) ==>
        r[i] == enums[i]
  {
    SynthesizedTargets(enums, naming);
    SynthesizedDisjoint(enums, naming);
    var arr := Synthesized(enums, naming);
    assert Merged(enums, naming) == Backlinks(enums, arr, |enums|) + arr;
    LinkedUnclaimed(enums, arr);
  }

  /** `MergedClaimed` for any list of holders with disjoint targets in range. */
  lemma LinkedClaimed(enums: seq<EnumHolder>, arr: seq<EnumHolder>)
    requires TargetsBelow(arr, |enums|) && Disjoint(arr)
    ensures var r := Backlinks(enums, arr, |enums|) + arr;
      forall i, j :: 0 <= i < |enums| <= j < |r| && i in r[j].replacementFor ==> r[i].replacedBy == Some(j)
  {
    var bl := Backlinks(enums, arr, |enums|);
    BacklinksEffect(enums, arr, |enums|);
    ClaimedOfSplit(enums, arr, bl, bl + arr);
  }

  /** `MergedUnclaimed` for any list of holders with disjoint targets in range. */
  lemma LinkedUnclaimed(enums: seq<EnumHolder>, arr: seq<EnumHolder>)
    requires TargetsBelow(arr, |enums|) && Disjoint(arr)
    ensures var r := Backlinks(enums, arr, |enums|) + arr;
      forall i :: 0 <= i < |enums| && (forall j :: |enums| <= j < |r| ==> i !in r[j].replacementFor) ==>
        r[i] == enums[i]
  {
    var bl := Backlinks(enums, arr, |enums|);
    BacklinksEffect(enums, arr, |enums|);
    UnclaimedOfSplit(enums, arr, bl, bl + arr);
  }

  /** The back-linked input followed by the holders that claim it: each claimed holder
      points at its claimant. */
  lemma ClaimedOfSplit(enums: seq<EnumHolder>, arr: seq<EnumHolder>, bl: seq<EnumHolder>, r: seq<EnumHolder>)
    requires |bl| == |enums| && r == bl + arr
    requires forall i, j :: 0 <= i < |enums| && 0 <= j < |arr| && i in arr[j].replacementFor ==>
      bl[i].replacedBy == Some(|enums| + j)
    ensures forall i, j :: 0 <= i < |enums| <= j < |r| && i in r[j].replacementFor ==> r[i].replacedBy == Some(j)
  {
    var m := |enums|;
    forall i, j | 0 <= i < m <= j < |r| && i in r[j].replacementFor
      ensures r[i].replacedBy == Some(j)
    {
      assert r[j] == arr[j - m];
      assert r[i] == bl[i];
    }
  }

  /** ... and an unclaimed holder is left as it was. */
  lemma UnclaimedOfSplit(enums: seq<EnumHolder>, arr: seq<EnumHolder>, bl: seq<EnumHolder>, r: seq<EnumHolder>)
    requires |bl| == |enums| && r == bl + arr
    requires forall i :: 0 <= i < |enums| && (forall j :: 0 <= j < |arr| ==> i !in arr[j].replacementFor) ==>
      bl[i] == enums[i]
    ensures forall i :: 0 <= i < |enums| && (forall j :: |enums| <= j < |r| ==> i !in r[j].replacementFor) ==>
      r[i] == enums[i]
  {
    var m := |enums|;
    forall i | 0 <= i < m && (forall j :: m <= j < |r| ==> i !in r[j].replacementFor)
      ensures r[i] == enums[i]
    {
      forall j | 0 <= j < |arr| ensures i !in arr[j].replacementFor {
        assert r[m + j] == arr[j];
      }
      assert r[i] == bl[i];
    }
  }

  /** Every synthesised holder is the holder of one group of the input, and a name is
      synthesised exactly when some group yields it. */
  lemma MergedSynthesized(enums: seq<EnumHolder>, naming: Naming)
    ensures var r := Merged(enums, naming);
      forall j :: |enums| <= j < |r| ==> KeptFromGroup(enums, GroupKeys(enums), r[j], naming)
  {
    var arr := Synthesized(enums, naming);
    SynthesizedFrom(enums, naming);
    SynthesizedTargets(enums, naming);
    var r := Merged(enums, naming);
    forall j | |enums| <= j < |r| ensures KeptFromGroup(enums, GroupKeys(enums), r[j], naming) {
      assert r[j] == r[|enums|..][j - |enums|] == arr[j - |enums|];
    }
  }

  /** Starting from holders without links, every link of the result points at a
      synthesised holder, which is never itself replaced. */
  lemma MergedWellLinked(enums: seq<EnumHolder>, naming: Naming)
    requires forall i :: 0 <= i < |enums| ==> enums[i].replacedBy == None
    ensures WellLinked(Merged(enums, naming))
    ensures forall i :: 0 <= i < |Merged(enums, naming)| && Merged(enums, naming)[i].replacedBy.Some? ==>
      |enums| <= Merged(enums, naming)[i].replacedBy.value
  {
    var arr := Synthesized(enums, naming);
    var m := |enums|;
    var r := Merged(enums, naming);
    MergedShape(enums, naming);
    MergedLinks(enums, naming);
    MergedSynthesized(enums, naming);
    forall j | m <= j < |r| ensures r[j].replacedBy == None {
      assert KeptFromGroup(enums, GroupKeys(enums), r[j], naming);
      var a :| 0 <= a < |GroupKeys(enums)| && CandidateOf(enums, GroupKeys(enums)[a], naming) == Some(r[j]);
      CandidateShape(enums, GroupKeys(enums)[a], naming);
    }
    forall i | 0 <= i < |r| && r[i].replacedBy.Some?
      ensures m <= r[i].replacedBy.value < |r| && r[r[i].replacedBy.value].replacedBy.None?
    {
      if i < m && exists j :: m <= j < |r| && i in r[j].replacementFor {
        var j :| m <= j < |r| && i in r[j].replacementFor;
        assert r[i].replacedBy == Some(j);
      }
    }
  }

  // ---------------------------------------------------------------- mergeEnums

  /** `mergeEnums`: groups the holders by option hash, stores one synthesised holder per
      name (the first largest group wins), links the members of every stored holder to
      it, and appends the stored holders to the input. */
  method MergeEnums(enums: seq<EnumHolder>, naming: Naming) returns (r: seq<EnumHolder>)
    ensures r == Merged(enums, naming)
    ensures |enums| <= |r| && r[|enums|..] == Synthesized(enums, naming)
    ensures forall i :: 0 <= i < |enums| ==> r[i].(replacedBy := enums[i].replacedBy) == enums[i]
    ensures forall i, j :: 0 <= i < |enums| <= j < |r| && i in r[j].replacementFor ==> r[i].replacedBy == Some(j)
    ensures (forall i :: 0 <= i < |enums| ==> enums[i].replacedBy == None) ==> WellLinked(r)
  {
    var dict := GroupBy(Indices(|enums|), HashKey(enums));
    ghost var ks := GroupKeys(enums);
    var newEnums: Dict<EnumHolder> := Empty();
    var n := 0;
    while n < |dict.keys|
      invariant 0 <= n <= |dict.keys| == |ks|
      invariant newEnums == Kept(enums, ks[..n], naming)
    {
      var key := dict.keys[n];
      var value := dict.vals[key];
      assert key in ks;
      assert value == GroupOf(enums, key);
      GroupNonEmpty(Indices(|enums|), HashKey(enums), key);
      if |value| != 1 {
        var common := FoldLcs(naming.constant(enums[value[0]].field), enums, value, naming);
        if |common| > LcsThreshold {
          var newName := naming.constant(common);
          var existing := Get(newEnums, newName);
          if existing.None? || |existing.value.replacementFor| < |value| {
            var newEnum := EnumHolder(naming.pascal(newName), newName, enums[value[0]].options,
                                      enums[value[0]].optionHash, None, value);
            newEnums := Put(newEnums, newName, newEnum);
          }
        }
      }
      KeptStep(enums, ks, n, naming);
      n := n + 1;
    }
    assert ks[..n] == ks;
    var newArr := Values(newEnums);
    assert newArr == Synthesized(enums, naming);
    SynthesizedTargets(enums, naming);
    var registry := LinkReplacements(enums, newArr);
    r := registry + newArr;
    MergedShape(enums, naming);
    MergedLinks(enums, naming);
    if forall i :: 0 <= i < |enums| ==> enums[i].replacedBy == None {
      MergedWellLinked(enums, naming);
    }
  }

  /** The back-linking pass of `mergeEnums`: each member of `newArr[j]` gets the link
      `|enums| + j`, the position `newArr[j]` will have in the result. */
  method LinkReplacements(enums: seq<EnumHolder>, newArr: seq<EnumHolder>) returns (registry: seq<EnumHolder>)
    requires TargetsBelow(newArr, |enums|)
    ensures registry == Backlinks(enums, newArr, |enums|)
  {
    registry := enums;
    var j := 0;
    while j < |newArr|
      invariant 0 <= j <= |newArr|
      invariant TargetsBelow(newArr[..j], |enums|)
      invariant registry == Backlinks(enums, newArr[..j], |enums|)
    {
      var targets := newArr[j].replacementFor;
      ghost var before := registry;
      BacklinksStep(enums, newArr, j, |enums|);
      var s := 0;
      while s < |targets|
        invariant 0 <= s <= |targets|
        invariant registry == SetLinks(before, targets[..s], |enums| + j)
      {
        SetLinksStep(before, targets, s, |enums| + j);
        registry := registry[targets[s] := registry[targets[s]].(replacedBy := Some(|enums| + j))];
        s := s + 1;
      }
      assert targets[..s] == targets;
      j := j + 1;
    }
    assert newArr[..j] == newArr;
  }

  lemma KeptStep(enums: seq<EnumHolder>, ks: seq<string>, n: nat, naming: Naming)
    requires n < |ks|
    ensures Kept(enums, ks[..n + 1], naming) == Offer(Kept(enums, ks[..n], naming), CandidateOf(enums, ks[n], naming))
  {
    assert ks[..n + 1][..n] == ks[..n];
  }

  lemma BacklinksStep(enums: seq<EnumHolder>, arr: seq<EnumHolder>, j: nat, base: nat)
    requires TargetsBelow(arr, |enums|) && j < |arr|
    ensures TargetsBelow(arr[..j + 1], |enums|)
    ensures forall t :: 0 <= t < |arr[j].replacementFor| ==> arr[j].replacementFor[t] < |enums|
    ensures Backlinks(enums, arr[..j + 1], base) ==
      SetLinks(Backlinks(enums, arr[..j], base), arr[j].replacementFor, base + j)
  {
    assert arr[..j + 1][..j] == arr[..j];
    var pre := arr[..j + 1];
    forall a, t | 0 <= a < |pre| && 0 <= t < |pre[a].replacementFor|
      ensures pre[a].replacementFor[t] < |enums|
    {
      assert pre[a] == arr[a];
    }
  }

  lemma SetLinksStep(reg: seq<EnumHolder>, targets: seq<nat>, s: nat, link: nat)
    requires forall t :: 0 <= t < |targets| ==> targets[t] < |reg|
    requires s < |targets|
    ensures var r := SetLinks(reg, targets[..s], link);
      SetLinks(reg, targets[..s + 1], link) == r[targets[s] := r[targets[s]].(replacedBy := Some(link))]
  {
    assert targets[..s + 1][..s] == targets[..s];
  }
}
