/** The enum matcher: finds the registry holder a column's enum belongs to, by exact
    table and field, then by option set, then by name similarity. */
module EnumMatcher {
  import opened Wrappers
  import opened Strings
  import opened Lists
  import opened Misc
  import opened SchemaModel
  import opened EnumBuilder
  import opened EnumMerger

  // ---------------------------------------------------------------- edit distance

  function Min(x: nat, y: nat): nat {
    if x <= y then x else y
  }

  /** The Levenshtein distance, on prefixes: equal last characters cost nothing, otherwise
      one deletion, insertion or substitution is paid for. */
  function Lev(a: string, b: string): nat
    decreases |a| + |b|
  {
    if |a| == 0 then |b|
    else if |b| == 0 then |a|
    else
      var a', b' := a[..|a| - 1], b[..|b| - 1];
      if a[|a| - 1] == b[|b| - 1] then Lev(a', b')
      else Min(Min(Lev(a', b'), Lev(a, b')), Lev(a', b)) + 1
  }

  /** One cell of the table, stated on the prefixes `a[..i]` and `b[..j]`. */
  lemma LevStep(a: string, b: string, i: nat, j: nat)
    requires 0 < i <= |a| && 0 < j <= |b|
    ensures Lev(a[..i], b[..j]) ==
      if a[i - 1] == b[j - 1] then Lev(a[..i - 1], b[..j - 1])
      else Min(Min(Lev(a[..i - 1], b[..j - 1]), Lev(a[..i], b[..j - 1])), Lev(a[..i - 1], b[..j])) + 1
  {
    assert a[..i][..i - 1] == a[..i - 1];
    assert b[..j][..j - 1] == b[..j - 1];
  }

  /** The distance of a string to itself is 0, and only equal strings are at distance 0. */
  lemma {:induction false} LevZeroIffEqual(a: string, b: string)
    ensures Lev(a, b) == 0 <==> a == b
    decreases |a| + |b|
  {
    if |a| > 0 && |b| > 0 {
      var a', b' := a[..|a| - 1], b[..|b| - 1];
      LevZeroIffEqual(a', b');
      if a == b {
        assert a' == b';
      }
    }
  }

  /** Against the empty string the distance is the other string's length. */
  lemma LevEmpty(a: string)
    ensures Lev(a, "") == |a| && Lev("", a) == |a|
  {
  }

  /** The distance never exceeds the longer length. */
  lemma {:induction false} LevAtMostLonger(a: string, b: string)
    ensures Lev(a, b) <= if |a| < |b| then |b| else |a|
    decreases |a| + |b|
  {
    if |a| > 0 && |b| > 0 {
      LevAtMostLonger(a[..|a| - 1], b[..|b| - 1]);
    }
  }

  /** The distance is symmetric. */
  lemma {:induction false} LevSymmetric(a: string, b: string)
    ensures Lev(a, b) == Lev(b, a)
    decreases |a| + |b|
  {
    if |a| > 0 && |b| > 0 {
      var a', b' := a[..|a| - 1], b[..|b| - 1];
      LevSymmetric(a', b');
      LevSymmetric(a, b');
      LevSymmetric(a', b);
    }
  }

  /** `editDistance`: the single-row dynamic program over the lower-cased strings. */
  method EditDistance(s1: string, s2: string) returns (d: nat)
    ensures d == Lev(Lower(s1), Lower(s2))
  {
    var a := Lower(s1);
    var b := Lower(s2);
    var costs := new nat[|b| + 1];
    var i := 0;
    while i <= |a|
      invariant 0 <= i <= |a| + 1
      invariant i > 0 ==> RowHolds(costs, a[..i - 1], b)
    {
      NextRow(costs, a, b, i);
      i := i + 1;
    }
    assert a[..|a|] == a && b[..|b|] == b;
    d := costs[|b|];
  }

  /** The cost row holds the distances of `a'` to every prefix of `b`. */
  ghost predicate RowHolds(costs: array<nat>, a': string, b: string)
    reads costs
  {
    costs.Length == |b| + 1 && forall k :: 0 <= k <= |b| ==> costs[k] == Lev(a', b[..k])
  }

  /** One pass of `editDistance`'s outer loop. The source tests `i == 0` inside the inner
      loop; the test does not change during the pass, so it is taken once here. */
  method NextRow(costs: array<nat>, a: string, b: string, i: nat)
    requires costs.Length == |b| + 1 && i <= |a|
    requires i > 0 ==> RowHolds(costs, a[..i - 1], b)
    modifies costs
    ensures RowHolds(costs, a[..i], b)
  {
    if i == 0 {
      FirstRow(costs, b);
      assert forall k :: 0 <= k <= |b| ==> Lev(a[..0], b[..k]) == k;
    } else {
      LaterRow(costs, a, b, i);
    }
  }

  /** The pass with `i == 0`: the distance of the empty prefix to `b[..j]` is `j`. */
  method FirstRow(costs: array<nat>, b: string)
    requires costs.Length == |b| + 1
    modifies costs
    ensures forall k :: 0 <= k <= |b| ==> costs[k] == k
  {
    var j := 0;
    while j <= |b|
      invariant 0 <= j <= |b| + 1
      invariant forall k :: 0 <= k < j ==> costs[k] == k
    {
      costs[j] := j;
      j := j + 1;
    }
  }

  /** A pass with `i > 0`: `lastValue` carries the new cell left of `j` while `costs[j - 1]`
      still holds the old diagonal. */
  method LaterRow(costs: array<nat>, a: string, b: string, i: nat)
    requires costs.Length == |b| + 1 && 0 < i <= |a|
    requires RowHolds(costs, a[..i - 1], b)
    modifies costs
    ensures RowHolds(costs, a[..i], b)
  {
    var lastValue: nat := i;
    var j := 0;
    assert PartialRow(costs[..], a, b, i, 1, lastValue);
    while j <= |b|
      invariant 0 <= j <= |b| + 1
      invariant costs.Length == |b| + 1
      invariant PartialRow(costs[..], a, b, i, if j == 0 then 1 else j, lastValue)
    {
      if j > 0 {
        ghost var c := costs[..];
        var newValue := costs[j - 1];
        if a[i - 1] != b[j - 1] {
          newValue := Min(Min(newValue, lastValue), costs[j]) + 1;
        }
        LaterCell(c, a, b, i, j, lastValue);
        costs[j - 1] := lastValue;
        assert costs[..] == c[j - 1 := lastValue];
        lastValue := newValue;
      }
      j := j + 1;
    }
    ghost var c := costs[..];
    costs[|b|] := lastValue;
    assert costs[..] == c[|b| := lastValue];
    LastCell(c, a, b, i, lastValue);
  }

  /** The row while a pass is at column `j`: the cells left of `j - 1` are new, the
      others old, and `last` is the new cell at `j - 1`. */
  ghost predicate PartialRow(c: seq<nat>, a: string, b: string, i: nat, j: nat, last: nat)
    requires 0 < i <= |a|
  {
    && |c| == |b| + 1 && 1 <= j <= |b| + 1
    && (forall k :: 0 <= k < j - 1 ==> c[k] == Lev(a[..i], b[..k]))
    && (forall k :: j - 1 <= k <= |b| ==> c[k] == Lev(a[..i - 1], b[..k]))
    && last == Lev(a[..i], b[..j - 1])
  }

  /** The new cell at `j`, from its old diagonal `c[j - 1]`, the new cell to its left and
      the old cell above. */
  function CellValue(c: seq<nat>, a: string, b: string, i: nat, j: nat, last: nat): nat
    requires 0 < i <= |a| && 0 < j <= |b| && |c| == |b| + 1
  {
    if a[i - 1] == b[j - 1] then c[j - 1] else Min(Min(c[j - 1], last), c[j]) + 1
  }

  lemma LaterCell(c: seq<nat>, a: string, b: string, i: nat, j: nat, last: nat)
    requires 0 < i <= |a| && 0 < j <= |b| && PartialRow(c, a, b, i, j, last)
    ensures PartialRow(c[j - 1 := last], a, b, i, j + 1, CellValue(c, a, b, i, j, last))
  {
    LevStep(a, b, i, j);
  }

  lemma LastCell(c: seq<nat>, a: string, b: string, i: nat, last: nat)
    requires 0 < i <= |a| && PartialRow(c, a, b, i, |b| + 1, last)
    ensures forall k :: 0 <= k <= |b| ==> c[|b| := last][k] == Lev(a[..i], b[..k])
  {
  }

  // ---------------------------------------------------------------- similarity

  /** `similarity`: 1 for two empty strings, otherwise the share of the longer length not
      spent on edits. */
  function Similarity(s1: string, s2: string): (r: real)
    ensures 0.0 <= r <= 1.0
  {
    var longer := if |s1| < |s2| then s2 else s1;
    var shorter := if |s1| < |s2| then s1 else s2;
    if |longer| == 0 then 1.0
    else
      LevAtMostLonger(Lower(longer), Lower(shorter));
      var d := Lev(Lower(longer), Lower(shorter));
      ShareBounds((|longer| - d) as real, |longer| as real);
      (|longer| - d) as real / |longer| as real
  }

  lemma ShareBounds(x: real, l: real)
    requires 0.0 <= x <= l && l > 0.0
    ensures 0.0 <= x / l <= 1.0
    ensures x / l == 1.0 <==> x == l
  {
    assert x / l * l == x;
  }

  /** The similarity is 1 exactly when the strings agree up to case. */
  lemma SimilarityOneIffSameLowerCase(s1: string, s2: string)
    ensures Similarity(s1, s2) == 1.0 <==> Lower(s1) == Lower(s2)
  {
    var longer := if |s1| < |s2| then s2 else s1;
    var shorter := if |s1| < |s2| then s1 else s2;
    LevZeroIffEqual(Lower(longer), Lower(shorter));
    if |longer| > 0 {
      var d := Lev(Lower(longer), Lower(shorter));
      LevAtMostLonger(Lower(longer), Lower(shorter));
      ShareBounds((|longer| - d) as real, |longer| as real);
    } else {
      assert Lower(s1) == [] == Lower(s2);
    }
    assert Lower(longer) == Lower(shorter) <==> Lower(s1) == Lower(s2);
  }

  /** The similarity does not depend on the order of the arguments. */
  lemma SimilaritySymmetric(s1: string, s2: string)
    ensures Similarity(s1, s2) == Similarity(s2, s1)
  {
    LevSymmetric(Lower(s1), Lower(s2));
  }

  /** `similarity` as the source computes it, through `editDistance`. */
  method ComputeSimilarity(s1: string, s2: string) returns (r: real)
    ensures r == Similarity(s1, s2)
    ensures 0.0 <= r <= 1.0
  {
    var longer := s1;
    var shorter := s2;
    if |s1| < |s2| {
      longer := s2;
      shorter := s1;
    }
    var longerLength := |longer|;
    if longerLength == 0 {
      r := 1.0;
    } else {
      var d := EditDistance(longer, shorter);
      r := (longerLength - d) as real / longerLength as real;
    }
  }

  // ---------------------------------------------------------------- findCorresponding

  /** The position of the first highest score: the head of a stable sort by descending
      score. */
  function FirstBest(scores: seq<real>): (r: nat)
    requires |scores| > 0
    ensures r < |scores|
    ensures forall k :: 0 <= k < |scores| ==> scores[k] <= scores[r]
    ensures forall k :: 0 <= k < r ==> scores[k] < scores[r]
  {
    if |scores| == 1 then 0
    else
      var n := |scores| - 1;
      var b := FirstBest(scores[..n]);
      assert forall k :: 0 <= k < n ==> scores[..n][k] == scores[k];
      if scores[n] > scores[b] then n else b
  }

  /** The similarity of each holder's field to `field`, as the sort compares them. */
  function Scores(matches: seq<EnumHolder>, field: string): (r: seq<real>)
    ensures |r| == |matches|
    ensures forall k :: 0 <= k < |matches| ==> r[k] == Similarity(matches[k].field, field)
  {
    seq(|matches|, k requires 0 <= k < |matches| => Similarity(matches[k].field, field))
  }

  /** `t => equalAsSets(t.options, options)` */
  function SameOptions(options: seq<string>): EnumHolder -> bool {
    (t: EnumHolder) => EqualAsSets(t.options, options)
  }

  /** The registry holders whose options equal `options` as sets. */
  function OptionMatches(tableEnums: seq<EnumHolder>, options: seq<string>): seq<EnumHolder> {
    Filter(tableEnums, SameOptions(options))
  }

  /** `findCorresponding`: the only holder with the same option set, or among several the
      first most similar by field name, or nothing. */
  function FindCorresponding(field: string, options: seq<string>, tableEnums: seq<EnumHolder>): (r: Option<EnumHolder>)
    ensures r.None? <==> |OptionMatches(tableEnums, options)| == 0
    ensures r.Some? ==> r.value in OptionMatches(tableEnums, options)
  {
    var matches := OptionMatches(tableEnums, options);
    if |matches| == 1 then Some(matches[0])
    else if |matches| == 0 then None
    else Some(matches[FirstBest(Scores(matches, field))])
  }

  /** A found holder is a registry holder whose options equal the query's as sets, and
      nothing is found only when no holder has them. */
  lemma FindCorrespondingMeaning(field: string, options: seq<string>, tableEnums: seq<EnumHolder>)
    ensures var r := FindCorresponding(field, options, tableEnums);
      && (r.None? <==> forall t :: t in tableEnums ==> !EqualAsSets(t.options, options))
      && (r.Some? ==> r.value in tableEnums && EqualAsSets(r.value.options, options))
  {
    var matches := OptionMatches(tableEnums, options);
    FilterMembers(tableEnums, SameOptions(options));
    if |matches| > 0 {
      assert matches[0] in matches;
      var r := FindCorresponding(field, options, tableEnums);
      assert r.value in matches;
    }
  }

  /** Among several holders with the query's option set, the one found has the highest
      similarity to the query's field, and every holder before it a strictly lower one. */
  lemma FindCorrespondingBest(field: string, options: seq<string>, tableEnums: seq<EnumHolder>)
    requires |OptionMatches(tableEnums, options)| > 1
    ensures var matches := OptionMatches(tableEnums, options);
      exists b :: 0 <= b < |matches| && FindCorresponding(field, options, tableEnums) == Some(matches[b]) &&
        (forall k :: 0 <= k < |matches| ==> Similarity(matches[k].field, field) <= Similarity(matches[b].field, field)) &&
        (forall k :: 0 <= k < b ==> Similarity(matches[k].field, field) < Similarity(matches[b].field, field))
  {
    var matches := OptionMatches(tableEnums, options);
    var scores := Scores(matches, field);
    var b := FirstBest(scores);
    assert FindCorresponding(field, options, tableEnums) == Some(matches[b]);
  }

  // ---------------------------------------------------------------- run

  /** `h.replacedBy || h` */
  function Follow(reg: seq<EnumHolder>, h: EnumHolder): EnumHolder
    requires h.replacedBy.Some? ==> h.replacedBy.value < |reg|
  {
    match h.replacedBy
    case Some(j) => reg[j]
    case None => h
  }

  /** The registry holders of table `viewName` with field `field`. */
  function ExactMatches(reg: seq<EnumHolder>, viewName: string, field: string): seq<EnumHolder> {
    Filter(reg, SameTableAndField(viewName, field))
  }

  /** `e => e.table === viewName && column.field === e.field` */
  function SameTableAndField(viewName: string, field: string): EnumHolder -> bool {
    (e: EnumHolder) => e.table == viewName && field == e.field
  }

  /** What `run` returns for a column of `viewName`, given the registry. */
  function Resolve(reg: seq<EnumHolder>, column: Column, viewName: string): (r: Option<EnumHolder>)
    requires WellLinked(reg)
    ensures r.Some? ==> r.value in reg && r.value.replacedBy.None?
  {
    var candidates := ExactMatches(reg, viewName, column.field);
    FilterMembers(reg, SameTableAndField(viewName, column.field));
    if |candidates| == 1 then
      assert candidates[0] in candidates;
      FollowFinal(reg, candidates[0]);
      Some(Follow(reg, candidates[0]))
    else
      var options := if column.enumValues.Some? then column.enumValues.value else [];
      var bestMatch := FindCorresponding(column.field, options, reg);
      FindCorrespondingMeaning(column.field, options, reg);
      match bestMatch
      case None => None
      case Some(h) =>
        FollowFinal(reg, h);
        Some(Follow(reg, h))
  }

  /** The result is always a registry holder that is not itself replaced; an exact match
      of table and field, if it is the only one, decides; otherwise the holder found by
      option set (a missing value list counting as empty) decides, and with none found
      there is no result. */
  lemma ResolveMeaning(reg: seq<EnumHolder>, column: Column, viewName: string)
    requires WellLinked(reg)
    ensures var r := Resolve(reg, column, viewName);
      && (r.Some? ==> r.value in reg && r.value.replacedBy.None?)
      && (|ExactMatches(reg, viewName, column.field)| == 1 ==>
            var h := ExactMatches(reg, viewName, column.field)[0];
            && h in reg && h.table == viewName && h.field == column.field
            && (forall e :: e in reg && e.table == viewName && e.field == column.field ==> e == h)
            && r == Some(Follow(reg, h)))
      && (|ExactMatches(reg, viewName, column.field)| != 1 ==>
            var options := if column.enumValues.Some? then column.enumValues.value else [];
            && (r.None? <==> forall t :: t in reg ==> !EqualAsSets(t.options, options))
            && (r.Some? ==> exists h :: h in reg && EqualAsSets(h.options, options) && r.value == Follow(reg, h)))
  {
    var candidates := ExactMatches(reg, viewName, column.field);
    FilterMembers(reg, SameTableAndField(viewName, column.field));
    var options := if column.enumValues.Some? then column.enumValues.value else [];
    FindCorrespondingMeaning(column.field, options, reg);
    var r := Resolve(reg, column, viewName);
    if |candidates| == 1 {
      var h := candidates[0];
      assert h in candidates;
      forall e | e in reg && e.table == viewName && e.field == column.field ensures e == h {
        assert e in candidates;
        var k :| 0 <= k < |candidates| && candidates[k] == e;
      }
      FollowFinal(reg, h);
    } else if r.Some? {
      var h := FindCorresponding(column.field, options, reg).value;
      FollowFinal(reg, h);
    }
  }

  /** Following one link from a registry holder lands on a registry holder that is not replaced. */
  lemma FollowFinal(reg: seq<EnumHolder>, h: EnumHolder)
    requires WellLinked(reg) && h in reg
    ensures h.replacedBy.Some? ==> h.replacedBy.value < |reg|
    ensures Follow(reg, h) in reg && Follow(reg, h).replacedBy.None?
  {
    var i :| 0 <= i < |reg| && reg[i] == h;
  }

  /** The registry `run` consults: the extracted holders, merged. */
  function Registry(schema: Schema, naming: Naming): seq<EnumHolder>
    requires ValidTables(schema.tables)
  {
    Merged(SchemaEnums(schema), naming)
  }

  lemma RegistryWellLinked(schema: Schema, naming: Naming)
    requires ValidTables(schema.tables)
    ensures WellLinked(Registry(schema, naming))
  {
    var enums := SchemaEnums(schema);
    TablesEnumsMembers(schema.tables, schema.tables.keys);
    forall i | 0 <= i < |enums| ensures enums[i].replacedBy == None {
      assert enums[i] in enums;
    }
    MergedWellLinked(enums, naming);
  }

  /** `EnumMatcher.run`: builds the registry from the schema and resolves the column. */
  method Run(schema: Schema, column: Column, viewName: string, naming: Naming) returns (r: Option<EnumHolder>)
    requires ValidTables(schema.tables)
    ensures WellLinked(Registry(schema, naming))
    ensures r == Resolve(Registry(schema, naming), column, viewName)
    ensures r.Some? ==> r.value in Registry(schema, naming) && r.value.replacedBy.None?
  {
    var enums := CollectEnums(schema);
    enums := MergeEnums(enums, naming);
    RegistryWellLinked(schema, naming);
    ResolveMeaning(enums, column, viewName);
    var candidates := Filter(enums, SameTableAndField(viewName, column.field));
    FilterMembers(enums, SameTableAndField(viewName, column.field));
    if |candidates| == 1 {
      assert candidates[0] in enums;
      r := Some(Follow(enums, candidates[0]));
      return;
    }
    var options := if column.enumValues.Some? then column.enumValues.value else [];
    var bestMatch := FindCorresponding(column.field, options, enums);
    FindCorrespondingMeaning(column.field, options, enums);
    r := match bestMatch case None => None case Some(h) => Some(Follow(enums, h));
  }
}
