/** The schema normaliser: turns the rows fetched from the database's metadata into
    the normalised schema. The rows are parameters; fetching them is not modelled. */
module ModelBuilder {
  import opened Wrappers
  import opened Strings
  import opened Dicts
  import opened Lists
  import opened SchemaModel

  const ListTypeView := "VIEW"
  const ListTypeTable := "BASE TABLE"

  datatype BuildError =
    | IllegalListType                        // `new Error("Illegal listtype")`
    | UnknownProcedure(specificName: string) // a parameter of a procedure that was not listed

  // ---------------------------------------------------------------- keysToLower

  function LoweredPairs<V>(obj: Dict<V>): (r: seq<(string, V)>)
    requires Valid(obj)
    ensures |r| == |obj.keys|
    ensures forall i :: 0 <= i < |obj.keys| ==> r[i] == (Lower(obj.keys[i]), obj.vals[obj.keys[i]])
  {
    seq(|obj.keys|, i requires 0 <= i < |obj.keys| => (Lower(obj.keys[i]), obj.vals[obj.keys[i]]))
  }

  /** The record `keysToLower` produces: each key lower-cased and assigned in the
      original key order. */
  function LowerKeys<V>(obj: Dict<V>): (r: Dict<V>)
    requires Valid(obj)
    ensures Valid(r)
  {
    PutAll(Empty(), LoweredPairs(obj))
  }

  /** The keys of the result are exactly the lower-cased original keys. */
  lemma LowerKeysDomain<V>(obj: Dict<V>)
    requires Valid(obj)
    ensures forall k :: k in LowerKeys(obj).vals <==> exists k' :: k' in obj.vals && Lower(k') == k
  {
    PutAllKeys(LoweredPairs(obj));
    forall k ensures k in LowerKeys(obj).vals <==> exists k' :: k' in obj.vals && Lower(k') == k {
      if k in LowerKeys(obj).vals {
        LoweredFrom(obj, k);
      }
      if exists k' :: k' in obj.vals && Lower(k') == k {
        var k' :| k' in obj.vals && Lower(k') == k;
        LoweredTo(obj, k');
      }
    }
  }

  /** A key of the pairs is some original key lower-cased. */
  lemma LoweredFrom<V>(obj: Dict<V>, k: string)
    requires Valid(obj) && k in Firsts(LoweredPairs(obj))
    ensures exists k' :: k' in obj.vals && Lower(k') == k
  {
    var i :| 0 <= i < |LoweredPairs(obj)| && Firsts(LoweredPairs(obj))[i] == k;
    assert obj.keys[i] in obj.vals;
  }

  /** Each original key lower-cased is a key of the pairs. */
  lemma LoweredTo<V>(obj: Dict<V>, k': string)
    requires Valid(obj) && k' in obj.vals
    ensures Lower(k') in Firsts(LoweredPairs(obj))
  {
    var i :| 0 <= i < |obj.keys| && obj.keys[i] == k';
    assert Firsts(LoweredPairs(obj))[i] == Lower(k');
  }

  /** Every key of the result is lower case. */
  lemma LowerKeysAreLowerCase<V>(obj: Dict<V>)
    requires Valid(obj)
    ensures forall k :: k in LowerKeys(obj).vals ==> IsLowerCase(k)
  {
    LowerKeysDomain(obj);
    forall k | k in LowerKeys(obj).vals ensures IsLowerCase(k) {
      var k' :| k' in obj.vals && Lower(k') == k;
      LowerIsLowerCase(k');
    }
  }

  /** Of several keys that lower-case alike, the last one gives the value. */
  lemma LowerKeysLastWins<V>(obj: Dict<V>, i: nat)
    requires Valid(obj) && i < |obj.keys|
    requires forall j :: i < j < |obj.keys| ==> Lower(obj.keys[j]) != Lower(obj.keys[i])
    ensures Lower(obj.keys[i]) in LowerKeys(obj).vals
    ensures LowerKeys(obj).vals[Lower(obj.keys[i])] == obj.vals[obj.keys[i]]
  {
    PutAllLastWins(Empty(), LoweredPairs(obj), i);
  }

  /** `keysToLower`: a copy of a record with every key lower-cased. */
  method KeysToLower<V>(obj: Dict<V>) returns (r: Dict<V>)
    requires Valid(obj)
    ensures r == LowerKeys(obj)
    ensures forall k :: k in r.vals ==> IsLowerCase(k)
  {
    ghost var kvs := LoweredPairs(obj);
    r := Empty();
    var i := 0;
    while i < |obj.keys|
      invariant 0 <= i <= |obj.keys|
      invariant r == PutAll(Empty(), kvs[..i])
    {
      var key := obj.keys[i];
      var lowered, v := Lower(key), obj.vals[key];
      assert kvs[i] == (lowered, v);
      PutAllSnoc(Empty(), kvs[..i], lowered, v);
      PrefixSnoc(kvs, i);
      r := Put(r, lowered, v);
      i := i + 1;
    }
    assert kvs[..i] == kvs;
    LowerKeysAreLowerCase(obj);
  }

  // ---------------------------------------------------------------- type strings

  /** `strType.replace(/\D/g, "")` */
  function DigitsOf(s: string): (r: string)
    ensures forall c :: c in r ==> IsDigit(c)
  {
    if s == [] then []
    else
      var c := s[|s| - 1];
      DigitsOf(s[..|s| - 1]) + (if IsDigit(c) then [c] else [])
  }

  /** `parseInt` of a string of decimal digits. */
  function DecimalValue(ds: string): nat
    requires forall c :: c in ds ==> IsDigit(c)
  {
    if ds == [] then 0
    else
      assert ds[|ds| - 1] in ds;
      assert IsDigit(ds[|ds| - 1]);
      DecimalValue(ds[..|ds| - 1]) * 10 + (ds[|ds| - 1] as int - '0' as int)
  }

  /** `getMysqlLength`: the number spelled by all decimal digits of the type, 0 if none.
      The length is 0 exactly when the type has no digit other than `0`. */
  function GetMysqlLength(strType: string): (r: nat)
    ensures r == 0 <==> forall c :: c in strType && IsDigit(c) ==> c == '0'
  {
    var strip := DigitsOf(strType);
    DigitsOfMembers(strType);
    if |strip| == 0 then 0
    else
      DecimalValueZero(strip);
      DecimalValue(strip)
  }

  /** The digits kept are exactly the digits of the string. */
  lemma {:induction false} DigitsOfMembers(s: string)
    ensures forall c :: c in DigitsOf(s) <==> c in s && IsDigit(c)
  {
    if s != [] {
      DigitsOfMembers(s[..|s| - 1]);
      assert s == s[..|s| - 1] + [s[|s| - 1]];
    }
  }

  /** A digit string spells 0 exactly when all its digits are `0`. */
  lemma {:induction false} DecimalValueZero(ds: string)
    requires forall c :: c in ds ==> IsDigit(c)
    ensures DecimalValue(ds) == 0 <==> forall c :: c in ds ==> c == '0'
  {
    if ds != [] {
      var p, last := ds[..|ds| - 1], ds[|ds| - 1];
      assert ds == p + [last];
      assert last in ds && IsDigit(last);
      assert forall c :: c in p ==> c in ds;
      DecimalValueZero(p);
      assert DecimalValue(ds) == DecimalValue(p) * 10 + (last as int - '0' as int);
    }
  }

  /** `s.indexOf(c)`, -1 when absent. */
  function IndexOf(s: string, c: char): (r: int)
    ensures -1 <= r < |s|
    ensures r == -1 <==> c !in s
    ensures r >= 0 ==> s[r] == c && c !in s[..r]
  {
    if s == [] then -1
    else if s[0] == c then 0
    else
      var r := IndexOf(s[1..], c);
      assert s == [s[0]] + s[1..];
      if r == -1 then -1 else
        assert s[..r + 1] == [s[0]] + s[1..][..r];
        1 + r
  }

  /** `stripMysqlLength`: the text before the first `(`, or all of it. */
  function StripMysqlLength(t: string): (r: string)
    ensures '(' !in r
    ensures r <= t
    ensures '(' in t ==> |r| < |t| && t[|r|] == '('
    ensures '(' !in t ==> r == t
  {
    var pos := IndexOf(t, '(');
    if pos > -1 then t[..pos] else t
  }

  function DigitChar(d: nat): char
    requires d < 10
  {
    ('0' as int + d) as char
  }

  /** The decimal spelling of a natural number. */
  function ShowNat(n: nat): (r: string)
    ensures |r| > 0
    ensures forall c :: c in r ==> IsDigit(c)
  {
    if n < 10 then [DigitChar(n)] else ShowNat(n / 10) + [DigitChar(n % 10)]
  }

  lemma {:induction false} DecimalValueShowNat(n: nat)
    ensures DecimalValue(ShowNat(n)) == n
  {
    if n >= 10 {
      DecimalValueShowNat(n / 10);
      var s := ShowNat(n);
      assert s[..|s| - 1] == ShowNat(n / 10);
    }
  }

  lemma {:induction false} DigitsOfAppend(a: string, b: string)
    ensures DigitsOf(a + b) == DigitsOf(a) + DigitsOf(b)
  {
    if b == [] {
      assert a + b == a;
    } else {
      var ab, b' := a + b, b[..|b| - 1];
      var c := b[|b| - 1];
      var tail := if IsDigit(c) then [c] else [];
      assert ab[..|ab| - 1] == a + b';
      assert ab[|ab| - 1] == c;
      assert DigitsOf(ab) == DigitsOf(a + b') + tail;
      assert DigitsOf(b) == DigitsOf(b') + tail;
      DigitsOfAppend(a, b');
    }
  }

  lemma {:induction false} DigitsOfAllDigits(s: string)
    requires forall c :: c in s ==> IsDigit(c)
    ensures DigitsOf(s) == s
  {
    if s != [] {
      DigitsOfAllDigits(s[..|s| - 1]);
      assert s[|s| - 1] in s;
    }
  }

  lemma {:induction false} DigitsOfNoDigits(s: string)
    requires forall c :: c in s ==> !IsDigit(c)
    ensures DigitsOf(s) == []
  {
    if s != [] {
      DigitsOfNoDigits(s[..|s| - 1]);
      assert s[|s| - 1] in s;
    }
  }

  /** A type with no decimal digit has length 0. */
  lemma NoDigitsNoLength(strType: string)
    requires forall c :: c in strType ==> !IsDigit(c)
    ensures GetMysqlLength(strType) == 0
  {
    DigitsOfNoDigits(strType);
  }

  /** A declared type `T(N)` whose name has no `(` strips to `T`. */
  lemma DeclaredTypeStrips(t: string, payload: string)
    requires '(' !in t
    ensures StripMysqlLength(t + "(" + payload) == t
  {
    var s := t + "(" + payload;
    assert s[|t|] == '(';
    assert s[..|t|] == t;
  }

  /** A declared type `T(N)` whose name has no digit has length `N`. */
  lemma DeclaredTypeLength(t: string, n: nat)
    requires forall c :: c in t ==> !IsDigit(c)
    ensures GetMysqlLength(t + "(" + ShowNat(n) + ")") == n
  {
    var digits := ShowNat(n);
    DigitsOfAppend(t + "(" + digits, ")");
    DigitsOfAppend(t + "(", digits);
    DigitsOfAppend(t, "(");
    DigitsOfNoDigits(t);
    DigitsOfNoDigits("(");
    DigitsOfNoDigits(")");
    DigitsOfAllDigits(digits);
    assert DigitsOf(t + "(" + digits + ")") == digits;
    DecimalValueShowNat(n);
  }

  lemma ShowNat255()
    ensures ShowNat(255) == "255"
  {
    assert ShowNat(2) == "2";
    assert ShowNat(25) == ShowNat(2) + "5";
  }

  /** `varchar(255)` has length 255. */
  lemma VarcharLength()
    ensures GetMysqlLength("varchar(255)") == 255
  {
    ShowNat255();
    assert "varchar(255)" == "varchar" + "(" + ShowNat(255) + ")";
    DeclaredTypeLength("varchar", 255);
  }

  /** `varchar(255)` has bare type `varchar`. */
  lemma VarcharStrips()
    ensures StripMysqlLength("varchar(255)") == "varchar"
  {
    assert "varchar(255)" == "varchar" + "(" + "255)";
    DeclaredTypeStrips("varchar", "255)");
  }

  // ---------------------------------------------------------------- listFromDatabase

  /** `listFromDatabase`: the query that lists the base tables or the views of a database. */
  function ListFromDatabase(databaseName: string, listType: string): (r: Result<string, BuildError>)
    ensures r.Failure? <==> listType != ListTypeTable && listType != ListTypeView
    ensures r.Failure? ==> r.error == IllegalListType
    ensures r.Success? ==> (|r.value| > |listType| + 2 &&
      r.value[|r.value| - |listType| - 3..] == "'" + listType + "' ")
  {
    if listType != "BASE TABLE" && listType != "VIEW" then Failure(IllegalListType)
    else
      var select := "`information_schema`.`TABLES`.`TABLE_NAME` AS `tname`";
      var from := "`information_schema`.`TABLES`";
      var dbClause := "`information_schema`.`TABLES`.`TABLE_SCHEMA` = '" + databaseName + "'";
      var baseTable := "`information_schema`.`TABLES`.`TABLE_TYPE` = '" + listType + "'";
      Success("SELECT " + select + " FROM " + from + " WHERE " + dbClause + " AND " + baseTable + " ")
  }

  // ---------------------------------------------------------------- columnArrayToDatabaseSchema

  /** A raw column record that, once its keys are lower-cased, has a `field` and a `type`. */
  predicate WellFormedRaw(raw: Dict<string>) {
    Valid(raw) && "field" in LowerKeys(raw).vals && "type" in LowerKeys(raw).vals
  }

  predicate AllWellFormed(raws: seq<Dict<string>>) {
    forall i :: 0 <= i < |raws| ==> WellFormedRaw(raws[i])
  }

  /** One column normalised from its lower-cased record and its position. */
  function NormalizeColumn(rec: Dict<string>, i: nat): (c: Column)
    requires "field" in rec.vals && "type" in rec.vals
    ensures c.field == rec.vals["field"] && c.index == i
    ensures c.isPrimary <==> c.key == Some("PRI")
    ensures c.sqlType <= rec.vals["type"] && '(' !in c.sqlType
    ensures c.length == 0 <==> forall ch :: ch in rec.vals["type"] && IsDigit(ch) ==> ch == '0'
    ensures c.enumValues == None
  {
    var rawType := rec.vals["type"];
    Column(
      field := rec.vals["field"],
      sqlType := StripMysqlLength(rawType),
      length := GetMysqlLength(rawType),
      nullable := Get(rec, "null"),
      key := Get(rec, "key"),
      defaultValue := Get(rec, "default"),
      extra := Get(rec, "extra"),
      isPrimary := Get(rec, "key") == Some("PRI"),
      index := i,
      enumValues := None)
  }

  function NormalizedColumns(raws: seq<Dict<string>>): (cols: seq<Column>)
    requires AllWellFormed(raws)
    ensures |cols| == |raws|
    ensures forall i :: 0 <= i < |raws| ==> cols[i] == NormalizeColumn(LowerKeys(raws[i]), i)
  {
    seq(|raws|, i requires 0 <= i < |raws| => NormalizeColumn(LowerKeys(raws[i]), i))
  }

  function FieldPairs(cols: seq<Column>): (r: seq<(string, Column)>)
    ensures |r| == |cols|
    ensures forall i :: 0 <= i < |cols| ==> r[i] == (cols[i].field, cols[i])
  {
    seq(|cols|, i requires 0 <= i < |cols| => (cols[i].field, cols[i]))
  }

  /** The table built from a column list: each column stored under its field name. */
  function TableOf(cols: seq<Column>): (t: Table)
    ensures Valid(t)
  {
    PutAll(Empty(), FieldPairs(cols))
  }

  /** The column stored under a field is the last raw column with that field, with its
      position as `index`, `isPrimary` exactly when its key is `PRI`, the length read
      from the raw type and the type stripped of its suffix. */
  lemma NormalizedTableColumn(raws: seq<Dict<string>>, i: nat)
    requires AllWellFormed(raws) && i < |raws|
    requires forall j :: i < j < |raws| ==>
      LowerKeys(raws[j]).vals["field"] != LowerKeys(raws[i]).vals["field"]
    ensures var t := TableOf(NormalizedColumns(raws));
      var rec := LowerKeys(raws[i]);
      var f := rec.vals["field"];
      && f in t.vals
      && t.vals[f].field == f
      && t.vals[f].index == i
      && (t.vals[f].isPrimary <==> Get(rec, "key") == Some("PRI"))
      && t.vals[f].length == GetMysqlLength(rec.vals["type"])
      && t.vals[f].sqlType == StripMysqlLength(rec.vals["type"])
  {
    PutAllLastWins(Empty(), FieldPairs(NormalizedColumns(raws)), i);
  }

  /** The keys of a normalised table are its distinct field names, first appearance first;
      every column stored is some raw column normalised at its own position. */
  lemma NormalizedTableKeys(raws: seq<Dict<string>>)
    requires AllWellFormed(raws)
    ensures var cols := NormalizedColumns(raws);
      TableOf(cols).keys == Distinct(Firsts(FieldPairs(cols)))
    ensures var t := TableOf(NormalizedColumns(raws));
      forall f :: f in t.vals ==> exists i :: 0 <= i < |raws| && t.vals[f] == NormalizeColumn(LowerKeys(raws[i]), i)
  {
    PutAllKeys(FieldPairs(NormalizedColumns(raws)));
    NormalizedTableValues(raws);
  }

  /** Every column stored is some raw column normalised at its own position. */
  lemma NormalizedTableValues(raws: seq<Dict<string>>)
    requires AllWellFormed(raws)
    ensures var t := TableOf(NormalizedColumns(raws));
      forall f :: f in t.vals ==> exists i :: 0 <= i < |raws| && t.vals[f] == NormalizeColumn(LowerKeys(raws[i]), i)
  {
    var cols := NormalizedColumns(raws);
    var t := TableOf(cols);
    forall f | f in t.vals
      ensures exists i :: 0 <= i < |raws| && t.vals[f] == NormalizeColumn(LowerKeys(raws[i]), i)
    {
      var i := StoredColumn(cols, f);
      assert cols[i] == NormalizeColumn(LowerKeys(raws[i]), i);
    }
  }

  /** A column stored in a table is one of the columns it was built from. */
  lemma StoredColumn(cols: seq<Column>, f: string) returns (i: nat)
    requires f in TableOf(cols).vals
    ensures i < |cols| && TableOf(cols).vals[f] == cols[i]
  {
    var kvs := FieldPairs(cols);
    PutAllValueFrom(Empty(), kvs, f);
    i :| 0 <= i < |kvs| && kvs[i] == (f, TableOf(cols).vals[f]);
  }

  /** The `map` over one table's raw columns: each lower-cased and normalised at its position. */
  method NormalizeColumnList(raws: seq<Dict<string>>) returns (cols: seq<Column>)
    requires AllWellFormed(raws)
    ensures cols == NormalizedColumns(raws)
  {
    ghost var expected := NormalizedColumns(raws);
    cols := [];
    var i := 0;
    while i < |raws|
      invariant 0 <= i <= |raws|
      invariant cols == expected[..i]
    {
      var rec := KeysToLower(raws[i]);
      var col := NormalizeColumn(rec, i);
      PrefixSnoc(expected, i);
      cols := cols + [col];
      i := i + 1;
    }
    assert expected[..i] == expected;
  }

  /** The `forEach` storing each column under its field name. */
  method TableFromColumns(cols: seq<Column>) returns (newTable: Table)
    ensures newTable == TableOf(cols)
  {
    ghost var kvs := FieldPairs(cols);
    newTable := Empty();
    var j := 0;
    while j < |cols|
      invariant 0 <= j <= |cols|
      invariant newTable == PutAll(Empty(), kvs[..j])
    {
      PutAllSnoc(Empty(), kvs[..j], cols[j].field, cols[j]);
      PrefixSnoc(kvs, j);
      newTable := Put(newTable, cols[j].field, cols[j]);
      j := j + 1;
    }
    assert kvs[..j] == kvs;
  }

  /** `columnArrayToDatabaseSchema`: normalises the fetched column lists, table by table. */
  method ColumnArrayToDatabaseSchema(colArrMap: Dict<seq<Dict<string>>>) returns (schema: Dict<Table>)
    requires Valid(colArrMap)
    requires forall t :: t in colArrMap.vals ==> AllWellFormed(colArrMap.vals[t])
    ensures Valid(schema)
    ensures schema.keys == colArrMap.keys
    ensures forall t :: t in schema.vals ==> schema.vals[t] == TableOf(NormalizedColumns(colArrMap.vals[t]))
  {
    schema := Empty();
    var n := 0;
    while n < |colArrMap.keys|
      invariant 0 <= n <= |colArrMap.keys|
      invariant Valid(schema)
      invariant schema.keys == colArrMap.keys[..n]
      invariant forall t :: t in schema.vals ==>
        (t in colArrMap.vals && schema.vals[t] == TableOf(NormalizedColumns(colArrMap.vals[t])))
    {
      var tableName := colArrMap.keys[n];
      var cols := NormalizeColumnList(colArrMap.vals[tableName]);
      var newTable := TableFromColumns(cols);
      assert tableName !in schema.vals by {
        assert forall a :: 0 <= a < n ==> colArrMap.keys[a] != colArrMap.keys[n];
      }
      PrefixSnoc(colArrMap.keys, n);
      schema := Put(schema, tableName, newTable);
      n := n + 1;
    }
    assert colArrMap.keys[..n] == colArrMap.keys;
  }

  // ---------------------------------------------------------------- renderStoredProcedures

  function EntryPairs(spNames: seq<string>): (r: seq<(string, StoredProcedure)>)
    ensures |r| == |spNames|
    ensures forall i :: 0 <= i < |spNames| ==> r[i] == (spNames[i], StoredProcedure(spNames[i], Empty()))
  {
    seq(|spNames|, i requires 0 <= i < |spNames| => (spNames[i], StoredProcedure(spNames[i], Empty())))
  }

  /** The dictionary's first loop: one empty entry per listed procedure. */
  function ProcedureEntries(spNames: seq<string>): Dict<StoredProcedure> {
    PutAll(Empty(), EntryPairs(spNames))
  }

  /** The dictionary's second loop, one parameter: stored under its procedure's entry,
      keyed by its name; a parameter of an unlisted procedure throws. */
  function AddParameter(dict: Dict<StoredProcedure>, p: Parameter): Result<Dict<StoredProcedure>, BuildError> {
    if p.specificName in dict.vals then
      var sp := dict.vals[p.specificName];
      Success(Put(dict, p.specificName, sp.(parameters := Put(sp.parameters, p.parameterName, p))))
    else Failure(UnknownProcedure(p.specificName))
  }

  function AddParameters(dict: Dict<StoredProcedure>, params: seq<Parameter>): Result<Dict<StoredProcedure>, BuildError> {
    if params == [] then Success(dict)
    else
      match AddParameters(dict, params[..|params| - 1])
      case Failure(e) => Failure(e)
      case Success(d) => AddParameter(d, params[|params| - 1])
  }

  /** The parameters of procedure `name`, keyed by parameter name, in listing order. */
  function OwnParameters(params: seq<Parameter>, name: string): seq<(string, Parameter)> {
    if params == [] then []
    else
      var p := params[|params| - 1];
      OwnParameters(params[..|params| - 1], name) + (if p.specificName == name then [(p.parameterName, p)] else [])
  }

  /** What the dictionary looks like after the parameters `params` have been added. */
  ghost predicate DictionaryAfter(spNames: seq<string>, params: seq<Parameter>, d: Dict<StoredProcedure>) {
    && Valid(d)
    && d.keys == Distinct(spNames)
    && (forall n :: n in d.vals <==> n in spNames)
    && forall n :: n in d.vals ==> d.vals[n] == StoredProcedure(n, PutAll(Empty(), OwnParameters(params, n)))
  }

  lemma ProcedureEntriesMeaning(spNames: seq<string>)
    ensures DictionaryAfter(spNames, [], ProcedureEntries(spNames))
  {
    ProcedureEntriesKeys(spNames);
    ProcedureEntriesValues(spNames);
  }

  /** The first loop lists each named procedure once, first listing first. */
  lemma ProcedureEntriesKeys(spNames: seq<string>)
    ensures ProcedureEntries(spNames).keys == Distinct(spNames)
    ensures forall n :: n in ProcedureEntries(spNames).vals <==> n in spNames
  {
    var kvs := EntryPairs(spNames);
    PutAllKeys(kvs);
    assert Firsts(kvs) == spNames;
  }

  /** The first loop stores an empty procedure named after each key. */
  lemma ProcedureEntriesValues(spNames: seq<string>)
    ensures forall n :: n in ProcedureEntries(spNames).vals ==>
      ProcedureEntries(spNames).vals[n] == StoredProcedure(n, Empty())
  {
    var kvs := EntryPairs(spNames);
    var d := PutAll(Empty(), kvs);
    forall n | n in d.vals
      ensures d.vals[n] == StoredProcedure(n, Empty())
    {
      PutAllValueFrom(Empty(), kvs, n);
    }
  }

  lemma AddParameterStep(spNames: seq<string>, q: seq<Parameter>, p: Parameter, d: Dict<StoredProcedure>)
    requires DictionaryAfter(spNames, q, d)
    requires p.specificName in spNames
    ensures AddParameter(d, p).Success?
    ensures DictionaryAfter(spNames, q + [p], AddParameter(d, p).value)
  {
    var d' := AddParameter(d, p).value;
    assert d'.keys == d.keys;
    assert d'.vals.Keys == d.vals.Keys;
    forall n | n in d'.vals
      ensures d'.vals[n] == StoredProcedure(n, PutAll(Empty(), OwnParameters(q + [p], n)))
    {
      AddParameterEntry(q, p, d, n);
    }
  }

  lemma AddParameterEntry(q: seq<Parameter>, p: Parameter, d: Dict<StoredProcedure>, n: string)
    requires p.specificName in d.vals && n in d.vals
    requires d.vals[n] == StoredProcedure(n, PutAll(Empty(), OwnParameters(q, n)))
    requires d.vals[p.specificName] ==
      StoredProcedure(p.specificName, PutAll(Empty(), OwnParameters(q, p.specificName)))
    ensures AddParameter(d, p).Success?
    ensures AddParameter(d, p).value.vals[n] == StoredProcedure(n, PutAll(Empty(), OwnParameters(q + [p], n)))
  {
    OwnParametersSnoc(q, p, n);
    if n == p.specificName {
      assert OwnParameters(q + [p], n) == OwnParameters(q, n) + [(p.parameterName, p)];
      OwnEntryGrows(q, p, d);
    } else {
      assert OwnParameters(q + [p], n) == OwnParameters(q, n);
      OtherEntryKept(p, d, n);
    }
  }

  lemma OwnEntryGrows(q: seq<Parameter>, p: Parameter, d: Dict<StoredProcedure>)
    requires p.specificName in d.vals
    requires d.vals[p.specificName] ==
      StoredProcedure(p.specificName, PutAll(Empty(), OwnParameters(q, p.specificName)))
    ensures AddParameter(d, p).Success?
    ensures AddParameter(d, p).value.vals[p.specificName] ==
      StoredProcedure(p.specificName, PutAll(Empty(), OwnParameters(q, p.specificName) + [(p.parameterName, p)]))
  {
    PutAllSnoc(Empty(), OwnParameters(q, p.specificName), p.parameterName, p);
  }

  lemma OtherEntryKept(p: Parameter, d: Dict<StoredProcedure>, n: string)
    requires p.specificName in d.vals && n in d.vals && n != p.specificName
    ensures AddParameter(d, p).Success?
    ensures AddParameter(d, p).value.vals[n] == d.vals[n]
  {
  }

  lemma OwnParametersSnoc(q: seq<Parameter>, p: Parameter, n: string)
    ensures OwnParameters(q + [p], n) ==
      OwnParameters(q, n) + (if p.specificName == n then [(p.parameterName, p)] else [])
  {
    assert (q + [p])[..|q|] == q;
  }

  /** The fold succeeds exactly when every parameter's procedure is listed; then the keys
      are the listed names in first-listed order and each entry is named after its key and
      holds its own parameters keyed by name, the last of equal names winning. */
  lemma {:induction false} AddParametersMeaning(spNames: seq<string>, params: seq<Parameter>)
    ensures var r := AddParameters(ProcedureEntries(spNames), params);
      && (r.Failure? <==> exists p :: p in params && p.specificName !in spNames)
      && (r.Success? ==> DictionaryAfter(spNames, params, r.value))
  {
    if params == [] {
      ProcedureEntriesMeaning(spNames);
    } else {
      var q, p := params[..|params| - 1], params[|params| - 1];
      assert params == q + [p];
      AddParametersMeaning(spNames, q);
      var rq := AddParameters(ProcedureEntries(spNames), q);
      if rq.Success? && p.specificName in spNames {
        AddParameterStep(spNames, q, p, rq.value);
      }
    }
  }

  /** Once a parameter fails, the whole fold fails with the same error. */
  lemma {:induction false} FailureSticks(start: Dict<StoredProcedure>, params: seq<Parameter>, j: nat)
    requires j <= |params|
    requires AddParameters(start, params[..j]).Failure?
    ensures AddParameters(start, params) == AddParameters(start, params[..j])
  {
    if j < |params| {
      assert params[..|params| - 1][..j] == params[..j];
      FailureSticks(start, params[..|params| - 1], j);
    } else {
      assert params[..j] == params;
    }
  }

  /** `renderStoredProcedures`, dictionary part: an entry per listed procedure, then each
      parameter under its procedure's entry. A parameter whose procedure is not listed
      throws; otherwise each procedure holds exactly its own parameters, keyed by name. */
  method RenderStoredProcedures(spNames: seq<string>, params: seq<Parameter>)
    returns (r: Result<Dict<StoredProcedure>, BuildError>)
    ensures r == AddParameters(ProcedureEntries(spNames), params)
    ensures r.Failure? <==> exists p :: p in params && p.specificName !in spNames
    ensures r.Success? ==>
      && Valid(r.value)
      && r.value.keys == Distinct(spNames)
      && forall n :: n in r.value.vals ==>
           r.value.vals[n] == StoredProcedure(n, PutAll(Empty(), OwnParameters(params, n)))
  {
    ghost var entries := EntryPairs(spNames);
    var dict: Dict<StoredProcedure> := Empty();
    var i := 0;
    while i < |spNames|
      invariant 0 <= i <= |spNames|
      invariant dict == PutAll(Empty(), entries[..i])
    {
      var entry := StoredProcedure(spNames[i], Empty());
      PutAllSnoc(Empty(), entries[..i], spNames[i], entry);
      PrefixSnoc(entries, i);
      dict := Put(dict, spNames[i], entry);
      i := i + 1;
    }
    assert entries[..i] == entries;
    ghost var start := dict;
    var j := 0;
    while j < |params|
      invariant 0 <= j <= |params|
      invariant AddParameters(start, params[..j]) == Success(dict)
    {
      var p := params[j];
      assert params[..j + 1][..j] == params[..j];
      if p.specificName !in dict.vals {
        r := Failure(UnknownProcedure(p.specificName));
        FailureSticks(start, params, j + 1);
        AddParametersMeaning(spNames, params);
        return;
      }
      var sp := dict.vals[p.specificName];
      dict := Put(dict, p.specificName, sp.(parameters := Put(sp.parameters, p.parameterName, p)));
      j := j + 1;
    }
    assert params[..j] == params;
    r := Success(dict);
    AddParametersMeaning(spNames, params);
  }
}
