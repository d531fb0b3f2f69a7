/** The primary-key helpers that generated data-access classes inherit: they project a
    record onto, or away from, the primary-key columns of a table of the schema, and
    drop the record's keys that name no column. The schema is read, never changed. */
module SchemaOperator {
  import opened Wrappers
  import opened Dicts
  import opened Lists
  import opened SchemaModel

  /** A `TypeError` the helpers raise: the absent (`null`) name list of a table without
      primary key is iterated, or an unknown table is indexed. */
  datatype OperatorError = NoPrimaryKeys(tableName: string) | UnknownTable(tableName: string)

  predicate IsPrimary(c: Column) {
    c.isPrimary
  }

  /** The table has a primary-key column. */
  predicate HasPrimaryKey(table: Table) {
    exists k :: k in table.vals && table.vals[k].isPrimary
  }

  /** `n` is the field of a primary-key column of the table. */
  predicate IsPrimaryKeyName(table: Table, n: string) {
    exists k :: k in table.vals && table.vals[k].isPrimary && table.vals[k].field == n
  }

  /** The primary-key columns of a table, in column order. */
  function PkColumns(table: Table): seq<Column>
    requires Valid(table)
  {
    Filter(Values(table), IsPrimary)
  }

  /** `getPkCols`: nothing for an empty table name; an unknown table lists no column. */
  function PkColsOf(definition: Schema, tableName: string): Option<seq<Column>>
    requires ValidTables(definition.tables)
  {
    if tableName == "" then None
    else match Get(definition.tables, tableName)
      case None => Some([])
      case Some(table) => Some(PkColumns(table))
  }

  /** A column is listed exactly when it is a primary-key column of the table. */
  lemma PkColumnsMembers(table: Table)
    requires Valid(table)
    ensures forall c :: c in PkColumns(table) <==> c.isPrimary && c in table.vals.Values
  {
    FilterMembers(Values(table), IsPrimary);
    ValuesMembers(table);
  }

  /** The table has a primary key exactly when it lists a primary-key column. */
  lemma PkColumnsEmpty(table: Table)
    requires Valid(table)
    ensures |PkColumns(table)| == 0 <==> !HasPrimaryKey(table)
  {
    PkColumnsMembers(table);
    if |PkColumns(table)| != 0 {
      var c := PkColumns(table)[0];
      assert c in table.vals.Values;
      var k :| k in table.vals && table.vals[k] == c;
      assert table.vals[k].isPrimary;
    }
    if HasPrimaryKey(table) {
      var k :| k in table.vals && table.vals[k].isPrimary;
      assert table.vals[k] in PkColumns(table);
    }
  }

  /** `getPkCols` */
  method GetPkCols(definition: Schema, tableName: string) returns (r: Option<seq<Column>>)
    requires ValidTables(definition.tables)
    ensures r == PkColsOf(definition, tableName)
    ensures r.None? <==> tableName == ""
    ensures r.Some? ==> forall c :: c in r.value <==>
      (&& tableName in definition.tables.vals
       && c.isPrimary
       && c in definition.tables.vals[tableName].vals.Values)
  {
    if tableName == "" {
      return None;
    }
    var cols := [];
    match Get(definition.tables, tableName) {
      case None =>
      case Some(table) =>
        var vs := Values(table);
        var i := 0;
        while i < |table.keys|
          invariant 0 <= i <= |table.keys|
          invariant cols == Filter(vs[..i], IsPrimary)
        {
          var col := table.vals[table.keys[i]];
          PrefixSnoc(vs, i);
          if col.isPrimary {
            cols := cols + [col];
          }
          i := i + 1;
        }
        assert vs[..i] == vs;
        PkColumnsMembers(table);
    }
    r := Some(cols);
  }

  function Fields(cols: seq<Column>): (r: seq<string>)
    ensures |r| == |cols|
    ensures forall i :: 0 <= i < |cols| ==> r[i] == cols[i].field
  {
    seq(|cols|, i requires 0 <= i < |cols| => cols[i].field)
  }

  /** `getPrimaryKeyNames`: the fields of the primary-key columns, absent when there are
      none. */
  function PrimaryKeyNames(definition: Schema, tableName: string): Option<seq<string>>
    requires ValidTables(definition.tables)
  {
    match PkColsOf(definition, tableName)
    case None => None
    case Some(cols) => if |cols| == 0 then None else Some(Fields(cols))
  }

  /** The names are absent exactly for an empty name, an unknown table or a table
      without primary key; otherwise they are the primary-key fields, in column order. */
  lemma PrimaryKeyNamesMeaning(definition: Schema, tableName: string)
    requires ValidTables(definition.tables)
    ensures PrimaryKeyNames(definition, tableName).None? <==>
      (|| tableName == ""
       || tableName !in definition.tables.vals
       || !HasPrimaryKey(definition.tables.vals[tableName]))
    ensures PrimaryKeyNames(definition, tableName).Some? ==>
      var table := definition.tables.vals[tableName];
      && PrimaryKeyNames(definition, tableName).value == Fields(PkColumns(table))
      && forall n :: n in PrimaryKeyNames(definition, tableName).value <==> IsPrimaryKeyName(table, n)
  {
    if tableName != "" && tableName in definition.tables.vals {
      var table := definition.tables.vals[tableName];
      PkColumnsEmpty(table);
      PkFieldsMembers(table);
    }
  }

  /** A name is a listed primary-key field exactly when a primary-key column has it. */
  lemma PkFieldsMembers(table: Table)
    requires Valid(table)
    ensures forall n :: n in Fields(PkColumns(table)) <==> IsPrimaryKeyName(table, n)
  {
    PkColumnsMembers(table);
    var cols := PkColumns(table);
    forall n
      ensures n in Fields(cols) <==> IsPrimaryKeyName(table, n)
    {
      if n in Fields(cols) {
        var c := FieldSource(cols, n);
        var k :| k in table.vals && table.vals[k] == c;
      }
      if IsPrimaryKeyName(table, n) {
        var k :| k in table.vals && table.vals[k].isPrimary && table.vals[k].field == n;
        FieldListed(cols, table.vals[k]);
      }
    }
  }

  /** A listed field belongs to a listed column. */
  lemma FieldSource(cols: seq<Column>, n: string) returns (c: Column)
    requires n in Fields(cols)
    ensures c in cols && c.field == n
  {
    var i :| 0 <= i < |cols| && Fields(cols)[i] == n;
    c := cols[i];
  }

  /** The field of a listed column is listed. */
  lemma FieldListed(cols: seq<Column>, c: Column)
    requires c in cols
    ensures c.field in Fields(cols)
  {
    var i :| 0 <= i < |cols| && cols[i] == c;
    assert Fields(cols)[i] == c.field;
  }

  /** `getPrimaryKeyNames` */
  method GetPrimaryKeyNames(definition: Schema, tableName: string) returns (r: Option<seq<string>>)
    requires ValidTables(definition.tables)
    ensures r == PrimaryKeyNames(definition, tableName)
  {
    var cols := GetPkCols(definition, tableName);
    if cols.None? || |cols.value| == 0 {
      return None;
    }
    r := Some(Fields(cols.value));
  }

  function NameSet(names: seq<string>): set<string> {
    set n | n in names
  }

  /** The record with the keys `names` deleted. */
  function Without<V>(data: Dict<V>, names: seq<string>): Dict<V>
    requires Valid(data)
  {
    KeepKeys(data, data.vals.Keys - NameSet(names))
  }

  lemma WithoutStep<V>(data: Dict<V>, pks: seq<string>, i: nat)
    requires Valid(data)
    requires i < |pks|
    ensures Remove(KeepKeys(data, data.vals.Keys - NameSet(pks[..i])), pks[i])
         == KeepKeys(data, data.vals.Keys - NameSet(pks[..i + 1]))
  {
    var before := data.vals.Keys - NameSet(pks[..i]);
    RemoveFromKept(data, before, pks[i]);
    assert pks[..i + 1] == pks[..i] + [pks[i]];
    assert NameSet(pks[..i + 1]) == NameSet(pks[..i]) + {pks[i]};
    assert before - {pks[i]} == data.vals.Keys - NameSet(pks[..i + 1]);
  }

  /** `removePrimaryKeys`: a copy of the record without its primary-key entries; it
      fails when the table has no primary-key name list. */
  method RemovePrimaryKeys<V>(definition: Schema, tableName: string, data: Dict<V>)
    returns (r: Result<Dict<V>, OperatorError>)
    requires ValidTables(definition.tables)
    requires Valid(data)
    ensures r.Failure? <==> PrimaryKeyNames(definition, tableName).None?
    ensures r.Success? ==> r.value == Without(data, PrimaryKeyNames(definition, tableName).value)
  {
    var names := GetPrimaryKeyNames(definition, tableName);
    if names.None? {
      return Failure(NoPrimaryKeys(tableName));
    }
    var pks := names.value;
    KeepKeysAll(data);
    assert NameSet(pks[..0]) == {};
    assert data.vals.Keys - NameSet(pks[..0]) == data.vals.Keys;
    var filtered := data;
    var i := 0;
    while i < |pks|
      invariant 0 <= i <= |pks|
      invariant filtered == KeepKeys(data, data.vals.Keys - NameSet(pks[..i]))
    {
      WithoutStep(data, pks, i);
      filtered := Remove(filtered, pks[i]);
      i := i + 1;
    }
    assert pks[..i] == pks;
    r := Success(filtered);
  }

  /** The entries a `forEach` assigns: each name with the record's value for it
      (`None` for `undefined`). */
  function RetainPairs<V>(data: Dict<V>, names: seq<string>): (r: seq<(string, Option<V>)>)
    ensures |r| == |names|
    ensures forall i :: 0 <= i < |names| ==> r[i] == (names[i], Get(data, names[i]))
  {
    seq(|names|, i requires 0 <= i < |names| => (names[i], Get(data, names[i])))
  }

  /** The record projected onto `names`. */
  function Retained<V>(data: Dict<V>, names: seq<string>): Dict<Option<V>> {
    PutAll(Empty(), RetainPairs(data, names))
  }

  /** The projection's keys are the names, each once and first occurrence first (the
      names themselves when they are distinct), and each carries the record's value
      (absent where the record has none). */
  lemma RetainedMeaning<V>(data: Dict<V>, names: seq<string>)
    ensures Valid(Retained(data, names))
    ensures Retained(data, names).keys == Distinct(names)
    ensures NoDups(names) ==> Retained(data, names).keys == names
    ensures forall k :: k in Retained(data, names).vals <==> k in names
    ensures forall k :: k in Retained(data, names).vals ==> Retained(data, names).vals[k] == Get(data, k)
  {
    var kvs := RetainPairs(data, names);
    PutAllKeys(kvs);
    assert Firsts(kvs) == names;
    if NoDups(names) {
      DistinctOfNoDups(names);
    }
    forall k | k in Retained(data, names).vals
      ensures Retained(data, names).vals[k] == Get(data, k)
    {
      PutAllValueFrom(Empty(), kvs, k);
    }
  }

  /** `Distinct` leaves a list without duplicates as it is. */
  lemma {:induction false} DistinctOfNoDups(s: seq<string>)
    requires NoDups(s)
    ensures Distinct(s) == s
  {
    if s != [] {
      DistinctOfNoDups(s[..|s| - 1]);
      assert s[|s| - 1] !in s[..|s| - 1];
      assert s == s[..|s| - 1] + [s[|s| - 1]];
    }
  }

  /** `retainPrimaryKeys`: a record holding just the primary-key entries; it fails when
      the table has no primary-key name list. */
  method RetainPrimaryKeys<V>(definition: Schema, tableName: string, data: Dict<V>)
    returns (r: Result<Dict<Option<V>>, OperatorError>)
    requires ValidTables(definition.tables)
    ensures r.Failure? <==> PrimaryKeyNames(definition, tableName).None?
    ensures r.Success? ==> r.value == Retained(data, PrimaryKeyNames(definition, tableName).value)
  {
    var names := GetPrimaryKeyNames(definition, tableName);
    if names.None? {
      return Failure(NoPrimaryKeys(tableName));
    }
    var pks := names.value;
    ghost var kvs := RetainPairs(data, pks);
    var keyData: Dict<Option<V>> := Empty();
    var i := 0;
    while i < |pks|
      invariant 0 <= i <= |pks|
      invariant keyData == PutAll(Empty(), kvs[..i])
    {
      PutAllSnoc(Empty(), kvs[..i], pks[i], Get(data, pks[i]));
      PrefixSnoc(kvs, i);
      keyData := Put(keyData, pks[i], Get(data, pks[i]));
      i := i + 1;
    }
    assert kvs[..i] == kvs;
    r := Success(keyData);
  }

  /** Removing and retaining the primary keys split the record: every entry lands in
      exactly one of the two, with its value. */
  lemma RemoveRetainPartition<V>(data: Dict<V>, names: seq<string>)
    requires Valid(data)
    ensures forall k :: k in data.vals ==>
      (k in Without(data, names).vals <==> k !in Retained(data, names).vals)
    ensures forall k :: k in Without(data, names).vals ==> Without(data, names).vals[k] == data.vals[k]
    ensures forall k :: k in data.vals && k in Retained(data, names).vals ==>
      Retained(data, names).vals[k] == Some(data.vals[k])
  {
    RetainedMeaning(data, names);
  }

  /** The record restricted to the table's columns. */
  function Belonging<V>(data: Dict<V>, table: Table): Dict<V>
    requires Valid(data)
  {
    KeepKeys(data, table.vals.Keys)
  }

  ghost predicate CopiedSoFar<V>(copy: Dict<V>, data: Dict<V>, table: Table, i: nat)
    requires i <= |data.keys|
  {
    && copy.keys == FilterIn(data.keys[..i], table.vals.Keys)
    && copy.vals == map k | k in data.vals && k in table.vals && k in data.keys[..i] :: data.vals[k]
  }

  lemma CopyStep<V>(copy: Dict<V>, data: Dict<V>, table: Table, i: nat)
    requires Valid(data)
    requires i < |data.keys|
    requires CopiedSoFar(copy, data, table, i)
    ensures var key := data.keys[i];
      CopiedSoFar(if key in table.vals then Put(copy, key, data.vals[key]) else copy, data, table, i + 1)
  {
    var key := data.keys[i];
    CopyStepKeys(data.keys, table.vals.Keys, i);
    CopyStepVals(copy.vals, data, table, i);
    if key in table.vals {
      assert key !in copy.vals;
    }
  }

  lemma CopyStepKeys(keys: seq<string>, t: set<string>, i: nat)
    requires i < |keys|
    ensures FilterIn(keys[..i + 1], t)
      == FilterIn(keys[..i], t) + (if keys[i] in t then [keys[i]] else [])
  {
    assert keys[..i + 1][..i] == keys[..i];
  }

  lemma CopyStepVals<V>(m: map<string, V>, data: Dict<V>, table: Table, i: nat)
    requires Valid(data)
    requires i < |data.keys|
    requires m == map k | k in data.vals && k in table.vals && k in data.keys[..i] :: data.vals[k]
    ensures var key := data.keys[i];
      (map k | k in data.vals && k in table.vals && k in data.keys[..i + 1] :: data.vals[k])
        == if key in table.vals then m[key := data.vals[key]] else m
  {
    var key := data.keys[i];
    assert forall k :: k in data.keys[..i + 1] <==> k in data.keys[..i] || k == key;
  }

  lemma CopiedAll<V>(copy: Dict<V>, data: Dict<V>, table: Table)
    requires Valid(data)
    requires CopiedSoFar(copy, data, table, |data.keys|)
    ensures copy == Belonging(data, table)
  {
    assert data.keys[..|data.keys|] == data.keys;
  }

  /** `stripNoneBelonging`: the record's entries whose keys name a column of the table,
      in the record's order; an unknown table fails as soon as the record has a key. */
  method StripNoneBelonging<V>(definition: Schema, tableName: string, data: Dict<V>)
    returns (r: Result<Dict<V>, OperatorError>)
    requires ValidTables(definition.tables)
    requires Valid(data)
    ensures r.Failure? <==> tableName !in definition.tables.vals && |data.keys| > 0
    ensures r.Success? && tableName !in definition.tables.vals ==> r.value == Empty()
    ensures r.Success? && tableName in definition.tables.vals ==>
      r.value == Belonging(data, definition.tables.vals[tableName])
  {
    var found := Get(definition.tables, tableName);
    if found.None? {
      if |data.keys| == 0 {
        return Success(Empty());
      }
      return Failure(UnknownTable(tableName));
    }
    var table := found.value;
    var copy: Dict<V> := Empty();
    var i := 0;
    while i < |data.keys|
      invariant 0 <= i <= |data.keys|
      invariant CopiedSoFar(copy, data, table, i)
    {
      var key := data.keys[i];
      CopyStep(copy, data, table, i);
      if key in table.vals {
        copy := Put(copy, key, data.vals[key]);
      }
      i := i + 1;
    }
    CopiedAll(copy, data, table);
    r := Success(copy);
  }

  /** Stripping is idempotent: a stripped record has nothing more to strip. */
  lemma StripIdempotent<V>(data: Dict<V>, table: Table)
    requires Valid(data)
    ensures Belonging(Belonging(data, table), table) == Belonging(data, table)
  {
    var t := table.vals.Keys;
    KeepKeysTwice(data, t, t);
    assert t * t == t;
  }
}
