/** The enum extractor: one holder per enum column of every base table. */
module EnumBuilder {
  import opened Wrappers
  import opened Strings
  import opened Dicts
  import opened SchemaModel

  /** An enum found in the schema, or one the merger synthesised. Holders are identified
      by their position in the registry list: `replacedBy` is the position of the holder
      that replaces this one, and `replacementFor` the positions of the holders a
      synthesised holder stands for (empty for an extracted holder). */
  datatype EnumHolder = EnumHolder(
    table: string,
    field: string,
    options: seq<string>,
    optionHash: string,
    replacedBy: Option<nat>,
    replacementFor: seq<nat>)

  /** The grouping key of an option list: the options sorted and joined by `:`. */
  function OptionHash(options: seq<string>): (h: string)
    ensures options == [] ==> h == ""
    ensures |options| == 1 ==> h == options[0]
  {
    assert |options| == 1 ==> options[1..] == [] && Sort(options) == [options[0]];
    Join(":", Sort(options))
  }

  /** The hash does not depend on the order of the options. */
  lemma OptionHashPermutationInvariant(a: seq<string>, b: seq<string>)
    requires multiset(a) == multiset(b)
    ensures OptionHash(a) == OptionHash(b)
  {
    SortPermutationInvariant(a, b);
  }

  /** The test of `enumArr`: the type is `enum` and a value list is present (it may be empty). */
  predicate IsEnumColumn(c: Column) {
    c.sqlType == "enum" && c.enumValues.Some?
  }

  function HolderOf(tableName: string, c: Column): (h: EnumHolder)
    requires IsEnumColumn(c)
  {
    var options := c.enumValues.value;
    EnumHolder(tableName, c.field, options, OptionHash(options), None, [])
  }

  /** The holders of a column list, in column order. */
  function EnumsOf(cols: seq<Column>, tableName: string): seq<EnumHolder> {
    if cols == [] then []
    else
      var c := cols[|cols| - 1];
      EnumsOf(cols[..|cols| - 1], tableName) + (if IsEnumColumn(c) then [HolderOf(tableName, c)] else [])
  }

  /** Extraction is column by column: the holders of a concatenation are those of each part. */
  lemma {:induction false} EnumsOfAppend(a: seq<Column>, b: seq<Column>, tableName: string)
    ensures EnumsOf(a + b, tableName) == EnumsOf(a, tableName) + EnumsOf(b, tableName)
  {
    if b == [] {
      assert a + b == a;
    } else {
      var p := b[..|b| - 1];
      assert (a + b)[..|a + b| - 1] == a + p;
      assert (a + b)[|a + b| - 1] == b[|b| - 1];
      EnumsOfAppend(a, p, tableName);
    }
  }

  /** A holder is emitted exactly for an enum column, carrying the table name, the column's
      field and its value list unchanged, with no links. */
  lemma {:induction false} EnumsOfMembers(cols: seq<Column>, tableName: string)
    ensures forall h :: h in EnumsOf(cols, tableName) <==>
      exists i :: 0 <= i < |cols| && IsEnumColumn(cols[i]) && h == HolderOf(tableName, cols[i])
  {
    forall h ensures h in EnumsOf(cols, tableName) <==>
      exists i :: 0 <= i < |cols| && IsEnumColumn(cols[i]) && h == HolderOf(tableName, cols[i])
    {
      EnumsOfMember(cols, tableName, h);
    }
  }

  /** `EnumsOfMembers` for one holder. */
  lemma {:induction false} EnumsOfMember(cols: seq<Column>, tableName: string, h: EnumHolder)
    ensures h in EnumsOf(cols, tableName) <==>
      exists i :: 0 <= i < |cols| && IsEnumColumn(cols[i]) && h == HolderOf(tableName, cols[i])
  {
    if h in EnumsOf(cols, tableName) {
      var i := EnumsOfSource(cols, tableName, h);
    }
    if exists i :: 0 <= i < |cols| && IsEnumColumn(cols[i]) && h == HolderOf(tableName, cols[i]) {
      var i :| 0 <= i < |cols| && IsEnumColumn(cols[i]) && h == HolderOf(tableName, cols[i]);
      EnumsOfHas(cols, tableName, i);
    }
  }

  /** Each extracted holder comes from an enum column. */
  lemma {:induction false} EnumsOfSource(cols: seq<Column>, tableName: string, h: EnumHolder) returns (i: nat)
    requires h in EnumsOf(cols, tableName)
    ensures i < |cols| && IsEnumColumn(cols[i]) && h == HolderOf(tableName, cols[i])
  {
    var p := cols[..|cols| - 1];
    if h in EnumsOf(p, tableName) {
      i := EnumsOfSource(p, tableName, h);
      assert cols[i] == p[i];
    } else {
      i := |cols| - 1;
    }
  }

  /** Each enum column yields its holder. */
  lemma {:induction false} EnumsOfHas(cols: seq<Column>, tableName: string, i: nat)
    requires i < |cols| && IsEnumColumn(cols[i])
    ensures HolderOf(tableName, cols[i]) in EnumsOf(cols, tableName)
  {
    var p := cols[..|cols| - 1];
    if i < |p| {
      EnumsOfHas(p, tableName, i);
      assert p[i] == cols[i];
    }
  }

  /** Every extracted holder names its table, has no links, and is hashed from its options. */
  lemma {:induction false} EnumsOfFresh(cols: seq<Column>, tableName: string)
    ensures forall h :: h in EnumsOf(cols, tableName) ==>
      && h.table == tableName
      && h.replacedBy == None
      && h.replacementFor == []
      && h.optionHash == OptionHash(h.options)
  {
    if cols != [] {
      EnumsOfFresh(cols[..|cols| - 1], tableName);
    }
  }

  /** A present but empty value list still yields a holder, with no options. */
  lemma EmptyValueListStillEmitted(c: Column, tableName: string)
    requires c.sqlType == "enum" && c.enumValues == Some([])
    ensures EnumsOf([c], tableName) == [EnumHolder(tableName, c.field, [], Join(":", []), None, [])]
  {
    assert [c][..0] == [];
  }

  /** A column whose type is not `enum` (a `set` column, say) never yields a holder. */
  lemma NonEnumSkipped(c: Column, tableName: string)
    requires c.sqlType != "enum"
    ensures EnumsOf([c], tableName) == []
  {
    assert [c][..0] == [];
  }

  /** `enumArr`: the holders of one table, in column order. */
  method EnumArr(table: Table, tableName: string) returns (enums: seq<EnumHolder>)
    requires Valid(table)
    ensures enums == EnumsOf(Values(table), tableName)
  {
    ghost var cols := Values(table);
    enums := [];
    var i := 0;
    while i < |table.keys|
      invariant 0 <= i <= |table.keys|
      invariant enums == EnumsOf(cols[..i], tableName)
    {
      var column := table.vals[table.keys[i]];
      assert cols[..i + 1][..i] == cols[..i];
      assert cols[i] == column;
      if column.sqlType == "enum" && column.enumValues.Some? {
        enums := enums + [HolderOf(tableName, column)];
      }
      i := i + 1;
    }
    assert cols[..i] == cols;
  }

  /** The holders of the tables `names`, table by table. */
  function TablesEnums(tables: Dict<Table>, names: seq<string>): seq<EnumHolder>
    requires ValidTables(tables)
    requires forall i :: 0 <= i < |names| ==> names[i] in tables.vals
  {
    if names == [] then []
    else
      var name := names[|names| - 1];
      TablesEnums(tables, names[..|names| - 1]) + EnumsOf(Values(tables.vals[name]), name)
  }

  /** The registry input: the holders of every base table in table order. Views are not
      read. */
  function SchemaEnums(schema: Schema): seq<EnumHolder>
    requires ValidTables(schema.tables)
  {
    TablesEnums(schema.tables, schema.tables.keys)
  }

  /** Every holder of the registry input comes from an enum column of a base table, and
      carries no links. */
  lemma {:induction false} TablesEnumsMembers(tables: Dict<Table>, names: seq<string>)
    requires ValidTables(tables)
    requires forall i :: 0 <= i < |names| ==> names[i] in tables.vals
    ensures forall h :: h in TablesEnums(tables, names) ==>
      && h.table in names
      && h.replacedBy == None
      && h.replacementFor == []
      && exists c :: c in tables.vals[h.table].vals.Values && IsEnumColumn(c) && h == HolderOf(h.table, c)
  {
    if names != [] {
      var p, name := names[..|names| - 1], names[|names| - 1];
      TablesEnumsMembers(tables, p);
      TableEnumsMembers(tables.vals[name], name);
      forall h | h in TablesEnums(tables, p) ensures h.table in names {
        var j :| 0 <= j < |p| && p[j] == h.table;
        assert names[j] == p[j];
      }
    }
  }

  /** Every holder of one table comes from one of its enum columns, and carries no links. */
  lemma TableEnumsMembers(table: Table, name: string)
    requires Valid(table)
    ensures forall h :: h in EnumsOf(Values(table), name) ==>
      && h.table == name
      && h.replacedBy == None
      && h.replacementFor == []
      && exists c :: c in table.vals.Values && IsEnumColumn(c) && h == HolderOf(name, c)
  {
    var cols := Values(table);
    EnumsOfFresh(cols, name);
    forall h | h in EnumsOf(cols, name)
      ensures exists c :: c in table.vals.Values && IsEnumColumn(c) && h == HolderOf(name, c)
    {
      var i := EnumsOfSource(cols, name, h);
      assert cols[i] == table.vals[table.keys[i]];
    }
  }

  /** The per-table loop of `run`: the holders of every base table, in table order. */
  method CollectEnums(schema: Schema) returns (tableEnums: seq<EnumHolder>)
    requires ValidTables(schema.tables)
    ensures tableEnums == SchemaEnums(schema)
  {
    var tables := schema.tables;
    tableEnums := [];
    var n := 0;
    while n < |tables.keys|
      invariant 0 <= n <= |tables.keys|
      invariant tableEnums == TablesEnums(tables, tables.keys[..n])
    {
      var tableKey := tables.keys[n];
      var enums := EnumArr(tables.vals[tableKey], tableKey);
      assert tables.keys[..n + 1][..n] == tables.keys[..n];
      tableEnums := tableEnums + enums;
      n := n + 1;
    }
    assert tables.keys[..n] == tables.keys;
  }
}
