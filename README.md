# typescript-mysql-model, modelled in Dafny

This project models the in-memory core of a generator that reads a MySQL database's
metadata and emits TypeScript data-access code. The model covers these parts:

- **Schema normaliser** (`ModelBuilder`).
  - Lower-cases the keys of each raw column record.
  - Splits a type such as `varchar(255)` into the bare type and its length.
  - Marks primary keys and numbers the columns.
  - Keys each table by column name.
  - Checks the list type of the table-listing query.
  - Builds the stored-procedure dictionary from the procedure names and the parameter rows.
- **Enum pipeline.**
  - The extractor (`EnumBuilder`) emits one holder per enum column of every base table.
  - The merger (`EnumMerger`) groups holders with the same option hash. When the constant-cased field names of a group share a common substring longer than 5 characters, it synthesises a canonical holder and back-links the group's members to it.
  - The matcher (`EnumMatcher`) resolves a view column to a registry holder. It looks for an exact table-and-field match, then for holders with the same option set, then picks the most similar name by Levenshtein distance.
  - The list helpers (`Misc`) provide `groupBy`, `equalAsSets` and `setsEqual`.
- **Record helpers.**
  - Primary-key projection (`SchemaOperator`).
  - Allow-list cleaning (`Cleaner`).
- **Stored-procedure wrapper input** (`SpBuilder`). For each procedure it selects the `IN` parameters, sorts them by position, and builds the argument list and the typed parameter list.
- **Driver helpers** (`TsBuilder`): folder normalisation and the generated-file ending.

The model represents values as follows:

- JavaScript objects and `Map`s are insertion-ordered dictionaries (`Dicts.Dict`).
  - Assignment appends a new key and keeps an existing key in place.
  - `delete` drops a key and keeps the order of the others.
- The thrown `Error`s and `TypeError`s the code can raise become `Failure` values.
- The case-conversion and longest-common-substring libraries are function parameters.

Three points where the code's behaviour is easy to misread:

- **Empty value lists.** The extractor emits a holder for an enum column whose value list is present but empty, because the code tests only that the list is present (`lib/enums/enum-builder.ts:38`). So an empty list still yields a holder; see `EnumBuilder.EmptyValueListStillEmitted`.
- **Option comparison.** The matcher compares option lists with `equalAsSets`: the lengths must be equal and the sets of distinct values must be equal. So order is ignored, and so is how often each value occurs (`Misc.EqualAsSetsIgnoresMultiplicity`). Two lists with the same values in another order match.
- **Registry construction.**
  - The shown matcher calls `new EnumBuilder().run(schema)` (`lib/enums/enum-matcher.ts:7`). That `run` takes output directories and returns nothing.
  - No shown code computes `optionHash`.
  - The registry is therefore modelled as the merger applied to the extractor's holders of every base table, with `optionHash` defined as the options sorted and joined with `":"` (`EnumMatcher.Registry`).

## Model

| member | source | states |
|---|---|---|
| ModelBuilder.LowerKeys | lib/model-builder.ts:18-22 | The copy is a well-formed dictionary: its keys are distinct and each has a value. |
| ModelBuilder.LowerKeysDomain | lib/model-builder.ts:18-22 | The copy's keys are exactly the lower-cased keys of the input. |
| ModelBuilder.LowerKeysAreLowerCase | lib/model-builder.ts:18-22 | Every key of the copy is lower case. |
| ModelBuilder.LowerKeysLastWins | lib/model-builder.ts:20 | When several keys lower-case to the same key, the value of the last such key in key order is kept. |
| ModelBuilder.KeysToLower | lib/model-builder.ts:18-22 | The assignment loop builds the lower-cased copy, and all its keys are lower case. |
| ModelBuilder.DigitsOf | lib/model-builder.ts:29 | Removing the non-digits leaves only digits. |
| ModelBuilder.DigitsOfAppend | lib/model-builder.ts:29 | Removing non-digits distributes over concatenation. |
| ModelBuilder.DigitsOfAllDigits | lib/model-builder.ts:29 | A string of digits is left unchanged. |
| ModelBuilder.DigitsOfNoDigits | lib/model-builder.ts:29 | A string without digits becomes empty. |
| ModelBuilder.DigitsOfMembers | lib/model-builder.ts:29 | The digits kept are exactly the digits occurring in the type. |
| ModelBuilder.DecimalValueZero | lib/model-builder.ts:30 | A digit string parses to 0 exactly when every digit is `0`. |
| ModelBuilder.GetMysqlLength | lib/model-builder.ts:29-30 | The length is 0 exactly when the type has no digit other than `0` (no digit at all included). |
| ModelBuilder.DecimalValueShowNat | lib/model-builder.ts:30 | Parsing the decimal rendering of `n` gives back `n`. |
| ModelBuilder.NoDigitsNoLength | lib/model-builder.ts:28-31 | A type without digits has length 0. |
| ModelBuilder.DeclaredTypeLength | lib/model-builder.ts:28-31 | For a digit-free type name `t`, the length of `t(n)` is `n`. |
| ModelBuilder.VarcharLength | lib/model-builder.ts:24-31 | The length of `varchar(255)` is 255. |
| ModelBuilder.IndexOf | lib/model-builder.ts:38 | The result is -1 exactly when the character is absent; otherwise it is the position of its first occurrence. |
| ModelBuilder.StripMysqlLength | lib/model-builder.ts:37-43 | The result contains no `(`. It is a prefix of the type that ends just before the first `(`. It is the whole type when there is no `(`. |
| ModelBuilder.DeclaredTypeStrips | lib/model-builder.ts:37-43 | `t(payload)` strips to `t` when `t` has no `(`. |
| ModelBuilder.VarcharStrips | lib/model-builder.ts:33-43 | `varchar(255)` strips to `varchar`. |
| ModelBuilder.ListFromDatabase | lib/model-builder.ts:69-78 | The call fails exactly when the list type is neither `BASE TABLE` nor `VIEW`. Otherwise the query ends with the quoted list type. |
| ModelBuilder.NormalizeColumn | lib/model-builder.ts:96-102 | The normalised column keeps the field, takes the index `i`, is primary exactly when the key is `PRI`, has as type a prefix of the raw type without `(`, has length 0 exactly when the raw type has no non-zero digit, and carries no enum values. |
| ModelBuilder.NormalizedColumns | lib/model-builder.ts:96-103 | Column `i` is normalised from the lower-cased `i`-th record, with index `i`. |
| ModelBuilder.NormalizedTableColumn | lib/model-builder.ts:96-106 | Take the last record with a given field. The table maps that field to a column with index `i`. The column's length is read from the raw type, its stored type is the stripped raw type, and it is primary exactly when the key is `PRI`. |
| ModelBuilder.NormalizedTableKeys | lib/model-builder.ts:104-106 | The table's keys are the distinct fields, first appearance first. Every entry is the normalised form of some record. |
| ModelBuilder.NormalizeColumnList | lib/model-builder.ts:96-103 | The mapping loop produces the normalised columns. |
| ModelBuilder.TableFromColumns | lib/model-builder.ts:104-105 | The assignment loop builds the field-keyed table of the columns. |
| ModelBuilder.ColumnArrayToDatabaseSchema | lib/model-builder.ts:93-109 | The schema has the same table names, in the same order. Each table is the normalised table of its records. |
| ModelBuilder.ProcedureEntriesMeaning | lib/model-builder.ts:149 | The first loop gives one entry per distinct procedure name. Each entry has that name and no parameters. |
| ModelBuilder.AddParameterStep | lib/model-builder.ts:150 | Adding a parameter of a listed procedure keeps the dictionary's shape, and the procedure's parameters grow by that parameter. |
| ModelBuilder.AddParameterEntry | lib/model-builder.ts:150 | Adding a parameter updates the entry of its own procedure and leaves every other entry's parameters unchanged. |
| ModelBuilder.OwnEntryGrows | lib/model-builder.ts:150 | The parameter is stored under its own procedure, keyed by its name. |
| ModelBuilder.OtherEntryKept | lib/model-builder.ts:150 | The entries of other procedures are unchanged. |
| ModelBuilder.AddParametersMeaning | lib/model-builder.ts:145-152 | The loop fails exactly when some parameter names an unlisted procedure. On success, each procedure holds its own parameters, keyed by name, in listing order. |
| ModelBuilder.FailureSticks | lib/model-builder.ts:150 | Once a parameter throws, the rest of the loop does not run and the error is the result. |
| ModelBuilder.RenderStoredProcedures | lib/model-builder.ts:145-152 | The result fails exactly when a parameter's procedure is unlisted. On success, the keys are the distinct procedure names, and each entry holds its parameters, last one per name winning. |
| Misc.KeysOf | lib/enums/misc.ts:4 | The key list gives each item's key, in item order. |
| Misc.GroupSnoc | lib/enums/misc.ts:7-10 | Pushing one more item extends only its own group. |
| Misc.GroupMembers | lib/enums/misc.ts:7-10 | An item is in a group exactly when its key is the group's key. |
| Misc.GroupAppend | lib/enums/misc.ts:7-10 | Grouping a concatenation concatenates the groups. |
| Misc.GroupNonEmpty | lib/enums/misc.ts:4-10 | Every key that occurs has a non-empty group. |
| Misc.GroupSizesSum | lib/enums/misc.ts:3-12 | The group sizes add up to the number of items: every item lands in exactly one group. |
| Misc.GroupBy | lib/enums/misc.ts:3-12 | The keys are the distinct item keys, first appearance first. Each key maps to the items with that key, in item order. |
| Misc.SetsEqual | lib/enums/misc.ts:21-26 | True exactly when the two sets are equal. |
| Misc.SetsEqualSymmetric | lib/enums/misc.ts:21-26 | The comparison is symmetric. |
| Misc.SetsEqualReflexive | lib/enums/misc.ts:21-26 | Every set equals itself. |
| Misc.EqualAsSets | lib/enums/misc.ts:14-19 | True exactly when the lists have equal length and the same members. |
| Misc.EqualAsSetsPermutation | lib/enums/misc.ts:14-19 | Reordering a list keeps it equal as a set. |
| Misc.EqualAsSetsIgnoresMultiplicity | lib/enums/misc.ts:14-19 | `["a","a","b"]` and `["a","b","b"]` count as equal although they differ as multisets. |
| EnumBuilder.OptionHash | lib/enums/enum-merger.ts:8 | The grouping hash of no options is empty, and of a single option is that option. |
| EnumBuilder.OptionHashPermutationInvariant | lib/enums/enum-merger.ts:8 | Option lists that are permutations of each other have the same hash. |
| EnumBuilder.EnumsOfAppend | lib/enums/enum-builder.ts:36-44 | Extraction goes column by column: the holders of a concatenation are the holders of each part. |
| EnumBuilder.EnumsOfMembers | lib/enums/enum-builder.ts:36-44 | A holder is emitted exactly for each enum column that has a value list. |
| EnumBuilder.EnumsOfFresh | lib/enums/enum-builder.ts:39-43 | Emitted holders carry the table name, the hash of their options, and no links. |
| EnumBuilder.EmptyValueListStillEmitted | lib/enums/enum-builder.ts:38 | An enum column with an empty value list still yields a holder. |
| EnumBuilder.NonEnumSkipped | lib/enums/enum-builder.ts:38 | A column whose type is not `enum` yields nothing. |
| EnumBuilder.EnumArr | lib/enums/enum-builder.ts:34-47 | The loop emits the holders of the table's columns, in column order. |
| EnumBuilder.TablesEnumsMembers | lib/enums/enum-builder.ts:9-15 | Every collected holder comes from an enum column of a listed base table and carries no links. |
| EnumBuilder.CollectEnums | lib/enums/enum-builder.ts:7-15 | The holders of all base tables, table by table. Views are not visited. |
| EnumMerger.GroupOf | lib/enums/enum-merger.ts:8 | A group's positions are registry positions whose holders carry the group's hash. |
| EnumMerger.GroupKeys | lib/enums/enum-merger.ts:8-11 | The visited hashes are distinct. |
| EnumMerger.CandidateShape | lib/enums/enum-merger.ts:13-28 | A candidate stands for a whole group of at least two holders. Its name is constant-cased from a folded common substring longer than 5 characters. Its table is the pascal-cased name. Its options and hash are the first member's. It has no link of its own. |
| EnumMerger.OfferEffect | lib/enums/enum-merger.ts:19-28 | Offering a candidate stores it under its name or keeps the existing holder. No other name changes. |
| EnumMerger.KeptFrom | lib/enums/enum-merger.ts:11-31 | Every stored holder is the candidate of a visited group and is stored under its own name. |
| EnumMerger.KeptNames | lib/enums/enum-merger.ts:11-31 | A name is stored exactly when some visited group yields it. |
| EnumMerger.KeptIsWinner | lib/enums/enum-merger.ts:19-21 | The holder stored under a name comes from the first largest group that yields the name. |
| EnumMerger.WinnerNew | lib/enums/enum-merger.ts:20 | The first group that yields a name wins it. |
| EnumMerger.WinnerUnchanged | lib/enums/enum-merger.ts:20 | A group that yields another name leaves the winner unchanged. |
| EnumMerger.WinnerReplaced | lib/enums/enum-merger.ts:20 | A strictly larger group replaces the winner. |
| EnumMerger.WinnerKept | lib/enums/enum-merger.ts:20 | A group that is not larger leaves the winner in place. |
| EnumMerger.KeptCount | lib/enums/enum-merger.ts:11-31 | There are never more synthesised holders than groups of two or more. |
| EnumMerger.SynthesizedFrom | lib/enums/enum-merger.ts:32 | Each synthesised holder is the candidate of a group. |
| EnumMerger.SynthesizedTargets | lib/enums/enum-merger.ts:32-35 | Synthesised holders stand only for registry positions. |
| EnumMerger.SynthesizedNames | lib/enums/enum-merger.ts:28-32 | Synthesised holders have distinct names. |
| EnumMerger.SynthesizedDisjoint | lib/enums/enum-merger.ts:8-32 | No original is claimed by two synthesised holders. |
| EnumMerger.SetLinksEffect | lib/enums/enum-merger.ts:34 | Exactly the targets get the link, and the other holders are unchanged. |
| EnumMerger.BacklinksEffect | lib/enums/enum-merger.ts:33-35 | Each member of a synthesised holder is linked to it. Every other original is unchanged. |
| EnumMerger.BacklinksOnlyLinks | lib/enums/enum-merger.ts:33-35 | Back-linking changes only `replacedBy`. |
| EnumMerger.MergedSplit | lib/enums/enum-merger.ts:32-36 | The result is the back-linked originals followed by the synthesised holders. |
| EnumMerger.Merged | lib/enums/enum-merger.ts:32-36 | The result has the input's length plus one per stored holder, and ends with the stored holders in insertion order. |
| EnumMerger.MergedShape | lib/enums/enum-merger.ts:36 | The originals keep their positions and all fields but `replacedBy`. The synthesised holders follow them, at most one per shared group. |
| EnumMerger.MergedLinks | lib/enums/enum-merger.ts:33-36 | Every member of a synthesised holder points to that holder's position. Originals that no synthesised holder claims are unchanged. |
| EnumMerger.MergedSynthesized | lib/enums/enum-merger.ts:32-36 | Every appended holder is the candidate of a group. |
| EnumMerger.MergedWellLinked | lib/enums/enum-merger.ts:33-36 | When the input has no links, every link points to a holder that itself has no link, and only into the appended part. |
| EnumMerger.LinkReplacements | lib/enums/enum-merger.ts:33-35 | The nested loops produce the back-linked registry. |
| EnumMerger.MergeEnums | lib/enums/enum-merger.ts:7-37 | The result is the merged registry. The originals come first, changed at most in `replacedBy`, and the synthesised holders follow. Members point to their replacement. The result is well linked when the input has no links. |
| EnumMatcher.LevStep | lib/enums/enum-matcher.ts:49-74 | The recurrence: equal last characters cost nothing; otherwise the cheapest deletion, insertion or substitution plus one. |
| EnumMatcher.LevZeroIffEqual | lib/enums/enum-matcher.ts:49-74 | The distance is 0 exactly for equal strings. |
| EnumMatcher.LevEmpty | lib/enums/enum-matcher.ts:49-74 | The distance to the empty string is the length. |
| EnumMatcher.LevAtMostLonger | lib/enums/enum-matcher.ts:49-74 | The distance is at most the longer length. |
| EnumMatcher.LevSymmetric | lib/enums/enum-matcher.ts:49-74 | The distance is symmetric. |
| EnumMatcher.EditDistance | lib/enums/enum-matcher.ts:49-74 | The single-row loop computes the Levenshtein distance of the lower-cased strings. |
| EnumMatcher.NextRow | lib/enums/enum-matcher.ts:55-71 | After pass `i` the cost row holds the distance of the first `i` characters of one string to every prefix of the other. |
| EnumMatcher.FirstRow | lib/enums/enum-matcher.ts:56-58 | The first pass sets every cell to its index, the distance from the empty prefix. |
| EnumMatcher.LaterRow | lib/enums/enum-matcher.ts:59-71 | A later pass turns the row for `i - 1` characters into the row for `i` characters. |
| EnumMatcher.Similarity | lib/enums/enum-matcher.ts:35-47 | The similarity of two field names lies between 0 and 1. |
| EnumMatcher.SimilarityOneIffSameLowerCase | lib/enums/enum-matcher.ts:35-47 | The similarity is 1 exactly when the strings are equal ignoring case. |
| EnumMatcher.SimilaritySymmetric | lib/enums/enum-matcher.ts:35-47 | The similarity is symmetric. |
| EnumMatcher.ComputeSimilarity | lib/enums/enum-matcher.ts:35-47 | The computed ratio is the similarity, between 0 and 1. |
| EnumMatcher.FirstBest | lib/enums/enum-matcher.ts:25-30 | The first position of a maximal score: no score is higher, and every earlier score is lower. |
| EnumMatcher.FindCorresponding | lib/enums/enum-matcher.ts:20-31 | Nothing is found exactly when no holder has the same option set as the view column; a found holder is one of those with that set. |
| EnumMatcher.FindCorrespondingMeaning | lib/enums/enum-matcher.ts:20-31 | Nothing is found exactly when no holder has the same option set. A found holder is in the registry and has the same option set. |
| EnumMatcher.FindCorrespondingBest | lib/enums/enum-matcher.ts:25-30 | Among several matches, the result is the first most similar by field name. |
| EnumMatcher.FollowFinal | lib/enums/enum-matcher.ts:10-17 | Following a link in a well-linked registry lands on a registry holder that has no link. |
| EnumMatcher.Resolve | lib/enums/enum-matcher.ts:8-17 | In a well-linked registry, any holder returned is a registry holder that is not itself replaced. |
| EnumMatcher.ResolveMeaning | lib/enums/enum-matcher.ts:6-18 | With exactly one exact match, the result is its replacement or the match itself. Otherwise the result is the replacement of a holder with the same option set, and it is absent exactly when no holder has that set. |
| EnumMatcher.RegistryWellLinked | lib/enums/enum-matcher.ts:7 | The registry built from a schema is well linked. |
| EnumMatcher.Run | lib/enums/enum-matcher.ts:6-18 | The answer is the resolution against the registry. Any holder returned is an unreplaced registry holder. |
| SchemaOperator.PkColumnsMembers | lib/schema-operator.ts:25-37 | A column is listed exactly when it is a primary-key column of the table. |
| SchemaOperator.PkColumnsEmpty | lib/schema-operator.ts:31-36 | The list is empty exactly when the table has no primary key. |
| SchemaOperator.GetPkCols | lib/schema-operator.ts:25-37 | There is no answer exactly for an empty table name. Otherwise the columns listed are the primary-key columns of the table, in column order, and none for an unknown table. |
| SchemaOperator.PrimaryKeyNamesMeaning | lib/schema-operator.ts:58-64 | The names are absent exactly for an empty name, an unknown table or a table without a primary key. Otherwise they are the primary-key fields, in column order. |
| SchemaOperator.GetPrimaryKeyNames | lib/schema-operator.ts:58-64 | Computes the primary-key names. |
| SchemaOperator.RemovePrimaryKeys | lib/schema-operator.ts:13-17 | Fails exactly when the name list is absent. Otherwise the result is the record without the primary-key entries, in record order. |
| SchemaOperator.RetainedMeaning | lib/schema-operator.ts:19-23 | The projection's keys are exactly the names, once each, and each carries the record's value or none. |
| SchemaOperator.RetainPrimaryKeys | lib/schema-operator.ts:19-23 | Fails exactly when the name list is absent. Otherwise the result is the projection onto the primary-key names. |
| SchemaOperator.RemoveRetainPartition | lib/schema-operator.ts:13-23 | Every record entry lands in exactly one of the two results, with its value. |
| SchemaOperator.StripNoneBelonging | lib/schema-operator.ts:45-52 | An unknown table fails exactly when the record has a key. Otherwise the result holds the record's entries whose keys name columns, in record order. |
| SchemaOperator.StripIdempotent | lib/schema-operator.ts:45-52 | Stripping twice strips once. |
| Cleaner.Cleaned | lib/cleaner.ts:10-18 | The result holds exactly the allowed keys of the item other than `createdAt`. Their values are unchanged and their relative order is kept. |
| Cleaner.DropDisallowed | lib/cleaner.ts:11-17 | The deletion loop leaves exactly the allowed entries. |
| Cleaner.CleanFromDictionary | lib/cleaner.ts:6-20 | An absent item gives nothing. A present item with no allow-list fails. Otherwise the result is the cleaned copy. |
| Cleaner.CleanByArray | lib/cleaner.ts:22-31 | Same as cleaning against a dictionary of the listed keys. It never fails. |
| Cleaner.CleanByTableName | lib/cleaner.ts:33-36 | Cleans against the table's column names. A present item fails exactly when the table is unknown. |
| Cleaner.CleanedIdempotent | lib/cleaner.ts:6-20 | Cleaning twice cleans once. |
| Cleaner.CleanedByTableIsStripped | lib/cleaner.ts:33-36 | Cleaning by a table is stripping the keys that name no column, then deleting `createdAt`. |
| SpBuilder.InsertByOrdinalPermutes | lib/sp-builder.ts:63-65 | Insertion adds exactly the new parameter. |
| SpBuilder.InsertByOrdinalSorted | lib/sp-builder.ts:63-65 | Insertion keeps the order ascending by position. |
| SpBuilder.SortByOrdinal | lib/sp-builder.ts:63-65 | The result is sorted by ascending `ordinalPosition` and is a permutation of the input. |
| SpBuilder.InParamsMeaning | lib/sp-builder.ts:58-65 | The list holds exactly the procedure's `IN` parameters, with their multiplicities, in ascending position. It is empty exactly when there is no `IN` parameter. |
| SpBuilder.FunctionInputMeaning | lib/sp-builder.ts:67-79 | The name is kept and camel-cased. Both lists are empty exactly when there is no `IN` parameter. Otherwise the argument list starts with `, ` and the first name, and the typed list starts with the first `name: type`. With one `IN` parameter the argument list is exactly `, ` and its name, and the typed list exactly its `name: type`. |
| SpBuilder.CollectParameters | lib/sp-builder.ts:58-61 | The loop collects the parameters in dictionary order. |
| SpBuilder.RenderFunction | lib/sp-builder.ts:57-81 | Builds the template input of the procedure. |
| SpBuilder.RenderTemplate | lib/sp-builder.ts:39-47 | One function input per procedure, in dictionary order. |
| TsBuilder.NormFolder | lib/ts-builder.ts:27-35 | An empty folder stays empty. A non-empty result ends in `/` or `\`. The input is a prefix of the result, which is at most one `/` longer. |
| TsBuilder.NormFolderIdempotent | lib/ts-builder.ts:27-35 | Normalising twice normalises once. |
| TsBuilder.FilenameEnding | lib/ts-builder.ts:302-307 | The ending is `.generated.ts` when generated files are suffixed and `.ts` otherwise. It always ends in `.ts`. |
| TsBuilder.GeneratedEndingExtendsPlain | lib/ts-builder.ts:302-307 | The suffixed ending is `.generated` followed by the plain ending, so the two differ. |

## Left out

- Database access is not modelled; the rows it returns are parameters. This covers knex queries, `renderDatabaseSchema`, `getDatabaseName`, `listViews`, `listTables`, `listColumns`, the `Promise.all` fan-out of `renderModel`, `listStoredProcedures` and `listStoredProcedureParams`, including the camel-casing of parameter row keys.
- Parsing of enum value lists into `enumValues`: no code shown sets it, so it is an input.
- The change-case functions (`constantCase`, `pascalCase`, `camelCase`) and `longestCommonSubstring` are function parameters. No property of them is assumed. The file that implements `longestCommonSubstring` is not part of this model.
- File writing and template rendering are not modelled. This covers `renderEnumString`, `QlEnumBuilder`, the Handlebars text of the stored-procedure file (the model stops at the template input) and the rest of `lib/ts-builder.ts`.
- JavaScript object quirks are not modelled:
  - JSON deep-copy semantics (dropping `undefined` values and functions);
  - integer-like keys sorting first;
  - inherited properties such as `constructor` counting as columns in `stripNoneBelonging`.
- ModelBuilder.LowerKeys: lower-cases ASCII letters only; Unicode case mapping is not modelled.
- ModelBuilder.GetMysqlLength: the length is an exact natural number. `parseInt` returns a double, so the code rounds values above 2^53 (the digits `102030405060708090` give 102030405060708096 there) and the model does not.
- ModelBuilder.NormalizeColumn: raw keys other than the column attributes are not carried into the normalised column. Raw records must have `field` and `type`, as the column interface requires.
- EnumMatcher.Similarity: an exact rational (`real`), not a floating-point number.
- EnumMatcher.EditDistance and EnumMatcher.Similarity: case folding lower-cases ASCII letters only, while the code's `toLowerCase` maps all of Unicode (`lib/enums/enum-matcher.ts:50-51`); so `É` and `é` are at distance 1 here and 0 there. Lengths count characters (code points), while the code counts UTF-16 code units (`lib/enums/enum-matcher.ts:38`, `:42`, `:54-73`), so strings outside the Basic Multilingual Plane get other lengths and distances.
- EnumMerger.Merged: holders are identified by registry position. `replacedBy` and `replacementFor` hold positions, and setting `replacedBy` on the shared holder objects is modelled as returning the updated registry, so aliasing is not modelled. Extracted holders have an empty `replacementFor` instead of none.
- EnumMatcher.FindCorresponding: the in-place descending sort is modelled by its head, the first holder of maximal similarity, as a stable sort gives. Engines whose sort is not stable may return another holder of equal similarity.
- SpBuilder.SortByOrdinal: models `params.sort` as a stable sort. Parameters with equal positions keep dictionary order, which engines whose sort is not stable need not do.
- EnumMerger.SetLinks: a position outside the registry is skipped. The source links holder objects, so it has no such case, and `EnumMerger.SynthesizedTargets` shows the merger never produces one.
- EnumMatcher.Follow: requires the link to be a registry position, which every well-linked registry guarantees.
- Cleaner.CleanFromDictionary: a falsy item is an absent item. Falsy non-object values (`0`, `""`, `false`) are not distinguished from it.
- SchemaOperator.RetainPrimaryKeys: an `undefined` value copied from the record is represented as `None`.
