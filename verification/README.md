# ClickHouse table schema (`ColumnsDescription`) in Dafny

This project models the in-memory schema of a ClickHouse table, the class
`ColumnsDescription` of `dbms/src/Storages/ColumnsDescription.h`. The schema
is an ordered sequence of column descriptions (`ColumnDescription`: name, data
type, default, comment, codec, TTL, virtual flag). The C++ code keeps them in a
Boost `multi_index_container` that has two indices: a sequenced index, which
gives the table's column order, and an `ordered_unique` index on the column
name, which gives lookup by name. This schema is what `ALTER TABLE ... ADD
COLUMN ... [AFTER x]` changes and what `DESC TABLE` reports.

Files:

- `wrappers.dfy`, module `Wrappers`: `Option`, `Result` and `Outcome`. The
  model returns these where the C++ code throws an exception.
- `columns.dfy`, module `Columns`: the value model.
  - The column datatype and `operator==`/`!=` on one column.
  - The container invariant `UniqueNames` and lookup by name (`IndexOf`).
  - Element-wise equality of two schemas.
  - The effect of `add`, `remove` and `modify` on a column sequence, as
    functions returning a `Result` (`Added`, `Removed`, `Modified`).
  - The category projections.
  - The lemmas about all of these.
- `storages.dfy`, module `Storages`: the class `ColumnsDescription`.
  - Its field `columns` is a `seq`, and `Valid()` is the unique-name invariant.
  - `Add`, `Remove` and `Modify` update `columns` in place. Each one's
    `ensures` ties the new state and the outcome to the matching function of
    `Columns`.
  - The read-only queries are functions over `columns`.

The C++ pointer types are type parameters: `T` is `DataTypePtr`, `E` is `ASTPtr`
(default expressions and TTLs) and `C` is `CompressionCodecPtr`. A null pointer
is `None`.

`ColumnDefault.h` is not part of this model. The category getters need the
default's kind, so a default is modelled as a kind (`Default`, `Materialized`
or `Alias`) plus an opaque expression. A virtual column counts only among the
virtuals. Every other column counts under its default kind.

Of the mutators and lookups, only `modify` has a visible body. The
description's `operator==` and `operator!=` (ColumnsDescription.h:65-66), the
column's `operator!=` (:41) and `begin`/`end` (:68-69) are one-line inline
bodies, modelled as written. The column's `operator==` (:40) is only declared
and is modelled as member-wise equality (see "Left out"). For the other
operations, the model follows the declarations, their comments and the
unique-name index:
- `add` refuses a name that is already present.
- `add` with a non-empty `after_column` refuses an `after_column` that names no
  column. Otherwise it places the new column directly after that column.
- `remove` and `get` refuse a missing name.
- `getAllPhysical` is ordinary followed by materialized, and `getAll` is
  ordinary, materialized, aliases, then virtuals, as the header's comments
  state.

On `modify`, the code and its error message differ. The message says "column
name cannot be changed". But the code reports that error only when the name
index refuses the edit, and the index refuses it only when the edited name
already belongs to ANOTHER column. An edit that renames a column to an unused
name succeeds. It keeps the column's position in the sequence. The model
follows the code (`Columns.ModifiedFailsOnNameCollision`).

## Model

| member | source | states |
|---|---|---|
| `Columns.ColumnEquals` | dbms/src/Storages/ColumnsDescription.h:40 | Member-wise comparison of two columns holds exactly when the two columns are equal. |
| `Columns.ColumnNotEquals` | dbms/src/Storages/ColumnsDescription.h:41 | A column's `!=` holds exactly when the two columns differ, which is the negation of `==`. |
| `Columns.IndexOf` | dbms/src/Storages/ColumnsDescription.h:88-89 | Lookup by name yields a position holding that name, with no earlier column of that name. It yields nothing exactly when no column has the name. |
| `Columns.IndexOfUnique` | dbms/src/Storages/ColumnsDescription.h:109-114 | Under the unique-name invariant, looking up the name of the column at position i finds position i. |
| `Columns.SequenceEquals` | dbms/src/Storages/ColumnsDescription.h:65 | Comparing two schemas element by element with the column `==` holds exactly when the two sequences are equal. |
| `Columns.ReorderedNotEqual` | dbms/src/Storages/ColumnsDescription.h:65 | Swapping two columns of a schema gives the same multiset of columns but an unequal schema. Order matters to `==`. |
| `Columns.Added` | dbms/src/Storages/ColumnsDescription.h:55-56 | `add` fails exactly when the name is taken, or when `after_column` is non-empty and absent, and reports which. On success the schema grows by one. |
| `Columns.AddedKeepsNamesUnique` | dbms/src/Storages/ColumnsDescription.h:56 | A successful `add` keeps the names pairwise distinct, and the new name is then present. |
| `Columns.AddedPlacesColumn` | dbms/src/Storages/ColumnsDescription.h:55-56 | With an empty `after_column` the result is the old columns followed by the new one. Otherwise it is the old columns up to and including `after_column`, then the new column, then the rest. Lookup by name finds `after_column` where it was and the new column directly after it. |
| `Columns.Removed` | dbms/src/Storages/ColumnsDescription.h:57-58 | `remove` fails exactly when no column has the name. On success the schema shrinks by one. |
| `Columns.RemovedDropsOnlyThatColumn` | dbms/src/Storages/ColumnsDescription.h:58 | After `remove` the name is gone and every other name is present exactly when it was before. Names stay distinct. |
| `Columns.RemovedKeepsOthersInOrder` | dbms/src/Storages/ColumnsDescription.h:57-58 | Removing the column at position k gives exactly the columns before k followed by the columns after k, unchanged and in order. |
| `Columns.RemovedAfterAdded` | dbms/src/Storages/ColumnsDescription.h:56-58 | `remove` of the added name undoes any successful `add`, wherever the column was placed. |
| `Columns.AddedAfterRemoved` | dbms/src/Storages/ColumnsDescription.h:56-58 | Adding a removed column back after its predecessor restores the original schema; so does appending it when it was last. |
| `Columns.AppendedAfterRemoved` | dbms/src/Storages/ColumnsDescription.h:56-58 | Removing the last column, the only column of a one-column schema included, and appending it again restores the original schema. |
| `Columns.Modified` | dbms/src/Storages/ColumnsDescription.h:85-93 | `modify` fails with "Cannot find column" exactly when the name is absent. Its only other failure is "column name cannot be changed". Success keeps the length. |
| `Columns.ModifiedFailsOnNameCollision` | dbms/src/Storages/ColumnsDescription.h:88-92 | `modify` of a present column fails with "column name cannot be changed" exactly when the edited name is held by another column. Otherwise it replaces just that column. |
| `Columns.ModifiedKeepingName` | dbms/src/Storages/ColumnsDescription.h:86-92 | An edit that keeps the column's name succeeds. It updates exactly that column, and every other column and the order stay unchanged. |
| `Columns.ModifiedKeepsNamesUnique` | dbms/src/Storages/ColumnsDescription.h:91-92 | A successful `modify` keeps the names pairwise distinct. |
| `Columns.ProjectListsCategory` | dbms/src/Storages/ColumnsDescription.h:71-74 | Each category projection lists the name and type of every column of its category, and nothing else. |
| `Columns.ProjectInOrder` | dbms/src/Storages/ColumnsDescription.h:71-74 | Each category projection holds one entry per column of its category, at strictly increasing positions covering all of them: each such column once, in sequence order. |
| `Columns.ProjectNamesDistinct` | dbms/src/Storages/ColumnsDescription.h:71-74 | Under the unique-name invariant, no category projection lists a name twice. |
| `Columns.InOrderLists` | dbms/src/Storages/ColumnsDescription.h:71-74 | A list holding each column of a category once, in sequence order, lists every column of that category and nothing else. |
| `Columns.AllPhysicalLists` | dbms/src/Storages/ColumnsDescription.h:75 | The physical list splits into the ordinary columns in sequence order, each once, followed by the materialized columns in sequence order, each once. Together they are exactly the columns that are neither aliases nor virtual. |
| `Columns.AllIsPermutationOfColumns` | dbms/src/Storages/ColumnsDescription.h:76 | Ordinary + materialized + aliases + virtuals is a permutation of all columns: each column is listed exactly once. |
| `Columns.AllLists` | dbms/src/Storages/ColumnsDescription.h:76 | The concatenation of the four categories lists every column and nothing else. |
| `Columns.AlterTestColumnOrder` | tests/integration/test_replicated_database/test.py:41-43 | The statements ADD Added0, ADD Added2, then ADD Added1 AFTER Added0 all succeed on a table without those names. They leave the three columns at the end in the order Added0, Added1, Added2. |
| `Storages.ColumnsDescription.constructor` | dbms/src/Storages/ColumnsDescription.h:52 | The default constructor gives an empty, valid description. |
| `Storages.ColumnsDescription.Add` | dbms/src/Storages/ColumnsDescription.h:55-56 | Keeps the unique-name invariant. On success the new state is `Added` of the old one. On failure it reports `Added`'s error and changes nothing. |
| `Storages.ColumnsDescription.Remove` | dbms/src/Storages/ColumnsDescription.h:57-58 | Keeps the invariant. On success the new state is `Removed` of the old one. On failure it reports "no such column" and changes nothing. |
| `Storages.ColumnsDescription.Modify` | dbms/src/Storages/ColumnsDescription.h:85-93 | Keeps the invariant. On success the new state is `Modified` of the old one. "Cannot find column" leaves the state unchanged, and "column name cannot be changed" is reported as such. |
| `Storages.ColumnsDescription.Elements` | dbms/src/Storages/ColumnsDescription.h:68-69 | Iteration yields exactly the stored column sequence, in order, with distinct names. Looking up each iterated column by name returns that column. |
| `Storages.ColumnsDescription.Has` | dbms/src/Storages/ColumnsDescription.h:81 | `has` holds exactly when some column carries the name. |
| `Storages.ColumnsDescription.Get` | dbms/src/Storages/ColumnsDescription.h:83 | `get` succeeds exactly when `has` holds, and then returns the one column with that name. Otherwise it reports "no such column". |
| `Storages.ColumnsDescription.Equals` | dbms/src/Storages/ColumnsDescription.h:65 | Two descriptions are `==` exactly when their column sequences are equal, order included. |
| `Storages.ColumnsDescription.NotEquals` | dbms/src/Storages/ColumnsDescription.h:66 | `!=` holds exactly when the column sequences differ. |
| `Storages.ColumnsDescription.GetOrdinary` | dbms/src/Storages/ColumnsDescription.h:71 | Lists each non-virtual column of default kind DEFAULT exactly once, in sequence order, and nothing else. |
| `Storages.ColumnsDescription.GetMaterialized` | dbms/src/Storages/ColumnsDescription.h:72 | Lists each non-virtual MATERIALIZED column exactly once, in sequence order, and nothing else. |
| `Storages.ColumnsDescription.GetAliases` | dbms/src/Storages/ColumnsDescription.h:73 | Lists each non-virtual ALIAS column exactly once, in sequence order, and nothing else. |
| `Storages.ColumnsDescription.GetVirtuals` | dbms/src/Storages/ColumnsDescription.h:74 | Lists each virtual column exactly once, in sequence order, and nothing else. |
| `Storages.ColumnsDescription.GetAllPhysical` | dbms/src/Storages/ColumnsDescription.h:75 | Is the ordinary list followed by the materialized list, each in sequence order. Lists exactly the columns that are neither aliases nor virtual. |
| `Storages.ColumnsDescription.GetAll` | dbms/src/Storages/ColumnsDescription.h:76 | Is physical + aliases + virtuals, and lists every column exactly once. |

## Left out

- Storages.ColumnsDescription.Modify: when the edit is refused because the new name belongs to another column, the contract does not say what becomes of the edited column. That is container-library behaviour not visible in the source.
- `rename` is declared with only a TODO, so it has no visible meaning to model.
- Nested columns are not modelled. This covers `flattenNested`, `hasNested`, and Nested names given to `add`/`remove`/`after_column`. Their naming rules are not visible. `AFTER n` places the column after the single column called `n`.
- The constructor from a `NamesAndTypesList` with `all_virtuals` is not modelled. Its body is not visible, including how it treats duplicate names.
- `getNamesOfPhysical`, `hasPhysical`, `getPhysical`, `getDefaults`, `hasDefault` and `getDefault` are not modelled. Their bodies are not visible.
- `getColumnTTLs` and `getCodecOrDefault` deal only in opaque TTL and codec pointers.
- `toString`, `parse`, `ColumnDescription::writeText` and `readText` are not modelled, because the text format's bodies are not visible.
- `validateColumnsDefaultsAndGetSampleBlock` is not modelled. It needs a query context, expression analysis and type casting.
- The exception codes and messages of `add`, `remove` and `get` are not in the header. They are modelled as distinct error values without codes.
- `ColumnDescription::operator==` is modelled as member-wise value equality. Comparing data types, codecs and TTL expressions by their own equality is not modelled.
- The integration tests are not modelled. They start a ZooKeeper-backed cluster, use threads and sleeps, and compare query output. The replicated DDL log, the merge and mutation scheduler and `system.merges` are not part of this model.
