# DataBond core, modelled in Dafny

DataBond copies a relational database into another engine with SQLAlchemy
and then checks the copy. This project models the logic of that tool with
reflection, sessions and logging replaced by plain data:

- `insert_order.dfy` (module `InsertOrder`): `sort_mappers`, which puts the
  mapped tables in an insert order that satisfies their foreign keys. It is
  a method over the pending table names and the growing `order`, one pass at
  a time, each pass over a snapshot of the pending names.
- `verification.dfy` (module `Verification`): `verify`. Phase 1 checks
  that every source column exists in the destination and returns
  VERIFICATION_FATAL (2) on the first one missing. Phase 2 looks every source
  row up in the destination by its primary-key columns, compares every
  column, and returns VERIFICATION_SUCCESS (1) or VERIFICATION_DIFF (3). A
  lookup that finds zero or several rows makes `dest_query.one()` raise.
- `naming.dfy` (module `Naming`): `get_db_name` and
  `make_primary_key_logline`, with Python's `str.split` and the `%`
  operator on one string argument written out.
- `checks.dfy` (module `Checks`): `check_sqlite_indexes` and
  `check_create`, the scan for an index name used twice.
- `basics.dfy` (module `Basics`): `Option`, sequences without repeats.

Values in rows are a type parameter with equality. Integers are unbounded;
the source has no fixed-width arithmetic.

Where the code and its design description disagree, the model follows the
code:

- `sort_mappers` has no cycle or dangling-reference error. It loops forever
  when a pass moves no table. The model returns `Stuck` at that point and
  proves that the next pass would change nothing (`StuckRepeats`).
- `.one()` on zero or several matches raises out of `verify`; it is not
  recorded as a difference. The model returns `Raised`.
- Phase 2 compares every mapped column, key columns included, not only the
  non-key columns.
- Phase 1 looks a table up only while checking one of its columns, so a
  source table with no columns passes even when the destination lacks it.

## Model

| member | source | states |
|---|---|---|
| InsertOrder.ClassDict | datahoser.py:104 | `dict(classes)` has exactly the input names as keys; each maps to the referred tables of the last pair with that name |
| InsertOrder.KeyOrder | datahoser.py:104 | the dictionary's iteration order lists every input name once and nothing else |
| InsertOrder.Classlist | datahoser.py:104-108 | after the delete, `classlist` holds every input name except `_sa_module_registry` |
| InsertOrder.RegistryDropped | datahoser.py:104-108 | dropping the registry from the dictionary and from its key order leaves each table to place pending exactly once, with nothing placed |
| InsertOrder.RemoveFirstCount | datahoser.py:127 | `list.remove(x)` takes away exactly one `x` when there is one and changes nothing else |
| InsertOrder.CanInsert | datahoser.py:118-130 | the insert test is true exactly when every referred table, minus one self-reference, is already in `order` |
| InsertOrder.ScanPass | datahoser.py:116-134 | one pass over a snapshot of the pending names: `order` grows as `PassOrder` says (a table placed earlier in the pass can let a later one through); the names left pending are the snapshot's names not in the new order, in their order |
| InsertOrder.PassKeepsValid | datahoser.py:119-132 | a pass keeps `order` free of repeats, made of known tables, and each table after every table it waits for |
| InsertOrder.PassStep | datahoser.py:115-137 | a pass keeps the order valid and the pending list equal to the known tables not yet placed; it never grows the pending list; a pass that removes nothing appends nothing and leaves every pending table blocked |
| InsertOrder.UnconstrainedPlacedWhenScanned | datahoser.py:118-122 | a table without foreign-key constraints is in `order` once the pass has scanned it |
| InsertOrder.BlockedPassIsIdentity | datahoser.py:115-137 | a pass over tables that are all placed or blocked leaves `order` unchanged |
| InsertOrder.StuckRepeats | datahoser.py:113-115 | in the stuck state a pass appends nothing and deletes nothing, so `while True` never ends |
| InsertOrder.SortMappers | datahoser.py:97-139 | the result is a valid insert order; when sorted it holds exactly the tables of `classlist`; when stuck, the pending tables are the unplaced ones and all blocked; it sorts exactly when every foreign key names a copied table and the dependencies have no cycle; it makes at least one pass and at most max(1, table count) passes |
| InsertOrder.SortedIsAcyclic | datahoser.py:136-139 | a valid order holding every table shows every foreign key names a copied table and the dependencies have no cycle |
| InsertOrder.AcyclicNeverBlocked | datahoser.py:113-137 | with closed, acyclic dependencies some pending table is always ready, so every pass makes progress |
| InsertOrder.BlockedMeansCycleOrDangling | datahoser.py:113-115 | when every pending table is blocked, some foreign key names a table outside the copy or the dependencies have a cycle |
| InsertOrder.ForeignKeyPrecedes | datahoser.py:124-132 | in the order, each table named by a foreign key of a placed table, other than itself, comes before it |
| InsertOrder.SelfReferenceIgnored | datahoser.py:124-130 | with at most one reference to itself, a table waits exactly for its other referred tables |
| InsertOrder.DoubleSelfReferenceBlocks | datahoser.py:124-130 | with two references to itself, `remove` drops only one, so the table waits for itself |
| InsertOrder.DoubleSelfReferenceNeverPlaced | datahoser.py:124-132 | such a table never enters a valid order |
| InsertOrder.DanglingReferenceNeverPlaced | datahoser.py:124-132 | a table with a foreign key to a table outside the copy never enters a valid order |
| InsertOrder.MutualReferenceNeverPlaced | datahoser.py:124-132 | two tables that refer to each other never enter a valid order |
| Verification.CheckStructure | datahoser.py:182-194 | phase 1 passes exactly when every source table with a column exists in the destination and holds each of its columns |
| Verification.FatalExactlyOnMissingStructure | datahoser.py:180-194 | VERIFICATION_FATAL comes back exactly when a source table with a column is missing from the destination, or one of its columns is |
| Verification.FatalComparesNoRows | datahoser.py:186-194 | a fatal result is decided before any row is compared: no tallies |
| Verification.MatchesNoKey | datahoser.py:210 | the unfiltered query returns every destination row |
| Verification.FilterRefines | datahoser.py:213-215 | one more `filter` on a key column keeps exactly the rows that also agree on that column |
| Verification.LookupRow | datahoser.py:209-215 | the query built with one filter per key column returns exactly the destination rows that agree with the source row on every key column, in table order |
| Verification.MatchesCount | datahoser.py:218 | the match count and first match used by the row outcome are the length and head of the query result |
| Verification.CompareRow | datahoser.py:220-224 | `mismatch` is set exactly when the rows differ on some mapped column; every column is compared |
| Verification.VerifyRow | datahoser.py:208-224 | one source row either raises with the number of matches, or is compared with its single match |
| Verification.ScanRowsSpec | datahoser.py:205-229 | a table's row loop completes exactly when every lookup is unique, counts every row exactly when every row agrees, and otherwise raises at the first lookup that is not unique |
| Verification.ScanCountsVerifiedRows | datahoser.py:205-231 | a completed row loop's count is the number of source rows whose lookup is unique and which agree with their match on every column |
| Verification.VerifyTable | datahoser.py:205-231 | the row loop of one table gives the row scan, and it flags a difference exactly when it completes with fewer verified rows than source rows |
| Verification.DataPhase | datahoser.py:196-233 | phase 2 returns only SUCCESS or DIFF, and each table's verified count never exceeds its row count |
| Verification.Verify | datahoser.py:161-233 | `verify` returns or raises as the two phases say |
| Verification.SuccessExactlyWhenAllRowsAgree | datahoser.py:166-233 | VERIFICATION_SUCCESS comes back exactly when the structure matches and every row of every keyed table finds one destination row that agrees on every column |
| Verification.DiffExactlyWhenSomeRowDiffers | datahoser.py:221-229 | VERIFICATION_DIFF comes back exactly when the structure matches, every lookup is unique, and some row differs |
| Verification.MissingRowRaises | datahoser.py:218 | a source row with no destination row makes `verify` raise rather than report a difference |
| Verification.RaisedOnFirstBadLookup | datahoser.py:198-218 | when `verify` raises, the structure matched and the error is at the first row, in table-then-row order, whose key matched zero or several rows |
| Verification.IdenticalCopyVerifies | datahoser.py:161-233 | a destination holding every source table with at least its columns and exactly its rows verifies with VERIFICATION_SUCCESS |
| Naming.JoinSplit | datahoser.py:91 | joining the pieces of `split('.')` gives the name back |
| Naming.DbName | datahoser.py:88-95 | for sqlite with a '.' in the name, the result is the dot-free text before the first '.'; for other engines, or without a '.', the name is kept |
| Naming.DbNameCutsAtFirstDot | datahoser.py:91 | as written, the sqlite file "a.b.db" gives the database name "a" |
| Naming.DbNameWithoutExtension | datahoser.py:88-95 | corrected: for sqlite with a '.', the result plus '.' plus a dot-free extension is the name |
| Naming.SingleDotAgrees | datahoser.py:91 | on a name with one '.', the code and the corrected version agree |
| Naming.KeyFieldsAppend | datahoser.py:39-43 | the key fields of two key lists joined are the fields of the first followed by those of the second |
| Naming.KeyFieldsAt | datahoser.py:39-43 | the field `k: {k}, ` of each key sits, in key order, between the fields of the keys before and after it |
| Naming.Format | datahoser.py:45 | `line % arg` on text without '%' gives the text back once the argument is used, and fails (not all arguments converted) while it is unused |
| Naming.FormatOnePlaceholder | datahoser.py:45 | a line whose only '%' opens one `%s` gets the argument in its place |
| Naming.MakePrimaryKeyLogline | datahoser.py:33-45 | the result is the line formatted with the concatenated key fields |
| Naming.NoKeysInsertNothing | datahoser.py:39-45 | with no keys the `%s` is replaced by nothing |
| Checks.CheckSqliteIndexes | checks.py:3-10 | the check raises exactly when some index name occurs twice across all tables; the error names the first repeated name in table-then-index order; `indexes` never holds a duplicate and, on success, holds every name |
| Checks.CheckCreate | checks.py:12-14 | `check_create` succeeds exactly when the index names are all different, and otherwise names a first repeat |
| Checks.CheckResultDetermined | checks.py:12-14 | any two results meeting that contract are equal, so `check_create` behaves as `check_sqlite_indexes` |
| Checks.SharedIndexFails | checks.py:5-10 | two tables sharing an index name fail the check |
| Checks.RepeatWithinTableFails | checks.py:5-10 | one table repeating an index name fails the check |

## Left out

- `copy` (datahoser.py:141-159): database I/O through `query`, `merge`, `flush` and `commit`; its only logic, visiting tables in `sort_mappers` order, is the resolver.
- Schema reflection (`automap_base().prepare`) and the ORM query builder: replaced by `Mapper`, `SourceTable` and `DestTable` values. Phase 1 iterates `metadata.tables` and phase 2 iterates `classes`; both are modelled as one list of source tables.
- Logging: `set_loglevel`, `log_row_with_primary_key`, `get_primary_key_params`, `log_diff` and the completion messages (datahoser.py:12-31, 47-70, 168-177, 300-313). `make_primary_key_logline` is modelled, the logger is not.
- `create_dest_db` and the command-line block (datahoser.py:72-86, 235-313): connection strings, DDL and process exit.
- databond.py and dbmapping.py are not part of this model: the first is an unfinished code generator doing file I/O, the second SQLAlchemy compiler hooks.
- Value equality in `verify` (datahoser.py:221) on database values, floats and encodings included: values are an abstract type with equality.
- The iteration order of `metadata.tables` (a dictionary) and of each `Table.indexes` (a set) in checks.py: `Checks.Table` lists both as sequences standing for that order, so "the first repeated name" is the first in whatever order Python iterates them; whether the check fails does not depend on the order.
- `classlist.items()` is taken to return a list copy, as under Python 2, so deleting from `classlist` inside the `for` loop (datahoser.py:122, 134) is safe; under Python 3 that deletion raises RuntimeError, which the model does not capture.
- The order Python 2 gives dictionary keys: `KeyOrder` uses first-insertion order; any order of distinct names is some input, and every property is proved for all of them.
- `InvalidDB` and the exceptions of `.one()`: modelled as results carrying the repeated index name, or the table, row and match count; the message texts are not modelled.
- InsertOrder.SortMappers: does not loop forever on a cycle or a dangling foreign key; it stops with `Stuck` after the first pass that removes nothing, and `StuckRepeats` proves every later pass would repeat it.
- Verification.Verify: requires every row to carry its table's columns and every destination table to hold its declared columns in every row. Reflection guarantees this in the source; `.one()`'s exceptions are covered.
- Naming.Format: models only the `%s` and `%%` conversions with one string argument; other conversions are modelled as errors.
- Naming: `str.format` on the resulting log line belongs to the logging and is left out.
- Immutability of the caller's `classes`: Dafny sequences are values, so the copy at datahoser.py:104 needs no proof.

## Findings

| source | as written | input that shows it | evidently intended | confidence | as-written member | corrected member |
|---|---|---|---|---|---|---|
| datahoser.py:91 | `database.rsplit('.')[0]` without a maxsplit splits at every '.', so the name is cut at the first '.' | the sqlite file "a.b.db" gives "a" (and a path through a dotted directory loses everything from that directory on) | strip only the file extension, `rsplit('.', 1)[0]`, giving "a.b" | medium, not executed | Naming.DbNameCutsAtFirstDot | Naming.DbNameWithoutExtension |
