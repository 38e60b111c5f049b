# DatabaseWriter reconciliation, modelled in Dafny

This project models the write side of the L21s import: the `DatabaseWriter`
class that pushes a CSV snapshot into a MySQL table.

`insertDataInUsers` and `insertDataInUserPermissions` do the same four things:

1. They skip the header line.
2. They turn each data line into an `INSERT ... ON DUPLICATE KEY UPDATE`
   statement and execute these statements in batches of `batchSize`.
3. They build the statement `UPDATE <table> SET deleted = NOW() WHERE id NOT IN (?, ..., ?)`
   with one placeholder per data line.
4. They bind the keys of the snapshot to it and execute it, so that every row
   the snapshot no longer lists is soft-deleted.

The users table is keyed by `data[0]` and stores the mail `data[1]`. The
permissions table is keyed by `data[0] + "_" + id`, where `id` comes from the
label `data[1]` looked up in the map that `createPermissionTypeMap` builds
from `l21s_permission_types`.

The model is organised as follows:

- `SqlTable`: the target table is a map from key to a row. A row holds a
  payload and the `created`, `edited` and `deleted` timestamps. An
  `ON DUPLICATE KEY UPDATE` clause is a sequence of CASE assignments. MySQL
  performs them left to right, and each one sees the columns the earlier ones
  set. The "every CASE reads the old row" reading is modelled too, as
  `ApplyOldRow`, so that the two can be compared.
- `PermissionKey`: the permission key `user_id + "_" + String.valueOf(id)`,
  and its inverse `Split`.
- `SoftDeleteQuery`: how the soft-delete text is built by appending `"?, "`,
  dropping two characters and appending `")"`. It also holds `Parse`, the
  server's reading of that text, which rejects an empty key list.
- `DatabaseWriter`:
  - the imperative steps as methods: the batching loop `UpsertInBatches`, the
    binding loop `BindKeys`, the whole run `Reconcile` and its two instances,
    and the `put` loop `CreatePermissionTypeMap`;
  - each loop is tied to a specification function (`UpsertPhase`,
    `ReconcileSpec`, `PermissionTypeMap`) or to a pointwise contract (the
    bindings `BindKeys` makes, and the text `SoftDeleteQuery.Build` builds as
    `SoftDeleteQuery.Parse` reads it).
- `ReconcileProperties`: what a run does to the table as a whole.

Some terms used in the model:

- **Outcome.** Java prints an exception to `System.err` and returns. The model
  returns an `Outcome` instead: `Done`, or `Failed` with one of these reasons:
  - `BadRow(line, error)`: a line with fewer than two fields, or an unknown
    label. An unknown label makes `permissionTypeMap.get` return null, and
    unboxing that null fails.
  - `DivisionByZero`: a batch size of 0.
  - `MalformedStatement`: a soft-delete text the server rejects.
- **`now`.** `NOW()` is a parameter `now` that is the same for every statement
  of a run.
- **Batch size.** Java's `%` is modelled as `JavaRem`, whose result takes the
  dividend's sign. A negative batch size therefore behaves like its absolute
  value.

Behaviours of the code worth noting, some of which a reader of the method
comments would not expect:

- **Failed runs keep earlier batches.** A run is not a transaction. The batches
  executed before a failing line stay applied, the pending batch is dropped,
  and no soft-delete happens (`ReconcileFailed`).
- **Empty snapshot.** A snapshot with no data line does not soft-delete every
  row. The statement text ends in `NOT IN)`, which the server rejects
  (`SoftDeleteQuery.Build`, `ReconcileOutcome`).
- **Already-deleted rows.** The soft-delete has no `deleted IS NULL` guard, so
  a row that is already soft-deleted gets `deleted = now` again
  (`SqlTable.SoftDeleteScope`).
- **Resurrected permissions.** A permissions row that reappears gets
  `edited = now`, although its payload did not change (`SqlTable.PermissionsUpdate`).
- **Users `edited`.** A users row never gets `edited` set, even when its mail
  changes. This is the finding below.

## Model

| member | source | states |
|---|---|---|
| SqlTable.AssignFrom | L21s_migration/L21s_Import/src/write_database/DatabaseWriter.java:38-40 | definition, no contract: one CASE assignment of the update clause, its condition and ELSE value read from a given row; its properties are stated by the clause lemmas below |
| SqlTable.ApplyClause | L21s_migration/L21s_Import/src/write_database/DatabaseWriter.java:38-40 | definition, no contract: an update clause run left to right, each CASE seeing the columns the earlier ones set; it runs the users clause of lines 38-40 and the permissions clause of lines 115-116 alike; `PermissionsUpdate`, `UsersUpdateKeepsEdited` and `ClausesLastWin` state what it does |
| SqlTable.SoftDeleteExcept | L21s_migration/L21s_Import/src/write_database/DatabaseWriter.java:66 | definition, no contract: `deleted = now` for every row whose key is not bound; `SoftDeleteScope` states its effect |
| SqlTable.Inserted | L21s_migration/L21s_Import/src/write_database/DatabaseWriter.java:37 | definition, no contract: the row `VALUES (?, ?, NOW())` inserts, with `created = now` and `edited` and `deleted` NULL (lines 113-114 likewise); `ReconcileCreated` states the run-level effect |
| SqlTable.UpsertRow | L21s_migration/L21s_Import/src/write_database/DatabaseWriter.java:36-40 | definition, no contract: an upsert inserts when its key is absent and applies the update clause to the existing row otherwise; `ReconcileCreated` and `ApplyAllActivates` state its effect |
| SqlTable.ApplyAll | L21s_migration/L21s_Import/src/write_database/DatabaseWriter.java:54-63 | definition, no contract: a batch executed by `executeBatch` (lines 56 and 62, and 138 and 144) runs its statements one after another in order; `ApplyAllAppend` and `ApplyAllFrame` state its properties |
| SqlTable.Upsert | L21s_migration/L21s_Import/src/write_database/DatabaseWriter.java:36-37 | an upsert statement adds its own key and leaves every other row as it was |
| SqlTable.UsersUpdateKeepsEdited | L21s_migration/L21s_Import/src/write_database/DatabaseWriter.java:38-40 | the users clause as written, on an existing row: mail becomes the incoming mail, `deleted` is cleared, `created` is kept, and `edited` is kept too, because line 39 compares the mail line 38 already overwrote |
| SqlTable.UsersUpdateEditedCounterexample | L21s_migration/L21s_Import/src/write_database/DatabaseWriter.java:38-39 | a concrete row whose mail changes from old@example.org to new@example.org: `edited` stays NULL as written, and becomes `now` with the tests reordered |
| SqlTable.UsersUpdateIntended | L21s_migration/L21s_Import/src/write_database/DatabaseWriter.java:38-39 | the users clause with the `edited` test before the mail overwrite: `edited = now` exactly when the mail differs, otherwise kept; mail overwritten; `deleted` cleared; `created` kept |
| SqlTable.UsersOldRowReadingIsIntended | L21s_migration/L21s_Import/src/write_database/DatabaseWriter.java:38-40 | if every CASE read the row as it was before the update, the users clause would behave as the reordered clause |
| SqlTable.PermissionsUpdate | L21s_migration/L21s_Import/src/write_database/DatabaseWriter.java:115-116 | the permissions clause on an existing row: a soft-deleted row is resurrected with `edited = now`; an active row is left exactly as it is; the payload and `created` are never changed |
| SqlTable.PermissionsReadingsAgree | L21s_migration/L21s_Import/src/write_database/DatabaseWriter.java:115-116 | for the permissions clause, left-to-right evaluation and the old-row reading give the same row |
| SqlTable.ClausesSettle | L21s_migration/L21s_Import/src/write_database/DatabaseWriter.java:36-40 | the users clause (as written and reordered) and the permissions clause of lines 113-116 all end by clearing `deleted`; applying any of them again with the same values changes nothing, and none changes a freshly inserted row |
| SqlTable.ApplyAllAppend | L21s_migration/L21s_Import/src/write_database/DatabaseWriter.java:54-63 | executing one batch of statements and then another is the same as executing their concatenation |
| SqlTable.ApplyAllFrame | L21s_migration/L21s_Import/src/write_database/DatabaseWriter.java:36-37 | a sequence of upserts adds exactly the keys of its statements and leaves the rows of all other keys as they were |
| SqlTable.ApplyAllActivates | L21s_migration/L21s_Import/src/write_database/DatabaseWriter.java:40 | with a clause that ends by clearing `deleted`, every key that was upserted ends active |
| SqlTable.ApplyAllDistinct | L21s_migration/L21s_Import/src/write_database/DatabaseWriter.java:36-40 | when the keys are pairwise different, each key's final row is what its own statement makes of the original row |
| SqlTable.ClausesLastWin | L21s_migration/L21s_Import/src/write_database/DatabaseWriter.java:37-40 | for the users clause and the permissions clause of lines 114-116, applying the clause with one payload and then another equals applying it with the second only, and neither changes a freshly inserted row |
| SqlTable.ApplyAllCollapse | L21s_migration/L21s_Import/src/write_database/DatabaseWriter.java:36-40 | with such a clause, all statements for an existing key amount to the last one for that key |
| SqlTable.ApplyAllSettled | L21s_migration/L21s_Import/src/write_database/DatabaseWriter.java:36-40 | with such a clause, the row each upserted key ends with is left unchanged by that key's last statement |
| SqlTable.ApplyAllIdempotent | L21s_migration/L21s_Import/src/write_database/DatabaseWriter.java:54-63 | with such a clause, executing the same statements a second time changes nothing |
| SqlTable.SoftDeleteScope | L21s_migration/L21s_Import/src/write_database/DatabaseWriter.java:66 | the soft-delete keeps every key; listed rows are untouched; every other row gets `deleted = now` (already-deleted rows included) and keeps its other columns |
| PermissionKey.Key | L21s_migration/L21s_Import/src/write_database/DatabaseWriter.java:126 | definition, no contract: the key `data[0] + "_" + id`; `SplitKey` and `KeyInjective` state its properties |
| PermissionKey.IntToString | L21s_migration/L21s_Import/src/write_database/DatabaseWriter.java:126 | definition, no contract: Java's decimal text of the boxed id inside the key concatenation; `IntRoundTrip` states that it reads back |
| PermissionKey.IntRoundTrip | L21s_migration/L21s_Import/src/write_database/DatabaseWriter.java:126 | reading back the decimal text Java prints for an integer gives the same integer, negative ids included |
| PermissionKey.SplitKey | L21s_migration/L21s_Import/src/write_database/DatabaseWriter.java:126 | splitting a permission key at its last `_` gives back the user id and the type id, even when the user id contains `_` |
| PermissionKey.KeyInjective | L21s_migration/L21s_Import/src/write_database/DatabaseWriter.java:126 | two permission keys are equal exactly when both the user ids and the type ids are equal |
| SoftDeleteQuery.Build | L21s_migration/L21s_Import/src/write_database/DatabaseWriter.java:66-71 | the built text holds one placeholder per data line (`size - 1`), and the server reads exactly that many back; with no data line the server rejects the text |
| DatabaseWriter.DecodeUser | L21s_migration/L21s_Import/src/write_database/DatabaseWriter.java:47-49 | definition, no contract: a users line with fewer than two fields fails (the `data[1]` access throws), otherwise it is the statement with key `data[0]` and mail `data[1]`; `InsertDataInUsersMail` states the run-level effect |
| DatabaseWriter.DecodePermission | L21s_migration/L21s_Import/src/write_database/DatabaseWriter.java:123-130 | definition, no contract: a permissions line fails with fewer than two fields or an unknown label, otherwise it is the statement with the composite key and payload; `DecodePermissionKey` states its properties |
| DatabaseWriter.JavaRem | L21s_migration/L21s_Import/src/write_database/DatabaseWriter.java:55-61 | Java's `%` on `int`: the remainder is smaller than the divisor in absolute value, has the dividend's sign, and differs from the dividend by a multiple of the divisor |
| DatabaseWriter.DecodeRows | L21s_migration/L21s_Import/src/write_database/DatabaseWriter.java:46-49 | definition, no contract: the lines are read in order and reading stops at the first line that throws; `DecodeRowsFirstFailure` states its behaviour |
| DatabaseWriter.ExecuteSoftDelete | L21s_migration/L21s_Import/src/write_database/DatabaseWriter.java:78 | definition, no contract: `executeUpdate` fails on a text the server rejects or on an unbound placeholder, and otherwise soft-deletes every row whose key is not bound; `SoftDeleteQuery.Build` and `BoundKeysAreIds` state what it is given |
| DatabaseWriter.UpsertInBatches | L21s_migration/L21s_Import/src/write_database/DatabaseWriter.java:44-63 | the batching loop ends as `UpsertPhase` says and leaves the table with its executed batches applied in order. Every batch holds 1 to \|batchSize\| statements and all but the last are full. After a complete run the batches hold every data line's statement in CSV order, in ceil(n / \|batchSize\|) batches |
| DatabaseWriter.UpsertStep | L21s_migration/L21s_Import/src/write_database/DatabaseWriter.java:46-58 | one decoded line is added to the pending batch, which is executed exactly when `count % batchSize == 0`; the loop invariant is kept |
| DatabaseWriter.BadRowOutcome | L21s_migration/L21s_Import/src/write_database/DatabaseWriter.java:47-49 | a line that cannot be read stops the loop: the batches executed before stay applied and the pending batch is lost |
| DatabaseWriter.ZeroBatchOutcome | L21s_migration/L21s_Import/src/write_database/DatabaseWriter.java:55-61 | a batch size of 0 throws at the first `count % batchSize`, which comes after the first line or after the loop when there is no data line; the table is then unchanged |
| DatabaseWriter.FinishUpsert | L21s_migration/L21s_Import/src/write_database/DatabaseWriter.java:60-63 | after the loop the partial batch is executed exactly when it is non-empty, and that completes the upsert phase |
| DatabaseWriter.LastBatch | L21s_migration/L21s_Import/src/write_database/DatabaseWriter.java:60-63 | `count % batchSize` equals the size of the pending batch, and adding that batch when it is non-empty gives a batching of all statements in ceil(n / b) batches |
| DatabaseWriter.FlushDue | L21s_migration/L21s_Import/src/write_database/DatabaseWriter.java:55 | with 1..b statements pending after full batches, `count % b == 0` exactly when the pending batch is full |
| DatabaseWriter.BindKeys | L21s_migration/L21s_Import/src/write_database/DatabaseWriter.java:74-77 | parameter `i` is bound, for every `1 <= i < size`, to the key of CSV line `i`; no other parameter is bound |
| DatabaseWriter.BoundKeysAreIds | L21s_migration/L21s_Import/src/write_database/DatabaseWriter.java:74-77 | the keys bound to the soft-delete are exactly the keys of the upserted statements |
| DatabaseWriter.Reconcile | L21s_migration/L21s_Import/src/write_database/DatabaseWriter.java:43-78 | a whole run (batched upserts, then building, binding and executing the soft-delete) ends with the outcome and table `ReconcileSpec` states |
| DatabaseWriter.InsertDataInUsers | L21s_migration/L21s_Import/src/write_database/DatabaseWriter.java:26-85 | `insertDataInUsers` is the run with key `data[0]`, mail `data[1]` and the users clause as written |
| DatabaseWriter.InsertDataInUserPermissions | L21s_migration/L21s_Import/src/write_database/DatabaseWriter.java:100-169 | `insertDataInUserPermissions` is the run with the label lookup, key `data[0] + "_" + id` and the permissions clause |
| DatabaseWriter.CreatePermissionTypeMap | L21s_migration/L21s_Import/src/write_database/DatabaseWriter.java:178-194 | the `put` loop leaves the map `PermissionTypeMap` describes |
| ReconcileProperties.DecodeRowsFirstFailure | L21s_migration/L21s_Import/src/write_database/DatabaseWriter.java:46-49 | reading the lines fails exactly when some data line fails, and reports the first such line |
| ReconcileProperties.DecodedKeys | L21s_migration/L21s_Import/src/write_database/DatabaseWriter.java:74-77 | when every line decodes, the upserted keys are the keys of the snapshot's lines |
| ReconcileProperties.ReconcileOutcome | L21s_migration/L21s_Import/src/write_database/DatabaseWriter.java:46-78 | a run completes exactly when the batch size is not 0, there is a data line and every line decodes. It fails on the first unreadable line, or on line 1 when the batch size is 0. It throws on a batch size of 0 otherwise. It fails with a malformed statement when there is no data line and the batch size is not 0 |
| ReconcileProperties.ReconcileDone | L21s_migration/L21s_Import/src/write_database/DatabaseWriter.java:65-78 | after a completed run the keys are the old keys plus the snapshot's. A row is active exactly when the snapshot lists its key. Every other old row gets `deleted = now` and keeps its other columns |
| ReconcileProperties.ReconcileFailed | L21s_migration/L21s_Import/src/write_database/DatabaseWriter.java:80-84 | a failed run soft-deletes nothing: rows the snapshot does not list are unchanged, and only keys of the snapshot are added |
| ReconcileProperties.HeaderIgnored | L21s_migration/L21s_Import/src/write_database/DatabaseWriter.java:46 | the header line does not influence a run |
| ReconcileProperties.BatchSizeIrrelevant | L21s_migration/L21s_Import/src/write_database/DatabaseWriter.java:54-63 | a completed run leaves the same outcome and table under any non-zero batch size |
| ReconcileProperties.ReconcileIdempotent | L21s_migration/L21s_Import/src/write_database/DatabaseWriter.java:36-78 | running a snapshot with distinct keys a second time at the same `now` completes and leaves the table unchanged, for any clause that settles |
| ReconcileProperties.UpsertAndSoftDeleteSettle | L21s_migration/L21s_Import/src/write_database/DatabaseWriter.java:36-78 | upserting distinct statements and soft-deleting the rest, done twice, is done once |
| ReconcileProperties.ReconcileRepeatable | L21s_migration/L21s_Import/src/write_database/DatabaseWriter.java:36-78 | for a clause where the last statement for a key wins, a second run of the same snapshot at the same `now` ends with the same outcome and leaves the table as the first run left it, whatever that outcome was and even when a key is listed twice |
| ReconcileProperties.UpsertAndSoftDeleteRepeat | L21s_migration/L21s_Import/src/write_database/DatabaseWriter.java:36-78 | with such a clause, upserting the statements and soft-deleting the rest, done twice, is done once, repeated keys included |
| ReconcileProperties.InsertDataInUsersIdempotent | L21s_migration/L21s_Import/src/write_database/DatabaseWriter.java:26-85 | a second users run with the same snapshot and `now` ends with the same outcome and changes nothing, for every snapshot (repeated keys included) and every outcome of the first run |
| ReconcileProperties.PermissionsApplyAllActive | L21s_migration/L21s_Import/src/write_database/DatabaseWriter.java:115-116 | permission upserts whose keys are all present and active leave the table unchanged at any `now` |
| ReconcileProperties.PermissionsRerun | L21s_migration/L21s_Import/src/write_database/DatabaseWriter.java:113-162 | a permissions run repeated at any later `now2` ends with the first run's outcome; after a failed first run it changes nothing; after a completed one the listed rows stay exactly as they are (no new `edited`) and only the unlisted rows get `deleted = now2` |
| ReconcileProperties.InsertDataInUserPermissionsRerun | L21s_migration/L21s_Import/src/write_database/DatabaseWriter.java:100-169 | the same for `insertDataInUserPermissions` with its label lookup |
| ReconcileProperties.InsertDataInUserPermissionsIdempotent | L21s_migration/L21s_Import/src/write_database/DatabaseWriter.java:100-169 | a second permissions run with the same snapshot and `now` ends with the same outcome and changes nothing, for every snapshot (repeated lines included) and every outcome of the first run |
| ReconcileProperties.InsertDataInUsersIntendedIdempotent | L21s_migration/L21s_Import/src/write_database/DatabaseWriter.java:36-40 | the users run with the reordered clause, completed on a snapshot with distinct keys: a second run at the same `now` completes and changes nothing |
| ReconcileProperties.ClauseKeepsCreated | L21s_migration/L21s_Import/src/write_database/DatabaseWriter.java:37 | no update clause touches `created` |
| ReconcileProperties.ReconcileCreated | L21s_migration/L21s_Import/src/write_database/DatabaseWriter.java:36-37 | whatever the outcome, an existing row keeps `created` and an inserted row has `created = now` |
| ReconcileProperties.InsertDataInUsersKeepsEdited | L21s_migration/L21s_Import/src/write_database/DatabaseWriter.java:39 | whatever the outcome, the users run as written never changes any row's `edited`, and an inserted row has none |
| ReconcileProperties.InsertDataInUsersIntendedEdited | L21s_migration/L21s_Import/src/write_database/DatabaseWriter.java:36-40 | the users run with the reordered clause, completed on distinct keys: each listed row holds its line's mail and is active, and `edited` is `now` exactly when an existing row's mail changed |
| ReconcileProperties.UsersLastWriteWins | L21s_migration/L21s_Import/src/write_database/DatabaseWriter.java:38 | after users upserts the mail under each key is the mail of the last statement for that key |
| ReconcileProperties.InsertDataInUsersMail | L21s_migration/L21s_Import/src/write_database/DatabaseWriter.java:46-49 | after a completed users run, each key holds the mail of its last CSV line and is active |
| ReconcileProperties.DecodePermissionKey | L21s_migration/L21s_Import/src/write_database/DatabaseWriter.java:123-130 | a permissions line is accepted exactly when it has two fields and a known label; its payload is the user id and the looked-up id, and its key splits back into them |
| ReconcileProperties.PermissionKeyDeterminesPayload | L21s_migration/L21s_Import/src/write_database/DatabaseWriter.java:113-116 | two permission statements with the same key carry the same payload, so leaving `user_id` and `permission_type_id` out of the update clause loses nothing |
| ReconcileProperties.PermissionsApplyAllKeepsKeys | L21s_migration/L21s_Import/src/write_database/DatabaseWriter.java:113-116 | permission upserts keep every row's key consistent with the user id and type id stored in it |
| ReconcileProperties.InsertDataInUserPermissionsKeepsKeys | L21s_migration/L21s_Import/src/write_database/DatabaseWriter.java:122-130 | whatever the outcome, a permissions run keeps every key consistent with the payload stored under it |
| ReconcileProperties.PermissionTypeMapLookup | L21s_migration/L21s_Import/src/write_database/DatabaseWriter.java:187-191 | the reference map holds exactly the labels of the result rows, and a repeated label maps to the id of its last row |

## Left out

- The table definitions are not part of this model; the code does not create them. The model assumes that an `INSERT` leaves `edited` and `deleted` NULL, that no column is declared `ON UPDATE CURRENT_TIMESTAMP`, and that `id` is the only primary or unique key, so `ON DUPLICATE KEY UPDATE` fires only when the `id` collides. With `ON UPDATE CURRENT_TIMESTAMP` on `edited`, MySQL would stamp `edited` whenever line 38 changes the mail. With a unique `mail`, a new id carrying an existing mail would update the other row instead of inserting its own.
- Connections, credentials and `SET time_zone = 'Europe/Berlin'` (lines 29-34 and 102-107) are left out. Time is the abstract `now`, the same for every statement of a run.
- The printing to `System.err` (lines 80-84 and 164-168) is not modelled. The model returns an `Outcome` instead.
- Errors the server itself raises are not modelled: a lost connection, a failing `executeBatch` or a failing reference query. Only the failures the Java code causes are modelled.
- The CSV loader and the scheduler that call the writer are not part of this model. A line is already a sequence of fields.
- The `id`, `mail`, `user_id` and `permission_type_id` columns are modelled as non-null, so SQL's three-valued `mail <> VALUES(mail)` on a NULL mail is not modelled. String comparison is exact equality, not the column's collation.
- A NULL `permission_type` or `id` in the reference table is not modelled. `getInt` would return 0 for a NULL id.
- `count` cannot overflow, because it never exceeds `csvData.size()`, which is a Java `int`. It is modelled as an unbounded integer.
- ReconcileProperties.ReconcileIdempotent: proved only for a completed first run on a snapshot whose keys are distinct, and for a second run with the same `now`. It covers every clause that settles after one application, the reordered users clause included. The clauses the writer actually sends are covered without these restrictions by `ReconcileRepeatable`.
- ReconcileProperties.InsertDataInUsersIntendedIdempotent: inherits these restrictions, because the reordered clause does not let the last statement for a key win (a row whose mail goes from y to x and back to y gets `edited = now`), so `ReconcileRepeatable` does not apply to it.
- ReconcileProperties.ReconcileRepeatable: proved only for a second run with the same `now`. With a later `now`, rows that are already soft-deleted get a new `deleted` stamp; for the permissions run, `PermissionsRerun` states exactly what a later run changes.

## Findings

| source | as written | input that shows it | evidently intended | confidence | as-written member | corrected member |
|---|---|---|---|---|---|---|
| L21s_migration/L21s_Import/src/write_database/DatabaseWriter.java:38-39 | MySQL evaluates the `ON DUPLICATE KEY UPDATE` assignments left to right. Line 38 overwrites `mail` with `VALUES(mail)` first, so the test `mail <> VALUES(mail)` on line 39 is always false and `edited` never changes | an existing row with mail old@example.org, `created` 1, `edited` NULL, imported again with mail new@example.org at `now` 2: the mail changes and `edited` stays NULL | `edited = now` whenever the mail changes, as with the `edited` assignment placed before the `mail` one | high, assuming `edited` is not declared `ON UPDATE CURRENT_TIMESTAMP`; not executed | SqlTable.UsersUpdateKeepsEdited, SqlTable.UsersUpdateEditedCounterexample, ReconcileProperties.InsertDataInUsersKeepsEdited | SqlTable.UsersUpdateIntended, ReconcileProperties.InsertDataInUsersIntendedEdited, ReconcileProperties.InsertDataInUsersIntendedIdempotent |
