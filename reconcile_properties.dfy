/**
 * What a run of the writer does to the target table as a whole: which outcome
 * it ends with, which rows are active afterwards, what a failed run leaves
 * behind, that the header line and the batch size do not matter to a
 * completed run, and that running the same snapshot twice changes nothing more.
 */
module ReconcileProperties {
  import opened Wrappers
  import opened SqlTable
  import opened PermissionKey
  import opened DatabaseWriter

  /** The keys of every data line that can be turned into a statement. */
  function SnapshotKeys<P>(csv: seq<CsvRow>, decode: CsvRow -> Result<Record<P>, RowError>): set<string>
  {
    set j | 1 <= j < |csv| && decode(csv[j]).Ok? :: decode(csv[j]).value.id
  }

  // ----- decoding -----

  /**
   * Decoding fails exactly when some data row fails, and it reports the first
   * such row, as CSV line number `k + 1` for data row `k`.
   */
  lemma {:induction false} DecodeRowsFirstFailure<P>(rows: seq<CsvRow>, decode: CsvRow -> Result<Record<P>, RowError>)
    ensures DecodeRows(rows, decode).error.None? <==> forall k :: 0 <= k < |rows| ==> decode(rows[k]).Ok?
    ensures DecodeRows(rows, decode).error.Some? ==>
      var (line, e) := DecodeRows(rows, decode).error.value;
      && 1 <= line <= |rows|
      && decode(rows[line - 1]) == Err(e)
      && forall k :: 0 <= k < line - 1 ==> decode(rows[k]).Ok?
    decreases |rows|
  {
    if rows != [] {
      var init := rows[..|rows| - 1];
      DecodeRowsFirstFailure(init, decode);
      assert forall k :: 0 <= k < |init| ==> init[k] == rows[k];
    }
  }

  /** The keys of the decoded statements of a snapshot whose every line decodes. */
  lemma DecodedKeys<P>(csv: seq<CsvRow>, decode: CsvRow -> Result<Record<P>, RowError>)
    requires DecodeRows(DataRows(csv), decode).error.None?
    ensures Ids(DecodeRows(DataRows(csv), decode).recs) == SnapshotKeys(csv, decode)
  {
    var rows := DataRows(csv);
    var recs := DecodeRows(rows, decode).recs;
    DecodeRowsComplete(rows, decode);
    forall k | k in Ids(recs) ensures k in SnapshotKeys(csv, decode) {
      var r :| r in recs && r.id == k;
      var j :| 0 <= j < |recs| && recs[j] == r;
      assert rows[j] == csv[j + 1];
    }
    forall k | k in SnapshotKeys(csv, decode) ensures k in Ids(recs) {
      var j :| 1 <= j < |csv| && decode(csv[j]).Ok? && decode(csv[j]).value.id == k;
      assert rows[j - 1] == csv[j] && recs[j - 1] in recs;
    }
  }

  /** Every decoded statement is what its own data row decodes to. */
  lemma DecodedFrom<P>(rows: seq<CsvRow>, decode: CsvRow -> Result<Record<P>, RowError>)
    ensures |DecodeRows(rows, decode).recs| <= |rows|
    ensures forall j :: 0 <= j < |DecodeRows(rows, decode).recs| ==> decode(rows[j]) == Ok(DecodeRows(rows, decode).recs[j])
  {
    var d := DecodeRows(rows, decode);
    DecodeRowsFirstFailure(rows, decode);
    PrefixRecords(rows, if d.error.None? then |rows| else d.error.value.0 - 1, decode);
  }

  /** The statements decoded before a failure all come from lines that decode. */
  lemma DecodedPrefixKeys<P>(csv: seq<CsvRow>, decode: CsvRow -> Result<Record<P>, RowError>, n: nat)
    requires n <= |DecodeRows(DataRows(csv), decode).recs|
    ensures Ids(DecodeRows(DataRows(csv), decode).recs[..n]) <= SnapshotKeys(csv, decode)
  {
    var rows := DataRows(csv);
    var d := DecodeRows(rows, decode);
    DecodedFrom(rows, decode);
    forall k | k in Ids(d.recs[..n]) ensures k in SnapshotKeys(csv, decode) {
      var r :| r in d.recs[..n] && r.id == k;
      var j :| 0 <= j < n && d.recs[j] == r;
      assert rows[j] == csv[j + 1];
    }
  }

  /** The upsert phase executes a prefix of the decoded statements. */
  lemma UpsertPhaseExecutes<P>(csv: seq<CsvRow>, decode: CsvRow -> Result<Record<P>, RowError>, batchSize: int,
                               clause: seq<Assignment>, now: nat, t0: Table<P>) returns (n: nat)
    ensures n <= |DecodeRows(DataRows(csv), decode).recs|
    ensures UpsertPhase(csv, decode, batchSize, clause, now, t0).1
         == ApplyAll(t0, DecodeRows(DataRows(csv), decode).recs[..n], clause, now)
  {
    var d := DecodeRows(DataRows(csv), decode);
    n := if batchSize == 0 then 0 else if d.error.None? then |d.recs| else Flushed(|d.recs|, batchSize);
    if batchSize != 0 && d.error.Some? {
      var b := Abs(batchSize);
      assert |d.recs| / b * b <= |d.recs|;
    }
    assert d.recs[..|d.recs|] == d.recs;
  }

  /** The first `m` rows decode one statement each, in order. */
  lemma PrefixRecords<P>(rows: seq<CsvRow>, m: nat, decode: CsvRow -> Result<Record<P>, RowError>)
    requires m <= |rows|
    requires DecodeRows(rows, decode).error.None? ==> m == |rows|
    requires DecodeRows(rows, decode).error.Some? ==> m == DecodeRows(rows, decode).error.value.0 - 1
    ensures |DecodeRows(rows, decode).recs| == m
    ensures forall j :: 0 <= j < m ==> decode(rows[j]) == Ok(DecodeRows(rows, decode).recs[j])
  {
    DecodeRowsFirstFailure(rows, decode);
    if DecodeRows(rows, decode).error.None? {
      DecodeRowsComplete(rows, decode);
    } else {
      var line := DecodeRows(rows, decode).error.value.0;
      var pre := rows[..m];
      assert pre == rows[..line][..m];
      assert rows[..line] == pre + [rows[line - 1]];
      assert rows[..line][..|rows[..line]| - 1] == pre;
      DecodeRowsFirstFailure(pre, decode);
      assert forall k :: 0 <= k < m ==> pre[k] == rows[k];
      DecodeRowsComplete(pre, decode);
      DecodeRowsStops(rows, line, decode);
    }
  }

  // ----- outcomes -----

  /**
   * How a run ends: it completes exactly when the batch size is not 0, there is
   * a data line and every data line decodes; it stops at the first line that
   * does not decode, unless the batch size is 0 and an earlier line already
   * threw; a batch size of 0 throws otherwise; a snapshot with no data line
   * yields a soft-delete text the server rejects.
   */
  lemma ReconcileOutcome<P>(csv: seq<CsvRow>, decode: CsvRow -> Result<Record<P>, RowError>, batchSize: int,
                            clause: seq<Assignment>, now: nat, t0: Table<P>)
    ensures var outcome := ReconcileSpec(csv, decode, batchSize, clause, now, t0).0;
      && (outcome == Done <==>
            batchSize != 0 && |csv| > 1 && forall j :: 1 <= j < |csv| ==> decode(csv[j]).Ok?)
      && (outcome == Failed(MalformedStatement) <==> batchSize != 0 && |csv| <= 1)
      && (outcome == Failed(DivisionByZero) <==> batchSize == 0 && (|csv| <= 1 || decode(csv[1]).Ok?))
      && (outcome.Failed? && outcome.failure.BadRow? ==>
            && 1 <= outcome.failure.line < |csv|
            && decode(csv[outcome.failure.line]) == Err(outcome.failure.error)
            && (forall j :: 1 <= j < outcome.failure.line ==> decode(csv[j]).Ok?)
            && (batchSize == 0 ==> outcome.failure.line == 1))
  {
    var rows := DataRows(csv);
    DecodeRowsFirstFailure(rows, decode);
    assert forall j :: 1 <= j < |csv| ==> rows[j - 1] == csv[j];
    if batchSize == 0 && |rows| > 0 {
      assert rows[0] == csv[1];
    }
  }

  /**
   * A completed run: every key of the snapshot is present and active, every
   * other key of the table is soft-deleted at `now` with its other columns
   * kept, and no key outside the table and the snapshot appears.
   */
  lemma ReconcileDone<P>(csv: seq<CsvRow>, decode: CsvRow -> Result<Record<P>, RowError>, batchSize: int,
                         clause: seq<Assignment>, now: nat, t0: Table<P>)
    requires ClearsDeleted(clause)
    requires ReconcileSpec(csv, decode, batchSize, clause, now, t0).0 == Done
    ensures var t := ReconcileSpec(csv, decode, batchSize, clause, now, t0).1;
      var keys := SnapshotKeys(csv, decode);
      && t.Keys == t0.Keys + keys
      && (forall k :: k in t ==> (t[k].deleted.None? <==> k in keys))
      && (forall k :: k in t0 && k !in keys ==> t[k] == t0[k].(deleted := Some(now)))
  {
    var rows := DataRows(csv);
    var recs := DecodeRows(rows, decode).recs;
    var t1 := ApplyAll(t0, recs, clause, now);
    DecodedKeys(csv, decode);
    ApplyAllFrame(t0, recs, clause, now);
    ApplyAllActivates(t0, recs, clause, now);
    SoftDeleteScope(t1, Ids(recs), now);
  }

  /**
   * A run that fails executes no soft-delete: every row whose key the snapshot
   * does not list is exactly as it was, and the executed batches add only keys
   * of the snapshot.
   */
  lemma ReconcileFailed<P>(csv: seq<CsvRow>, decode: CsvRow -> Result<Record<P>, RowError>, batchSize: int,
                           clause: seq<Assignment>, now: nat, t0: Table<P>)
    requires ReconcileSpec(csv, decode, batchSize, clause, now, t0).0.Failed?
    ensures var t := ReconcileSpec(csv, decode, batchSize, clause, now, t0).1;
      var keys := SnapshotKeys(csv, decode);
      && t0.Keys <= t.Keys <= t0.Keys + keys
      && (forall k :: k in t0 && k !in keys ==> t[k] == t0[k])
  {
    var n := UpsertPhaseExecutes(csv, decode, batchSize, clause, now, t0);
    var executed := DecodeRows(DataRows(csv), decode).recs[..n];
    DecodedPrefixKeys(csv, decode, n);
    ApplyAllFrame(t0, executed, clause, now);
  }

  // ----- what does not matter -----

  /** The header line is skipped: a run does not depend on it. */
  lemma HeaderIgnored<P>(csv1: seq<CsvRow>, csv2: seq<CsvRow>, decode: CsvRow -> Result<Record<P>, RowError>,
                         batchSize: int, clause: seq<Assignment>, now: nat, t0: Table<P>)
    requires |csv1| > 0 && |csv2| > 0 && csv1[1..] == csv2[1..]
    ensures ReconcileSpec(csv1, decode, batchSize, clause, now, t0) == ReconcileSpec(csv2, decode, batchSize, clause, now, t0)
  {
  }

  /** How a completed run is cut into batches does not change the table it leaves. */
  lemma BatchSizeIrrelevant<P>(csv: seq<CsvRow>, decode: CsvRow -> Result<Record<P>, RowError>,
                               batchSize1: int, batchSize2: int, clause: seq<Assignment>, now: nat, t0: Table<P>)
    requires batchSize2 != 0
    requires ReconcileSpec(csv, decode, batchSize1, clause, now, t0).0 == Done
    ensures ReconcileSpec(csv, decode, batchSize2, clause, now, t0) == ReconcileSpec(csv, decode, batchSize1, clause, now, t0)
  {
    ReconcileOutcome(csv, decode, batchSize1, clause, now, t0);
  }

  // ----- running a snapshot twice -----

  /**
   * A second run of the same snapshot at the same `now` leaves the table as the
   * first run left it, for any clause that settles after one application, when
   * the first run completed and the snapshot lists each key once. Rows the first
   * run soft-deleted are stamped again with the same `now`.
   */
  lemma ReconcileIdempotent<P(!new)>(csv: seq<CsvRow>, decode: CsvRow -> Result<Record<P>, RowError>, batchSize: int,
                                     clause: seq<Assignment>, now: nat, t0: Table<P>)
    requires Settles<P>(clause, now)
    requires DistinctIds(DecodeRows(DataRows(csv), decode).recs)
    requires ReconcileSpec(csv, decode, batchSize, clause, now, t0).0 == Done
    ensures var t1 := ReconcileSpec(csv, decode, batchSize, clause, now, t0).1;
      ReconcileSpec(csv, decode, batchSize, clause, now, t1) == (Done, t1)
  {
    var recs := DecodeRows(DataRows(csv), decode).recs;
    var t1 := SoftDeleteExcept(ApplyAll(t0, recs, clause, now), Ids(recs), now);
    UpsertAndSoftDeleteSettle(t0, recs, clause, now);
    assert ReconcileSpec(csv, decode, batchSize, clause, now, t0) == (Done, t1);
  }

  /** The table-level core of `ReconcileIdempotent`: upserting distinct statements and soft-deleting the rest, twice, is doing it once. */
  lemma UpsertAndSoftDeleteSettle<P(!new)>(t0: Table<P>, recs: seq<Record<P>>, clause: seq<Assignment>, now: nat)
    requires Settles<P>(clause, now)
    requires DistinctIds(recs)
    ensures var t1 := SoftDeleteExcept(ApplyAll(t0, recs, clause, now), Ids(recs), now);
      SoftDeleteExcept(ApplyAll(t1, recs, clause, now), Ids(recs), now) == t1
  {
    var ids := Ids(recs);
    var a1 := ApplyAll(t0, recs, clause, now);
    var t1 := SoftDeleteExcept(a1, ids, now);
    var a2 := ApplyAll(t1, recs, clause, now);
    ApplyAllDistinct(t0, recs, clause, now);
    ApplyAllDistinct(t1, recs, clause, now);
    ApplyAllFrame(t0, recs, clause, now);
    ApplyAllFrame(t1, recs, clause, now);
    SoftDeleteScope(a1, ids, now);
    SoftDeleteScope(a2, ids, now);
    forall k | k in t1 && k in ids ensures a2[k] == t1[k] {
      SettledKey(t0, recs, clause, now, k);
    }
    assert SoftDeleteExcept(a2, ids, now) == t1;
  }

  /** A key of the statements: its row after the second round is its row after the first. */
  lemma SettledKey<P(!new)>(t0: Table<P>, recs: seq<Record<P>>, clause: seq<Assignment>, now: nat, k: string)
    requires Settles<P>(clause, now)
    requires DistinctIds(recs)
    requires k in Ids(recs)
    ensures var t1 := SoftDeleteExcept(ApplyAll(t0, recs, clause, now), Ids(recs), now);
      k in t1 && k in ApplyAll(t1, recs, clause, now) && ApplyAll(t1, recs, clause, now)[k] == t1[k]
  {
    var a1 := ApplyAll(t0, recs, clause, now);
    var t1 := SoftDeleteExcept(a1, Ids(recs), now);
    ApplyAllDistinct(t0, recs, clause, now);
    ApplyAllDistinct(t1, recs, clause, now);
    var r :| r in recs && r.id == k;
    var j :| 0 <= j < |recs| && recs[j] == r;
    assert t1[k] == a1[k] == UpsertRow(t0, r, clause, now);
    assert ApplyAll(t1, recs, clause, now)[k] == ApplyClause(clause, t1[k], r.payload, now);
  }

  /**
   * With a last-wins clause, a second run of the same snapshot at the same
   * `now` ends as the first did and leaves the table as the first run left it,
   * whatever the outcome and even when the snapshot lists a key more than once.
   * Rows the first run soft-deleted are stamped again with the same `now`.
   */
  lemma ReconcileRepeatable<P(!new)>(csv: seq<CsvRow>, decode: CsvRow -> Result<Record<P>, RowError>, batchSize: int,
                                     clause: seq<Assignment>, now: nat, t0: Table<P>)
    requires LastWins<P>(clause, now)
    ensures var (outcome, t1) := ReconcileSpec(csv, decode, batchSize, clause, now, t0);
      ReconcileSpec(csv, decode, batchSize, clause, now, t1) == (outcome, t1)
  {
    var d := DecodeRows(DataRows(csv), decode);
    if batchSize != 0 {
      if d.error.Some? {
        ApplyAllIdempotent(t0, d.recs[..Flushed(|d.recs|, batchSize)], clause, now);
      } else if |DataRows(csv)| == 0 {
        ApplyAllIdempotent(t0, d.recs, clause, now);
      } else {
        UpsertAndSoftDeleteRepeat(t0, d.recs, clause, now);
      }
    }
  }

  /** The table-level core of `ReconcileRepeatable`: upserting the statements and soft-deleting the rest, twice, is doing it once. */
  lemma UpsertAndSoftDeleteRepeat<P(!new)>(t0: Table<P>, recs: seq<Record<P>>, clause: seq<Assignment>, now: nat)
    requires LastWins<P>(clause, now)
    ensures var t1 := SoftDeleteExcept(ApplyAll(t0, recs, clause, now), Ids(recs), now);
      SoftDeleteExcept(ApplyAll(t1, recs, clause, now), Ids(recs), now) == t1
  {
    var ids := Ids(recs);
    var a1 := ApplyAll(t0, recs, clause, now);
    var t1 := SoftDeleteExcept(a1, ids, now);
    var a2 := ApplyAll(t1, recs, clause, now);
    ApplyAllFrame(t0, recs, clause, now);
    ApplyAllFrame(t1, recs, clause, now);
    SoftDeleteScope(a1, ids, now);
    SoftDeleteScope(a2, ids, now);
    forall k | k in ids ensures a2[k] == t1[k] {
      ApplyAllSettled(t0, recs, clause, now, k);
      ApplyAllCollapse(t1, recs, clause, now, k);
    }
    assert SoftDeleteExcept(a2, ids, now) == t1;
  }

  /**
   * Running the users snapshot twice: the second run ends as the first did and
   * changes nothing, for any snapshot and any outcome of the first run.
   */
  lemma InsertDataInUsersIdempotent(csv: seq<CsvRow>, batchSize: int, now: nat, t0: Table<string>)
    ensures var (outcome, t1) := ReconcileSpec(csv, DecodeUser, batchSize, UsersClause, now, t0);
      ReconcileSpec(csv, DecodeUser, batchSize, UsersClause, now, t1) == (outcome, t1)
  {
    ClausesLastWin<string>(now);
    ReconcileRepeatable(csv, DecodeUser, batchSize, UsersClause, now, t0);
  }

  /**
   * Running the permissions snapshot twice: the second run ends as the first did
   * and changes nothing, for any snapshot and any outcome of the first run.
   */
  lemma InsertDataInUserPermissionsIdempotent(csv: seq<CsvRow>, types: seq<PermissionType>, batchSize: int, now: nat,
                                              t0: Table<PermissionPayload>)
    ensures var decode := data => DecodePermission(PermissionTypeMap(types), data);
      var (outcome, t1) := ReconcileSpec(csv, decode, batchSize, PermissionsClause, now, t0);
      ReconcileSpec(csv, decode, batchSize, PermissionsClause, now, t1) == (outcome, t1)
  {
    ClausesLastWin<PermissionPayload>(now);
    ReconcileRepeatable(csv, data => DecodePermission(PermissionTypeMap(types), data), batchSize, PermissionsClause, now, t0);
  }

  /**
   * The users run with the reordered clause, completed on a snapshot that lists
   * each key once: a second run at the same `now` completes and changes nothing.
   */
  lemma InsertDataInUsersIntendedIdempotent(csv: seq<CsvRow>, batchSize: int, now: nat, t0: Table<string>)
    requires DistinctIds(DecodeRows(DataRows(csv), DecodeUser).recs)
    requires ReconcileSpec(csv, DecodeUser, batchSize, UsersClauseIntended, now, t0).0 == Done
    ensures var t1 := ReconcileSpec(csv, DecodeUser, batchSize, UsersClauseIntended, now, t0).1;
      ReconcileSpec(csv, DecodeUser, batchSize, UsersClauseIntended, now, t1) == (Done, t1)
  {
    ClausesSettle<string>(now);
    ReconcileIdempotent(csv, DecodeUser, batchSize, UsersClauseIntended, now, t0);
  }

  /** Permission upserts whose keys are all present and active leave the table as it is, at any `now`. */
  lemma {:induction false} PermissionsApplyAllActive<P>(t: Table<P>, recs: seq<Record<P>>, now: nat)
    requires forall k :: k in Ids(recs) ==> k in t && t[k].deleted.None?
    ensures ApplyAll(t, recs, PermissionsClause, now) == t
    decreases |recs|
  {
    if recs != [] {
      var r := recs[0];
      assert r.id in Ids(recs);
      PermissionsUpdate(t[r.id], r.payload, now);
      assert Upsert(t, r, PermissionsClause, now) == t;
      assert Ids(recs[1..]) <= Ids(recs) by {
        forall x | x in recs[1..] ensures x in recs { }
      }
      PermissionsApplyAllActive(t, recs[1..], now);
    }
  }

  /**
   * A permissions run repeated at a later `now2`: it ends as the first run did;
   * a failed first run leaves nothing for it to change; after a completed first
   * run, listed rows stay exactly as they are (no new `edited` stamp) and only
   * the unlisted rows get `deleted = now2`.
   */
  lemma PermissionsRerun<P>(csv: seq<CsvRow>, decode: CsvRow -> Result<Record<P>, RowError>, batchSize: int,
                            now: nat, now2: nat, t0: Table<P>)
    ensures var (o1, t1) := ReconcileSpec(csv, decode, batchSize, PermissionsClause, now, t0);
      var (o2, t2) := ReconcileSpec(csv, decode, batchSize, PermissionsClause, now2, t1);
      && o2 == o1
      && (o1 != Done ==> t2 == t1)
      && (o1 == Done ==>
            && t2.Keys == t1.Keys
            && (forall k :: k in t1 && k in SnapshotKeys(csv, decode) ==> t2[k] == t1[k])
            && (forall k :: k in t1 && k !in SnapshotKeys(csv, decode) ==> t2[k] == t1[k].(deleted := Some(now2))))
  {
    var d := DecodeRows(DataRows(csv), decode);
    assert ClearsDeleted(PermissionsClause);
    if batchSize != 0 {
      if d.error.Some? {
        var pre := d.recs[..Flushed(|d.recs|, batchSize)];
        ApplyAllActivates(t0, pre, PermissionsClause, now);
        PermissionsApplyAllActive(ApplyAll(t0, pre, PermissionsClause, now), pre, now2);
      } else if |DataRows(csv)| > 0 {
        var ids := Ids(d.recs);
        var a1 := ApplyAll(t0, d.recs, PermissionsClause, now);
        var t1 := SoftDeleteExcept(a1, ids, now);
        ApplyAllActivates(t0, d.recs, PermissionsClause, now);
        SoftDeleteScope(a1, ids, now);
        PermissionsApplyAllActive(t1, d.recs, now2);
        SoftDeleteScope(t1, ids, now2);
        DecodedKeys(csv, decode);
      }
    }
  }

  /** The permissions run repeated at a later time: see `PermissionsRerun`. */
  lemma InsertDataInUserPermissionsRerun(csv: seq<CsvRow>, types: seq<PermissionType>, batchSize: int, now: nat, now2: nat,
                                         t0: Table<PermissionPayload>)
    ensures var decode := data => DecodePermission(PermissionTypeMap(types), data);
      var (o1, t1) := ReconcileSpec(csv, decode, batchSize, PermissionsClause, now, t0);
      var (o2, t2) := ReconcileSpec(csv, decode, batchSize, PermissionsClause, now2, t1);
      && o2 == o1
      && (o1 != Done ==> t2 == t1)
      && (o1 == Done ==>
            && t2.Keys == t1.Keys
            && (forall k :: k in t1 && k in SnapshotKeys(csv, decode) ==> t2[k] == t1[k])
            && (forall k :: k in t1 && k !in SnapshotKeys(csv, decode) ==> t2[k] == t1[k].(deleted := Some(now2))))
  {
    PermissionsRerun(csv, data => DecodePermission(PermissionTypeMap(types), data), batchSize, now, now2, t0);
  }

  // ----- timestamps -----

  /** No assignment of the clauses touches `created`. */
  lemma {:induction false} ClauseKeepsCreated<P>(clause: seq<Assignment>, row: Row<P>, incoming: P, now: nat)
    ensures ApplyClause(clause, row, incoming, now).created == row.created
    decreases |clause|
  {
    if clause != [] {
      ClauseKeepsCreated(clause[..|clause| - 1], row, incoming, now);
    }
  }

  /** After upserts, `created` is the old value of an existing key and `now` for an inserted one. */
  lemma {:induction false} ApplyAllCreated<P>(t: Table<P>, recs: seq<Record<P>>, clause: seq<Assignment>, now: nat)
    ensures forall k :: k in ApplyAll(t, recs, clause, now) ==>
      ApplyAll(t, recs, clause, now)[k].created == if k in t then t[k].created else Some(now)
    decreases |recs|
  {
    if recs != [] {
      var t1 := Upsert(t, recs[0], clause, now);
      if recs[0].id in t {
        ClauseKeepsCreated(clause, t[recs[0].id], recs[0].payload, now);
      }
      ApplyAllCreated(t1, recs[1..], clause, now);
    }
  }

  /**
   * Whatever the outcome, `created` of a row that existed is kept, and a row the
   * run inserted carries `created = now`.
   */
  lemma ReconcileCreated<P>(csv: seq<CsvRow>, decode: CsvRow -> Result<Record<P>, RowError>, batchSize: int,
                            clause: seq<Assignment>, now: nat, t0: Table<P>)
    ensures var t := ReconcileSpec(csv, decode, batchSize, clause, now, t0).1;
      forall k :: k in t ==> t[k].created == if k in t0 then t0[k].created else Some(now)
  {
    var n := UpsertPhaseExecutes(csv, decode, batchSize, clause, now, t0);
    var recs := DecodeRows(DataRows(csv), decode).recs;
    ApplyAllCreated(t0, recs[..n], clause, now);
  }

  /** The users clause as written never changes `edited`; an inserted row has none. */
  lemma {:induction false} UsersApplyAllEdited(t: Table<string>, recs: seq<Record<string>>, now: nat)
    ensures forall k :: k in ApplyAll(t, recs, UsersClause, now) ==>
      ApplyAll(t, recs, UsersClause, now)[k].edited == if k in t then t[k].edited else None
    decreases |recs|
  {
    if recs != [] {
      var t1 := Upsert(t, recs[0], UsersClause, now);
      if recs[0].id in t {
        UsersUpdateKeepsEdited(t[recs[0].id], recs[0].payload, now);
      }
      UsersApplyAllEdited(t1, recs[1..], now);
    }
  }

  /**
   * The whole users run as written: no row's `edited` column ever changes, even
   * for a changed mail; a row it inserts has none.
   */
  lemma InsertDataInUsersKeepsEdited(csv: seq<CsvRow>, batchSize: int, now: nat, t0: Table<string>)
    ensures var t := ReconcileSpec(csv, DecodeUser, batchSize, UsersClause, now, t0).1;
      forall k :: k in t ==> t[k].edited == if k in t0 then t0[k].edited else None
  {
    var n := UpsertPhaseExecutes(csv, DecodeUser, batchSize, UsersClause, now, t0);
    var recs := DecodeRows(DataRows(csv), DecodeUser).recs;
    UsersApplyAllEdited(t0, recs[..n], now);
  }

  /**
   * The users run with the reordered clause: after a completed run on a snapshot
   * with distinct keys, each listed row holds its line's mail, and `edited` is
   * `now` exactly when an existing row's mail changed.
   */
  lemma InsertDataInUsersIntendedEdited(csv: seq<CsvRow>, batchSize: int, now: nat, t0: Table<string>)
    requires DistinctIds(DecodeRows(DataRows(csv), DecodeUser).recs)
    requires ReconcileSpec(csv, DecodeUser, batchSize, UsersClauseIntended, now, t0).0 == Done
    ensures var t := ReconcileSpec(csv, DecodeUser, batchSize, UsersClauseIntended, now, t0).1;
      forall j :: 1 <= j < |csv| && |csv[j]| >= 2 ==>
        var k := csv[j][0];
        && k in t
        && t[k].payload == csv[j][1]
        && t[k].deleted.None?
        && t[k].edited == if k !in t0 then None else if t0[k].payload != csv[j][1] then Some(now) else t0[k].edited
  {
    var rows := DataRows(csv);
    var recs := DecodeRows(rows, DecodeUser).recs;
    var a := ApplyAll(t0, recs, UsersClauseIntended, now);
    DecodeRowsComplete(rows, DecodeUser);
    ApplyAllDistinct(t0, recs, UsersClauseIntended, now);
    ApplyAllActivates(t0, recs, UsersClauseIntended, now);
    ClausesSettle<string>(now);
    SoftDeleteScope(a, Ids(recs), now);
    forall j | 1 <= j < |csv| && |csv[j]| >= 2
      ensures csv[j][0] in Ids(recs) && a[csv[j][0]] == UpsertRow(t0, recs[j - 1], UsersClauseIntended, now)
      ensures csv[j][0] in t0 ==> UpsertRow(t0, recs[j - 1], UsersClauseIntended, now).edited
                                  == if t0[csv[j][0]].payload != csv[j][1] then Some(now) else t0[csv[j][0]].edited
    {
      assert rows[j - 1] == csv[j] && recs[j - 1] in recs;
      if csv[j][0] in t0 {
        UsersUpdateIntended(t0[csv[j][0]], csv[j][1], now);
      }
    }
  }

  // ----- the users payload -----

  /** The users clause always overwrites the mail: the last statement for a key decides it. */
  lemma {:induction false} UsersLastWriteWins(t: Table<string>, recs: seq<Record<string>>, now: nat)
    ensures forall j :: 0 <= j < |recs| && (forall i :: j < i < |recs| ==> recs[i].id != recs[j].id) ==>
      recs[j].id in ApplyAll(t, recs, UsersClause, now) && ApplyAll(t, recs, UsersClause, now)[recs[j].id].payload == recs[j].payload
    decreases |recs|
  {
    if recs != [] {
      var t1 := Upsert(t, recs[0], UsersClause, now);
      var rest := recs[1..];
      UsersLastWriteWins(t1, rest, now);
      ApplyAllFrame(t1, rest, UsersClause, now);
      if recs[0].id in t {
        UsersUpdateKeepsEdited(t[recs[0].id], recs[0].payload, now);
      }
      forall j | 0 <= j < |recs| && (forall i :: j < i < |recs| ==> recs[i].id != recs[j].id)
        ensures recs[j].id in ApplyAll(t, recs, UsersClause, now)
        ensures ApplyAll(t, recs, UsersClause, now)[recs[j].id].payload == recs[j].payload
      {
        if j == 0 {
          assert recs[0].id !in Ids(rest) by {
            forall r | r in rest ensures r.id != recs[0].id {
              var i :| 0 <= i < |rest| && rest[i] == r;
              assert r == recs[i + 1];
            }
          }
        } else {
          assert recs[j] == rest[j - 1];
          assert forall i :: j - 1 < i < |rest| ==> rest[i] == recs[i + 1];
        }
      }
    }
  }

  /**
   * After a completed users run, the mail of each key is the mail of the last
   * CSV line with that key, and the row is active.
   */
  lemma InsertDataInUsersMail(csv: seq<CsvRow>, batchSize: int, now: nat, t0: Table<string>)
    requires ReconcileSpec(csv, DecodeUser, batchSize, UsersClause, now, t0).0 == Done
    ensures var t := ReconcileSpec(csv, DecodeUser, batchSize, UsersClause, now, t0).1;
      forall j :: 1 <= j < |csv| && |csv[j]| >= 2 && (forall i :: j < i < |csv| && |csv[i]| >= 2 ==> csv[i][0] != csv[j][0]) ==>
        csv[j][0] in t && t[csv[j][0]].payload == csv[j][1] && t[csv[j][0]].deleted.None?
  {
    var rows := DataRows(csv);
    var recs := DecodeRows(rows, DecodeUser).recs;
    var a := ApplyAll(t0, recs, UsersClause, now);
    DecodeRowsComplete(rows, DecodeUser);
    UsersLastWriteWins(t0, recs, now);
    ApplyAllActivates(t0, recs, UsersClause, now);
    SoftDeleteScope(a, Ids(recs), now);
    forall j | 1 <= j < |csv| && |csv[j]| >= 2 && (forall i :: j < i < |csv| && |csv[i]| >= 2 ==> csv[i][0] != csv[j][0])
      ensures recs[j - 1].id in Ids(recs) && a[recs[j - 1].id].payload == csv[j][1]
    {
      assert rows[j - 1] == csv[j] && recs[j - 1] in recs;
      forall i | j - 1 < i < |recs| ensures recs[i].id != recs[j - 1].id {
        assert rows[i] == csv[i + 1];
      }
    }
  }

  // ----- permissions -----

  /**
   * A permissions line decodes exactly when it has two fields and its label is
   * in the reference map; its key then splits back into the user id and the
   * type id that form its payload.
   */
  lemma DecodePermissionKey(types: map<string, Int32>, data: CsvRow)
    ensures DecodePermission(types, data).Ok? <==> |data| >= 2 && data[1] in types
    ensures DecodePermission(types, data).Ok? ==>
      var r := DecodePermission(types, data).value;
      && r.payload == PermissionPayload(data[0], types[data[1]])
      && Split(r.id) == Some((r.payload.userId, r.payload.permissionTypeId as int))
  {
    if |data| >= 2 && data[1] in types {
      SplitKey(data[0], types[data[1]]);
    }
  }

  /**
   * Two permission statements with the same key carry the same user id and type
   * id, so leaving those columns out of the update clause loses nothing.
   */
  lemma PermissionKeyDeterminesPayload(types: map<string, Int32>, data1: CsvRow, data2: CsvRow)
    requires DecodePermission(types, data1).Ok? && DecodePermission(types, data2).Ok?
    requires DecodePermission(types, data1).value.id == DecodePermission(types, data2).value.id
    ensures DecodePermission(types, data1).value.payload == DecodePermission(types, data2).value.payload
  {
    KeyInjective(data1[0], types[data1[1]], data2[0], types[data2[1]]);
  }

  /** Every row's key splits into the user id and type id stored in it. */
  predicate KeysMatchPayloads(t: Table<PermissionPayload>)
  {
    forall k :: k in t ==> Split(k) == Some((t[k].payload.userId, t[k].payload.permissionTypeId as int))
  }

  /** Permission upserts of statements whose keys match their payloads keep every key matching its payload. */
  lemma {:induction false} PermissionsApplyAllKeepsKeys(t: Table<PermissionPayload>, recs: seq<Record<PermissionPayload>>, now: nat)
    requires KeysMatchPayloads(t)
    requires forall j :: 0 <= j < |recs| ==> Split(recs[j].id) == Some((recs[j].payload.userId, recs[j].payload.permissionTypeId as int))
    ensures KeysMatchPayloads(ApplyAll(t, recs, PermissionsClause, now))
    decreases |recs|
  {
    if recs != [] {
      var t1 := Upsert(t, recs[0], PermissionsClause, now);
      if recs[0].id in t {
        PermissionsUpdate(t[recs[0].id], recs[0].payload, now);
      }
      assert KeysMatchPayloads(t1);
      PermissionsApplyAllKeepsKeys(t1, recs[1..], now);
    }
  }

  /** A permissions run, whatever its outcome, keeps every key matching the payload stored under it. */
  lemma InsertDataInUserPermissionsKeepsKeys(csv: seq<CsvRow>, types: seq<PermissionType>, batchSize: int, now: nat,
                                             t0: Table<PermissionPayload>)
    requires KeysMatchPayloads(t0)
    ensures KeysMatchPayloads(ReconcileSpec(csv, data => DecodePermission(PermissionTypeMap(types), data),
                                            batchSize, PermissionsClause, now, t0).1)
  {
    var decode := data => DecodePermission(PermissionTypeMap(types), data);
    var rows := DataRows(csv);
    var recs := DecodeRows(rows, decode).recs;
    var n := UpsertPhaseExecutes(csv, decode, batchSize, PermissionsClause, now, t0);
    DecodedFrom(rows, decode);
    forall j | 0 <= j < n
      ensures Split(recs[..n][j].id) == Some((recs[..n][j].payload.userId, recs[..n][j].payload.permissionTypeId as int))
    {
      DecodePermissionKey(PermissionTypeMap(types), rows[j]);
    }
    PermissionsApplyAllKeepsKeys(t0, recs[..n], now);
    var a := ApplyAll(t0, recs[..n], PermissionsClause, now);
    SoftDeleteScope(a, Ids(recs), now);
  }

  /**
   * The reference map holds every label of the result rows, and a label that
   * occurs more than once maps to the id of its last row.
   */
  lemma {:induction false} PermissionTypeMapLookup(types: seq<PermissionType>)
    ensures PermissionTypeMap(types).Keys == set i | 0 <= i < |types| :: types[i].name
    ensures forall i :: 0 <= i < |types| && (forall j :: i < j < |types| ==> types[j].name != types[i].name) ==>
      PermissionTypeMap(types)[types[i].name] == types[i].id
    decreases |types|
  {
    if types != [] {
      var init := types[..|types| - 1];
      PermissionTypeMapLookup(init);
      assert forall i :: 0 <= i < |init| ==> init[i] == types[i];
      assert (set i | 0 <= i < |types| :: types[i].name) == (set i | 0 <= i < |init| :: init[i].name) + {types[|types| - 1].name};
    }
  }
}
