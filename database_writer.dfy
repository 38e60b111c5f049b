/**
 * The writer that pushes a CSV snapshot into a target table: it upserts every
 * data row in batches, then soft-deletes every key the snapshot does not list.
 * `InsertDataInUsers` and `InsertDataInUserPermissions` run the same steps and
 * differ only in how a CSV row becomes an upsert statement and in their
 * `ON DUPLICATE KEY UPDATE` clause; the shared steps are `UpsertInBatches`,
 * `BindKeys` and `Reconcile`.
 */
module DatabaseWriter {
  import opened Wrappers
  import opened SqlTable
  import opened PermissionKey
  import SoftDeleteQuery

  /** A CSV line split into its fields; line 0 of a snapshot is the header. */
  type CsvRow = seq<string>

  /** Why a data row cannot be turned into an upsert statement. */
  datatype RowError =
    | TooFewFields                // `data[0]` or `data[1]` is out of bounds
    | UnknownLabel(typeName: string) // the reference map has no id: unboxing the null it returns fails

  /** What ends a run early; the Java methods print it and return. */
  datatype Failure =
    | BadRow(line: nat, error: RowError) // the CSV line that could not be read
    | DivisionByZero                     // `count % batchSize` with a batch size of 0
    | MalformedStatement                 // the server rejects the soft-delete text

  datatype Outcome = Done | Failed(failure: Failure)

  /** The payload of a permission row: the `user_id` and `permission_type_id` columns. */
  datatype PermissionPayload = PermissionPayload(userId: string, permissionTypeId: Int32)

  /** A row of `SELECT id, permission_type FROM l21s_permission_types`. */
  datatype PermissionType = PermissionType(id: Int32, name: string)

  /** The data rows of a snapshot: everything after the header. */
  function DataRows(csv: seq<CsvRow>): seq<CsvRow>
  {
    if |csv| == 0 then [] else csv[1..]
  }

  /** How a users row becomes a statement: key `data[0]`, mail `data[1]`. */
  function DecodeUser(data: CsvRow): Result<Record<string>, RowError>
  {
    if |data| < 2 then Err(TooFewFields) else Ok(Record(data[0], data[1]))
  }

  /**
   * How a permissions row becomes a statement: the label `data[1]` is looked up,
   * the key is `data[0] + "_" + id`, the payload the user id and the type id.
   */
  function DecodePermission(types: map<string, Int32>, data: CsvRow): Result<Record<PermissionPayload>, RowError>
  {
    if |data| < 2 then Err(TooFewFields)
    else if data[1] !in types then Err(UnknownLabel(data[1]))
    else Ok(Record(Key(data[0], types[data[1]]), PermissionPayload(data[0], types[data[1]])))
  }

  /** The statements decoded from rows, in order, up to the first row that fails and that row's line. */
  datatype Decoded<P> = Decoded(recs: seq<Record<P>>, error: Option<(nat, RowError)>)

  /** Decodes data rows in order and stops at the first that fails; data row `k` is CSV line `k + 1`. */
  function DecodeRows<P>(rows: seq<CsvRow>, decode: CsvRow -> Result<Record<P>, RowError>): Decoded<P>
    decreases |rows|
  {
    if rows == [] then Decoded([], None)
    else
      var prev := DecodeRows(rows[..|rows| - 1], decode);
      if prev.error.Some? then prev
      else match decode(rows[|rows| - 1])
        case Err(e) => Decoded(prev.recs, Some((|rows|, e)))
        case Ok(r) => Decoded(prev.recs + [r], None)
  }

  function Abs(x: int): nat
  {
    if x < 0 then -x else x
  }

  /** Java's `%` on `int`: the quotient is truncated, so the remainder has the dividend's sign. */
  function JavaRem(a: int, b: int): (r: int)
    requires b != 0
    ensures Abs(r) < Abs(b)
    ensures a >= 0 ==> r >= 0
    ensures a < 0 ==> r <= 0
    ensures Abs(a - r) % Abs(b) == 0
  {
    var m, n := Abs(b), Abs(a);
    var q, p := n / m, n % m;
    var r := if a >= 0 then p else -p;
    assert Abs(a - r) == n - p == q * m;
    DivOfMultiple(q, 0, m);
    r
  }

  /** How many of `n` added statements have been executed in full batches of `batchSize`. */
  function Flushed(n: nat, batchSize: int): nat
    requires batchSize != 0
  {
    n / Abs(batchSize) * Abs(batchSize)
  }

  /** The statements of the executed batches, in execution order. */
  function Flatten<P>(batches: seq<seq<Record<P>>>): seq<Record<P>>
    decreases |batches|
  {
    if batches == [] then [] else Flatten(batches[..|batches| - 1]) + batches[|batches| - 1]
  }

  /**
   * The upsert loop as a whole: which failure ends it, if any, and the table it
   * leaves. A failing row discards the pending batch; the batches executed before
   * stay applied. With a batch size of 0 the first `count % batchSize`, or the one
   * after the loop when there is no data row, throws.
   */
  function UpsertPhase<P(==)>(csv: seq<CsvRow>, decode: CsvRow -> Result<Record<P>, RowError>,
                               batchSize: int, clause: seq<Assignment>, now: nat, t0: Table<P>): (Option<Failure>, Table<P>)
  {
    var rows := DataRows(csv);
    var d := DecodeRows(rows, decode);
    if batchSize == 0 then
      if |rows| > 0 && decode(rows[0]).Err? then (Some(BadRow(1, decode(rows[0]).error)), t0)
      else (Some(DivisionByZero), t0)
    else match d.error
      case Some(e) =>
        (Some(BadRow(e.0, e.1)), ApplyAll(t0, d.recs[..Flushed(|d.recs|, batchSize)], clause, now))
      case None => (None, ApplyAll(t0, d.recs, clause, now))
  }

  /**
   * A whole run: the upsert loop, then, when it completes, the soft-delete of
   * every key the snapshot does not list. With no data row the soft-delete text
   * is malformed and nothing is soft-deleted.
   */
  function ReconcileSpec<P(==)>(csv: seq<CsvRow>, decode: CsvRow -> Result<Record<P>, RowError>,
                                 batchSize: int, clause: seq<Assignment>, now: nat, t0: Table<P>): (Outcome, Table<P>)
  {
    var (failure, t) := UpsertPhase(csv, decode, batchSize, clause, now, t0);
    if failure.Some? then (Failed(failure.value), t)
    else if |DataRows(csv)| == 0 then (Failed(MalformedStatement), t)
    else (Done, SoftDeleteExcept(t, Ids(DecodeRows(DataRows(csv), decode).recs), now))
  }

  /** Every batch holds exactly `b` statements. */
  predicate FullBatches<P>(batches: seq<seq<Record<P>>>, b: nat)
  {
    forall k :: 0 <= k < |batches| ==> |batches[k]| == b
  }

  /** Every batch holds between 1 and `b` statements, and every batch but the last exactly `b`. */
  predicate SizedBatches<P>(batches: seq<seq<Record<P>>>, b: nat)
  {
    && (forall k :: 0 <= k < |batches| ==> 1 <= |batches[k]| <= b)
    && (forall k :: 0 <= k < |batches| - 1 ==> |batches[k]| == b)
  }

  /**
   * The executed batches hold the statement of every data row, in CSV order,
   * in as few batches of `b` as there can be.
   */
  predicate CoversInOrder<P(==)>(csv: seq<CsvRow>, decode: CsvRow -> Result<Record<P>, RowError>,
                             batches: seq<seq<Record<P>>>, b: nat)
  {
    && |Flatten(batches)| == |DataRows(csv)|
    && (forall k :: 0 <= k < |DataRows(csv)| ==> decode(csv[k + 1]) == Ok(Flatten(batches)[k]))
    && (|batches| - 1) * b < |DataRows(csv)| <= |batches| * b
  }

  /** The bound parameter indices are exactly `1..m`. */
  predicate BindsExactly(bindings: map<int, string>, m: int)
  {
    (forall j :: j in bindings ==> 1 <= j <= m) && (forall j :: 1 <= j <= m ==> j in bindings)
  }

  /** The keys bound to the placeholders of a statement. */
  function BoundValues(bindings: map<int, string>): set<string>
  {
    set j | j in bindings :: bindings[j]
  }

  /** The soft-delete statement as the server runs it: only a well-formed text with every placeholder bound. */
  function ExecuteSoftDelete<P>(t: Table<P>, tableName: string, query: string, bindings: map<int, string>, now: nat): Option<Table<P>>
  {
    match SoftDeleteQuery.Parse(tableName, query)
    case None => None
    case Some(m) =>
      if BindsExactly(bindings, m) then Some(SoftDeleteExcept(t, BoundValues(bindings), now)) else None
  }

  // ----- the imperative steps -----

  /**
   * The upsert loop: decode line `i`, add the statement to the pending batch,
   * count it, and execute the batch when `count % batchSize == 0`; after the
   * loop execute a partial batch that is left. Besides the outcome and the
   * table it returns the executed batches, in order.
   */
  method UpsertInBatches<P(==)>(csv: seq<CsvRow>, decode: CsvRow -> Result<Record<P>, RowError>,
                                 batchSize: int, clause: seq<Assignment>, now: nat, t0: Table<P>)
    returns (failure: Option<Failure>, t: Table<P>, batches: seq<seq<Record<P>>>)
    ensures (failure, t) == UpsertPhase(csv, decode, batchSize, clause, now, t0)
    ensures t == ApplyAll(t0, Flatten(batches), clause, now)
    ensures SizedBatches(batches, Abs(batchSize))
    ensures failure.None? ==> CoversInOrder(csv, decode, batches, Abs(batchSize))
  {
    var count := 0;
    var pending: seq<Record<P>> := [];
    t, batches := t0, [];
    var i := 1;
    while i < |csv|
      invariant count == i - 1
      invariant UpsertLoop(csv, decode, batchSize, clause, now, t0, i, pending, batches, t)
    {
      var data := decode(csv[i]);
      if data.Err? {
        failure := Some(BadRow(i, data.error));
        BadRowOutcome(csv, decode, batchSize, clause, now, t0, i, batches, pending);
        return;
      }
      if batchSize == 0 {
        failure := Some(DivisionByZero);
        ZeroBatchOutcome(csv, decode, clause, now, t0, i, batches, pending);
        return;
      }
      UpsertStep(csv, decode, batchSize, clause, now, t0, i, pending, batches, t);
      pending := pending + [data.value];
      count := count + 1;
      if JavaRem(count, batchSize) == 0 {
        t := ApplyAll(t, pending, clause, now);
        batches := batches + [pending];
        pending := [];
      }
      i := i + 1;
    }
    if batchSize == 0 {
      failure := Some(DivisionByZero);
      ZeroBatchOutcome(csv, decode, clause, now, t0, i, batches, pending);
      return;
    }
    FinishUpsert(csv, decode, batchSize, clause, now, t0, i, batches, pending);
    if JavaRem(count, batchSize) != 0 {
      t := ApplyAll(t, pending, clause, now);
      batches := batches + [pending];
    }
    failure := None;
  }

  /**
   * The binding loop of the soft-delete: parameter `i` gets the key of CSV line `i`.
   * Every line decodes here, as the upsert loop before it has completed.
   */
  method BindKeys<P>(csv: seq<CsvRow>, decode: CsvRow -> Result<Record<P>, RowError>) returns (bindings: map<int, string>)
    requires forall j :: 1 <= j < |csv| ==> decode(csv[j]).Ok?
    ensures BindsExactly(bindings, |csv| - 1)
    ensures forall j :: 1 <= j < |csv| ==> bindings[j] == decode(csv[j]).value.id
  {
    bindings := map[];
    var i := 1;
    while i < |csv|
      invariant 1 <= i && (i <= |csv| || i == 1)
      invariant BindsExactly(bindings, i - 1)
      invariant forall j :: 1 <= j < i ==> bindings[j] == decode(csv[j]).value.id
    {
      bindings := bindings[i := decode(csv[i]).value.id];
      i := i + 1;
    }
  }

  /** One run: the upsert loop, then building, binding and executing the soft-delete statement. */
  method Reconcile<P(==)>(csv: seq<CsvRow>, decode: CsvRow -> Result<Record<P>, RowError>, tableName: string,
                          batchSize: int, clause: seq<Assignment>, now: nat, t0: Table<P>)
    returns (outcome: Outcome, t: Table<P>)
    ensures (outcome, t) == ReconcileSpec(csv, decode, batchSize, clause, now, t0)
  {
    var failure, batches;
    failure, t, batches := UpsertInBatches(csv, decode, batchSize, clause, now, t0);
    if failure.Some? {
      return Failed(failure.value), t;
    }
    LinesDecode(csv, decode);
    var query := SoftDeleteQuery.Build(tableName, |csv|);
    var bindings := BindKeys(csv, decode);
    var result := ExecuteSoftDelete(t, tableName, query, bindings, now);
    if result.None? {
      return Failed(MalformedStatement), t;
    }
    BoundKeysAreIds(csv, decode, bindings);
    outcome, t := Done, result.value;
  }

  /** `insertDataInUsers`: the users snapshot, keyed by `data[0]`, with the users clause as written. */
  method InsertDataInUsers(csv: seq<CsvRow>, tableName: string, batchSize: int, now: nat, t0: Table<string>)
    returns (outcome: Outcome, t: Table<string>)
    ensures (outcome, t) == ReconcileSpec(csv, DecodeUser, batchSize, UsersClause, now, t0)
  {
    outcome, t := Reconcile(csv, DecodeUser, tableName, batchSize, UsersClause, now, t0);
  }

  /**
   * `insertDataInUserPermissions`: the permissions snapshot, keyed by
   * `user_id + "_" + permission_type_id` after the label lookup, with the
   * permissions clause. `types` is what the reference query returns.
   */
  method InsertDataInUserPermissions(csv: seq<CsvRow>, types: seq<PermissionType>, tableName: string,
                                     batchSize: int, now: nat, t0: Table<PermissionPayload>)
    returns (outcome: Outcome, t: Table<PermissionPayload>)
    ensures (outcome, t) == ReconcileSpec(csv, data => DecodePermission(PermissionTypeMap(types), data),
                                          batchSize, PermissionsClause, now, t0)
  {
    var typeMap := CreatePermissionTypeMap(types);
    outcome, t := Reconcile(csv, data => DecodePermission(typeMap, data), tableName, batchSize, PermissionsClause, now, t0);
  }

  /** The reference map as the `put` loop leaves it: a later row overrides an earlier one with the same label. */
  function PermissionTypeMap(types: seq<PermissionType>): map<string, Int32>
    decreases |types|
  {
    if types == [] then map[]
    else PermissionTypeMap(types[..|types| - 1])[types[|types| - 1].name := types[|types| - 1].id]
  }

  /** `createPermissionTypeMap`: one `put(permission_type, id)` per result row, in order. */
  method CreatePermissionTypeMap(types: seq<PermissionType>) returns (typeMap: map<string, Int32>)
    ensures typeMap == PermissionTypeMap(types)
  {
    typeMap := map[];
    var i := 0;
    while i < |types|
      invariant 0 <= i <= |types|
      invariant typeMap == PermissionTypeMap(types[..i])
    {
      assert types[..i + 1][..i] == types[..i];
      typeMap := typeMap[types[i].name := types[i].id];
      i := i + 1;
    }
    assert types[..i] == types;
  }

  // ----- lemmas the imperative steps use -----

  /** Once decoding has stopped at a line, later rows do not matter. */
  lemma {:induction false} DecodeRowsStops<P>(rows: seq<CsvRow>, k: nat, decode: CsvRow -> Result<Record<P>, RowError>)
    requires k <= |rows| && DecodeRows(rows[..k], decode).error.Some?
    ensures DecodeRows(rows, decode) == DecodeRows(rows[..k], decode)
    decreases |rows| - k
  {
    if k < |rows| {
      assert rows[..k + 1][..k] == rows[..k];
      DecodeRowsStops(rows, k + 1, decode);
    } else {
      assert rows[..k] == rows;
    }
  }

  /** Without an error every row is decoded, each into the statement at its own position. */
  lemma {:induction false} DecodeRowsComplete<P>(rows: seq<CsvRow>, decode: CsvRow -> Result<Record<P>, RowError>)
    requires DecodeRows(rows, decode).error.None?
    ensures |DecodeRows(rows, decode).recs| == |rows|
    ensures forall k :: 0 <= k < |rows| ==> decode(rows[k]) == Ok(DecodeRows(rows, decode).recs[k])
    decreases |rows|
  {
    if rows != [] {
      DecodeRowsComplete(rows[..|rows| - 1], decode);
    }
  }

  lemma FlattenSnoc<P>(batches: seq<seq<Record<P>>>, batch: seq<Record<P>>)
    ensures Flatten(batches + [batch]) == Flatten(batches) + batch
  {
    assert (batches + [batch])[..|batches|] == batches;
  }

  /** Decoding one more row that succeeds extends the decoded statements by it. */
  lemma DecodeStep<P>(rows: seq<CsvRow>, i: nat, decode: CsvRow -> Result<Record<P>, RowError>, prev: seq<Record<P>>, r: Record<P>)
    requires 1 <= i <= |rows|
    requires DecodeRows(rows[..i - 1], decode) == Decoded(prev, None)
    requires decode(rows[i - 1]) == Ok(r)
    ensures DecodeRows(rows[..i], decode) == Decoded(prev + [r], None)
  {
    assert rows[..i][..i - 1] == rows[..i - 1];
  }

  /**
   * What holds at the head of the upsert loop before CSV line `i`: lines
   * `1..i-1` decoded, their statements split into full executed batches and a
   * pending batch, and the table holding the executed ones.
   */
  ghost predicate UpsertLoop<P>(csv: seq<CsvRow>, decode: CsvRow -> Result<Record<P>, RowError>, batchSize: int,
                                      clause: seq<Assignment>, now: nat, t0: Table<P>, i: nat,
                                      pending: seq<Record<P>>, batches: seq<seq<Record<P>>>, t: Table<P>)
  {
    && 1 <= i <= |DataRows(csv)| + 1
    && DecodeRows(DataRows(csv)[..i - 1], decode) == Decoded(Flatten(batches) + pending, None)
    && |Flatten(batches) + pending| == i - 1
    && t == ApplyAll(t0, Flatten(batches), clause, now)
    && (batchSize == 0 ==> batches == [] && pending == [])
    && (batchSize != 0 ==> |pending| < Abs(batchSize) && |Flatten(batches)| == |batches| * Abs(batchSize))
    && FullBatches(batches, Abs(batchSize))
  }

  /** One successful line: add its statement, and execute the batch when `count % batchSize == 0`. */
  lemma UpsertStep<P>(csv: seq<CsvRow>, decode: CsvRow -> Result<Record<P>, RowError>, batchSize: int,
                      clause: seq<Assignment>, now: nat, t0: Table<P>, i: nat,
                      pending: seq<Record<P>>, batches: seq<seq<Record<P>>>, t: Table<P>)
    requires UpsertLoop(csv, decode, batchSize, clause, now, t0, i, pending, batches, t)
    requires i < |csv| && decode(csv[i]).Ok? && batchSize != 0
    ensures var p := pending + [decode(csv[i]).value];
      if JavaRem(i, batchSize) == 0
      then UpsertLoop(csv, decode, batchSize, clause, now, t0, i + 1, [], batches + [p], ApplyAll(t, p, clause, now))
      else UpsertLoop(csv, decode, batchSize, clause, now, t0, i + 1, p, batches, t)
  {
    var rows := DataRows(csv);
    var b := Abs(batchSize);
    var p := pending + [decode(csv[i]).value];
    assert rows[i - 1] == csv[i];
    DecodeStep(rows, i, decode, Flatten(batches) + pending, decode(csv[i]).value);
    assert Flatten(batches) + pending + [decode(csv[i]).value] == Flatten(batches) + p;
    FlushDue(|batches|, |p|, b);
    if |p| == b {
      ApplyAllAppend(t0, Flatten(batches), p, clause, now);
      FlushStep(batches, p, b);
      assert Flatten(batches + [p]) + [] == Flatten(batches) + p;
    }
  }

  /**
   * The upsert loop stopped at line `i` leaves the batches executed so far:
   * that is what UpsertPhase states.
   */
  lemma BadRowOutcome<P>(csv: seq<CsvRow>, decode: CsvRow -> Result<Record<P>, RowError>, batchSize: int,
                         clause: seq<Assignment>, now: nat, t0: Table<P>, i: nat,
                         batches: seq<seq<Record<P>>>, pending: seq<Record<P>>)
    requires 1 <= i < |csv| && decode(csv[i]).Err?
    requires DecodeRows(DataRows(csv)[..i - 1], decode) == Decoded(Flatten(batches) + pending, None)
    requires batchSize == 0 ==> batches == [] && pending == []
    requires batchSize != 0 ==> |pending| < Abs(batchSize) && |Flatten(batches)| == |batches| * Abs(batchSize)
    ensures UpsertPhase(csv, decode, batchSize, clause, now, t0)
         == (Some(BadRow(i, decode(csv[i]).error)), ApplyAll(t0, Flatten(batches), clause, now))
  {
    var rows := DataRows(csv);
    var decoded := Flatten(batches) + pending;
    assert rows[..i][..i - 1] == rows[..i - 1] && rows[..i][i - 1] == csv[i];
    assert DecodeRows(rows[..i], decode) == Decoded(decoded, Some((i, decode(csv[i]).error)));
    DecodeRowsStops(rows, i, decode);
    if batchSize != 0 {
      DivOfMultiple(|batches|, |pending|, Abs(batchSize));
      assert decoded[..Flushed(|decoded|, batchSize)] == Flatten(batches);
    } else {
      assert Flatten(batches) == [];
      assert rows[0] == csv[1];
      assert i == 1;
    }
  }

  /**
   * With a batch size of 0 the run throws at the first `count % batchSize`, on
   * the first data line if that decodes, after the loop if there is none.
   */
  lemma ZeroBatchOutcome<P>(csv: seq<CsvRow>, decode: CsvRow -> Result<Record<P>, RowError>,
                            clause: seq<Assignment>, now: nat, t0: Table<P>, i: nat,
                            batches: seq<seq<Record<P>>>, pending: seq<Record<P>>)
    requires UpsertLoop(csv, decode, 0, clause, now, t0, i, pending, batches, t0)
    requires i < |csv| ==> decode(csv[i]).Ok?
    ensures UpsertPhase(csv, decode, 0, clause, now, t0) == (Some(DivisionByZero), t0)
  {
    var rows := DataRows(csv);
    if |rows| > 0 {
      assert i == 1 && rows[0] == csv[1];
    }
  }

  /**
   * After the loop: executing the partial batch left, if any, completes the
   * upsert phase, and the batches then cover every data row in order.
   */
  lemma FinishUpsert<P>(csv: seq<CsvRow>, decode: CsvRow -> Result<Record<P>, RowError>, batchSize: int,
                        clause: seq<Assignment>, now: nat, t0: Table<P>, i: nat,
                        batches: seq<seq<Record<P>>>, pending: seq<Record<P>>)
    requires UpsertLoop(csv, decode, batchSize, clause, now, t0, i, pending, batches, ApplyAll(t0, Flatten(batches), clause, now))
    requires i >= |csv| && batchSize != 0
    ensures JavaRem(i - 1, batchSize) != 0 <==> pending != []
    ensures var all := if pending == [] then batches else batches + [pending];
      && UpsertPhase(csv, decode, batchSize, clause, now, t0) == (None, ApplyAll(t0, Flatten(all), clause, now))
      && ApplyAll(ApplyAll(t0, Flatten(batches), clause, now), pending, clause, now) == ApplyAll(t0, Flatten(all), clause, now)
      && SizedBatches(all, Abs(batchSize))
      && CoversInOrder(csv, decode, all, Abs(batchSize))
  {
    var rows := DataRows(csv);
    var b := Abs(batchSize);
    var all := if pending == [] then batches else batches + [pending];
    assert rows[..i - 1] == rows;
    LastBatch(batches, pending, b);
    ApplyAllAppend(t0, Flatten(batches), pending, clause, now);
    DecodeRowsComplete(rows, decode);
    forall k | 0 <= k < |rows| ensures decode(csv[k + 1]) == Ok(Flatten(all)[k]) {
      assert rows[k] == csv[k + 1];
    }
  }

  /** The partial batch left after the loop, executed when it is not empty, completes a batching of the statements. */
  lemma LastBatch<P>(batches: seq<seq<Record<P>>>, pending: seq<Record<P>>, b: nat)
    requires |pending| < b && |Flatten(batches)| == |batches| * b && FullBatches(batches, b)
    ensures (|Flatten(batches)| + |pending|) % b == |pending|
    ensures var all := if pending == [] then batches else batches + [pending];
      && Flatten(all) == Flatten(batches) + pending
      && SizedBatches(all, b)
      && (|all| - 1) * b < |Flatten(all)| <= |all| * b
  {
    DivOfMultiple(|batches|, |pending|, b);
    FlattenSnoc(batches, pending);
    CeilingBounds(|batches|, |pending|, b);
  }

  /** A completed upsert loop decoded every data line. */
  lemma LinesDecode<P>(csv: seq<CsvRow>, decode: CsvRow -> Result<Record<P>, RowError>)
    requires DecodeRows(DataRows(csv), decode).error.None?
    ensures forall j :: 1 <= j < |csv| ==> decode(csv[j]).Ok?
  {
    var rows := DataRows(csv);
    DecodeRowsComplete(rows, decode);
    forall j | 1 <= j < |csv| ensures decode(csv[j]).Ok? {
      assert rows[j - 1] == csv[j];
    }
  }

  /** The keys bound to the soft-delete statement are exactly the keys of the decoded statements. */
  lemma BoundKeysAreIds<P>(csv: seq<CsvRow>, decode: CsvRow -> Result<Record<P>, RowError>, bindings: map<int, string>)
    requires DecodeRows(DataRows(csv), decode).error.None?
    requires forall j :: 1 <= j < |csv| ==> decode(csv[j]).Ok?
    requires BindsExactly(bindings, |csv| - 1)
    requires forall j :: 1 <= j < |csv| ==> bindings[j] == decode(csv[j]).value.id
    ensures BoundValues(bindings) == Ids(DecodeRows(DataRows(csv), decode).recs)
  {
    var rows := DataRows(csv);
    var recs := DecodeRows(rows, decode).recs;
    DecodeRowsComplete(rows, decode);
    forall k | k in BoundValues(bindings) ensures k in Ids(recs) {
      var j :| j in bindings && bindings[j] == k;
      assert rows[j - 1] == csv[j] && recs[j - 1] in recs;
    }
    forall k | k in Ids(recs) ensures k in BoundValues(bindings) {
      var r :| r in recs && r.id == k;
      var j :| 0 <= j < |recs| && recs[j] == r;
      assert rows[j] == csv[j + 1] && bindings[j + 1] == k;
    }
  }

  /** A full batch appended keeps every batch full. */
  lemma FlushStep<P>(batches: seq<seq<Record<P>>>, pending: seq<Record<P>>, b: nat)
    requires |pending| == b && |Flatten(batches)| == |batches| * b
    requires FullBatches(batches, b)
    ensures Flatten(batches + [pending]) == Flatten(batches) + pending
    ensures |Flatten(batches + [pending])| == |batches + [pending]| * b
    ensures FullBatches(batches + [pending], b)
  {
    FlattenSnoc(batches, pending);
    assert (|batches| + 1) * b == |batches| * b + b;
  }

  /** With `1 <= p <= b` statements pending after `q` full batches, `count % b == 0` exactly when the batch is full. */
  lemma FlushDue(q: nat, p: nat, b: nat)
    requires 1 <= p <= b
    ensures (q * b + p) % b == 0 <==> p == b
  {
    if p == b {
      assert q * b + p == (q + 1) * b + 0;
      DivOfMultiple(q + 1, 0, b);
    } else {
      DivOfMultiple(q, p, b);
    }
  }

  /** `q` full batches and `p < b` pending statements need `q` flushes, or `q + 1` when `p > 0`. */
  lemma CeilingBounds(q: nat, p: nat, b: nat)
    requires p < b
    ensures p > 0 ==> q * b < q * b + p <= (q + 1) * b
    ensures p == 0 ==> (q - 1) * b < q * b + p <= q * b
  {
    assert (q + 1) * b == q * b + b;
    assert (q - 1) * b == q * b - b;
  }

  lemma MulMonotone(a: int, c: int, b: nat)
    requires a <= c
    ensures a * b <= c * b
  {
  }

  /** `q * b + r` divided by `b` is `q` with remainder `r`. */
  lemma DivOfMultiple(q: nat, r: nat, b: nat)
    requires r < b
    ensures (q * b + r) / b == q && (q * b + r) % b == r
  {
    var x := q * b + r;
    var d, m := x / b, x % b;
    assert x == d * b + m;
    if d > q {
      MulMonotone(q + 1, d, b);
      assert false;
    }
    if d < q {
      MulMonotone(d + 1, q, b);
      assert false;
    }
  }
}
