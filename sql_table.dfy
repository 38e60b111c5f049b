/**
 * The target tables and the SQL statements the writer sends to them:
 * the `INSERT ... ON DUPLICATE KEY UPDATE` upserts of the users and the
 * permissions tables and the `UPDATE ... SET deleted = NOW() WHERE id NOT IN (...)`
 * soft-delete. `NOW()` is the parameter `now`.
 */
module SqlTable {
  import opened Wrappers

  /** One row of a target table: its payload columns and the three lifecycle timestamps. */
  datatype Row<P> = Row(payload: P, created: Option<nat>, edited: Option<nat>, deleted: Option<nat>)

  /** A target table, indexed by its primary key column `id`. */
  type Table<P> = map<string, Row<P>>

  /** The parameters bound to one upsert statement: the key and the payload columns. */
  datatype Record<P> = Record(id: string, payload: P)

  /**
   * The CASE assignments that occur in the `ON DUPLICATE KEY UPDATE` clauses.
   * For the users table the payload is the `mail` column.
   */
  datatype Assignment =
    | PayloadIfChanged        // the payload takes the incoming value when it differs from the current one
    | EditedIfPayloadChanged  // `edited` becomes `now` when the current payload differs from the incoming one
    | EditedIfDeleted         // `edited` becomes `now` when the row is soft-deleted
    | ClearDeleted            // a soft-deleted row gets `deleted` back to NULL

  /** The users clause, in the order it is written. */
  const UsersClause: seq<Assignment> := [PayloadIfChanged, EditedIfPayloadChanged, ClearDeleted]

  /** The users clause with the `edited` test moved before the `mail` overwrite. */
  const UsersClauseIntended: seq<Assignment> := [EditedIfPayloadChanged, PayloadIfChanged, ClearDeleted]

  /** The permissions clause, in the order it is written. */
  const PermissionsClause: seq<Assignment> := [EditedIfDeleted, ClearDeleted]

  /**
   * Performs assignment `a` on `row`; the CASE condition and the ELSE value are
   * read from `before`. Reading them from `row` itself is MySQL's left-to-right
   * semantics; reading them from the row as it was before the clause is the
   * "old row" reading.
   */
  function AssignFrom<P(==)>(a: Assignment, before: Row<P>, row: Row<P>, incoming: P, now: nat): Row<P>
  {
    match a
    case PayloadIfChanged =>
      row.(payload := if before.payload != incoming then incoming else before.payload)
    case EditedIfPayloadChanged =>
      row.(edited := if before.payload != incoming then Some(now) else before.edited)
    case EditedIfDeleted =>
      row.(edited := if before.deleted.Some? then Some(now) else before.edited)
    case ClearDeleted =>
      row.(deleted := if before.deleted.Some? then None else before.deleted)
  }

  /** A clause applied left to right: each assignment sees the columns the earlier ones set. */
  function ApplyClause<P(==)>(clause: seq<Assignment>, row: Row<P>, incoming: P, now: nat): Row<P>
    decreases |clause|
  {
    if clause == [] then row
    else
      var current := ApplyClause(clause[..|clause| - 1], row, incoming, now);
      AssignFrom(clause[|clause| - 1], current, current, incoming, now)
  }

  /** A clause in which every CASE reads the row as it was before the clause. */
  function ApplyOldRow<P(==)>(clause: seq<Assignment>, row: Row<P>, incoming: P, now: nat): Row<P>
    decreases |clause|
  {
    if clause == [] then row
    else AssignFrom(clause[|clause| - 1], row, ApplyOldRow(clause[..|clause| - 1], row, incoming, now), incoming, now)
  }

  /** The row an `INSERT` creates: `created = NOW()`, the other timestamps at their NULL default. */
  function Inserted<P>(incoming: P, now: nat): Row<P>
  {
    Row(incoming, Some(now), None, None)
  }

  /** The row that one upsert statement leaves under key `r.id`. */
  function UpsertRow<P(==)>(t: Table<P>, r: Record<P>, clause: seq<Assignment>, now: nat): Row<P>
  {
    if r.id in t then ApplyClause(clause, t[r.id], r.payload, now) else Inserted(r.payload, now)
  }

  /** One upsert statement: it touches the row of its own key and no other. */
  function Upsert<P(==)>(t: Table<P>, r: Record<P>, clause: seq<Assignment>, now: nat): (t': Table<P>)
    ensures t'.Keys == t.Keys + {r.id}
    ensures forall k :: k in t && k != r.id ==> t'[k] == t[k]
  {
    t[r.id := UpsertRow(t, r, clause, now)]
  }

  /** Upsert statements executed one after another, in order. */
  function ApplyAll<P(==)>(t: Table<P>, recs: seq<Record<P>>, clause: seq<Assignment>, now: nat): Table<P>
    decreases |recs|
  {
    if recs == [] then t else ApplyAll(Upsert(t, recs[0], clause, now), recs[1..], clause, now)
  }

  /** The keys of a sequence of statements. */
  function Ids<P(==)>(recs: seq<Record<P>>): set<string>
  {
    set r | r in recs :: r.id
  }

  /** `UPDATE t SET deleted = NOW() WHERE id NOT IN (keep)`. */
  function SoftDeleteExcept<P>(t: Table<P>, keep: set<string>, now: nat): Table<P>
  {
    map k | k in t :: if k in keep then t[k] else t[k].(deleted := Some(now))
  }

  /** The clause ends by clearing `deleted`, so an upserted row is active afterwards. */
  predicate ClearsDeleted(clause: seq<Assignment>)
  {
    |clause| > 0 && clause[|clause| - 1] == ClearDeleted
  }

  /** A second application of the clause with the same values changes nothing. */
  ghost predicate Settles<P(!new)>(clause: seq<Assignment>, now: nat)
  {
    && (forall p: P :: ApplyClause(clause, Inserted(p, now), p, now) == Inserted(p, now))
    && (forall row: Row<P>, p: P {:trigger ApplyClause(clause, row, p, now)} ::
          ApplyClause(clause, ApplyClause(clause, row, p, now), p, now) == ApplyClause(clause, row, p, now))
  }

  // ----- the upsert clauses, one existing row at a time -----

  /** The users clause unfolded into its three assignments, in the order written. */
  lemma UsersClauseSteps(row: Row<string>, mail: string, now: nat)
    ensures var r1 := AssignFrom(PayloadIfChanged, row, row, mail, now);
      var r2 := AssignFrom(EditedIfPayloadChanged, r1, r1, mail, now);
      ApplyClause(UsersClause, row, mail, now) == AssignFrom(ClearDeleted, r2, r2, mail, now)
  {
    var c := UsersClause;
    assert c[..2][..1] == [PayloadIfChanged] && c[..2][..1][..0] == [];
    assert c[..2] == [PayloadIfChanged, EditedIfPayloadChanged];
    assert ApplyClause(c[..2][..1][..0], row, mail, now) == row;
    var r1 := ApplyClause(c[..2][..1], row, mail, now);
    assert r1 == AssignFrom(PayloadIfChanged, row, row, mail, now);
    var r2 := ApplyClause(c[..2], row, mail, now);
    assert r2 == AssignFrom(EditedIfPayloadChanged, r1, r1, mail, now);
  }

  /** The reordered users clause unfolded into its three assignments. */
  lemma IntendedClauseSteps(row: Row<string>, mail: string, now: nat)
    ensures var r1 := AssignFrom(EditedIfPayloadChanged, row, row, mail, now);
      var r2 := AssignFrom(PayloadIfChanged, r1, r1, mail, now);
      ApplyClause(UsersClauseIntended, row, mail, now) == AssignFrom(ClearDeleted, r2, r2, mail, now)
  {
    var c := UsersClauseIntended;
    assert c[..2][..1] == [EditedIfPayloadChanged] && c[..2][..1][..0] == [];
    assert c[..2] == [EditedIfPayloadChanged, PayloadIfChanged];
    assert ApplyClause(c[..2][..1][..0], row, mail, now) == row;
    var r1 := ApplyClause(c[..2][..1], row, mail, now);
    assert r1 == AssignFrom(EditedIfPayloadChanged, row, row, mail, now);
    var r2 := ApplyClause(c[..2], row, mail, now);
    assert r2 == AssignFrom(PayloadIfChanged, r1, r1, mail, now);
  }

  /**
   * The users clause as MySQL runs it: `mail` takes the incoming value, `deleted`
   * is cleared, `created` is kept, and `edited` is kept too, because its CASE
   * compares the already overwritten `mail` with the incoming one.
   */
  lemma UsersUpdateKeepsEdited(row: Row<string>, mail: string, now: nat)
    ensures var r := ApplyClause(UsersClause, row, mail, now);
      && r.payload == mail
      && r.created == row.created
      && r.edited == row.edited
      && r.deleted == None
  {
    UsersClauseSteps(row, mail, now);
  }

  /** An input on which the written order and the evidently intended one disagree. */
  lemma UsersUpdateEditedCounterexample()
    ensures ApplyClause(UsersClause, Row("old@example.org", Some(1), None, None), "new@example.org", 2).edited == None
    ensures ApplyClause(UsersClauseIntended, Row("old@example.org", Some(1), None, None), "new@example.org", 2).edited == Some(2)
  {
    UsersUpdateKeepsEdited(Row("old@example.org", Some(1), None, None), "new@example.org", 2);
    UsersUpdateIntended(Row("old@example.org", Some(1), None, None), "new@example.org", 2);
  }

  /**
   * The reordered users clause: `edited` becomes `now` exactly when the mail
   * differs, the mail is overwritten, `deleted` is cleared and `created` kept.
   */
  lemma UsersUpdateIntended(row: Row<string>, mail: string, now: nat)
    ensures var r := ApplyClause(UsersClauseIntended, row, mail, now);
      && r.payload == mail
      && r.created == row.created
      && (row.payload != mail ==> r.edited == Some(now))
      && (row.payload == mail ==> r.edited == row.edited)
      && r.deleted == None
  {
    IntendedClauseSteps(row, mail, now);
  }

  /** The "old row" reading of the users clause is the reordered clause run left to right. */
  lemma UsersOldRowReadingIsIntended(row: Row<string>, mail: string, now: nat)
    ensures ApplyOldRow(UsersClause, row, mail, now) == ApplyClause(UsersClauseIntended, row, mail, now)
  {
    var c := UsersClause;
    assert c[..2][..1] == [PayloadIfChanged] && c[..2][..1][..0] == [];
    assert c[..2] == [PayloadIfChanged, EditedIfPayloadChanged];
    assert ApplyOldRow(c[..2][..1][..0], row, mail, now) == row;
    var r1 := ApplyOldRow(c[..2][..1], row, mail, now);
    assert r1 == AssignFrom(PayloadIfChanged, row, row, mail, now);
    var r2 := ApplyOldRow(c[..2], row, mail, now);
    assert r2 == AssignFrom(EditedIfPayloadChanged, row, r1, mail, now);
    assert ApplyOldRow(c, row, mail, now) == AssignFrom(ClearDeleted, row, r2, mail, now);
    IntendedClauseSteps(row, mail, now);
  }

  /**
   * The permissions clause: `edited` becomes `now` exactly when the row was
   * soft-deleted, `deleted` is cleared, payload and `created` are kept; an
   * active row is left as it is.
   */
  lemma PermissionsUpdate<P>(row: Row<P>, incoming: P, now: nat)
    ensures var r := ApplyClause(PermissionsClause, row, incoming, now);
      && r.payload == row.payload
      && r.created == row.created
      && (row.deleted.Some? ==> r.edited == Some(now))
      && (row.deleted.None? ==> r == row)
      && r.deleted == None
  {
    assert PermissionsClause[..1] == [EditedIfDeleted];
  }

  /** For the permissions clause both readings agree: the `edited` CASE precedes the clear of `deleted`. */
  lemma PermissionsReadingsAgree<P>(row: Row<P>, incoming: P, now: nat)
    ensures ApplyOldRow(PermissionsClause, row, incoming, now) == ApplyClause(PermissionsClause, row, incoming, now)
  {
    assert PermissionsClause[..1] == [EditedIfDeleted];
  }

  /** All three clauses end by clearing `deleted` and reach a fixed point after one application. */
  lemma ClausesSettle<P(!new)>(now: nat)
    ensures ClearsDeleted(UsersClause) && ClearsDeleted(UsersClauseIntended) && ClearsDeleted(PermissionsClause)
    ensures Settles<string>(UsersClause, now) && Settles<string>(UsersClauseIntended, now)
    ensures Settles<P>(PermissionsClause, now)
  {
    forall row: Row<string>, p: string {:trigger ApplyClause(UsersClause, row, p, now)}
      ensures ApplyClause(UsersClause, ApplyClause(UsersClause, row, p, now), p, now) == ApplyClause(UsersClause, row, p, now)
    {
      var r := ApplyClause(UsersClause, row, p, now);
      UsersUpdateKeepsEdited(row, p, now);
      UsersUpdateKeepsEdited(r, p, now);
    }
    forall p: string ensures ApplyClause(UsersClause, Inserted(p, now), p, now) == Inserted(p, now) {
      UsersUpdateKeepsEdited(Inserted(p, now), p, now);
    }
    forall row: Row<string>, p: string {:trigger ApplyClause(UsersClauseIntended, row, p, now)}
      ensures ApplyClause(UsersClauseIntended, ApplyClause(UsersClauseIntended, row, p, now), p, now) == ApplyClause(UsersClauseIntended, row, p, now)
    {
      var r := ApplyClause(UsersClauseIntended, row, p, now);
      UsersUpdateIntended(row, p, now);
      UsersUpdateIntended(r, p, now);
    }
    forall p: string ensures ApplyClause(UsersClauseIntended, Inserted(p, now), p, now) == Inserted(p, now) {
      UsersUpdateIntended(Inserted(p, now), p, now);
    }
    forall row: Row<P>, p: P {:trigger ApplyClause(PermissionsClause, row, p, now)}
      ensures ApplyClause(PermissionsClause, ApplyClause(PermissionsClause, row, p, now), p, now) == ApplyClause(PermissionsClause, row, p, now)
    {
      var r := ApplyClause(PermissionsClause, row, p, now);
      PermissionsUpdate(row, p, now);
      PermissionsUpdate(r, p, now);
    }
    forall p: P ensures ApplyClause(PermissionsClause, Inserted(p, now), p, now) == Inserted(p, now) {
      PermissionsUpdate(Inserted(p, now), p, now);
    }
  }

  // ----- sequences of upserts -----

  /** Executing `a` then `b` is executing `a + b`: how the statements are cut into batches does not matter. */
  lemma {:induction false} ApplyAllAppend<P>(t: Table<P>, a: seq<Record<P>>, b: seq<Record<P>>, clause: seq<Assignment>, now: nat)
    ensures ApplyAll(t, a + b, clause, now) == ApplyAll(ApplyAll(t, a, clause, now), b, clause, now)
    decreases |a|
  {
    if a == [] {
      assert a + b == b;
    } else {
      assert (a + b)[0] == a[0];
      assert (a + b)[1..] == a[1..] + b;
      var t1 := Upsert(t, a[0], clause, now);
      ApplyAllAppend(t1, a[1..], b, clause, now);
      assert ApplyAll(t, a + b, clause, now) == ApplyAll(t1, a[1..] + b, clause, now);
      assert ApplyAll(t, a, clause, now) == ApplyAll(t1, a[1..], clause, now);
    }
  }

  /** Upserts add their keys and no other; rows of other keys stay as they were. */
  lemma {:induction false} ApplyAllFrame<P>(t: Table<P>, recs: seq<Record<P>>, clause: seq<Assignment>, now: nat)
    ensures ApplyAll(t, recs, clause, now).Keys == t.Keys + Ids(recs)
    ensures forall k :: k in t && k !in Ids(recs) ==> ApplyAll(t, recs, clause, now)[k] == t[k]
    decreases |recs|
  {
    if recs != [] {
      assert Ids(recs) == {recs[0].id} + Ids(recs[1..]) by {
        assert forall r :: r in recs <==> r == recs[0] || r in recs[1..];
      }
      ApplyAllFrame(Upsert(t, recs[0], clause, now), recs[1..], clause, now);
    }
  }

  /** With a clause that clears `deleted`, every upserted key ends active. */
  lemma {:induction false} ApplyAllActivates<P>(t: Table<P>, recs: seq<Record<P>>, clause: seq<Assignment>, now: nat)
    requires ClearsDeleted(clause)
    ensures forall k :: k in Ids(recs) ==> k in ApplyAll(t, recs, clause, now) && ApplyAll(t, recs, clause, now)[k].deleted == None
    decreases |recs|
  {
    if recs != [] {
      var t1 := Upsert(t, recs[0], clause, now);
      assert Ids(recs) == {recs[0].id} + Ids(recs[1..]) by {
        assert forall r :: r in recs <==> r == recs[0] || r in recs[1..];
      }
      ApplyAllActivates(t1, recs[1..], clause, now);
      ApplyAllFrame(t1, recs[1..], clause, now);
    }
  }

  /** The keys of `recs` are pairwise different. */
  predicate DistinctIds<P>(recs: seq<Record<P>>)
  {
    forall i, j :: 0 <= i < j < |recs| ==> recs[i].id != recs[j].id
  }

  /** With pairwise different keys, each key's row is what its own statement makes of the original row. */
  lemma {:induction false} ApplyAllDistinct<P>(t: Table<P>, recs: seq<Record<P>>, clause: seq<Assignment>, now: nat)
    requires DistinctIds(recs)
    ensures forall j :: 0 <= j < |recs| ==> recs[j].id in ApplyAll(t, recs, clause, now)
    ensures forall j :: 0 <= j < |recs| ==> ApplyAll(t, recs, clause, now)[recs[j].id] == UpsertRow(t, recs[j], clause, now)
    decreases |recs|
  {
    if recs != [] {
      var t1 := Upsert(t, recs[0], clause, now);
      var rest := recs[1..];
      DistinctTail(recs);
      ApplyAllDistinct(t1, rest, clause, now);
      ApplyAllFrame(t1, rest, clause, now);
      ApplyAllFrame(t, recs, clause, now);
      forall j | 0 <= j < |recs|
        ensures ApplyAll(t, recs, clause, now)[recs[j].id] == UpsertRow(t, recs[j], clause, now)
      {
        if j > 0 {
          assert recs[j] == rest[j - 1];
          assert recs[j].id != recs[0].id;
        }
      }
    }
  }

  /** Dropping the first statement keeps the keys distinct, and the first key does not recur. */
  lemma DistinctTail<P>(recs: seq<Record<P>>)
    requires |recs| > 0 && DistinctIds(recs)
    ensures DistinctIds(recs[1..])
    ensures recs[0].id !in Ids(recs[1..])
  {
    var rest := recs[1..];
    forall i, j | 0 <= i < j < |rest| ensures rest[i].id != rest[j].id {
      assert rest[i] == recs[i + 1] && rest[j] == recs[j + 1];
    }
    forall r | r in rest ensures r.id != recs[0].id {
      var i :| 0 <= i < |rest| && rest[i] == r;
      assert r == recs[i + 1];
    }
  }

  /**
   * A clause in which the last statement for a key decides the row: applying it
   * with one payload and then another is applying it with the second only, and
   * it leaves a freshly inserted row alone.
   */
  ghost predicate LastWins<P(!new)>(clause: seq<Assignment>, now: nat)
  {
    && (forall p: P :: ApplyClause(clause, Inserted(p, now), p, now) == Inserted(p, now))
    && (forall row: Row<P>, p: P, q: P {:trigger ApplyClause(clause, ApplyClause(clause, row, p, now), q, now)} ::
          ApplyClause(clause, ApplyClause(clause, row, p, now), q, now) == ApplyClause(clause, row, q, now))
  }

  /** The payload of the last statement for key `k`. */
  function LastPayload<P(==)>(recs: seq<Record<P>>, k: string): P
    requires k in Ids(recs)
    decreases |recs|
  {
    if k in Ids(recs[1..]) then LastPayload(recs[1..], k) else recs[0].payload
  }

  /**
   * Both clauses the writer sends let the last statement for a key win: the
   * users clause overwrites the mail and keeps the rest, and the permissions
   * clause does not read the incoming values at all.
   */
  lemma ClausesLastWin<P(!new)>(now: nat)
    ensures LastWins<string>(UsersClause, now)
    ensures LastWins<P>(PermissionsClause, now)
  {
    forall row: Row<string>, p: string, q: string
      ensures ApplyClause(UsersClause, ApplyClause(UsersClause, row, p, now), q, now) == ApplyClause(UsersClause, row, q, now)
    {
      UsersUpdateKeepsEdited(row, p, now);
      UsersUpdateKeepsEdited(ApplyClause(UsersClause, row, p, now), q, now);
      UsersUpdateKeepsEdited(row, q, now);
    }
    forall p: string ensures ApplyClause(UsersClause, Inserted(p, now), p, now) == Inserted(p, now) {
      UsersUpdateKeepsEdited(Inserted(p, now), p, now);
    }
    forall row: Row<P>, p: P, q: P
      ensures ApplyClause(PermissionsClause, ApplyClause(PermissionsClause, row, p, now), q, now) == ApplyClause(PermissionsClause, row, q, now)
    {
      PermissionsUpdate(row, p, now);
      PermissionsUpdate(ApplyClause(PermissionsClause, row, p, now), q, now);
      PermissionsUpdate(row, q, now);
    }
    forall p: P ensures ApplyClause(PermissionsClause, Inserted(p, now), p, now) == Inserted(p, now) {
      PermissionsUpdate(Inserted(p, now), p, now);
    }
  }

  /** With a last-wins clause, the statements for an existing key amount to its last one. */
  lemma {:induction false} ApplyAllCollapse<P(!new)>(t: Table<P>, recs: seq<Record<P>>, clause: seq<Assignment>, now: nat, k: string)
    requires LastWins<P>(clause, now)
    requires k in t && k in Ids(recs)
    ensures k in ApplyAll(t, recs, clause, now)
    ensures ApplyAll(t, recs, clause, now)[k] == ApplyClause(clause, t[k], LastPayload(recs, k), now)
    decreases |recs|
  {
    var t1 := Upsert(t, recs[0], clause, now);
    var rest := recs[1..];
    ApplyAllFrame(t1, rest, clause, now);
    if k in Ids(rest) {
      ApplyAllCollapse(t1, rest, clause, now, k);
    } else {
      assert recs[0].id == k by {
        var r :| r in recs && r.id == k;
        assert r == recs[0] || r in rest;
      }
    }
  }

  /** With a last-wins clause, each upserted row is a fixed point of its key's last statement. */
  lemma {:induction false} ApplyAllSettled<P(!new)>(t: Table<P>, recs: seq<Record<P>>, clause: seq<Assignment>, now: nat, k: string)
    requires LastWins<P>(clause, now)
    requires k in Ids(recs)
    ensures k in ApplyAll(t, recs, clause, now)
    ensures var row := ApplyAll(t, recs, clause, now)[k];
      ApplyClause(clause, row, LastPayload(recs, k), now) == row
    decreases |recs|
  {
    var t1 := Upsert(t, recs[0], clause, now);
    var rest := recs[1..];
    ApplyAllFrame(t1, rest, clause, now);
    if k in Ids(rest) {
      ApplyAllSettled(t1, rest, clause, now, k);
    } else {
      assert recs[0].id == k by {
        var r :| r in recs && r.id == k;
        assert r == recs[0] || r in rest;
      }
      if k in t {
        var p := recs[0].payload;
        assert ApplyClause(clause, ApplyClause(clause, t[k], p, now), p, now) == ApplyClause(clause, t[k], p, now);
      }
    }
  }

  /** With a last-wins clause, executing the same statements a second time changes nothing. */
  lemma ApplyAllIdempotent<P(!new)>(t: Table<P>, recs: seq<Record<P>>, clause: seq<Assignment>, now: nat)
    requires LastWins<P>(clause, now)
    ensures var a := ApplyAll(t, recs, clause, now);
      ApplyAll(a, recs, clause, now) == a
  {
    var a := ApplyAll(t, recs, clause, now);
    ApplyAllFrame(t, recs, clause, now);
    ApplyAllFrame(a, recs, clause, now);
    forall k | k in Ids(recs) ensures ApplyAll(a, recs, clause, now)[k] == a[k] {
      ApplyAllSettled(t, recs, clause, now, k);
      ApplyAllCollapse(a, recs, clause, now, k);
    }
  }

  // ----- soft-delete -----

  /**
   * The soft-delete keeps every key; rows whose key is in the list are untouched;
   * every other row gets `deleted = now`, including one that was already
   * soft-deleted, and keeps its other columns.
   */
  lemma SoftDeleteScope<P>(t: Table<P>, keep: set<string>, now: nat)
    ensures SoftDeleteExcept(t, keep, now).Keys == t.Keys
    ensures forall k :: k in t && k in keep ==> SoftDeleteExcept(t, keep, now)[k] == t[k]
    ensures forall k :: k in t && k !in keep ==>
      var r := SoftDeleteExcept(t, keep, now)[k];
      r.deleted == Some(now) && r.payload == t[k].payload && r.created == t[k].created && r.edited == t[k].edited
  {
  }
}
