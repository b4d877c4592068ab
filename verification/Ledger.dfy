/** The exchange reconciliation ledger: each SQL statement is one atomic step on a table of rows. */
module Ledger {
  import opened Common

  /** Microseconds, the resolution of TIMESTAMPTZ. */
  type Time = int

  const MINUTE: Time := 60_000_000
  const HOUR: Time := 60 * MINUTE
  const LOCK_EXPIRATION: Time := 15 * MINUTE
  const CHECK_BACKOFF: Time := 5 * MINUTE
  const MIN_CLAIM_AGE: Time := 3 * HOUR
  const EXPIRY_LOCK_GUARD: Time := 20 * MINUTE

  datatype TxStatus = Pending | Succeeded | Failed

  datatype NewTransaction = NewTransaction(
    sessionId: string,
    exchangeId: string,
    projectId: Option<string>,
    asset: Option<string>,
    amount: Option<real>,
    recipient: Option<string>,
    payUrl: Option<string>)

  datatype Row = Row(
    details: NewTransaction,
    status: TxStatus,
    failureReason: Option<string>,
    txHash: Option<string>,
    createdAt: Time,
    updatedAt: Time,
    lastCheckedAt: Option<Time>,
    completedAt: Option<Time>,
    lockedAt: Option<Time>)

  /** Rows by primary key. */
  type Table = map<int, Row>

  datatype DatabaseError = UniqueViolation | RowNotFound | NegativeLimit

  // ---------------------------------------------------------------- single rows

  /** `t IS NULL OR t < limit` */
  predicate NullOrBefore(t: Option<Time>, limit: Time) {
    t.None? || t.value < limit
  }

  predicate Due(r: Row, now: Time) {
    && r.status == Pending
    && NullOrBefore(r.lockedAt, now - LOCK_EXPIRATION)
    && NullOrBefore(r.lastCheckedAt, now - CHECK_BACKOFF)
    && r.createdAt < now - MIN_CLAIM_AGE
  }

  predicate Expirable(r: Row, now: Time, maxAgeHours: int) {
    && r.status == Pending
    && r.createdAt < now - maxAgeHours * HOUR
    && NullOrBefore(r.lockedAt, now - EXPIRY_LOCK_GUARD)
  }

  /** `ORDER BY last_checked_at NULLS FIRST, created_at ASC`; rows that tie are not after each other. */
  predicate NotAfter(a: Row, b: Row) {
    match (a.lastCheckedAt, b.lastCheckedAt)
    case (None, None) => a.createdAt <= b.createdAt
    case (None, Some(_)) => true
    case (Some(_), None) => false
    case (Some(x), Some(y)) => x < y || (x == y && a.createdAt <= b.createdAt)
  }

  function FreshRow(tx: NewTransaction, now: Time): Row {
    Row(tx, Pending, None, None, now, now, None, None, None)
  }

  function ClaimRow(r: Row, now: Time): Row {
    r.(lockedAt := Some(now), updatedAt := now)
  }

  function TouchRow(r: Row, now: Time): Row {
    r.(lastCheckedAt := Some(now), updatedAt := now, lockedAt := None)
  }

  function UpdateRow(r: Row, now: Time, status: TxStatus, txHash: Option<string>, reason: Option<string>): Row {
    r.(status := status, txHash := txHash, failureReason := reason, lastCheckedAt := Some(now),
    completedAt := if status == Pending then None else Some(now), updatedAt := now, lockedAt := None)
  }

  function ExpireRow(r: Row, now: Time): Row {
    r.(status := Failed, failureReason := if r.failureReason.None? then Some("expired") else r.failureReason,
    completedAt := Some(now), updatedAt := now)
  }

  // ---------------------------------------------------------------- statements on the whole table

  predicate HasSession(t: Table, session: string) {
    exists id :: id in t && t[id].details.sessionId == session
  }

  function Touched(t: Table, now: Time, session: string): Table {
    map id | id in t :: if t[id].details.sessionId == session then TouchRow(t[id], now) else t[id]
  }

  function StatusUpdated(t: Table, now: Time, session: string, status: TxStatus,
                         txHash: Option<string>, reason: Option<string>): Table {
    map id | id in t ::
      if t[id].details.sessionId == session then UpdateRow(t[id], now, status, txHash, reason) else t[id]
  }

  function Expired(t: Table, now: Time, maxAgeHours: int): Table {
    map id | id in t :: if Expirable(t[id], now, maxAgeHours) then ExpireRow(t[id], now) else t[id]
  }

  function Claimed(t: Table, now: Time, batch: set<int>): Table {
    map id | id in t :: if id in batch then ClaimRow(t[id], now) else t[id]
  }

  function DueIds(t: Table, now: Time): set<int> {
    set id | id in t && Due(t[id], now)
  }

  /**
   * What `ORDER BY .. LIMIT maxClaim FOR UPDATE SKIP LOCKED` may select: the first `maxClaim` due rows
   * that no other transaction holds. Ties in the order may be broken either way.
   */
  ghost predicate IsBatch(t: Table, now: Time, maxClaim: nat, locked: set<int>, batch: set<int>) {
    var candidates := DueIds(t, now) - locked;
    && batch <= candidates
    && |batch| == Min(maxClaim, |candidates|)
    && forall b, c :: b in batch && c in candidates && c !in batch ==> NotAfter(t[b], t[c])
  }

  ghost predicate UniqueSessions(t: Table) {
    forall i, j :: i in t && j in t && t[i].details.sessionId == t[j].details.sessionId ==> i == j
  }

  /** At most one row differs, that of the session, and it describes the same transaction. */
  ghost predicate OnlySessionDiffers(t: Table, t': Table, session: string) {
    && t'.Keys == t.Keys
    && (forall id :: id in t && t'[id] != t[id] ==> t[id].details.sessionId == session && t'[id].details == t[id].details)
    && forall i, j :: i in t && j in t && t'[i] != t[i] && t'[j] != t[j] ==> i == j
  }

  lemma UpdateDiffersAtSession(t: Table, now: Time, session: string, status: TxStatus, txHash: Option<string>,
                               reason: Option<string>)
    requires UniqueSessions(t)
    ensures OnlySessionDiffers(t, StatusUpdated(t, now, session, status, txHash, reason), session)
  {
  }

  /** The row of the session has these outcome fields; it is unlocked, and complete exactly if the status is terminal. */
  ghost predicate SessionIsAt(t: Table, now: Time, session: string, status: TxStatus, txHash: Option<string>,
                              reason: Option<string>)
  {
    forall id :: id in t && t[id].details.sessionId == session ==>
                   && t[id].status == status && t[id].txHash == txHash && t[id].failureReason == reason
                   && t[id].lockedAt == None && t[id].lastCheckedAt == Some(now) && t[id].updatedAt == now
                   && t[id].completedAt == if status == Pending then None else Some(now)
  }

  lemma UpdateReachesSession(t: Table, now: Time, session: string, status: TxStatus, txHash: Option<string>,
                             reason: Option<string>)
    ensures SessionIsAt(StatusUpdated(t, now, session, status, txHash, reason), now, session, status, txHash, reason)
    ensures !HasSession(t, session) ==> StatusUpdated(t, now, session, status, txHash, reason) == t
  {
    var t' := StatusUpdated(t, now, session, status, txHash, reason);
    if !HasSession(t, session) {
      assert forall id :: id in t ==> t'[id] == t[id];
    }
  }

  lemma OnlySessionKeepsUnique(t: Table, t': Table, session: string)
    requires UniqueSessions(t) && OnlySessionDiffers(t, t', session)
    ensures UniqueSessions(t')
  {
    assert forall id :: id in t' ==> id in t && t'[id].details == t[id].details;
  }

  /** A pending row of the transaction with no check, lock or outcome yet. */
  predicate IsNew(r: Row, tx: NewTransaction, now: Time) {
    && r.details == tx && r.status == Pending
    && r.createdAt == now && r.updatedAt == now
    && r.lastCheckedAt.None? && r.lockedAt.None? && r.completedAt.None? && r.txHash.None? && r.failureReason.None?
  }

  /** The rows of the batch are locked now; nothing else differs. */
  ghost predicate OnlyLocksDiffer(t: Table, t': Table, now: Time, batch: set<int>) {
    && t'.Keys == t.Keys
    && forall id :: id in t ==>
                      t'[id] == if id in batch then t[id].(lockedAt := Some(now), updatedAt := now) else t[id]
  }

  /** Exactly the expirable rows differ: they have failed, and keep an earlier reason. */
  ghost predicate OnlyExpirableDiffer(t: Table, t': Table, now: Time, maxAgeHours: int) {
    && t'.Keys == t.Keys
    && forall id :: id in t ==>
                      && t'[id].lockedAt == t[id].lockedAt
                      && t'[id].details == t[id].details
                      && (t'[id] != t[id] <==> Expirable(t[id], now, maxAgeHours))
                      && (t'[id] != t[id] ==>
                            && t[id].status == Pending && t'[id].status == Failed
                            && t'[id].completedAt == Some(now) && t'[id].updatedAt == now
                            && t'[id].failureReason ==
                               if t[id].failureReason.Some? then t[id].failureReason else Some("expired"))
  }

  lemma ExpiryReachesExpirable(t: Table, now: Time, maxAgeHours: int)
    ensures var t' := Expired(t, now, maxAgeHours);
            && OnlyExpirableDiffer(t, t', now, maxAgeHours)
            && (set id | id in t' && t'[id] != t[id]) == set id | id in t && Expirable(t[id], now, maxAgeHours)
  {
    var t' := Expired(t, now, maxAgeHours);
    forall id | id in t ensures t'[id] != t[id] <==> Expirable(t[id], now, maxAgeHours) {
      assert Expirable(t[id], now, maxAgeHours) ==> t'[id].status != t[id].status;
    }
  }

  // ---------------------------------------------------------------- the order behind the claim

  /** A non-empty set of rows has a first one, whichever way ties fall. */
  lemma {:induction false} FirstExists(t: Table, ids: set<int>)
    requires ids <= t.Keys
    requires ids != {}
    ensures exists m :: m in ids && forall c :: c in ids ==> NotAfter(t[m], t[c])
  {
    var x := AnyElement(ids);
    if ids == {x} {
      assert forall c :: c in ids ==> NotAfter(t[x], t[c]);
    } else {
      FirstExists(t, ids - {x});
      var m :| m in ids - {x} && forall c :: c in ids - {x} ==> NotAfter(t[m], t[c]);
      var first := if NotAfter(t[x], t[m]) then x else m;
      assert forall c :: c in ids ==> c == x || c in ids - {x};
      assert forall c :: c in ids ==> NotAfter(t[first], t[c]);
    }
  }

  /** `ORDER BY .. LIMIT limit`: any first row of the remaining ones is taken next. */
  method SelectBatch(t: Table, candidates: set<int>, limit: nat) returns (batch: set<int>)
    requires candidates <= t.Keys
    ensures batch <= candidates
    ensures |batch| == Min(limit, |candidates|)
    ensures forall b, c :: b in batch && c in candidates && c !in batch ==> NotAfter(t[b], t[c])
  {
    batch := {};
    var remaining := candidates;
    while |batch| < limit && remaining != {}
      invariant batch + remaining == candidates && batch !! remaining
      invariant |batch| <= limit
      invariant forall b, c :: b in batch && c in remaining ==> NotAfter(t[b], t[c])
      decreases |remaining|
    {
      FirstExists(t, remaining);
      var id :| id in remaining && forall c :: c in remaining ==> NotAfter(t[id], t[c]);
      batch := batch + {id};
      remaining := remaining - {id};
    }
    assert |candidates| == |batch| + |remaining|;
  }

  class ReconciliationLedger {
    var rows: Table
    var nextId: int

    ghost predicate Valid()
      reads this
    {
      && UniqueSessions(rows)
      && forall id :: id in rows ==> id < nextId
    }

    constructor ()
      ensures Valid() && rows == map[]
    {
      rows := map[];
      nextId := 1;
    }

    method InsertNew(tx: NewTransaction, now: Time) returns (res: Result<Row, DatabaseError>)
      requires Valid()
      modifies this
      ensures Valid()
      ensures HasSession(old(rows), tx.sessionId) ==> res == Err(UniqueViolation) && rows == old(rows)
      ensures !HasSession(old(rows), tx.sessionId) ==>
                && res == Ok(FreshRow(tx, now))
                && old(nextId) !in old(rows)
                && rows == old(rows)[old(nextId) := FreshRow(tx, now)]
                && IsNew(rows[old(nextId)], tx, now)
    {
      var id := nextId;
      nextId := nextId + 1; // a sequence number is used up even by an insert that fails
      if HasSession(rows, tx.sessionId) {
        return Err(UniqueViolation);
      }
      rows := rows[id := FreshRow(tx, now)];
      return Ok(FreshRow(tx, now));
    }

    method UpdateStatus(session: string, status: TxStatus, txHash: Option<string>, reason: Option<string>, now: Time)
      returns (res: Result<Row, DatabaseError>)
      requires Valid()
      modifies this`rows
      ensures Valid()
      ensures rows == StatusUpdated(old(rows), now, session, status, txHash, reason)
      ensures OnlySessionDiffers(old(rows), rows, session)
      ensures SessionIsAt(rows, now, session, status, txHash, reason)
      ensures !HasSession(old(rows), session) ==> res == Err(RowNotFound) && rows == old(rows)
      ensures HasSession(old(rows), session) ==>
                res.Ok? && exists id :: id in rows && rows[id] == res.value && res.value.details.sessionId == session
    {
      var before := rows;
      rows := StatusUpdated(before, now, session, status, txHash, reason);
      UpdateDiffersAtSession(before, now, session, status, txHash, reason);
      UpdateReachesSession(before, now, session, status, txHash, reason);
      OnlySessionKeepsUnique(before, rows, session);
      if !HasSession(before, session) {
        return Err(RowNotFound);
      }
      var id :| id in before && before[id].details.sessionId == session;
      return Ok(rows[id]);
    }

    method TouchNonTerminal(session: string, now: Time)
      requires Valid()
      modifies this`rows
      ensures Valid()
      ensures rows == Touched(old(rows), now, session)
      ensures OnlySessionDiffers(old(rows), rows, session)
      ensures forall id :: id in rows && rows[id].details.sessionId == session ==>
                             rows[id] == old(rows)[id].(lockedAt := None, lastCheckedAt := Some(now), updatedAt := now)
    {
      rows := Touched(rows, now, session);
    }

    /** `locked` are the rows other transactions hold while this statement runs. */
    method ClaimDueBatch(maxClaim: int, locked: set<int>, now: Time) returns (res: Result<Table, DatabaseError>)
      requires Valid()
      modifies this`rows
      ensures Valid()
      ensures maxClaim < 0 ==> res == Err(NegativeLimit) && rows == old(rows)
      ensures maxClaim >= 0 ==>
                && res.Ok?
                && IsBatch(old(rows), now, maxClaim, locked, res.value.Keys)
                && rows == Claimed(old(rows), now, res.value.Keys)
                && OnlyLocksDiffer(old(rows), rows, now, res.value.Keys)
                && forall id :: id in res.value ==> id in rows && res.value[id] == rows[id]
    {
      if maxClaim < 0 {
        return Err(NegativeLimit);
      }
      var batch := SelectBatch(rows, DueIds(rows, now) - locked, maxClaim);
      rows := Claimed(rows, now, batch);
      var claimed := map id | id in rows && id in batch :: rows[id];
      assert claimed.Keys == batch;
      return Ok(claimed);
    }

    method ExpireOldPending(maxAgeHours: int, now: Time) returns (affected: nat)
      requires Valid()
      modifies this`rows
      ensures Valid()
      ensures rows == Expired(old(rows), now, maxAgeHours)
      ensures OnlyExpirableDiffer(old(rows), rows, now, maxAgeHours)
      ensures affected == |set id | id in rows && rows[id] != old(rows)[id]|
      ensures affected == |set id | id in old(rows) && Expirable(old(rows)[id], now, maxAgeHours)|
    {
      ghost var before := rows;
      affected := |set id | id in rows && Expirable(rows[id], now, maxAgeHours)|;
      rows := Expired(rows, now, maxAgeHours);
      ExpiryReachesExpirable(before, now, maxAgeHours);
    }
  }
}
