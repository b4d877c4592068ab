/** Safety and progress of the ledger over whole runs: any number of workers, in any interleaving. */
module LedgerRuns {
  import opened Common
  import opened Ledger

  datatype Event =
    | Insert(id: int, tx: NewTransaction)
    | Update(session: string, status: TxStatus, txHash: Option<string>, reason: Option<string>)
    | Touch(session: string)
    | Claim(maxClaim: nat, locked: set<int>, batch: set<int>)
    | Expire(maxAgeHours: int)

  datatype Stamped = Stamped(now: Time, event: Event)

  ghost predicate Step(t: Table, e: Stamped, t': Table) {
    match e.event
    case Insert(id, tx) =>
      id !in t && !HasSession(t, tx.sessionId) && t' == t[id := FreshRow(tx, e.now)]
    case Update(session, status, txHash, reason) =>
      t' == StatusUpdated(t, e.now, session, status, txHash, reason)
    case Touch(session) => t' == Touched(t, e.now, session)
    case Claim(maxClaim, locked, batch) =>
      IsBatch(t, e.now, maxClaim, locked, batch) && t' == Claimed(t, e.now, batch)
    case Expire(maxAgeHours) => t' == Expired(t, e.now, maxAgeHours)
  }

  /** Statements that fail leave the table alone, so a run lists the successful ones. */
  ghost predicate IsRun(states: seq<Table>, events: seq<Stamped>) {
    && |states| == |events| + 1
    && states[0] == map[]
    && (forall i :: 0 <= i < |events| ==> Step(states[i], events[i], states[i + 1]))
    && (forall i, j :: 0 <= i <= j < |events| ==> events[i].now <= events[j].now)
  }

  ghost predicate Claims(e: Stamped, id: int) {
    e.event.Claim? && id in e.event.batch
  }

  /** The statements with which a worker gives a row back. */
  ghost predicate Releases(e: Stamped, session: string) {
    (e.event.Touch? && e.event.session == session) || (e.event.Update? && e.event.session == session)
  }

  predicate AtLeast(t: Option<Time>, bound: Time) {
    t.Some? && t.value >= bound
  }

  // ---------------------------------------------------------------- what every reachable row satisfies

  ghost predicate RowInv(r: Row, now: Time) {
    && (r.completedAt.Some? <==> r.status != Pending)
    && r.createdAt <= r.updatedAt <= now
    && (r.lockedAt.Some? ==> r.createdAt + MIN_CLAIM_AGE < r.lockedAt.value <= r.updatedAt)
    && (r.lastCheckedAt.Some? ==> r.createdAt <= r.lastCheckedAt.value <= r.updatedAt)
    && (r.completedAt.Some? ==> r.createdAt <= r.completedAt.value <= r.updatedAt)
  }

  ghost predicate TableInv(t: Table, now: Time) {
    UniqueSessions(t) && forall id :: id in t ==> RowInv(t[id], now)
  }

  lemma StepKeepsInv(t: Table, now: Time, e: Stamped, t': Table)
    requires TableInv(t, now) && now <= e.now && Step(t, e, t')
    ensures TableInv(t', e.now)
  {
    forall id | id in t' ensures RowInv(t'[id], e.now) {
      if id in t {
        StepKeepsRowInv(t, now, e, t', id);
      }
    }
    StepKeepsSessions(t, e, t');
  }

  lemma StepKeepsRowInv(t: Table, now: Time, e: Stamped, t': Table, id: int)
    requires Step(t, e, t') && now <= e.now && id in t && RowInv(t[id], now)
    ensures id in t' && RowInv(t'[id], e.now)
  {
    match e.event
    case Insert(_, _) =>
    case Update(session, status, txHash, reason) => UpdateKeepsRowInv(t[id], now, e.now, status, txHash, reason);
    case Touch(_) => TouchKeepsRowInv(t[id], now, e.now);
    case Claim(_, locked, batch) =>
      if id in batch {
        assert id in DueIds(t, e.now) - locked;
        ClaimKeepsRowInv(t[id], now, e.now);
      }
    case Expire(maxAgeHours) =>
      if Expirable(t[id], e.now, maxAgeHours) {
        ExpireKeepsRowInv(t[id], now, e.now);
      }
  }

  lemma UpdateKeepsRowInv(r: Row, now: Time, later: Time, status: TxStatus, txHash: Option<string>,
                          reason: Option<string>)
    requires RowInv(r, now) && now <= later
    ensures RowInv(UpdateRow(r, later, status, txHash, reason), later)
  {
  }

  lemma TouchKeepsRowInv(r: Row, now: Time, later: Time)
    requires RowInv(r, now) && now <= later
    ensures RowInv(TouchRow(r, later), later)
  {
  }

  lemma ClaimKeepsRowInv(r: Row, now: Time, later: Time)
    requires RowInv(r, now) && now <= later && Due(r, later)
    ensures RowInv(ClaimRow(r, later), later)
  {
  }

  lemma ExpireKeepsRowInv(r: Row, now: Time, later: Time)
    requires RowInv(r, now) && now <= later
    ensures RowInv(ExpireRow(r, later), later)
  {
  }

  lemma StepKeepsSessions(t: Table, e: Stamped, t': Table)
    requires UniqueSessions(t) && Step(t, e, t')
    ensures UniqueSessions(t')
  {
    forall i, j | i in t' && j in t' && t'[i].details.sessionId == t'[j].details.sessionId ensures i == j {
      DetailsKept(t, e, t', i);
      DetailsKept(t, e, t', j);
    }
  }

  lemma DetailsKept(t: Table, e: Stamped, t': Table, id: int)
    requires Step(t, e, t') && id in t'
    ensures id in t ==> t'[id].details == t[id].details
    ensures id !in t ==> e.event.Insert? && id == e.event.id && t'[id].details == e.event.tx
  {
  }

  /** In every reachable state sessions are unique and `completed_at` is set exactly on terminal rows. */
  lemma {:induction false} ReachableInv(states: seq<Table>, events: seq<Stamped>, k: nat)
    requires IsRun(states, events) && 0 < k <= |events|
    ensures TableInv(states[k], events[k - 1].now)
  {
    if k == 1 {
      StepKeepsInv(states[0], events[0].now, events[0], states[1]);
    } else {
      ReachableInv(states, events, k - 1);
      StepKeepsInv(states[k - 1], events[k - 2].now, events[k - 1], states[k]);
    }
  }

  lemma {:induction false} RowsPersist(states: seq<Table>, events: seq<Stamped>, i: nat, k: nat, id: int)
    requires IsRun(states, events) && i <= k <= |events| && id in states[i]
    ensures id in states[k]
    ensures states[k][id].details == states[i][id].details && states[k][id].createdAt == states[i][id].createdAt
    decreases k
  {
    if i < k {
      RowsPersist(states, events, i, k - 1, id);
      assert Step(states[k - 1], events[k - 1], states[k]);
    }
  }

  /** A terminal row changes its status only through `update_status`, and whenever that asks for another one. */
  lemma TerminalChangesOnlyByUpdate(t: Table, e: Stamped, t': Table, id: int)
    requires Step(t, e, t') && id in t && t[id].status != Pending
    ensures id in t'
    ensures t'[id].status != t[id].status <==>
            e.event.Update? && e.event.session == t[id].details.sessionId && e.event.status != t[id].status
  {
  }

  // ---------------------------------------------------------------- two claims of one row

  /** Once claimed at `since`, a row keeps a lock or a check that is at least that recent. */
  lemma StepKeepsClaimTrace(t: Table, e: Stamped, t': Table, id: int, since: Time)
    requires Step(t, e, t') && since <= e.now && id in t
    requires AtLeast(t[id].lockedAt, since) || AtLeast(t[id].lastCheckedAt, since)
    ensures id in t'
    ensures AtLeast(t'[id].lockedAt, since) || AtLeast(t'[id].lastCheckedAt, since)
    ensures AtLeast(t[id].lockedAt, since) && !Releases(e, t[id].details.sessionId) ==> AtLeast(t'[id].lockedAt, since)
    ensures AtLeast(t[id].lastCheckedAt, since) ==> AtLeast(t'[id].lastCheckedAt, since)
  {
  }

  lemma {:induction false} ClaimTrace(states: seq<Table>, events: seq<Stamped>, i: nat, k: nat, id: int)
    requires IsRun(states, events) && i < k <= |events| && Claims(events[i], id)
    ensures id in states[i] && id in states[k]
    ensures AtLeast(states[k][id].lockedAt, events[i].now) || AtLeast(states[k][id].lastCheckedAt, events[i].now)
    decreases k
  {
    assert Step(states[i], events[i], states[i + 1]);
    if i + 1 < k {
      ClaimTrace(states, events, i, k - 1, id);
      StepKeepsClaimTrace(states[k - 1], events[k - 1], states[k], id, events[i].now);
    }
  }

  /**
   * Main safety result: whatever the workers do, late releases included, two claims of one row are
   * more than the back-off apart.
   */
  lemma ClaimsFarApart(states: seq<Table>, events: seq<Stamped>, i: nat, j: nat, id: int)
    requires IsRun(states, events) && i < j < |events|
    requires Claims(events[i], id) && Claims(events[j], id)
    ensures events[j].now > events[i].now + CHECK_BACKOFF
  {
    ClaimTrace(states, events, i, j, id);
    assert Step(states[j], events[j], states[j + 1]);
    assert Due(states[j][id], events[j].now);
  }

  /** Batches claimed within the back-off of each other, by whichever workers, share no row. */
  lemma CloseBatchesDisjoint(states: seq<Table>, events: seq<Stamped>, i: nat, j: nat)
    requires IsRun(states, events) && i < j < |events|
    requires events[i].event.Claim? && events[j].event.Claim?
    requires events[j].now <= events[i].now + CHECK_BACKOFF
    ensures events[i].event.batch !! events[j].event.batch
  {
    forall id | id in events[i].event.batch ensures id !in events[j].event.batch {
      if Claims(events[j], id) {
        ClaimsFarApart(states, events, i, j, id);
      }
    }
  }

  // ---------------------------------------------------------------- the lease

  ghost predicate NoReleaseBetween(states: seq<Table>, events: seq<Stamped>, i: nat, j: nat, id: int)
    requires i < j <= |events| && i < |states| && id in states[i]
  {
    forall k :: i < k < j ==> !Releases(events[k], states[i][id].details.sessionId)
  }

  lemma JustClaimed(t: Table, e: Stamped, t': Table, id: int)
    requires Step(t, e, t') && Claims(e, id)
    ensures id in t && id in t' && t'[id] == ClaimRow(t[id], e.now)
  {
    assert id in DueIds(t, e.now) - e.event.locked;
  }

  lemma LockStays(t: Table, e: Stamped, t': Table, id: int, session: string, since: Time)
    requires Step(t, e, t') && since <= e.now && id in t && t[id].details.sessionId == session
    requires AtLeast(t[id].lockedAt, since) && !Releases(e, session)
    ensures id in t' && AtLeast(t'[id].lockedAt, since) && t'[id].details.sessionId == session
  {
  }

  lemma {:induction false} LockTrace(states: seq<Table>, events: seq<Stamped>, i: nat, k: nat, id: int)
    requires IsRun(states, events) && i < k <= |events| && Claims(events[i], id) && id in states[i]
    requires NoReleaseBetween(states, events, i, k, id)
    ensures id in states[k] && AtLeast(states[k][id].lockedAt, events[i].now)
    ensures states[k][id].details.sessionId == states[i][id].details.sessionId
    decreases k
  {
    var n := k - 1;
    assert Step(states[n], events[n], states[k]);
    if n == i {
      JustClaimed(states[i], events[i], states[k], id);
    } else {
      LockTrace(states, events, i, n, id);
      LockStays(states[n], events[n], states[k], id, states[i][id].details.sessionId, events[i].now);
    }
  }

  /** Until someone releases the row, its claim keeps others off for the lease and expiry off for the guard. */
  lemma LeaseHolds(states: seq<Table>, events: seq<Stamped>, i: nat, j: nat, id: int)
    requires IsRun(states, events) && i < j < |events| && Claims(events[i], id) && id in states[i]
    requires NoReleaseBetween(states, events, i, j, id)
    ensures id in states[j] && id in states[j + 1]
    ensures Claims(events[j], id) ==> events[j].now > events[i].now + LOCK_EXPIRATION
    ensures events[j].event.Expire? && states[j + 1][id].status != states[j][id].status ==>
              events[j].now > events[i].now + EXPIRY_LOCK_GUARD
  {
    LockTrace(states, events, i, j, id);
    RowsPersist(states, events, j, j + 1, id);
    assert Step(states[j], events[j], states[j + 1]);
  }

  /**
   * A lease is cut short only by a release of the row, and then every release in between lies more than
   * the back-off before the second claim.
   */
  lemma LeaseCutShort(states: seq<Table>, events: seq<Stamped>, i: nat, j: nat, id: int)
    requires IsRun(states, events) && i < j < |events|
    requires Claims(events[i], id) && Claims(events[j], id)
    requires events[j].now <= events[i].now + LOCK_EXPIRATION
    ensures id in states[i]
    ensures exists k :: i < k < j && Releases(events[k], states[i][id].details.sessionId)
    ensures forall k :: i < k < j && Releases(events[k], states[i][id].details.sessionId) ==>
                          events[k].now + CHECK_BACKOFF < events[j].now
  {
    assert Step(states[i], events[i], states[i + 1]);
    if NoReleaseBetween(states, events, i, j, id) {
      LeaseHolds(states, events, i, j, id);
    }
    forall k | i < k < j && Releases(events[k], states[i][id].details.sessionId)
      ensures events[k].now + CHECK_BACKOFF < events[j].now
    {
      RowsPersist(states, events, i, k, id);
      assert Step(states[k], events[k], states[k + 1]);
      CheckTrace(states, events, k + 1, j, id, events[k].now);
      assert Step(states[j], events[j], states[j + 1]);
    }
  }

  /** `i` is the last claim of the row before event `k`. */
  ghost predicate IsLastClaim(events: seq<Stamped>, i: nat, k: nat, id: int) {
    i < k <= |events| && Claims(events[i], id) && forall j :: i < j < k ==> !Claims(events[j], id)
  }

  /** `r` is the last release of the session after event `i` and before event `k`, or `i` if there is none. */
  ghost predicate IsLastRelease(events: seq<Stamped>, i: nat, r: nat, k: nat, session: string) {
    && i <= r < k <= |events|
    && (r > i ==> Releases(events[r], session))
    && forall j :: r < j < k ==> !Releases(events[j], session)
  }

  /** The times of a row since its last claim: locked by it, or unlocked and checked by the last release. */
  lemma {:induction false} SinceLastClaim(states: seq<Table>, events: seq<Stamped>, i: nat, k: nat, id: int)
    returns (r: nat)
    requires IsRun(states, events) && IsLastClaim(events, i, k, id)
    ensures id in states[i] && id in states[k]
    ensures IsLastRelease(events, i, r, k, states[i][id].details.sessionId)
    ensures r == i ==> states[k][id].lockedAt == Some(events[i].now)
    ensures r > i ==> states[k][id].lockedAt == None && states[k][id].lastCheckedAt == Some(events[r].now)
    decreases k
  {
    var n := k - 1;
    assert Step(states[n], events[n], states[k]);
    if n == i {
      r := i;
    } else {
      r := SinceLastClaim(states, events, i, n, id);
      RowsPersist(states, events, i, n, id);
      if Releases(events[n], states[i][id].details.sessionId) {
        r := n;
      }
    }
  }

  /**
   * The exact condition: while the lease of its last claim lasts, a row is due again if and only if it is
   * pending, was given back since, and the last time it was given back is more than the back-off ago.
   */
  lemma DueWithinLease(states: seq<Table>, events: seq<Stamped>, i: nat, k: nat, id: int, later: Time)
    returns (r: nat)
    requires IsRun(states, events) && IsLastClaim(events, i, k, id)
    requires events[k - 1].now <= later <= events[i].now + LOCK_EXPIRATION
    ensures id in states[i] && id in states[k]
    ensures IsLastRelease(events, i, r, k, states[i][id].details.sessionId)
    ensures Due(states[k][id], later) <==>
              states[k][id].status == Pending && r > i && events[r].now + CHECK_BACKOFF < later
  {
    r := SinceLastClaim(states, events, i, k, id);
    assert Step(states[i], events[i], states[i + 1]);
    assert id in DueIds(states[i], events[i].now) - events[i].event.locked;
    RowsPersist(states, events, i, k, id);
  }

  lemma {:induction false} CheckTrace(states: seq<Table>, events: seq<Stamped>, i: nat, k: nat, id: int, since: Time)
    requires IsRun(states, events) && 0 < i <= k <= |events| && since <= events[i - 1].now
    requires id in states[i] && AtLeast(states[i][id].lastCheckedAt, since)
    ensures id in states[k] && AtLeast(states[k][id].lastCheckedAt, since)
    decreases k
  {
    if i < k {
      CheckTrace(states, events, i, k - 1, id, since);
      StepKeepsClaimTrace(states[k - 1], events[k - 1], states[k], id, since);
    }
  }

  /**
   * The lease alone does not keep a row to one worker: a worker that outlived its own lease gives the row
   * back while a second one holds it, and a third one claims it inside the second one's 15 minutes.
   */
  lemma LateReleaseBreaksLease(tx: NewTransaction)
    returns (states: seq<Table>, events: seq<Stamped>)
    ensures IsRun(states, events) && |events| == 5
    ensures Claims(events[1], 1) && Claims(events[2], 1) && Claims(events[4], 1)
    ensures events[2].now > events[1].now + LOCK_EXPIRATION
    ensures events[4].now < events[2].now + LOCK_EXPIRATION
  {
    var r2;
    states, events, r2 := ClaimedTwice(tx);
    var release := SECOND_CLAIM + 1;
    var third := release + CHECK_BACKOFF + 1;
    var r3 := TouchRow(r2, release);
    SingleRowTouch(r2, release);
    states, events := OneMoreStep(states, events, Stamped(release, Touch(tx.sessionId)), map[1 := r3]);
    SingleRowClaim(r3, third);
    states, events := OneMoreStep(states, events, Stamped(third, Claim(1, {}, {1})), map[1 := ClaimRow(r3, third)]);
  }

  const FIRST_CLAIM := MIN_CLAIM_AGE + 1
  const SECOND_CLAIM := FIRST_CLAIM + LOCK_EXPIRATION + 1

  lemma ClaimedTwice(tx: NewTransaction)
    returns (states: seq<Table>, events: seq<Stamped>, r: Row)
    ensures IsRun(states, events) && |events| == 3
    ensures states[3] == map[1 := r]
    ensures r == ClaimRow(ClaimRow(FreshRow(tx, 0), FIRST_CLAIM), SECOND_CLAIM)
    ensures events[1] == Stamped(FIRST_CLAIM, Claim(1, {}, {1}))
    ensures events[2] == Stamped(SECOND_CLAIM, Claim(1, {}, {1}))
  {
    var r0 := FreshRow(tx, 0);
    var r1 := ClaimRow(r0, FIRST_CLAIM);
    r := ClaimRow(r1, SECOND_CLAIM);
    states, events := [map[]], [];
    assert map[][1 := r0] == map[1 := r0];
    states, events := OneMoreStep(states, events, Stamped(0, Insert(1, tx)), map[1 := r0]);
    SingleRowClaim(r0, FIRST_CLAIM);
    states, events := OneMoreStep(states, events, Stamped(FIRST_CLAIM, Claim(1, {}, {1})), map[1 := r1]);
    SingleRowClaim(r1, SECOND_CLAIM);
    states, events := OneMoreStep(states, events, Stamped(SECOND_CLAIM, Claim(1, {}, {1})), map[1 := r]);
  }

  lemma OneMoreStep(states: seq<Table>, events: seq<Stamped>, e: Stamped, t: Table)
    returns (states': seq<Table>, events': seq<Stamped>)
    requires IsRun(states, events) && Step(states[|events|], e, t)
    requires events == [] || events[|events| - 1].now <= e.now
    ensures states' == states + [t] && events' == events + [e] && IsRun(states', events')
  {
    states', events' := states + [t], events + [e];
  }

  lemma SingleRowTouch(r: Row, now: Time)
    ensures Step(map[1 := r], Stamped(now, Touch(r.details.sessionId)), map[1 := TouchRow(r, now)])
  {
    assert Touched(map[1 := r], now, r.details.sessionId) == map[1 := TouchRow(r, now)];
  }

  lemma SingleRowClaim(r: Row, now: Time)
    requires Due(r, now)
    ensures Step(map[1 := r], Stamped(now, Claim(1, {}, {1})), map[1 := ClaimRow(r, now)])
  {
    assert DueIds(map[1 := r], now) - {} == {1};
    assert Claimed(map[1 := r], now, {1}) == map[1 := ClaimRow(r, now)];
  }

  // ---------------------------------------------------------------- rows as the events made them

  /**
   * What happened to row `id` before event `k`: it was inserted by event `n`, last given back by event `r`, or never
   * if that is `n`, and last claimed since then by event `c`, or not since if that is `r`.
   */
  ghost predicate IsHistory(events: seq<Stamped>, k: nat, id: int, n: nat, r: nat, c: nat) {
    && n <= r <= c < k <= |events|
    && events[n].event.Insert? && events[n].event.id == id
    && IsLastRelease(events, n, r, k, events[n].event.tx.sessionId)
    && (c > r ==> Claims(events[c], id))
    && forall j :: c < j < k ==> !Claims(events[j], id)
  }

  /** The row as that history leaves it, but for its outcome. */
  ghost predicate IsLeftBy(row: Row, events: seq<Stamped>, n: nat, r: nat, c: nat)
    requires n <= r <= c < |events| && events[n].event.Insert?
  {
    && row.details == events[n].event.tx
    && row.createdAt == events[n].now
    && row.lastCheckedAt == (if r == n then None else Some(events[r].now))
    && row.lockedAt == if c == r then None else Some(events[c].now)
  }

  lemma StepOfHistory(t: Table, e: Stamped, t': Table, id: int)
    requires Step(t, e, t') && id in t
    ensures id in t' && t'[id].details == t[id].details && t'[id].createdAt == t[id].createdAt
    ensures Releases(e, t[id].details.sessionId) ==> t'[id].lastCheckedAt == Some(e.now) && t'[id].lockedAt == None
    ensures !Releases(e, t[id].details.sessionId) ==> t'[id].lastCheckedAt == t[id].lastCheckedAt
    ensures Claims(e, id) ==> t'[id].lockedAt == Some(e.now)
    ensures !Releases(e, t[id].details.sessionId) && !Claims(e, id) ==> t'[id].lockedAt == t[id].lockedAt
  {
  }

  /** Every row of a reachable state has such a history. */
  lemma {:induction false} RowHistory(states: seq<Table>, events: seq<Stamped>, k: nat, id: int)
    returns (n: nat, r: nat, c: nat)
    requires IsRun(states, events) && k <= |events| && id in states[k]
    ensures IsHistory(events, k, id, n, r, c) && IsLeftBy(states[k][id], events, n, r, c)
    decreases k
  {
    var m := k - 1;
    assert Step(states[m], events[m], states[k]);
    if id in states[m] {
      n, r, c := RowHistory(states, events, m, id);
      StepOfHistory(states[m], events[m], states[k], id);
      if Releases(events[m], events[n].event.tx.sessionId) {
        r, c := m, m;
      } else if Claims(events[m], id) {
        c := m;
      }
    } else {
      n, r, c := m, m, m;
    }
  }

  /**
   * When a row is due, in terms of what happened to it: it is pending, more than 3 hours old, not claimed within
   * 15 minutes since it was last given back, and not given back within 5 minutes.
   */
  lemma DueExactly(states: seq<Table>, events: seq<Stamped>, k: nat, id: int, later: Time)
    returns (n: nat, r: nat, c: nat)
    requires IsRun(states, events) && k <= |events| && id in states[k]
    ensures IsHistory(events, k, id, n, r, c)
    ensures Due(states[k][id], later) <==>
            && states[k][id].status == Pending
            && events[n].now + 3 * 3_600_000_000 < later
            && (c == r || events[c].now + 15 * 60_000_000 < later)
            && (r == n || events[r].now + 5 * 60_000_000 < later)
  {
    n, r, c := RowHistory(states, events, k, id);
  }

  /** When an expiry fails a row: it is pending, old enough, and not claimed within 20 minutes since last given back. */
  lemma ExpiredExactly(states: seq<Table>, events: seq<Stamped>, p: nat, id: int) returns (n: nat, r: nat, c: nat)
    requires IsRun(states, events) && p < |events| && id in states[p] && events[p].event.Expire?
    ensures id in states[p + 1] && IsHistory(events, p, id, n, r, c)
    ensures states[p + 1][id].status != states[p][id].status <==>
            && states[p][id].status == Pending
            && events[n].now + events[p].event.maxAgeHours * 3_600_000_000 < events[p].now
            && (c == r || events[c].now + 20 * 60_000_000 < events[p].now)
    ensures states[p + 1][id].status != states[p][id].status ==> states[p + 1][id].status == Failed
  {
    n, r, c := RowHistory(states, events, p, id);
    assert Step(states[p], events[p], states[p + 1]);
  }

  /**
   * The claim order, in terms of what happened to the rows: a claim that skips nothing takes `b` and leaves the due
   * row `a` only if `a` was given back before, and `b` never was or not later, or else if `b` is not the younger one.
   */
  lemma ClaimOrder(states: seq<Table>, events: seq<Stamped>, p: nat, a: int, b: int)
    returns (na: nat, ra: nat, ca: nat, nb: nat, rb: nat, cb: nat)
    requires IsRun(states, events) && p < |events|
    requires events[p].event.Claim? && events[p].event.locked == {} && b in events[p].event.batch
    requires a in states[p] && Due(states[p][a], events[p].now) && a !in events[p].event.batch
    ensures IsHistory(events, p, a, na, ra, ca) && IsHistory(events, p, b, nb, rb, cb)
    ensures ra == na ==> rb == nb
    ensures ra == na && rb == nb ==> events[nb].now <= events[na].now
    ensures ra > na && rb > nb ==>
              events[rb].now < events[ra].now || (events[rb].now == events[ra].now && events[nb].now <= events[na].now)
  {
    var t, now := states[p], events[p].now;
    assert Step(t, events[p], states[p + 1]);
    assert b in DueIds(t, now) - {} && a in DueIds(t, now) - {};
    assert NotAfter(t[b], t[a]);
    na, ra, ca := RowHistory(states, events, p, a);
    nb, rb, cb := RowHistory(states, events, p, b);
  }

  // ---------------------------------------------------------------- progress

  /** The due rows a claim may serve before row `id`. */
  ghost function Ahead(t: Table, now: Time, id: int): set<int>
    requires id in t
  {
    set q | q in t && q != id && Due(t[q], now) && NotAfter(t[q], t[id])
  }

  /** A claim that skips nothing takes a due row or takes its whole batch from the rows ahead of it. */
  lemma PassServesFront(t: Table, now: Time, maxClaim: nat, batch: set<int>, id: int)
    requires IsBatch(t, now, maxClaim, {}, batch) && id in t && Due(t[id], now)
    ensures id in batch ||
            (|batch| == maxClaim && batch <= Ahead(t, now, id) &&
             id in Claimed(t, now, batch) &&
             Ahead(Claimed(t, now, batch), now, id) == Ahead(t, now, id) - batch)
  {
    if id !in batch {
      assert DueIds(t, now) - {} == DueIds(t, now);
      assert id in DueIds(t, now) - {};
      forall b | b in batch ensures b in Ahead(t, now, id) {
        assert b in DueIds(t, now);
        assert NotAfter(t[b], t[id]);
      }
      if |batch| == |DueIds(t, now)| {
        SubsetOfEqualSize(batch, DueIds(t, now));
      }
      var t' := Claimed(t, now, batch);
      assert Ahead(t', now, id) == Ahead(t, now, id) - batch;
    }
  }

  ghost predicate IsPassSequence(states: seq<Table>, events: seq<Stamped>, passes: seq<nat>, maxClaim: nat) {
    && IsRun(states, events)
    && (forall n :: 0 <= n < |passes| ==>
                      && passes[n] < |events|
                      && events[passes[n]].event.Claim?
                      && events[passes[n]].event.locked == {}
                      && events[passes[n]].event.maxClaim >= maxClaim)
    && (forall m, n :: 0 <= m < n < |passes| ==> passes[m] < passes[n])
  }

  /** The row is given back or expired. */
  ghost predicate Leaves(t: Table, e: Stamped, id: int)
    requires id in t
  {
    || Releases(e, t[id].details.sessionId)
    || (e.event.Expire? && Expirable(t[id], e.now, e.event.maxAgeHours))
  }

  /** The statements that take row `id` out of the line. */
  ghost predicate Serves(t: Table, e: Stamped, id: int)
    requires id in t
  {
    Claims(e, id) || Leaves(t, e, id)
  }

  /** None of the events from `p` to just before `q` takes row `id` out of the line. */
  ghost predicate Waits(states: seq<Table>, events: seq<Stamped>, p: nat, q: nat, id: int)
    requires q <= |events| <= |states|
  {
    forall k :: p <= k < q ==> id in states[k] && !Serves(states[k], events[k], id)
  }

  /** As long as row `id` waits, no row ahead of it becomes newly due between one pass and the next. */
  ghost predicate LineOnlyMoves(states: seq<Table>, events: seq<Stamped>, passes: seq<nat>, maxClaim: nat, id: int)
    requires IsPassSequence(states, events, passes, maxClaim) && |passes| > 0
  {
    forall m, n :: 0 <= m < n == m + 1 < |passes| && Waits(states, events, passes[0], passes[n], id) ==>
                     NoneCutsIn(states, events, passes[m], passes[n], id)
  }

  /** Being due lasts: a row that waits does not change, and stays due as the clock advances. */
  lemma {:induction false} DueKept(states: seq<Table>, events: seq<Stamped>, p: nat, q: nat, id: int)
    requires IsRun(states, events) && p <= q < |events|
    requires id in states[p] && Due(states[p][id], events[p].now)
    requires Waits(states, events, p, q, id)
    ensures id in states[q] && states[q][id] == states[p][id] && Due(states[q][id], events[q].now)
    decreases q
  {
    if p < q {
      DueKept(states, events, p, q - 1, id);
      assert Step(states[q - 1], events[q - 1], states[q]);
      assert !Serves(states[q - 1], events[q - 1], id);
      assert events[p].now <= events[q].now;
    }
  }

  /** From just after event `p` to just before event `q`, no row ahead of row `id` becomes newly due. */
  ghost predicate NoneCutsIn(states: seq<Table>, events: seq<Stamped>, p: nat, q: nat, id: int)
    requires p < q < |events| < |states|
  {
    && id in states[p + 1]
    && id in states[q]
    && Ahead(states[q], events[q].now, id) <= Ahead(states[p + 1], events[p].now, id)
  }

  /** What one pass that does not claim the row does to the rows ahead of it. */
  lemma PassShortensLine(states: seq<Table>, events: seq<Stamped>, p: nat, maxClaim: nat, id: int)
    requires IsRun(states, events) && p < |events|
    requires events[p].event.Claim? && events[p].event.locked == {} && events[p].event.maxClaim >= maxClaim
    requires id in states[p] && Due(states[p][id], events[p].now) && !Claims(events[p], id)
    ensures id in states[p + 1]
    ensures |Ahead(states[p + 1], events[p].now, id)| + maxClaim <= |Ahead(states[p], events[p].now, id)|
  {
    var t, e := states[p], events[p];
    assert Step(t, e, states[p + 1]);
    PassServesFront(t, e.now, e.event.maxClaim, e.event.batch, id);
    var before := Ahead(t, e.now, id);
    assert |before - e.event.batch| == |before| - |e.event.batch|;
  }

  lemma {:induction false} LineShrinks(states: seq<Table>, events: seq<Stamped>, passes: seq<nat>, maxClaim: nat,
                                       id: int, n: nat)
    requires IsPassSequence(states, events, passes, maxClaim) && n < |passes|
    requires id in states[passes[0]] && Due(states[passes[0]][id], events[passes[0]].now)
    requires LineOnlyMoves(states, events, passes, maxClaim, id)
    requires Waits(states, events, passes[0], passes[n] + 1, id)
    ensures id in states[passes[n] + 1]
    ensures (n + 1) * maxClaim + |Ahead(states[passes[n] + 1], events[passes[n]].now, id)|
            <= |Ahead(states[passes[0]], events[passes[0]].now, id)|
  {
    DueKept(states, events, passes[0], passes[n], id);
    assert !Serves(states[passes[n]], events[passes[n]], id);
    PassShortensLine(states, events, passes[n], maxClaim, id);
    if n > 0 {
      var m := n - 1;
      assert Waits(states, events, passes[0], passes[n], id);
      LineShrinks(states, events, passes, maxClaim, id, m);
      assert NoneCutsIn(states, events, passes[m], passes[n], id);
      LineNotLonger(states, events, passes[m], passes[n], id);
      OneMoreBatch(n, maxClaim);
    }
  }

  lemma LineNotLonger(states: seq<Table>, events: seq<Stamped>, p: nat, q: nat, id: int)
    requires p < q < |events| < |states| && NoneCutsIn(states, events, p, q, id)
    ensures |Ahead(states[q], events[q].now, id)| <= |Ahead(states[p + 1], events[p].now, id)|
  {
    SubsetSize(Ahead(states[q], events[q].now, id), Ahead(states[p + 1], events[p].now, id));
  }

  lemma OneMoreBatch(n: nat, size: nat)
    ensures (n + 1) * size == n * size + size
  {
  }

  /**
   * Progress: a row that is due at the first pass, with fewer than `|passes| * maxClaim` due rows ahead of it, is
   * taken out of the line by the last pass at the latest.
   */
  lemma ServedWithinBound(states: seq<Table>, events: seq<Stamped>, passes: seq<nat>, maxClaim: nat, id: int)
    requires IsPassSequence(states, events, passes, maxClaim) && |passes| > 0
    requires id in states[passes[0]] && Due(states[passes[0]][id], events[passes[0]].now)
    requires LineOnlyMoves(states, events, passes, maxClaim, id)
    requires |Ahead(states[passes[0]], events[passes[0]].now, id)| < |passes| * maxClaim
    ensures exists k :: passes[0] <= k <= passes[|passes| - 1] && id in states[k] && Serves(states[k], events[k], id)
  {
    var last := |passes| - 1;
    assert passes[0] <= passes[last];
    if forall k :: passes[0] <= k <= passes[last] && id in states[k] ==> !Serves(states[k], events[k], id) {
      forall k | passes[0] <= k < passes[last] + 1 ensures id in states[k] {
        RowsPersist(states, events, passes[0], k, id);
      }
      LineShrinks(states, events, passes, maxClaim, id, last);
    }
  }

  /** In particular it is claimed, unless it is given back or expired before any claim. */
  lemma ClaimedWithinBound(states: seq<Table>, events: seq<Stamped>, passes: seq<nat>, maxClaim: nat, id: int)
    requires IsPassSequence(states, events, passes, maxClaim) && |passes| > 0
    requires id in states[passes[0]] && Due(states[passes[0]][id], events[passes[0]].now)
    requires LineOnlyMoves(states, events, passes, maxClaim, id)
    requires |Ahead(states[passes[0]], events[passes[0]].now, id)| < |passes| * maxClaim
    requires forall k :: passes[0] <= k <= passes[|passes| - 1] && id in states[k] && Leaves(states[k], events[k], id) ==>
                           exists j :: passes[0] <= j < k && Claims(events[j], id)
    ensures exists k :: passes[0] <= k <= passes[|passes| - 1] && Claims(events[k], id)
  {
    ServedWithinBound(states, events, passes, maxClaim, id);
    var k :| passes[0] <= k <= passes[|passes| - 1] && id in states[k] && Serves(states[k], events[k], id);
    if !Claims(events[k], id) {
      assert Leaves(states[k], events[k], id);
    }
  }

  // ---------------------------------------------------------------- starvation

  /** Row 1 is due, with exactly one due row ahead of it. */
  ghost predicate IsSecondInLine(t: Table, now: Time) {
    1 in t && Due(t[1], now) && |Ahead(t, now, 1)| == 1
  }

  /**
   * A run that starves row 1: at each of the passes it is second in line, and after its first check it is never
   * claimed, given back or expired.
   */
  ghost predicate Starves(states: seq<Table>, events: seq<Stamped>, passes: seq<nat>) {
    && IsPassSequence(states, events, passes, 1)
    && |events| >= 3
    && (forall m :: 0 <= m < |passes| ==>
                      3 <= passes[m] < |events| && IsSecondInLine(states[passes[m]], events[passes[m]].now))
    && forall k :: 3 <= k < |events| ==> 1 in states[k] && !Serves(states[k], events[k], 1)
  }

  /** The transaction of round `n`, with a session of its own. */
  function RoundTransaction(n: nat): NewTransaction {
    NewTransaction(seq(n, _ => 'a'), "exchange", None, None, None, None, None)
  }

  const STARVED: Row := TouchRow(ClaimRow(FreshRow(RoundTransaction(0), 0), FIRST_CLAIM), FIRST_CLAIM)

  /** Between rounds: row 1 as it was checked, and the rows of the earlier rounds, which have all succeeded. */
  ghost predicate IsBetweenRounds(t: Table, n: nat) {
    && (forall id :: id in t <==> 1 <= id < n + 2)
    && t[1] == STARVED
    && forall id :: 2 <= id < n + 2 ==> id in t && t[id].status == Succeeded && t[id].details == RoundTransaction(id - 1)
  }

  lemma StarvesLonger(states: seq<Table>, events: seq<Stamped>, passes: seq<nat>, e: Stamped, t: Table)
    returns (states': seq<Table>, events': seq<Stamped>)
    requires Starves(states, events, passes) && Step(states[|events|], e, t)
    requires events[|events| - 1].now <= e.now
    requires 1 in states[|events|] && !Serves(states[|events|], e, 1)
    ensures Starves(states', events', passes)
    ensures |events'| == |events| + 1 && states'[|events'|] == t && events'[|events|].now == e.now
  {
    states', events' := OneMoreStep(states, events, e, t);
  }

  lemma StarvesAtPass(states: seq<Table>, events: seq<Stamped>, passes: seq<nat>, e: Stamped, t: Table)
    returns (states': seq<Table>, events': seq<Stamped>)
    requires Starves(states, events, passes) && Step(states[|events|], e, t)
    requires events[|events| - 1].now <= e.now
    requires IsSecondInLine(states[|events|], e.now) && !Serves(states[|events|], e, 1)
    requires e.event.Claim? && e.event.locked == {} && e.event.maxClaim >= 1
    ensures Starves(states', events', passes + [|events|])
    ensures |events'| == |events| + 1 && states'[|events'|] == t && events'[|events|].now == e.now
  {
    states', events' := OneMoreStep(states, events, e, t);
  }

  /** The row of a new round is due with row 1 and goes first, because it was never checked. */
  lemma NewRowGoesFirst(t: Table, n: nat, start: Time)
    requires IsBetweenRounds(t, n) && start >= FIRST_CLAIM
    ensures var now := start + FIRST_CLAIM;
            var t' := t[n + 2 := FreshRow(RoundTransaction(n + 1), start)];
            && DueIds(t', now) == {1, n + 2}
            && IsBatch(t', now, 1, {}, {n + 2})
            && IsSecondInLine(t', now)
  {
    var now := start + FIRST_CLAIM;
    var t' := t[n + 2 := FreshRow(RoundTransaction(n + 1), start)];
    forall id | id in t' ensures Due(t'[id], now) <==> id in {1, n + 2} {
      if id in t && id != 1 {
        assert t'[id].status == Succeeded;
      }
    }
    assert DueIds(t', now) == {1, n + 2};
    assert DueIds(t', now) - {} == {1, n + 2};
    assert Ahead(t', now, 1) == {n + 2};
  }

  lemma RoundInserts(t: Table, n: nat, start: Time)
    requires IsBetweenRounds(t, n)
    ensures var tx := RoundTransaction(n + 1);
            var e := Stamped(start, Insert(n + 2, tx));
            Step(t, e, t[n + 2 := FreshRow(tx, start)]) && !Serves(t, e, 1)
  {
    forall id | id in t ensures t[id].details.sessionId != RoundTransaction(n + 1).sessionId {
      assert |t[id].details.sessionId| == id - 1;
    }
  }

  lemma RoundClaims(t: Table, n: nat, start: Time)
    requires IsBetweenRounds(t, n) && start >= FIRST_CLAIM
    ensures var t' := t[n + 2 := FreshRow(RoundTransaction(n + 1), start)];
            var e := Stamped(start + FIRST_CLAIM, Claim(1, {}, {n + 2}));
            Step(t', e, Claimed(t', e.now, {n + 2})) && !Serves(t', e, 1) && IsSecondInLine(t', e.now)
  {
    NewRowGoesFirst(t, n, start);
  }

  /** The round's row succeeds; the others have other sessions. */
  lemma RoundSucceeds(t: Table, n: nat, start: Time)
    requires IsBetweenRounds(t, n)
    ensures var tx, now := RoundTransaction(n + 1), start + FIRST_CLAIM;
            var t' := Claimed(t[n + 2 := FreshRow(tx, start)], now, {n + 2});
            var e := Stamped(now, Update(tx.sessionId, Succeeded, None, None));
            var t'' := StatusUpdated(t', now, tx.sessionId, Succeeded, None, None);
            1 in t' && Step(t', e, t'') && !Serves(t', e, 1) && IsBetweenRounds(t'', n + 1)
  {
    var tx, now := RoundTransaction(n + 1), start + FIRST_CLAIM;
    var t' := Claimed(t[n + 2 := FreshRow(tx, start)], now, {n + 2});
    var t'' := StatusUpdated(t', now, tx.sessionId, Succeeded, None, None);
    assert |tx.sessionId| == n + 1 && |STARVED.details.sessionId| == 0;
    forall id | id in t ensures t''[id] == t[id] {
      assert |t[id].details.sessionId| == id - 1;
    }
  }

  lemma FirstCheck() returns (states: seq<Table>, events: seq<Stamped>)
    ensures Starves(states, events, []) && |events| == 3
    ensures IsBetweenRounds(states[3], 0) && events[2].now == FIRST_CLAIM
  {
    var r0 := FreshRow(RoundTransaction(0), 0);
    var r1 := ClaimRow(r0, FIRST_CLAIM);
    states, events := [map[]], [];
    assert map[][1 := r0] == map[1 := r0];
    states, events := OneMoreStep(states, events, Stamped(0, Insert(1, RoundTransaction(0))), map[1 := r0]);
    SingleRowClaim(r0, FIRST_CLAIM);
    states, events := OneMoreStep(states, events, Stamped(FIRST_CLAIM, Claim(1, {}, {1})), map[1 := r1]);
    SingleRowTouch(r1, FIRST_CLAIM);
    states, events := OneMoreStep(states, events, Stamped(FIRST_CLAIM, Touch(r1.details.sessionId)), map[1 := STARVED]);
  }

  lemma RoundOf(t: Table, n: nat, start: Time) returns (es: seq<Stamped>, ts: seq<Table>)
    requires IsBetweenRounds(t, n) && start >= FIRST_CLAIM
    ensures |es| == |ts| == 3 && start <= es[0].now <= es[1].now <= es[2].now
    ensures 1 in t && Step(t, es[0], ts[0]) && !Serves(t, es[0], 1)
    ensures IsSecondInLine(ts[0], es[1].now) && Step(ts[0], es[1], ts[1]) && !Serves(ts[0], es[1], 1)
    ensures es[1].event.Claim? && es[1].event.locked == {} && es[1].event.maxClaim == 1
    ensures 1 in ts[1] && Step(ts[1], es[2], ts[2]) && !Serves(ts[1], es[2], 1)
    ensures IsBetweenRounds(ts[2], n + 1)
  {
    var tx, now := RoundTransaction(n + 1), start + FIRST_CLAIM;
    RoundInserts(t, n, start);
    RoundClaims(t, n, start);
    RoundSucceeds(t, n, start);
    es := [Stamped(start, Insert(n + 2, tx)), Stamped(now, Claim(1, {}, {n + 2})),
           Stamped(now, Update(tx.sessionId, Succeeded, None, None))];
    var t1 := t[n + 2 := FreshRow(tx, start)];
    var t2 := Claimed(t1, now, {n + 2});
    ts := [t1, t2, StatusUpdated(t2, now, tx.sessionId, Succeeded, None, None)];
  }

  /** One round: a row is inserted, claimed as soon as it is old enough, and succeeds. */
  lemma OneMoreRound(states: seq<Table>, events: seq<Stamped>, passes: seq<nat>)
    returns (states': seq<Table>, events': seq<Stamped>, passes': seq<nat>)
    requires Starves(states, events, passes) && IsBetweenRounds(states[|events|], |passes|)
    requires events[|events| - 1].now >= FIRST_CLAIM
    ensures Starves(states', events', passes') && |passes'| == |passes| + 1
    ensures IsBetweenRounds(states'[|events'|], |passes'|) && events'[|events'| - 1].now >= FIRST_CLAIM
  {
    var start := events[|events| - 1].now;
    var es, ts := RoundOf(states[|events|], |passes|, start);
    states', events' := StarvesLonger(states, events, passes, es[0], ts[0]);
    passes' := passes + [|events'|];
    states', events' := StarvesAtPass(states', events', passes, es[1], ts[1]);
    states', events' := StarvesLonger(states', events', passes', es[2], ts[2]);
  }

  /**
   * The queue is not free of starvation: for every number of passes there is a run in which row 1 is second in line
   * at each of them and is never served. So no bound holds without a limit on the rows that cut in.
   */
  lemma {:induction false} StarvedFor(n: nat) returns (states: seq<Table>, events: seq<Stamped>, passes: seq<nat>)
    ensures Starves(states, events, passes) && |passes| == n
    ensures IsBetweenRounds(states[|events|], n) && events[|events| - 1].now >= FIRST_CLAIM
  {
    if n == 0 {
      states, events := FirstCheck();
      passes := [];
    } else {
      states, events, passes := StarvedFor(n - 1);
      states, events, passes := OneMoreRound(states, events, passes);
    }
  }

  // ---------------------------------------------------------------- the ledger takes these steps

  datatype Statement =
    | InsertNew(tx: NewTransaction)
    | UpdateStatus(session: string, status: TxStatus, txHash: Option<string>, reason: Option<string>)
    | TouchNonTerminal(session: string)
    | ClaimDueBatch(maxClaim: int, locked: set<int>)
    | ExpireOldPending(maxAgeHours: int)

  /** Every statement that the ledger carries out is a step of the runs, and one that fails changes nothing. */
  method Execute(ledger: ReconciliationLedger, statement: Statement, now: Time) returns (done: bool, ghost step: Event)
    requires ledger.Valid()
    modifies ledger
    ensures ledger.Valid()
    ensures done ==> Step(old(ledger.rows), Stamped(now, step), ledger.rows)
    ensures !done ==> ledger.rows == old(ledger.rows)
    ensures done <==> match statement
                      case InsertNew(tx) => !HasSession(old(ledger.rows), tx.sessionId)
                      case UpdateStatus(session, _, _, _) => HasSession(old(ledger.rows), session)
                      case ClaimDueBatch(maxClaim, _) => maxClaim >= 0
                      case _ => true
    ensures done ==> match statement
                     case InsertNew(tx) => step.Insert? && step.tx == tx
                     case UpdateStatus(session, status, txHash, reason) => step == Update(session, status, txHash, reason)
                     case TouchNonTerminal(session) => step == Touch(session)
                     case ClaimDueBatch(maxClaim, locked) =>
                       step.Claim? && step.maxClaim == maxClaim && step.locked == locked
                     case ExpireOldPending(maxAgeHours) => step == Expire(maxAgeHours)
  {
    match statement {
      case InsertNew(tx) =>
        step := Insert(ledger.nextId, tx);
        var res := ledger.InsertNew(tx, now);
        done := res.Ok?;
      case UpdateStatus(session, status, txHash, reason) =>
        step := Update(session, status, txHash, reason);
        var res := ledger.UpdateStatus(session, status, txHash, reason, now);
        done := res.Ok?;
      case TouchNonTerminal(session) =>
        step, done := Touch(session), true;
        ledger.TouchNonTerminal(session, now);
      case ClaimDueBatch(maxClaim, locked) =>
        var res := ledger.ClaimDueBatch(maxClaim, locked, now);
        done := res.Ok?;
        step := if maxClaim >= 0 && res.Ok? then Claim(maxClaim, locked, res.value.Keys) else Expire(0);
      case ExpireOldPending(maxAgeHours) =>
        step, done := Expire(maxAgeHours), true;
        var _ := ledger.ExpireOldPending(maxAgeHours, now);
    }
  }
}
