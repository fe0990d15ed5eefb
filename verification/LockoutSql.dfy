// The conditional UPSERT that records a failure in SQLite and in Postgres
// (adapters/sqlite/sqlite.go and adapters/pgstore/pgstore.go), against the
// in-memory transition.  The two statements share one CASE structure and differ
// in how two timestamps are compared.

module LockoutSql {
  import opened Common
  import opened Lockout
  import opened Timestamp
  import Text

  /** A row of authgo_login_attempts; None is SQL NULL. */
  datatype SqlRow<T> = SqlRow(failureCount: int, lockedUntil: Option<T>)

  /** INSERT ... ON CONFLICT DO UPDATE, with `less` the column's order. */
  function Upsert<T>(less: (T, T) -> bool, row: Option<SqlRow<T>>, now: T, lockAt: T, maxFailures: int): SqlRow<T> {
    match row
    case None => SqlRow(1, if 1 >= maxFailures then Some(lockAt) else None)
    case Some(r) =>
      var count := if r.lockedUntil.Some? && !less(now, r.lockedUntil.value) then 1 else r.failureCount + 1;
      SqlRow(count,
             if r.lockedUntil.Some? && less(now, r.lockedUntil.value) then r.lockedUntil
             else if count >= maxFailures then Some(lockAt)
             else None)
  }

  /** The snapshot read back from the row. */
  function Snapshot<T>(instant: T -> Time, r: SqlRow<T>): Attempts {
    Attempts(r.failureCount, if r.lockedUntil.Some? then instant(r.lockedUntil.value) else ZERO_TIME)
  }

  function JustLocked(a: Attempts, maxFailures: int): bool {
    a.lockedUntil != ZERO_TIME && a.count == maxFailures
  }

  /** The row the in-memory store would hold. */
  function MemoryRow<T>(instant: T -> Time, row: Option<SqlRow<T>>): Attempts {
    if row.Some? then Snapshot(instant, row.value) else NO_ATTEMPTS
  }

  /** A clock reading and the instant one window later, as the column represents them. */
  datatype Reading<T> = Reading(now: T, lockAt: T)

  predicate OneWindowOn<T>(instant: T -> Time, p: Policy, r: Reading<T>) {
    instant(r.lockAt) == instant(r.now) + p.window
  }

  // ----- One failure

  /** The statement leaves the row, and reports the flag, that the in-memory transition does. */
  predicate Matches<T>(less: (T, T) -> bool, instant: T -> Time, p: Policy, row: Option<SqlRow<T>>, r: Reading<T>) {
    var snap := Snapshot(instant, Upsert(less, row, r.now, r.lockAt, p.maxFailures));
    (snap, JustLocked(snap, p.maxFailures)) == AtomicFailure(p, MemoryRow(instant, row), instant(r.now))
  }

  /** What it takes for the statement to treat a stored lock as the in-memory store does, when the
      column says whether the clock reads below it.  A lock that ends at the zero time is "unset"
      to the one and a lock to the other. */
  predicate LockUnderstood(p: Policy, count: int, until: Time, below: bool, now: Time) {
    if until == ZERO_TIME then below && (count + 1 >= p.maxFailures ==> now + p.window == ZERO_TIME)
    else below <==> now < until
  }

  /** Whatever the column's order, the statement matches the in-memory transition exactly when the
      stored lock, if there is one, is understood. */
  lemma {:induction false} MatchesIff<T>(
      less: (T, T) -> bool, instant: T -> Time, p: Policy, row: Option<SqlRow<T>>, r: Reading<T>)
    requires p.Valid() && OneWindowOn(instant, p, r) && (row.Some? ==> row.value.failureCount >= 1)
    ensures Matches(less, instant, p, row, r) <==>
            (row.Some? && row.value.lockedUntil.Some? ==>
               var until := row.value.lockedUntil.value;
               LockUnderstood(p, row.value.failureCount, instant(until), less(r.now, until), instant(r.now)))
  {
  }

  // ----- Every run of failures

  function SqlRun<T>(less: (T, T) -> bool, p: Policy, rs: seq<Reading<T>>): Option<SqlRow<T>> {
    if rs == [] then None
    else Some(Upsert(less, SqlRun(less, p, Front(rs)), Last(rs).now, Last(rs).lockAt, p.maxFailures))
  }

  function MemoryRun<T>(instant: T -> Time, p: Policy, rs: seq<Reading<T>>): Attempts {
    if rs == [] then NO_ATTEMPTS else AtomicFailure(p, MemoryRun(instant, p, Front(rs)), instant(Last(rs).now)).0
  }

  /** After these failures the row read back is the one the in-memory store holds; the flag is a
      function of that row on both sides. */
  predicate RunMatches<T>(less: (T, T) -> bool, instant: T -> Time, p: Policy, rs: seq<Reading<T>>) {
    MemoryRow(instant, SqlRun(less, p, rs)) == MemoryRun(instant, p, rs)
  }

  /** A lock engaged at reading a is understood at reading b. */
  predicate Understands<T>(less: (T, T) -> bool, instant: T -> Time, p: Policy, a: Reading<T>, b: Reading<T>) {
    LockUnderstood(p, p.maxFailures, instant(a.lockAt), less(b.now, a.lockAt), instant(b.now))
  }

  /** A stored lock was engaged at one of the readings, at or past the threshold. */
  lemma {:induction false} LocksComeFromReadings<T>(less: (T, T) -> bool, p: Policy, rs: seq<Reading<T>>) returns (i: nat)
    requires p.Valid() && rs != []
    ensures var row := SqlRun(less, p, rs).value;
            && row.failureCount >= 1
            && (row.lockedUntil.Some? ==>
                  row.failureCount >= p.maxFailures && i < |rs| && row.lockedUntil == Some(rs[i].lockAt))
  {
    i := |rs| - 1;
    if |rs| > 1 {
      var j := LocksComeFromReadings(less, p, Front(rs));
      var before := SqlRun(less, p, Front(rs)).value;
      if before.lockedUntil.Some? && less(Last(rs).now, before.lockedUntil.value) {
        i := j;
      }
    }
  }

  lemma {:induction false} UnderstoodRunsMatch<T>(less: (T, T) -> bool, instant: T -> Time, p: Policy, rs: seq<Reading<T>>)
    requires p.Valid() && forall i :: 0 <= i < |rs| ==> OneWindowOn(instant, p, rs[i])
    requires forall i, j :: 0 <= i < |rs| && 0 <= j < |rs| ==> Understands(less, instant, p, rs[i], rs[j])
    ensures RunMatches(less, instant, p, rs)
  {
    if rs != [] {
      UnderstoodRunsMatch(less, instant, p, Front(rs));
      if Front(rs) != [] {
        var i := LocksComeFromReadings(less, p, Front(rs));
        if SqlRun(less, p, Front(rs)).value.lockedUntil.Some? {
          assert Understands(less, instant, p, rs[i], rs[|rs| - 1]);
        }
      }
      MatchesIff(less, instant, p, SqlRun(less, p, Front(rs)), Last(rs));
    }
  }

  /** maxFailures failures at one reading lock the key there. */
  lemma {:induction false} FailuresLock<T>(less: (T, T) -> bool, p: Policy, r: Reading<T>, n: nat)
    requires p.Valid() && 1 <= n <= p.maxFailures
    ensures SqlRun(less, p, Repeat(r, n)) == Some(SqlRow(n, if n == p.maxFailures then Some(r.lockAt) else None))
  {
    var before := Repeat(r, n - 1);
    assert Repeat(r, n) == before + [r];
    SqlRunSnoc(less, p, before, r);
    if n > 1 {
      FailuresLock(less, p, r, n - 1);
    }
  }

  lemma {:induction false} SqlRunSnoc<T>(less: (T, T) -> bool, p: Policy, rs: seq<Reading<T>>, r: Reading<T>)
    ensures SqlRun(less, p, rs + [r]) == Some(Upsert(less, SqlRun(less, p, rs), r.now, r.lockAt, p.maxFailures))
  {
    assert Front(rs + [r]) == rs;
  }

  lemma {:induction false} MisunderstoodRunDiffers<T>(less: (T, T) -> bool, instant: T -> Time, p: Policy, a: Reading<T>, b: Reading<T>)
    requires p.Valid() && OneWindowOn(instant, p, b) && !Understands(less, instant, p, a, b)
    ensures var rs := Repeat(a, p.maxFailures);
            !RunMatches(less, instant, p, rs) || !RunMatches(less, instant, p, rs + [b])
  {
    var rs := Repeat(a, p.maxFailures);
    FailuresLock(less, p, a, p.maxFailures);
    MatchesIff(less, instant, p, SqlRun(less, p, rs), b);
    assert Front(rs + [b]) == rs;
  }

  /** Every run of failures over a clock leaves what the in-memory store would hold. */
  ghost predicate RunsMatch<T(!new)>(less: (T, T) -> bool, instant: T -> Time, p: Policy, allowed: Reading<T> -> bool) {
    forall rs: seq<Reading<T>> :: (forall i :: 0 <= i < |rs| ==> allowed(rs[i])) ==> RunMatches(less, instant, p, rs)
  }

  ghost predicate AllUnderstood<T(!new)>(less: (T, T) -> bool, instant: T -> Time, p: Policy, allowed: Reading<T> -> bool) {
    forall a, b :: allowed(a) && allowed(b) ==> Understands(less, instant, p, a, b)
  }

  /** The runs over a clock match if and only if a lock engaged at any of its readings is understood
      at any other. */
  lemma {:induction false} RunsMatchIff<T(!new)>(less: (T, T) -> bool, instant: T -> Time, p: Policy, allowed: Reading<T> -> bool)
    requires p.Valid() && forall r :: allowed(r) ==> OneWindowOn(instant, p, r)
    ensures RunsMatch(less, instant, p, allowed) <==> AllUnderstood(less, instant, p, allowed)
  {
    if AllUnderstood(less, instant, p, allowed) {
      forall rs: seq<Reading<T>> | forall i :: 0 <= i < |rs| ==> allowed(rs[i])
        ensures RunMatches(less, instant, p, rs)
      {
        UnderstoodRunsMatch(less, instant, p, rs);
      }
    } else {
      var a, b :| allowed(a) && allowed(b) && !Understands(less, instant, p, a, b);
      MisunderstoodRunDiffers(less, instant, p, a, b);
      var rs := Repeat(a, p.maxFailures);
      assert forall i :: 0 <= i < |rs + [b]| ==> allowed((rs + [b])[i]);
    }
  }

  /** A lock that ends at the zero time is not understood at any reading whose own lock does not. */
  lemma ZeroLockMisunderstood<T>(less: (T, T) -> bool, instant: T -> Time, p: Policy, a: Reading<T>, b: Reading<T>)
    requires OneWindowOn(instant, p, b) && instant(a.lockAt) == ZERO_TIME && instant(b.lockAt) != ZERO_TIME
    ensures !Understands(less, instant, p, a, b)
  {
  }

  // ----- Postgres compares instants

  function Exactly(t: Time): Time {
    t
  }

  predicate Before(a: Time, b: Time) {
    a < b
  }

  function At(p: Policy, now: Time): Reading<Time> {
    Reading(now, now + p.window)
  }

  /** The statement agrees with the in-memory transition for every row, reading and policy, except
      on a stored lock that ends at the zero time; there it agrees exactly while the clock is below
      it and the count engages no later lock. */
  lemma {:induction false} PostgresMatchesMemoryIff(p: Policy, row: Option<SqlRow<Time>>, now: Time)
    requires p.Valid() && (row.Some? ==> row.value.failureCount >= 1)
    ensures Matches(Before, Exactly, p, row, At(p, now)) <==>
            (row.Some? && row.value.lockedUntil == Some(ZERO_TIME) ==>
               now < ZERO_TIME && (row.value.failureCount + 1 >= p.maxFailures ==> now + p.window == ZERO_TIME))
  {
    MatchesIff(Before, Exactly, p, row, At(p, now));
  }

  function Clock(p: Policy, allowed: Time -> bool): Reading<Time> -> bool {
    (r: Reading<Time>) => r == At(p, r.now) && allowed(r.now)
  }

  /** So, for a clock that can show a second value, every run of failures in Postgres leaves what
      the in-memory store would hold exactly when the clock never shows the instant one window
      before the zero time. */
  lemma {:induction false} PostgresRunsMatchIff(p: Policy, allowed: Time -> bool, other: Time)
    requires p.Valid() && allowed(other) && other + p.window != ZERO_TIME
    ensures RunsMatch(Before, Exactly, p, Clock(p, allowed)) <==> !allowed(-p.window)
  {
    RunsMatchIff(Before, Exactly, p, Clock(p, allowed));
    if allowed(-p.window) {
      assert Clock(p, allowed)(At(p, -p.window)) && Clock(p, allowed)(At(p, other));
      assert !Understands(Before, Exactly, p, At(p, -p.window), At(p, other));
    }
  }

  /** The row Postgres keeps of a snapshot, at the resolution of its timestamps. */
  function Kept(store: Time -> Time, row: Attempts): SqlRow<Time> {
    SqlRow(row.count, if row.lockedUntil == ZERO_TIME then None else Some(store(row.lockedUntil)))
  }

  /** Timestamps coarser than the clock's, truncated or rounded: the row kept, and the flag, follow
      the in-memory transition exactly unless the clock reads below a lock that is stored as the
      same timestamp, or a lock engaged now would be stored as the zero time. */
  lemma {:induction false} PostgresResolutionIff(p: Policy, store: Time -> Time, row: Attempts, now: Time)
    requires p.Valid() && store(ZERO_TIME) == ZERO_TIME
    requires forall a, b :: a <= b ==> store(a) <= store(b)
    requires row.count >= 0 && (row.lockedUntil != ZERO_TIME ==> row.count >= p.maxFailures)
    ensures var snap := Snapshot(Exactly, Upsert(Before, Some(Kept(store, row)), store(now), store(now + p.window), p.maxFailures));
            var (next, flag) := AtomicFailure(p, row, now);
            var engaging := !Active(row, now) && Expire(row, now).count + 1 == p.maxFailures && now + p.window != ZERO_TIME;
            snap == Attempts(next.count, store(next.lockedUntil)) && JustLocked(snap, p.maxFailures) == flag
            <==> && (Active(row, now) ==> store(now) < store(row.lockedUntil))
                 && (engaging ==> store(now + p.window) != ZERO_TIME)
  {
  }

  /** The column's order, when timestamps are stored at that resolution. */
  function StoredBefore(store: Time -> Time): (Time, Time) -> bool {
    (a, b) => store(a) < store(b)
  }

  /** No reading below a lock's end is stored as the same timestamp. */
  ghost predicate KeepsLocksApart(p: Policy, store: Time -> Time, allowed: Time -> bool) {
    forall a, b :: allowed(a) && allowed(b) && b < a + p.window ==> store(b) < store(a + p.window)
  }

  /** Over whole runs: the statement decides on stored timestamps as the in-memory store does on
      exact ones if and only if the resolution keeps every lock's end apart from the readings below
      it and the clock never shows the instant one window before the zero time. */
  lemma {:induction false} PostgresResolutionRunsIff(p: Policy, store: Time -> Time, allowed: Time -> bool, other: Time)
    requires p.Valid() && forall a, b :: a <= b ==> store(a) <= store(b)
    requires allowed(other) && other + p.window != ZERO_TIME
    ensures RunsMatch(StoredBefore(store), Exactly, p, Clock(p, allowed)) <==>
            KeepsLocksApart(p, store, allowed) && !allowed(-p.window)
  {
    RunsMatchIff(StoredBefore(store), Exactly, p, Clock(p, allowed));
    if allowed(-p.window) {
      assert Clock(p, allowed)(At(p, -p.window)) && Clock(p, allowed)(At(p, other));
      ZeroLockMisunderstood(StoredBefore(store), Exactly, p, At(p, -p.window), At(p, other));
    } else {
      ApartIsUnderstood(p, store, allowed);
    }
  }

  lemma {:induction false} ApartIsUnderstood(p: Policy, store: Time -> Time, allowed: Time -> bool)
    requires !allowed(-p.window) && forall a, b :: a <= b ==> store(a) <= store(b)
    ensures AllUnderstood(StoredBefore(store), Exactly, p, Clock(p, allowed)) <==> KeepsLocksApart(p, store, allowed)
  {
    forall a, b | allowed(a) && allowed(b)
      ensures Clock(p, allowed)(At(p, a)) && Clock(p, allowed)(At(p, b))
      ensures Understands(StoredBefore(store), Exactly, p, At(p, a), At(p, b)) <==>
              (b < a + p.window ==> store(b) < store(a + p.window))
    {
    }
  }

  // ----- SQLite compares encoded timestamps byte by byte

  type Stamp = c: Civil | c.Valid() witness Civil(1, 1, 1, 0, 0, 0, 0)

  predicate SqliteLess(a: Stamp, b: Stamp) {
    Text.Less(Encode(a), Encode(b))
  }

  function StampInstant(c: Stamp): Time {
    Instant(c)
  }

  lemma {:induction false} UnderstoodIffComparable(p: Policy, count: int, now: Stamp, until: Stamp)
    requires StampInstant(until) != ZERO_TIME
    ensures LockUnderstood(p, count, StampInstant(until), SqliteLess(now, until), StampInstant(now)) <==> Comparable(now, until)
  {
    EncodedOrderIff(now, until);
  }

  /** SQLite agrees with the in-memory transition exactly when the stored lock, if there is one,
      and the clock reading are timestamps whose strings can be compared; a lock that ends at the
      zero time it meets as Postgres does. */
  lemma {:induction false} SqliteMatchesMemoryIff(p: Policy, row: Option<SqlRow<Stamp>>, r: Reading<Stamp>)
    requires p.Valid() && OneWindowOn(StampInstant, p, r) && (row.Some? ==> row.value.failureCount >= 1)
    ensures Matches(SqliteLess, StampInstant, p, row, r) <==>
            (row.Some? && row.value.lockedUntil.Some? ==>
               var until := row.value.lockedUntil.value;
               if StampInstant(until) == ZERO_TIME then
                 && SqliteLess(r.now, until)
                 && (row.value.failureCount + 1 >= p.maxFailures ==> StampInstant(r.lockAt) == ZERO_TIME)
               else Comparable(r.now, until))
  {
    MatchesIff(SqliteLess, StampInstant, p, row, r);
    if row.Some? && row.value.lockedUntil.Some? && StampInstant(row.value.lockedUntil.value) != ZERO_TIME {
      UnderstoodIffComparable(p, row.value.failureCount, r.now, row.value.lockedUntil.value);
    }
  }

  ghost predicate AllComparable(allowed: Reading<Stamp> -> bool) {
    forall a, b :: allowed(a) && allowed(b) ==> Comparable(b.now, a.lockAt)
  }

  /** For a clock with a reading whose lock does not end at the zero time, every run of failures in
      SQLite leaves what the in-memory store would hold if and only if the strings of every lock and
      every reading can be compared and no lock ends at the zero time. */
  lemma {:induction false} SqliteRunsMatchIff(p: Policy, allowed: Reading<Stamp> -> bool, other: Reading<Stamp>)
    requires p.Valid() && forall r :: allowed(r) ==> OneWindowOn(StampInstant, p, r)
    requires allowed(other) && StampInstant(other.lockAt) != ZERO_TIME
    ensures RunsMatch(SqliteLess, StampInstant, p, allowed) <==> AllComparable(allowed) && NoZeroLock(allowed)
  {
    RunsMatchIff(SqliteLess, StampInstant, p, allowed);
    if NoZeroLock(allowed) {
      UnderstoodClock(p, allowed);
    } else {
      var r :| allowed(r) && StampInstant(r.lockAt) == ZERO_TIME;
      ZeroLockMisunderstood(SqliteLess, StampInstant, p, r, other);
    }
  }

  ghost predicate NoZeroLock(allowed: Reading<Stamp> -> bool) {
    forall r :: allowed(r) ==> StampInstant(r.lockAt) != ZERO_TIME
  }

  lemma {:induction false} UnderstoodClock(p: Policy, allowed: Reading<Stamp> -> bool)
    requires NoZeroLock(allowed)
    ensures AllUnderstood(SqliteLess, StampInstant, p, allowed) <==> AllComparable(allowed)
  {
    forall a, b | allowed(a) && allowed(b)
      ensures Understands(SqliteLess, StampInstant, p, a, b) <==> Comparable(b.now, a.lockAt)
    {
      UnderstoodIffComparable(p, p.maxFailures, b.now, a.lockAt);
    }
  }

  lemma OffTheSecond(seconds: int, nanos: nat)
    requires 0 < nanos < SECOND
    ensures seconds * SECOND + nanos != ZERO_TIME
  {
  }

  lemma {:induction false} FractionSortsFirst(now: Stamp, until: Stamp)
    requires now.nanos == 0 && until.nanos > 0 && now == until.(nanos := 0)
    ensures !SqliteLess(now, until) && StampInstant(now) < StampInstant(until)
  {
    FractionOfZero(0);
    EncodedOrderIff(now, until);
  }

  /** The mismatch is real: read on the whole second in which a lock ends, before the lock has
      run out, the stored string already sorts below the clock's, so SQLite starts a fresh count
      where the in-memory store is still locked. */
  lemma {:induction false} SqliteLockCanEndEarly(p: Policy, count: int, now: Stamp, until: Stamp, lockAt: Stamp)
    requires p.Valid() && until.nanos > 0 && now == until.(nanos := 0)
    ensures Active(Attempts(count, StampInstant(until)), StampInstant(now))
    ensures Upsert(SqliteLess, Some(SqlRow(count, Some(until))), now, lockAt, p.maxFailures).failureCount == 1
  {
    FractionSortsFirst(now, until);
    OffTheSecond(WholeSeconds(until), until.nanos);
  }
}
