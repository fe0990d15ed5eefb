// Brute-force lockout (domain/lockout.go over adapters/memory/memory.go): the
// policy, the Get-then-Save path and the atomic path, and why callers cannot
// tell the two apart.

module Lockout {
  import opened Common
  import opened Text

  datatype Policy = Policy(maxFailures: int, window: int) {
    ghost predicate Valid() {
      maxFailures >= 1 && window >= 1
    }
  }

  /** NewLockoutPolicy. */
  function NewPolicy(maxFailures: int, window: int): (r: Option<Policy>)
    ensures r.Some? <==> maxFailures > 0 && window > 0
    ensures r.Some? ==> r.value.Valid() && r.value.maxFailures == maxFailures && r.value.window == window
  {
    if maxFailures <= 0 || window <= 0 then None else Some(Policy(maxFailures, window))
  }

  /** A stored snapshot: a zero lockedUntil means "not locked". */
  datatype Attempts = Attempts(count: int, lockedUntil: Time)

  type Store = map<string, Attempts>

  const NO_ATTEMPTS := Attempts(0, ZERO_TIME)

  function LockedUntil(p: Policy, count: int, at: Time): Time {
    if count >= p.maxFailures then at + p.window else ZERO_TIME
  }

  predicate Active(row: Attempts, now: Time) {
    row.lockedUntil != ZERO_TIME && now < row.lockedUntil
  }

  /** A lock that has run out starts a fresh count. */
  function Expire(row: Attempts, now: Time): Attempts {
    if row.lockedUntil != ZERO_TIME && now >= row.lockedUntil then NO_ATTEMPTS else row
  }

  /** One failure on the atomic path: the new row, and whether this call engaged the lock. */
  function AtomicFailure(p: Policy, row: Attempts, now: Time): (Attempts, bool) {
    var r0 := Expire(row, now);
    var count := r0.count + 1;
    var until := if count >= p.maxFailures && r0.lockedUntil == ZERO_TIME then now + p.window else r0.lockedUntil;
    (Attempts(count, until), until != ZERO_TIME && count == p.maxFailures)
  }

  /** One failure on the Get-then-Save path: the row to save, if any, and the same flag. */
  function FallbackFailure(p: Policy, row: Attempts, now: Time): (Option<Attempts>, bool) {
    if Active(row, now) then (None, false)
    else
      var r0 := Expire(row, now);
      var count := r0.count + 1;
      var until := LockedUntil(p, count, now);
      (Some(Attempts(count, if until != ZERO_TIME then until else r0.lockedUntil)), until != ZERO_TIME)
  }

  predicate KeyOk(key: string) {
    TrimSpace(key) != "" && |key| <= 255
  }

  function RowOf(m: Store, key: string): Attempts {
    if key in m then m[key] else NO_ATTEMPTS
  }

  // ----- Calls and their answers, on either path

  datatype Op =
    | RecordFailure(key: string, now: Time)
    | IsLocked(key: string, now: Time)
    | Guard(key: string, now: Time)
    | Clear(key: string)

  datatype Answer = Flag(value: bool) | Done | AccountLocked | InvalidKey

  datatype Path = Atomic | Fallback

  function Step(path: Path, p: Policy, m: Store, op: Op): (Store, Answer) {
    if !KeyOk(op.key) then (m, InvalidKey)
    else
      match op
      case RecordFailure(key, now) =>
        if path.Atomic? then
          var (row, just) := AtomicFailure(p, RowOf(m, key), now);
          (m[key := row], Flag(just))
        else
          var (row, just) := FallbackFailure(p, RowOf(m, key), now);
          (if row.Some? then m[key := row.value] else m, Flag(just))
      case IsLocked(key, now) => (m, Flag(Active(RowOf(m, key), now)))
      case Guard(key, now) => (m, if Active(RowOf(m, key), now) then AccountLocked else Done)
      case Clear(key) => (m - {key}, Done)
  }

  function Run(path: Path, p: Policy, ops: seq<Op>): (r: (Store, seq<Answer>))
    ensures |r.1| == |ops|
  {
    if ops == [] then (map[], [])
    else
      var (m, answers) := Run(path, p, Front(ops));
      var (m', a) := Step(path, p, m, Last(ops));
      (m', answers + [a])
  }

  // ----- The store and the service as the source writes them

  class LoginAttemptRepo {
    var m: Store

    constructor ()
      ensures m == map[]
    {
      m := map[];
    }

    method Get(key: string) returns (row: Option<Attempts>)
      ensures row == if key in m then Some(m[key]) else None
    {
      row := if key in m then Some(m[key]) else None;
    }

    method Save(key: string, row: Attempts)
      modifies this
      ensures m == old(m)[key := row]
    {
      m := m[key := row];
    }

    method Delete(key: string)
      modifies this
      ensures m == old(m) - {key}
    {
      m := m - {key};
    }

    method RecordFailureAtomically(key: string, now: Time, p: Policy) returns (row: Attempts, justLocked: bool)
      modifies this
      ensures (row, justLocked) == AtomicFailure(p, RowOf(old(m), key), now)
      ensures m == old(m)[key := row]
    {
      row := if key in m then m[key] else NO_ATTEMPTS;
      if row.lockedUntil != ZERO_TIME && !(now < row.lockedUntil) {
        row := Attempts(0, ZERO_TIME);
      }
      row := row.(count := row.count + 1);
      if row.count >= p.maxFailures && row.lockedUntil == ZERO_TIME {
        row := row.(lockedUntil := now + p.window);
      }
      m := m[key := row];
      justLocked := row.lockedUntil != ZERO_TIME && row.count == p.maxFailures;
    }
  }

  class LockoutService {
    const store: LoginAttemptRepo
    const policy: Policy
    /** Whether the store offers the atomic capability. */
    const path: Path

    constructor (store: LoginAttemptRepo, policy: Policy, path: Path)
      ensures this.store == store && this.policy == policy && this.path == path
    {
      this.store, this.policy, this.path := store, policy, path;
    }

    method IsLockedNow(key: string, now: Time) returns (a: Answer)
      ensures (store.m, a) == Step(path, policy, store.m, IsLocked(key, now))
    {
      if !KeyOk(key) {
        return InvalidKey;
      }
      var row := store.Get(key);
      if row.None? || row.value.lockedUntil == ZERO_TIME {
        return Flag(false);
      }
      return Flag(now < row.value.lockedUntil);
    }

    method GuardNow(key: string, now: Time) returns (a: Answer)
      ensures (store.m, a) == Step(path, policy, store.m, Guard(key, now))
    {
      a := IsLockedNow(key, now);
      if a.Flag? {
        a := if a.value then AccountLocked else Done;
      }
    }

    method RecordFailureNow(key: string, now: Time) returns (a: Answer)
      modifies store
      ensures (store.m, a) == Step(path, policy, old(store.m), RecordFailure(key, now))
    {
      if !KeyOk(key) {
        return InvalidKey;
      }
      if path.Atomic? {
        var _, just := store.RecordFailureAtomically(key, now, policy);
        return Flag(just);
      }
      var got := store.Get(key);
      var row := if got.Some? then got.value else NO_ATTEMPTS;
      if row.lockedUntil != ZERO_TIME {
        if now < row.lockedUntil {
          return Flag(false);
        }
        row := Attempts(0, ZERO_TIME);
      }
      row := row.(count := row.count + 1);
      var until := LockedUntil(policy, row.count, now);
      var justLocked := until != ZERO_TIME;
      if justLocked {
        row := row.(lockedUntil := until);
      }
      store.Save(key, row);
      return Flag(justLocked);
    }

    method ClearNow(key: string) returns (a: Answer)
      modifies store
      ensures (store.m, a) == Step(path, policy, old(store.m), Clear(key))
    {
      if !KeyOk(key) {
        return InvalidKey;
      }
      store.Delete(key);
      return Done;
    }
  }

  // ----- The two paths give the same answers

  /** The rows the two paths keep for one key: the same lock; the same count while there is no
      lock; and, while there is one, counts that have both reached the threshold. */
  ghost predicate RowsAgree(p: Policy, a: Attempts, f: Attempts) {
    && a.lockedUntil == f.lockedUntil
    && 0 <= f.count <= a.count
    && if a.lockedUntil == ZERO_TIME then a.count == f.count < p.maxFailures else f.count >= p.maxFailures
  }

  ghost predicate StoresAgree(p: Policy, a: Store, f: Store) {
    a.Keys == f.Keys && forall k :: k in a ==> RowsAgree(p, a[k], f[k])
  }

  predicate HasReading(op: Op) {
    op.RecordFailure? || op.IsLocked? || op.Guard?
  }

  /** Every clock reading of the calls is an allowed one. */
  ghost predicate ReadingsIn(ops: seq<Op>, allowed: Time -> bool) {
    forall i :: 0 <= i < |ops| && HasReading(ops[i]) ==> allowed(ops[i].now)
  }

  lemma {:induction false} StepKeepsAgreement(p: Policy, a: Store, f: Store, op: Op)
    requires p.Valid() && StoresAgree(p, a, f)
    requires op.RecordFailure? ==> op.now + p.window != ZERO_TIME
    ensures Step(Atomic, p, a, op).1 == Step(Fallback, p, f, op).1
    ensures StoresAgree(p, Step(Atomic, p, a, op).0, Step(Fallback, p, f, op).0)
  {
    if KeyOk(op.key) {
      assert RowsAgree(p, RowOf(a, op.key), RowOf(f, op.key));
      if op.RecordFailure? {
        FailureKeepsAgreement(p, RowOf(a, op.key), RowOf(f, op.key), op.now);
        if op.key !in f {
          assert FallbackFailure(p, RowOf(f, op.key), op.now).0.Some?;
        }
      }
    }
  }

  lemma FailureKeepsAgreement(p: Policy, a: Attempts, f: Attempts, now: Time)
    requires p.Valid() && RowsAgree(p, a, f) && now + p.window != ZERO_TIME
    ensures AtomicFailure(p, a, now).1 == FallbackFailure(p, f, now).1
    ensures RowsAgree(p, AtomicFailure(p, a, now).0,
                      if FallbackFailure(p, f, now).0.Some? then FallbackFailure(p, f, now).0.value else f)
  {
  }

  /** Over every sequence of calls with arbitrary clock readings the two paths answer alike,
      as long as no failure falls exactly one window before the zero time. */
  lemma {:induction false} PathsAnswerAlike(p: Policy, ops: seq<Op>)
    requires p.Valid()
    requires forall i :: 0 <= i < |ops| && ops[i].RecordFailure? ==> ops[i].now + p.window != ZERO_TIME
    ensures Run(Atomic, p, ops).1 == Run(Fallback, p, ops).1
    ensures StoresAgree(p, Run(Atomic, p, ops).0, Run(Fallback, p, ops).0)
  {
    if ops != [] {
      PathsAnswerAlike(p, Front(ops));
      StepKeepsAgreement(p, Run(Atomic, p, Front(ops)).0, Run(Fallback, p, Front(ops)).0, Last(ops));
    }
  }

  /** A failure whose lock would end at the zero time counts up without locking, on both paths. */
  lemma FailureWithUnsetLock(p: Policy, c: int)
    requires p.Valid() && c >= 0
    ensures AtomicFailure(p, Attempts(c, ZERO_TIME), -p.window) == (Attempts(c + 1, ZERO_TIME), false)
    ensures FallbackFailure(p, Attempts(c, ZERO_TIME), -p.window) == (Some(Attempts(c + 1, ZERO_TIME)), false)
  {
  }

  lemma {:induction false} UnsetLocksPileUp(p: Policy, key: string, path: Path, n: nat)
    requires p.Valid() && KeyOk(key)
    ensures RowOf(Run(path, p, Repeat(RecordFailure(key, -p.window), n)).0, key) == Attempts(n, ZERO_TIME)
  {
    if n > 0 {
      var ops := Repeat(RecordFailure(key, -p.window), n);
      assert Front(ops) == Repeat(RecordFailure(key, -p.window), n - 1);
      UnsetLocksPileUp(p, key, path, n - 1);
      FailureWithUnsetLock(p, n - 1);
    }
  }

  lemma {:induction false} RunAppend(path: Path, p: Policy, ops: seq<Op>, op: Op)
    ensures Run(path, p, ops + [op]).1 == Run(path, p, ops).1 + [Step(path, p, Run(path, p, ops).0, op).1]
  {
    assert Front(ops + [op]) == ops;
  }

  /** The exception is real: after such failures only the Get-then-Save path reports the lock. */
  lemma {:induction false} PathsDifferAtTheZeroTime(p: Policy, key: string, later: Time)
    requires p.Valid() && KeyOk(key) && later + p.window != ZERO_TIME
    ensures var ops := Repeat(RecordFailure(key, -p.window), p.maxFailures) + [RecordFailure(key, later)];
            Run(Atomic, p, ops).1 != Run(Fallback, p, ops).1
  {
    var before := Repeat(RecordFailure(key, -p.window), p.maxFailures);
    var op := RecordFailure(key, later);
    UnsetLocksPileUp(p, key, Atomic, p.maxFailures);
    UnsetLocksPileUp(p, key, Fallback, p.maxFailures);
    RunAppend(Atomic, p, before, op);
    RunAppend(Fallback, p, before, op);
    assert Step(Atomic, p, Run(Atomic, p, before).0, op).1 == Flag(false);
    assert Step(Fallback, p, Run(Fallback, p, before).0, op).1 == Flag(true);
    assert Last(Run(Atomic, p, before + [op]).1) == Flag(false);
    assert Last(Run(Fallback, p, before + [op]).1) == Flag(true);
  }

  /** So, for a clock that can show a second value, the paths are interchangeable exactly when it
      never shows the instant one window before the zero time. */
  lemma {:induction false} InterchangeableIff(p: Policy, allowed: Time -> bool, other: Time)
    requires p.Valid() && allowed(other) && other + p.window != ZERO_TIME
    ensures (forall ops :: ReadingsIn(ops, allowed) ==> Run(Atomic, p, ops).1 == Run(Fallback, p, ops).1)
            <==> !allowed(-p.window)
  {
    if !allowed(-p.window) {
      forall ops | ReadingsIn(ops, allowed)
        ensures Run(Atomic, p, ops).1 == Run(Fallback, p, ops).1
      {
        PathsAnswerAlike(p, ops);
      }
    } else {
      var key := "k";
      assert KeyOk(key);
      PathsDifferAtTheZeroTime(p, key, other);
      var ops := Repeat(RecordFailure(key, -p.window), p.maxFailures) + [RecordFailure(key, other)];
      assert ReadingsIn(ops, allowed);
    }
  }

  // ----- How long a lock lasts

  /** What IsLocked would answer for key at reading t, after ops. */
  function LockedAfter(path: Path, p: Policy, ops: seq<Op>, key: string, t: Time): Answer {
    Step(path, p, Run(path, p, ops).0, IsLocked(key, t)).1
  }

  /** A failure at this reading, after ops, locks a key that was not locked. */
  predicate Engages(path: Path, p: Policy, ops: seq<Op>, key: string, at: Time) {
    && LockedAfter(path, p, ops, key, at) == Flag(false)
    && LockedAfter(path, p, ops + [RecordFailure(key, at)], key, at) == Flag(true)
  }

  lemma StepOfOthers(path: Path, p: Policy, m: Store, op: Op, key: string)
    requires op.key != key
    ensures RowOf(Step(path, p, m, op).0, key) == RowOf(m, key)
  {
  }

  lemma {:induction false} RunSnoc(path: Path, p: Policy, ops: seq<Op>, op: Op)
    ensures Run(path, p, ops + [op]).0 == Step(path, p, Run(path, p, ops).0, op).0
  {
    assert Front(ops + [op]) == ops;
  }

  /** The lock a failure engages, whatever calls follow it while it runs. */
  lemma {:induction false} EngagedLockStands(path: Path, p: Policy, before: seq<Op>, key: string, at: Time, after: seq<Op>)
    requires p.Valid() && Engages(path, p, before, key, at)
    requires Clear(key) !in after
    requires forall t :: RecordFailure(key, t) in after ==> t < at + p.window
    ensures var row := RowOf(Run(path, p, before + [RecordFailure(key, at)] + after).0, key);
            row.lockedUntil == at + p.window != ZERO_TIME && row.count >= p.maxFailures
  {
    var engaged := before + [RecordFailure(key, at)];
    if after == [] {
      assert engaged + after == engaged;
      RunSnoc(path, p, before, RecordFailure(key, at));
    } else {
      var op := Last(after);
      assert op in after && forall o :: o in Front(after) ==> o in after;
      EngagedLockStands(path, p, before, key, at, Front(after));
      assert engaged + after == (engaged + Front(after)) + [op];
      RunSnoc(path, p, engaged + Front(after), op);
      LockOutlastsStep(path, p, Run(path, p, engaged + Front(after)).0, op, key, at + p.window);
    }
  }

  lemma LockOutlastsStep(path: Path, p: Policy, m: Store, op: Op, key: string, until: Time)
    requires RowOf(m, key).lockedUntil == until != ZERO_TIME && RowOf(m, key).count >= p.maxFailures
    requires op != Clear(key) && (op.RecordFailure? && op.key == key ==> op.now < until)
    ensures var row := RowOf(Step(path, p, m, op).0, key); row.lockedUntil == until && row.count >= p.maxFailures
  {
  }

  /** Every engaged lock, on either path, ends exactly one window after the failure that engaged
      it, however many failures and other calls arrive meanwhile. */
  lemma {:induction false} LockEndsOneWindowLater(
      path: Path, p: Policy, before: seq<Op>, key: string, at: Time, after: seq<Op>, t: Time)
    requires p.Valid() && Engages(path, p, before, key, at)
    requires Clear(key) !in after
    requires forall r :: RecordFailure(key, r) in after ==> r < at + p.window
    ensures var m := Run(path, p, before + [RecordFailure(key, at)] + after).0;
            && Step(path, p, m, IsLocked(key, t)).1 == Flag(t < at + p.window)
            && Step(path, p, m, Guard(key, t)).1 == (if t < at + p.window then AccountLocked else Done)
            && (t < at + p.window ==> Step(path, p, m, RecordFailure(key, t)).1 == Flag(false))
  {
    EngagedLockStands(path, p, before, key, at, after);
  }

  /** A key without a lock is below the threshold, unless a failure's lock would have ended at the
      zero time; a locked key is not. */
  lemma {:induction false} RowsInRange(path: Path, p: Policy, ops: seq<Op>, key: string)
    requires p.Valid()
    ensures var row := RowOf(Run(path, p, ops).0, key);
            && 0 <= row.count
            && (row.lockedUntil != ZERO_TIME ==> row.count >= p.maxFailures)
            && (row.lockedUntil == ZERO_TIME && RecordFailure(key, -p.window) !in ops ==> row.count < p.maxFailures)
  {
    if ops != [] {
      RowsInRange(path, p, Front(ops), key);
      assert Last(ops) in ops && forall o :: o in Front(ops) ==> o in ops;
      if Last(ops).key != key {
        StepOfOthers(path, p, Run(path, p, Front(ops)).0, Last(ops), key);
      }
    }
  }

  /** What a failure at this reading, after ops, answers. */
  function FailureAnswer(path: Path, p: Policy, ops: seq<Op>, key: string, at: Time): Answer {
    Step(path, p, Run(path, p, ops).0, RecordFailure(key, at)).1
  }

  /** RecordFailure answers true only when this call engaged the lock; and, but for failures one
      window before the zero time, always then. */
  lemma {:induction false} TrueMeansEngaged(path: Path, p: Policy, ops: seq<Op>, key: string, at: Time)
    requires p.Valid()
    ensures var answer := FailureAnswer(path, p, ops, key, at);
            && (answer == Flag(true) ==> Engages(path, p, ops, key, at))
            && (RecordFailure(key, -p.window) !in ops || path.Fallback? ==>
                  (Engages(path, p, ops, key, at) ==> answer == Flag(true)))
  {
    RowsInRange(path, p, ops, key);
    RunSnoc(path, p, ops, RecordFailure(key, at));
  }

  /** An unlocked key's count is below the threshold. */
  predicate BelowThreshold(path: Path, p: Policy, ops: seq<Op>, key: string) {
    var row := RowOf(Run(path, p, ops).0, key);
    row.lockedUntil == ZERO_TIME ==> row.count < p.maxFailures
  }

  /** Every unlocked key stays below the threshold in every run over a clock exactly when that clock
      never shows the instant one window before the zero time. */
  lemma {:induction false} BelowThresholdIff(path: Path, p: Policy, key: string, allowed: Time -> bool)
    requires p.Valid() && KeyOk(key)
    ensures (forall ops :: ReadingsIn(ops, allowed) ==> BelowThreshold(path, p, ops, key)) <==> !allowed(-p.window)
  {
    if allowed(-p.window) {
      UnsetLocksPileUp(p, key, path, p.maxFailures);
      var ops := Repeat(RecordFailure(key, -p.window), p.maxFailures);
      assert ReadingsIn(ops, allowed) && !BelowThreshold(path, p, ops, key);
    } else {
      forall ops | ReadingsIn(ops, allowed)
        ensures BelowThreshold(path, p, ops, key)
      {
        RowsInRange(path, p, ops, key);
      }
    }
  }

  /** The exception is real: after failures whose locks were unset, the atomic path engages a lock
      and answers false. */
  lemma {:induction false} EngagedUnreported(p: Policy, key: string, later: Time)
    requires p.Valid() && KeyOk(key) && later + p.window != ZERO_TIME
    ensures var ops := Repeat(RecordFailure(key, -p.window), p.maxFailures);
            Engages(Atomic, p, ops, key, later) && FailureAnswer(Atomic, p, ops, key, later) == Flag(false)
  {
    UnsetLocksPileUp(p, key, Atomic, p.maxFailures);
    RunSnoc(Atomic, p, Repeat(RecordFailure(key, -p.window), p.maxFailures), RecordFailure(key, later));
  }

  /** The answer is true exactly when the failure engaged the lock. */
  predicate Reported(path: Path, p: Policy, ops: seq<Op>, key: string, at: Time) {
    Engages(path, p, ops, key, at) <==> FailureAnswer(path, p, ops, key, at) == Flag(true)
  }

  /** So, for a clock that can show a second value, RecordFailure answers true exactly when it
      engaged the lock: always on the Get-then-Save path, and on the atomic path if and only if the
      clock never shows the instant one window before the zero time. */
  lemma {:induction false} ReportedIff(path: Path, p: Policy, allowed: Time -> bool, other: Time)
    requires p.Valid() && allowed(other) && other + p.window != ZERO_TIME
    ensures (forall ops, key, at :: ReadingsIn(ops, allowed) && allowed(at) ==> Reported(path, p, ops, key, at))
            <==> path.Fallback? || !allowed(-p.window)
  {
    if path.Fallback? || !allowed(-p.window) {
      forall ops, key, at | ReadingsIn(ops, allowed) && allowed(at)
        ensures Reported(path, p, ops, key, at)
      {
        TrueMeansEngaged(path, p, ops, key, at);
      }
    } else {
      var key := "k";
      assert KeyOk(key);
      EngagedUnreported(p, key, other);
      var ops := Repeat(RecordFailure(key, -p.window), p.maxFailures);
      assert ReadingsIn(ops, allowed) && !Reported(path, p, ops, key, other);
    }
  }

  // ----- Counting from nothing

  /** A key is refused exactly when it is blank or longer than 255 bytes, whatever the call. */
  lemma {:induction false} InvalidKeyIff(path: Path, p: Policy, m: Store, op: Op)
    ensures Step(path, p, m, op).1 == InvalidKey <==> All(op.key, IsSpace) || |op.key| > 255
    ensures Step(path, p, m, op).1 == InvalidKey ==> Step(path, p, m, op).0 == m
  {
    var a, b := TrimSplits(op.key, IsSpace);
    if TrimSpace(op.key) != "" {
      assert op.key[|a|] == TrimSpace(op.key)[0];
    }
  }

  /** Other keys answer as if the call had not been made. */
  lemma OthersAnswerAsBefore(path: Path, p: Policy, m: Store, op: Op, other: Op)
    requires op.key != other.key
    ensures Step(path, p, Step(path, p, m, op).0, other).1 == Step(path, p, m, other).1
  {
    StepOfOthers(path, p, m, op, other.key);
  }

  /** After a Clear the key has no row, and nothing about it is locked, on either path. */
  lemma {:induction false} ClearForgets(path: Path, p: Policy, ops: seq<Op>, key: string, t: Time)
    requires KeyOk(key)
    ensures var m := Run(path, p, ops + [Clear(key)]).0;
            && key !in m
            && Step(path, p, m, IsLocked(key, t)).1 == Flag(false) && Step(path, p, m, Guard(key, t)).1 == Done
  {
    RunSnoc(path, p, ops, Clear(key));
  }

  /** From no row on, failures that do not reach the threshold are counted and lock nothing. */
  lemma {:induction false} FewFailuresLockNothing(path: Path, p: Policy, before: seq<Op>, key: string, after: seq<Op>)
    requires p.Valid() && KeyOk(key) && RowOf(Run(path, p, before).0, key) == NO_ATTEMPTS
    requires Clear(key) !in after && Guesses(key, after) < p.maxFailures
    ensures RowOf(Run(path, p, before + after).0, key) == Attempts(Guesses(key, after), ZERO_TIME)
  {
    if after == [] {
      assert before + after == before;
    } else {
      var op := Last(after);
      assert op in after && forall o :: o in Front(after) ==> o in after;
      FewFailuresLockNothing(path, p, before, key, Front(after));
      assert before + after == (before + Front(after)) + [op];
      RunSnoc(path, p, before + Front(after), op);
      if op.key != key {
        StepOfOthers(path, p, Run(path, p, before + Front(after)).0, op, key);
      }
    }
  }

  /** The failure that reaches the threshold, and no earlier one, engages the lock and answers true. */
  lemma {:induction false} LocksAtTheThreshold(path: Path, p: Policy, before: seq<Op>, key: string, after: seq<Op>, at: Time)
    requires p.Valid() && KeyOk(key) && RowOf(Run(path, p, before).0, key) == NO_ATTEMPTS
    requires Clear(key) !in after && Guesses(key, after) < p.maxFailures && at + p.window != ZERO_TIME
    ensures var ops := before + after;
            var reached := Guesses(key, after) + 1 == p.maxFailures;
            && LockedAfter(path, p, ops, key, at) == Flag(false)
            && (Engages(path, p, ops, key, at) <==> reached)
            && FailureAnswer(path, p, ops, key, at) == Flag(reached)
  {
    FewFailuresLockNothing(path, p, before, key, after);
    RunSnoc(path, p, before + after, RecordFailure(key, at));
  }

  /** A failure after a lock has run out starts counting from nothing. */
  lemma {:induction false} ExpiredLockStartsAfresh(
      path: Path, p: Policy, before: seq<Op>, key: string, at: Time, after: seq<Op>, later: Time)
    requires p.Valid() && Engages(path, p, before, key, at) && Clear(key) !in after
    requires forall r :: RecordFailure(key, r) in after ==> r < at + p.window
    requires later >= at + p.window
    ensures var ops := before + [RecordFailure(key, at)] + after;
            RowOf(Run(path, p, ops + [RecordFailure(key, later)]).0, key) ==
            Attempts(1, if p.maxFailures == 1 then later + p.window else ZERO_TIME)
  {
    var ops := before + [RecordFailure(key, at)] + after;
    EngagedLockStands(path, p, before, key, at, after);
    RunSnoc(path, p, ops, RecordFailure(key, later));
  }

  /** On the Get-then-Save path a failure during a lock changes nothing at all. */
  lemma {:induction false} FallbackFreezes(p: Policy, m: Store, key: string, now: Time)
    requires Step(Fallback, p, m, IsLocked(key, now)).1 == Flag(true)
    ensures Step(Fallback, p, m, RecordFailure(key, now)) == (m, Flag(false))
  {
  }

  // ----- How many guesses get through

  /** How a call about key, with its answer, changes the number of attempts between their Guard and
      their failure.  An attempt may also end without a failure, at any time. */
  predicate Moves(op: Op, a: Answer, key: string, before: nat, after: nat) {
    if op.key != key || op.IsLocked? then after <= before
    else match op
      case Guard(_, _) => after <= before + if a == Done then 1 else 0
      case RecordFailure(_, _) => after < before
      case Clear(_) => false
  }

  /** ops can be a run in which every failure on key belongs to an attempt that Guard let pass, at
      most n such attempts overlap, k of them are still between Guard and failure at the end, and
      nothing clears the key.  Calls about other keys are free. */
  ghost predicate InFlight(path: Path, p: Policy, key: string, n: nat, ops: seq<Op>, k: nat) {
    && k <= n
    && (ops == [] ==> k == 0)
    && (ops != [] ==>
          exists before: nat ::
            && InFlight(path, p, key, n, Front(ops), before)
            && Moves(Last(ops), Last(Run(path, p, ops).1), key, before, k))
  }

  predicate Reads(op: Op, key: string) {
    HasReading(op) && op.key == key
  }

  /** The readings of the calls about key lie in [lo, hi] and never go back. */
  ghost predicate ClockedWithin(key: string, ops: seq<Op>, lo: Time, hi: Time) {
    && lo <= hi
    && (forall i :: 0 <= i < |ops| && Reads(ops[i], key) ==> lo <= ops[i].now <= hi)
    && (forall i, j :: 0 <= i < j < |ops| && Reads(ops[i], key) && Reads(ops[j], key) ==> ops[i].now <= ops[j].now)
  }

  /** The guesses at key's credential that were let through and failed. */
  function Guesses(key: string, ops: seq<Op>): nat {
    if ops == [] then 0
    else Guesses(key, Front(ops)) + if Last(ops).RecordFailure? && Last(ops).key == key then 1 else 0
  }

  /** The guesses one lock period can see: those that fill the count, and those that were past Guard
      when the lock engaged. */
  function PerWindow(p: Policy, n: nat): int {
    p.maxFailures + n - 1
  }

  function Budget(p: Policy, n: nat, lo: Time, hi: Time): int
    requires p.Valid()
  {
    PerWindow(p, n) * ((hi - lo) / p.window + 1)
  }

  /** The reading that bounds the calls before the last one. */
  function Earlier(key: string, ops: seq<Op>, hi: Time): Time
    requires ops != []
  {
    if Reads(Last(ops), key) then Last(ops).now else hi
  }

  lemma ClockedPrefix(key: string, ops: seq<Op>, lo: Time, hi: Time)
    requires ops != [] && ClockedWithin(key, ops, lo, hi)
    ensures ClockedWithin(key, Front(ops), lo, Earlier(key, ops, hi)) && Earlier(key, ops, hi) <= hi
  {
    assert Last(ops) == ops[|ops| - 1];
    assert forall i :: 0 <= i < |Front(ops)| ==> Front(ops)[i] == ops[i];
  }

  /** Where the run stands in its round q of lock periods; what is still past Guard while the lock
      runs is part of the round. */
  ghost predicate InRound(p: Policy, n: nat, row: Attempts, guesses: nat, k: nat, q: nat, lo: Time, hi: Time) {
    if row.lockedUntil == ZERO_TIME then
      0 <= row.count < p.maxFailures && guesses <= q * PerWindow(p, n) + row.count && lo + q * p.window <= hi
    else
      && row.count >= p.maxFailures && guesses <= (q + 1) * PerWindow(p, n)
      && (hi < row.lockedUntil ==> guesses + k <= (q + 1) * PerWindow(p, n))
      && lo + q * p.window <= row.lockedUntil - p.window <= hi
  }

  lemma RoundGrows(p: Policy, n: nat, row: Attempts, guesses: nat, k: nat, k': nat, q: nat, lo: Time, hi: Time, hi': Time)
    requires InRound(p, n, row, guesses, k, q, lo, hi) && hi <= hi' && (k' <= k || !Active(row, hi'))
    ensures InRound(p, n, row, guesses, k', q, lo, hi')
  {
  }

  /** A guess adds to its round; the first one after a lock has run out starts a new round. */
  lemma GuessAdvances(
      path: Path, p: Policy, n: nat, m: Store, key: string, now: Time, guesses: nat, k: nat, k': nat, q: nat, lo: Time)
    returns (q': nat)
    requires p.Valid() && KeyOk(key) && now + p.window != ZERO_TIME
    requires InRound(p, n, RowOf(m, key), guesses, k, q, lo, now) && k' < k <= n
    ensures InRound(p, n, RowOf(Step(path, p, m, RecordFailure(key, now)).0, key), guesses + 1, k', q', lo, now)
  {
    var row := RowOf(m, key);
    q' := if row.lockedUntil == ZERO_TIME || now < row.lockedUntil then q else q + 1;
    assert (q + 1) * p.window == q * p.window + p.window;
    assert (q + 1) * PerWindow(p, n) == q * PerWindow(p, n) + PerWindow(p, n);
    assert (q + 2) * PerWindow(p, n) == (q + 1) * PerWindow(p, n) + PerWindow(p, n);
  }

  /** What the proof knows of key after ops. */
  ghost predicate Standing(path: Path, p: Policy, key: string, n: nat, ops: seq<Op>, k: nat, q: nat, lo: Time, hi: Time) {
    InRound(p, n, RowOf(Run(path, p, ops).0, key), Guesses(key, ops), k, q, lo, hi) && (k > 0 ==> KeyOk(key))
  }

  lemma {:induction false} Rounds(path: Path, p: Policy, key: string, n: nat, ops: seq<Op>, k: nat, lo: Time, hi: Time) returns (q: nat)
    requires p.Valid() && n >= 1 && InFlight(path, p, key, n, ops, k) && ClockedWithin(key, ops, lo, hi)
    requires RecordFailure(key, -p.window) !in ops
    ensures Standing(path, p, key, n, ops, k, q, lo, hi)
  {
    if ops == [] {
      q := 0;
    } else {
      var before: nat :| InFlight(path, p, key, n, Front(ops), before)
                         && Moves(Last(ops), Last(Run(path, p, ops).1), key, before, k);
      assert Last(ops) in ops && forall o :: o in Front(ops) ==> o in ops;
      ClockedPrefix(key, ops, lo, hi);
      q := Rounds(path, p, key, n, Front(ops), before, lo, Earlier(key, ops, hi));
      if Last(ops).RecordFailure? && Last(ops).key == key {
        q := StandsAfterGuess(path, p, key, n, ops, before, k, q, lo, hi);
      } else {
        StandsAfterOther(path, p, key, n, ops, before, k, q, lo, hi);
      }
    }
  }

  lemma {:induction false} StandsAfterGuess(
      path: Path, p: Policy, key: string, n: nat, ops: seq<Op>, before: nat, k: nat, q: nat, lo: Time, hi: Time) returns (q': nat)
    requires p.Valid() && ops != [] && k < before <= n
    requires Last(ops).RecordFailure? && Last(ops).key == key && Last(ops).now + p.window != ZERO_TIME && Last(ops).now <= hi
    requires Standing(path, p, key, n, Front(ops), before, q, lo, Last(ops).now)
    ensures Standing(path, p, key, n, ops, k, q', lo, hi)
  {
    var now, guesses := Last(ops).now, Guesses(key, Front(ops));
    q' := GuessAdvances(path, p, n, Run(path, p, Front(ops)).0, key, now, guesses, before, k, q, lo);
    RoundGrows(p, n, RowOf(Run(path, p, ops).0, key), guesses + 1, k, k, q', lo, now, hi);
  }

  lemma {:induction false} StandsAfterOther(
      path: Path, p: Policy, key: string, n: nat, ops: seq<Op>, before: nat, k: nat, q: nat, lo: Time, hi: Time)
    requires ops != [] && !(Last(ops).RecordFailure? && Last(ops).key == key)
    requires Moves(Last(ops), Last(Run(path, p, ops).1), key, before, k)
    requires Earlier(key, ops, hi) <= hi && Standing(path, p, key, n, Front(ops), before, q, lo, Earlier(key, ops, hi))
    ensures Standing(path, p, key, n, ops, k, q, lo, hi)
  {
    var was := Run(path, p, Front(ops)).0;
    if Last(ops).key != key {
      StepOfOthers(path, p, was, Last(ops), key);
    }
    RoundGrows(p, n, RowOf(was, key), Guesses(key, ops), before, k, q, lo, Earlier(key, ops, hi), hi);
  }

  /** With a clock that never goes back and at most n attempts on the key between their Guard and
      their failure, on either path and among any calls about other keys, at most
      maxFailures + n - 1 failures get through per started window: maxFailures, when one attempt
      follows the other. */
  lemma {:induction false} GuessesAreBounded(path: Path, p: Policy, key: string, n: nat, ops: seq<Op>, k: nat, lo: Time, hi: Time)
    requires p.Valid() && n >= 1 && InFlight(path, p, key, n, ops, k) && ClockedWithin(key, ops, lo, hi)
    requires RecordFailure(key, -p.window) !in ops
    ensures Guesses(key, ops) <= Budget(p, n, lo, hi)
  {
    var q := Rounds(path, p, key, n, ops, k, lo, hi);
    assert (q + 1) * PerWindow(p, n) == q * PerWindow(p, n) + PerWindow(p, n);
    RoundsFitBudget(Guesses(key, ops), q, PerWindow(p, n), hi - lo, p.window);
  }

  lemma RoundsFitBudget(guesses: nat, q: nat, perWindow: nat, span: int, window: int)
    requires guesses <= (q + 1) * perWindow && window >= 1 && q * window <= span
    ensures guesses <= perWindow * (span / window + 1)
  {
    QuotientBound(q, span, window);
    ProductMonotone(q + 1, span / window + 1, perWindow);
  }

  lemma {:induction false} GuardPasses(path: Path, p: Policy, key: string, n: nat, ops: seq<Op>, k: nat, now: Time)
    requires InFlight(path, p, key, n, ops, k) && k < n
    requires KeyOk(key) && !Active(RowOf(Run(path, p, ops).0, key), now)
    ensures var after := ops + [Guard(key, now)];
            && InFlight(path, p, key, n, after, k + 1)
            && Run(path, p, after).0 == Run(path, p, ops).0 && Guesses(key, after) == Guesses(key, ops)
  {
    var after := ops + [Guard(key, now)];
    assert Front(after) == ops;
    assert Moves(Last(after), Last(Run(path, p, after).1), key, k, k + 1);
  }

  lemma {:induction false} GuessPasses(path: Path, p: Policy, key: string, n: nat, ops: seq<Op>, k: nat, now: Time)
    requires InFlight(path, p, key, n, ops, k) && k > 0
    ensures var after := ops + [RecordFailure(key, now)];
            && InFlight(path, p, key, n, after, k - 1) && Guesses(key, after) == Guesses(key, ops) + 1
            && Run(path, p, after).0 == Step(path, p, Run(path, p, ops).0, RecordFailure(key, now)).0
  {
    var after := ops + [RecordFailure(key, now)];
    assert Front(after) == ops;
    assert Moves(Last(after), Last(Run(path, p, after).1), key, k, k - 1);
  }

  /** Every call is a Guard or a failure on key at this one reading. */
  ghost predicate AllAt(key: string, ops: seq<Op>, t: Time) {
    forall i :: 0 <= i < |ops| ==> ops[i] == Guard(key, t) || ops[i] == RecordFailure(key, t)
  }

  lemma AllAtReadings(key: string, ops: seq<Op>, t: Time)
    requires AllAt(key, ops, t)
    ensures ClockedWithin(key, ops, t, t) && ReadingsIn(ops, r => r == t)
  {
  }

  /** A failure that engages no lock. */
  lemma FailureWithoutLock(path: Path, p: Policy, m: Store, key: string, t: Time, c: nat)
    requires p.Valid() && KeyOk(key) && RowOf(m, key) == Attempts(c, ZERO_TIME)
    requires c + 1 < p.maxFailures || t == -p.window
    ensures RowOf(Step(path, p, m, RecordFailure(key, t)).0, key) == Attempts(c + 1, ZERO_TIME)
  {
  }

  lemma {:induction false} GuessWithoutLock(path: Path, p: Policy, key: string, n: nat, ops: seq<Op>, t: Time, c: nat)
    requires p.Valid() && KeyOk(key) && n >= 1 && (c + 1 < p.maxFailures || t == -p.window)
    requires InFlight(path, p, key, n, ops, 0) && RowOf(Run(path, p, ops).0, key) == Attempts(c, ZERO_TIME)
    ensures var after := ops + [Guard(key, t)] + [RecordFailure(key, t)];
            && InFlight(path, p, key, n, after, 0) && Guesses(key, after) == Guesses(key, ops) + 1
            && RowOf(Run(path, p, after).0, key) == Attempts(c + 1, ZERO_TIME)
  {
    GuardPasses(path, p, key, n, ops, 0, t);
    GuessPasses(path, p, key, n, ops + [Guard(key, t)], 1, t);
    FailureWithoutLock(path, p, Run(path, p, ops).0, key, t, c);
  }

  /** One attempt after the other at one reading, up to c failures, while no lock engages. */
  lemma {:induction false} GuessesWithoutLock(path: Path, p: Policy, key: string, n: nat, t: Time, c: nat) returns (ops: seq<Op>)
    requires p.Valid() && KeyOk(key) && n >= 1 && (c < p.maxFailures || t == -p.window)
    ensures InFlight(path, p, key, n, ops, 0) && Guesses(key, ops) == c && AllAt(key, ops, t)
    ensures RowOf(Run(path, p, ops).0, key) == Attempts(c, ZERO_TIME)
  {
    if c == 0 {
      ops := [];
    } else {
      var before := GuessesWithoutLock(path, p, key, n, t, c - 1);
      GuessWithoutLock(path, p, key, n, before, t, c - 1);
      ops := before + [Guard(key, t)] + [RecordFailure(key, t)];
    }
  }

  lemma {:induction false} GuardsPass(path: Path, p: Policy, key: string, n: nat, ops: seq<Op>, t: Time, k: nat) returns (ops': seq<Op>)
    requires InFlight(path, p, key, n, ops, k) && AllAt(key, ops, t)
    requires KeyOk(key) && !Active(RowOf(Run(path, p, ops).0, key), t)
    ensures InFlight(path, p, key, n, ops', n) && Guesses(key, ops') == Guesses(key, ops) && AllAt(key, ops', t)
    decreases n - k
  {
    if k == n {
      ops' := ops;
    } else {
      GuardPasses(path, p, key, n, ops, k, t);
      ops' := GuardsPass(path, p, key, n, ops + [Guard(key, t)], t, k + 1);
    }
  }

  lemma {:induction false} GuessesPass(path: Path, p: Policy, key: string, n: nat, ops: seq<Op>, t: Time, k: nat) returns (ops': seq<Op>)
    requires InFlight(path, p, key, n, ops, k) && AllAt(key, ops, t)
    ensures InFlight(path, p, key, n, ops', 0) && Guesses(key, ops') == Guesses(key, ops) + k && AllAt(key, ops', t)
    decreases k
  {
    if k == 0 {
      ops' := ops;
    } else {
      GuessPasses(path, p, key, n, ops, k, t);
      ops' := GuessesPass(path, p, key, n, ops + [RecordFailure(key, t)], t, k - 1);
    }
  }

  /** The bound is reached, on both paths: n attempts that pass Guard just before the lock engages all
      go through. */
  lemma {:induction false} BudgetIsReached(path: Path, p: Policy, key: string, n: nat, t: Time) returns (ops: seq<Op>)
    requires p.Valid() && KeyOk(key) && n >= 1
    ensures InFlight(path, p, key, n, ops, 0) && ClockedWithin(key, ops, t, t)
    ensures Guesses(key, ops) == Budget(p, n, t, t) == p.maxFailures + n - 1
  {
    ops := GuessesWithoutLock(path, p, key, n, t, p.maxFailures - 1);
    ops := GuardsPass(path, p, key, n, ops, t, 0);
    ops := GuessesPass(path, p, key, n, ops, t, n);
    AllAtReadings(key, ops, t);
  }

  /** The exception is real: one window before the zero time every guess gets through, on both paths,
      even one after the other. */
  lemma {:induction false} GuessesUnboundedAtTheZeroTime(path: Path, p: Policy, key: string, c: nat) returns (ops: seq<Op>)
    requires p.Valid() && KeyOk(key)
    ensures InFlight(path, p, key, 1, ops, 0) && ClockedWithin(key, ops, -p.window, -p.window)
    ensures ReadingsIn(ops, t => t == -p.window) && Guesses(key, ops) == c
  {
    ops := GuessesWithoutLock(path, p, key, 1, -p.window, c);
    AllAtReadings(key, ops, -p.window);
  }

  /** Fewer overlapping attempts are also at most n. */
  lemma {:induction false} InFlightGrows(path: Path, p: Policy, key: string, n: nat, n': nat, ops: seq<Op>, k: nat)
    requires InFlight(path, p, key, n, ops, k) && n <= n'
    ensures InFlight(path, p, key, n', ops, k)
  {
    if ops != [] {
      var before: nat :| InFlight(path, p, key, n, Front(ops), before)
                         && Moves(Last(ops), Last(Run(path, p, ops).1), key, before, k);
      InFlightGrows(path, p, key, n, n', Front(ops), before);
    }
  }

  /** Guarded attempts on key, at most n overlapping, over a clock that runs within [lo, hi]. */
  ghost predicate Attempted(path: Path, p: Policy, key: string, n: nat, ops: seq<Op>, lo: Time, hi: Time) {
    ClockedWithin(key, ops, lo, hi) && exists k: nat :: InFlight(path, p, key, n, ops, k)
  }

  /** So, for every n, the bound holds in every run over a clock exactly when that clock never shows
      the instant one window before the zero time. */
  lemma {:induction false} GuessBoundHoldsIff(path: Path, p: Policy, key: string, n: nat, allowed: Time -> bool)
    requires p.Valid() && KeyOk(key) && n >= 1
    ensures (forall ops, lo, hi :: Attempted(path, p, key, n, ops, lo, hi) && ReadingsIn(ops, allowed)
                                   ==> Guesses(key, ops) <= Budget(p, n, lo, hi))
            <==> !allowed(-p.window)
  {
    if allowed(-p.window) {
      var ops := GuessesUnboundedAtTheZeroTime(path, p, key, p.maxFailures + n);
      InFlightGrows(path, p, key, 1, n, ops, 0);
      assert Attempted(path, p, key, n, ops, -p.window, -p.window) && ReadingsIn(ops, allowed);
      assert Budget(p, n, -p.window, -p.window) == PerWindow(p, n);
    } else {
      forall ops, lo, hi | Attempted(path, p, key, n, ops, lo, hi) && ReadingsIn(ops, allowed)
        ensures Guesses(key, ops) <= Budget(p, n, lo, hi)
      {
        var k: nat :| InFlight(path, p, key, n, ops, k);
        GuessesAreBounded(path, p, key, n, ops, k, lo, hi);
      }
    }
  }

  lemma QuotientBound(q: nat, span: int, window: int)
    requires window >= 1 && q * window <= span
    ensures q <= span / window
  {
    var k := span / window;
    assert (k + 1) * window == k * window + window;
    assert span < (k + 1) * window;
    if q > k {
      ProductMonotone(k + 1, q, window);
      assert false;
    }
  }

  lemma ProductMonotone(a: int, b: int, c: int)
    requires a <= b && c >= 0
    ensures a * c <= b * c
  {
    assert (b - a) * c >= 0;
  }
}
