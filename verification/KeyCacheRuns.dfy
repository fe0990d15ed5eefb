// Every interleaving of lookup callers, the detached fetch and the clock.
// A run is a sequence of labelled events; clock readings are arbitrary.

module KeyCacheRuns {
  import opened Common
  import opened CacheControl
  import opened KeyCache

  datatype Answer = Keys(keys: seq<Jwk>) | Error(error: LookupError)

  datatype Caller =
    | Ready(kid: string, fetched: bool)
    | Waiting(kid: string, channel: nat)
    | Done(kid: string, answer: Answer)

  /** A fetch goroutine: working, past its critical section, or finished with its channel closed. */
  datatype Phase = Running(uri: string) | Closing | Closed

  datatype State = State(cache: Cache, callers: map<nat, Caller>, fetches: map<nat, Phase>)

  datatype Event =
    | Call(who: nat, kid: string)
    | PassLock(who: nat, now: Time)
    | FinishFetch(id: nat, outcome: Outcome, at: Time)
    | CloseChannel(id: nat)
    | Wake(who: nat)
    | Cancel(who: nat)

  const INITIAL := State(EMPTY_CACHE, map[], map[])

  predicate Enabled(s: State, e: Event) {
    match e
    case Call(w, _) => w !in s.callers
    case PassLock(w, _) => w in s.callers && s.callers[w].Ready?
    case FinishFetch(f, o, _) => f in s.fetches && s.fetches[f].Running? && Possible(s.fetches[f].uri, o)
    case CloseChannel(f) => f in s.fetches && s.fetches[f].Closing?
    case Wake(w) =>
      && w in s.callers && s.callers[w].Waiting?
      && s.callers[w].channel in s.fetches && s.fetches[s.callers[w].channel].Closed?
    case Cancel(w) => w in s.callers && s.callers[w].Waiting?
  }

  function AfterVerdict(kid: string, v: Verdict): Caller {
    match v
    case Found(ks) => Done(kid, Keys(ks))
    case Missed(err) => Done(kid, Error(err))
    case Wait(ch) => Waiting(kid, ch)
  }

  function Next(maxStale: int, s: State, e: Event): State
    requires Enabled(s, e)
  {
    match e
    case Call(w, kid) => s.(callers := s.callers[w := Ready(kid, false)])
    case PassLock(w, now) =>
      var me := s.callers[w];
      var (c, v) := Pass(s.cache, maxStale, me.kid, me.fetched, now);
      State(c, s.callers[w := AfterVerdict(me.kid, v)],
            if c.started > s.cache.started then s.fetches[s.cache.started := Running(s.cache.jwksURI)] else s.fetches)
    case FinishFetch(f, o, at) =>
      s.(cache := Finish(s.cache, maxStale, s.fetches[f].uri, o, at), fetches := s.fetches[f := Closing])
    case CloseChannel(f) => s.(fetches := s.fetches[f := Closed])
    case Wake(w) => s.(callers := s.callers[w := Ready(s.callers[w].kid, true)])
    case Cancel(w) => s.(callers := s.callers[w := Done(s.callers[w].kid, Error(Cancelled))])
  }

  /** Every event was enabled when it happened. */
  ghost predicate Valid(maxStale: int, es: seq<Event>)
    decreases |es|, 0
  {
    es == [] || (Valid(maxStale, Front(es)) && Enabled(Exec(maxStale, Front(es)), Last(es)))
  }

  ghost function Exec(maxStale: int, es: seq<Event>): State
    requires Valid(maxStale, es)
    decreases |es|, 1
  {
    if es == [] then INITIAL else Next(maxStale, Exec(maxStale, Front(es)), Last(es))
  }

  // ----- What happened in a run, read off its events

  datatype Install = Install(keys: KeySet, at: Time, directives: seq<Directive>)

  /** The most recent successful fetch. */
  function LastInstall(es: seq<Event>): Option<Install> {
    if es == [] then None
    else match Last(es)
      case FinishFetch(_, Fetched(_, ks, cc), at) => Some(Install(ks, at, cc))
      case _ => LastInstall(Front(es))
  }

  /** The error of the latest finished fetch, if that one failed. */
  function LastFailure(es: seq<Event>): Option<string> {
    if es == [] then None
    else match Last(es)
      case FinishFetch(_, Fetched(_, _, _), _) => None
      case FinishFetch(_, KeysFailed(_, err), _) => Some(err)
      case FinishFetch(_, DiscoveryFailed(err), _) => Some(err)
      case _ => LastFailure(Front(es))
  }

  /** The jwks_uri of the first fetch whose discovery succeeded, whether or not its keys did. */
  function FirstDiscovered(es: seq<Event>): string {
    if es == [] then ""
    else if FirstDiscovered(Front(es)) != "" then FirstDiscovered(Front(es))
    else match Last(es)
      case FinishFetch(_, Fetched(uri, _, _), _) => uri
      case FinishFetch(_, KeysFailed(uri, _), _) => uri
      case _ => ""
  }

  function Completions(es: seq<Event>): nat {
    if es == [] then 0 else Completions(Front(es)) + if Last(es).FinishFetch? then 1 else 0
  }

  /** Completions before caller w arrived. */
  function CompletionsAtCall(w: nat, es: seq<Event>): nat {
    if es == [] then 0
    else if Last(es).Call? && Last(es).who == w then Completions(Front(es))
    else CompletionsAtCall(w, Front(es))
  }

  function Iterations(w: nat, es: seq<Event>): nat {
    if es == [] then 0
    else Iterations(w, Front(es)) + if Last(es).PassLock? && Last(es).who == w then 1 else 0
  }

  ghost predicate StartsFetch(maxStale: int, es: seq<Event>)
    requires es != [] && Valid(maxStale, es)
  {
    Exec(maxStale, es).fetches.Keys != Exec(maxStale, Front(es)).fetches.Keys
  }

  /** The clock readings at which fetches were launched, in order. */
  ghost function Starts(maxStale: int, es: seq<Event>): seq<Time>
    requires Valid(maxStale, es)
  {
    if es == [] then []
    else Starts(maxStale, Front(es)) + if StartsFetch(maxStale, es) && Last(es).PassLock? then [Last(es).now] else []
  }

  ghost function StartsBy(maxStale: int, w: nat, es: seq<Event>): nat
    requires Valid(maxStale, es)
  {
    if es == [] then 0
    else StartsBy(maxStale, w, Front(es)) +
         if StartsFetch(maxStale, es) && Last(es).PassLock? && Last(es).who == w then 1 else 0
  }

  /** The channels caller w has waited on, in order. */
  ghost function Waits(maxStale: int, w: nat, es: seq<Event>): seq<nat>
    requires Valid(maxStale, es)
  {
    if es == [] then []
    else
      var s := Exec(maxStale, es);
      Waits(maxStale, w, Front(es)) +
      if Last(es).PassLock? && Last(es).who == w && s.callers[w].Waiting? then [s.callers[w].channel] else []
  }

  // ----- The invariant of every reachable state

  ghost predicate Inv(s: State) {
    && (forall f :: f in s.fetches <==> 0 <= f < s.cache.started)
    && (forall f :: f in s.fetches && s.fetches[f].Running? ==> s.cache.inflight == Some(f) && s.fetches[f].uri == s.cache.jwksURI)
    && (s.cache.inflight.Some? ==>
          && s.cache.inflight.value == s.cache.started - 1
          && s.fetches[s.cache.inflight.value].Running?)
    && (forall w :: w in s.callers && s.callers[w].Waiting? ==> s.callers[w].channel in s.fetches)
  }

  lemma {:induction false} Reachable(maxStale: int, es: seq<Event>)
    requires Valid(maxStale, es)
    ensures Inv(Exec(maxStale, es))
    ensures Exec(maxStale, es).cache.started ==
            Completions(es) + if Exec(maxStale, es).cache.inflight.Some? then 1 else 0
  {
    if es != [] {
      Reachable(maxStale, Front(es));
      var s, e := Exec(maxStale, Front(es)), Last(es);
      if e.PassLock? {
        PassKeepsInv(maxStale, s, e);
      } else {
        StepKeepsInv(maxStale, s, e);
      }
    }
  }

  lemma PassKeepsInv(maxStale: int, s: State, e: Event)
    requires Inv(s) && Enabled(s, e) && e.PassLock?
    ensures var s' := Next(maxStale, s, e);
            && Inv(s')
            && (s'.cache.started == s.cache.started ==> s'.cache.inflight == s.cache.inflight)
            && (s'.cache.started != s.cache.started ==>
                  s'.cache.started == s.cache.started + 1 && s.cache.inflight.None? && s'.cache.inflight.Some?)
  {
  }

  lemma StepKeepsInv(maxStale: int, s: State, e: Event)
    requires Inv(s) && Enabled(s, e) && !e.PassLock?
    ensures var s' := Next(maxStale, s, e);
            && Inv(s')
            && s'.cache.started == s.cache.started
            && s'.cache.inflight == (if e.FinishFetch? then None else s.cache.inflight)
            && (e.FinishFetch? ==> s.cache.inflight.Some?)
  {
  }

  /** The cache always holds the most recent successful fetch, and the latest failure since. */
  lemma {:induction false} CacheHoldsLastInstall(maxStale: int, es: seq<Event>)
    requires Valid(maxStale, es)
    ensures Exec(maxStale, es).cache.lastErr == LastFailure(es)
    ensures var c := Exec(maxStale, es).cache;
            match LastInstall(es)
            case None => c.keys == None
            case Some(i) =>
              && c.keys == Some(i.keys) && c.fetchedAt == i.at
              && c.expiresAt == i.at + if Ttl(i.directives) < maxStale then Ttl(i.directives) else maxStale
  {
    if es != [] {
      CacheHoldsLastInstall(maxStale, Front(es));
    }
  }

  /** With a staleness bound the constructor accepts, a set stays fresh for at least five
      minutes, and never past the point where it stops being usable. */
  lemma {:induction false} FreshImpliesUsable(configured: int, es: seq<Event>, now: Time)
    requires EffectiveMaxStale(configured).Some?
    requires Valid(EffectiveMaxStale(configured).value, es)
    requires LastInstall(es).Some?
    ensures var maxStale := EffectiveMaxStale(configured).value;
            var c := Exec(maxStale, es).cache;
            && c.fetchedAt + MIN_KEY_SET_TTL <= c.expiresAt <= c.fetchedAt + maxStale
            && (now < c.expiresAt ==> Usable(c, maxStale, now))
  {
    CacheHoldsLastInstall(EffectiveMaxStale(configured).value, es);
  }

  // ----- Single flight and the rate limit

  /** At most one fetch runs at a time, and it is the one callers are told to wait for. */
  lemma {:induction false} SingleFlight(maxStale: int, es: seq<Event>, f: nat, g: nat)
    requires Valid(maxStale, es)
    requires var s := Exec(maxStale, es);
             f in s.fetches && s.fetches[f].Running? && g in s.fetches && s.fetches[g].Running?
    ensures f == g && Exec(maxStale, es).cache.inflight == Some(f)
  {
    Reachable(maxStale, es);
  }

  /** Fetch k was launched by the k-th recorded start, and lastAttempt is the latest one. */
  lemma {:induction false} StartsAreRecorded(maxStale: int, es: seq<Event>)
    requires Valid(maxStale, es)
    ensures var c := Exec(maxStale, es).cache;
            var starts := Starts(maxStale, es);
            && |starts| == c.started
            && (starts == [] ==> c.lastAttempt == ZERO_TIME)
            && (starts != [] ==> c.lastAttempt == Last(starts))
  {
    if es != [] {
      StartsAreRecorded(maxStale, Front(es));
      StartGrowsFetches(maxStale, es);
    }
  }

  lemma {:induction false} StartGrowsFetches(maxStale: int, es: seq<Event>)
    requires Valid(maxStale, es) && es != []
    ensures StartsFetch(maxStale, es) <==>
            Exec(maxStale, es).cache.started == Exec(maxStale, Front(es)).cache.started + 1
    ensures StartsFetch(maxStale, es) ==> Last(es).PassLock?
    ensures !StartsFetch(maxStale, es) ==> Exec(maxStale, es).cache.started == Exec(maxStale, Front(es)).cache.started
    ensures Exec(maxStale, es).cache.lastAttempt ==
            if StartsFetch(maxStale, es) then Last(es).now else Exec(maxStale, Front(es)).cache.lastAttempt
  {
    Reachable(maxStale, Front(es));
    StepGrowsFetches(maxStale, Exec(maxStale, Front(es)), Last(es));
  }

  lemma StepGrowsFetches(maxStale: int, s: State, e: Event)
    requires Inv(s) && Enabled(s, e)
    ensures var s' := Next(maxStale, s, e);
            if s'.fetches.Keys == s.fetches.Keys
            then s'.cache.started == s.cache.started && s'.cache.lastAttempt == s.cache.lastAttempt
            else e.PassLock? && s'.cache.started == s.cache.started + 1 && s'.cache.lastAttempt == e.now
  {
    var s' := Next(maxStale, s, e);
    if s'.cache.started != s.cache.started {
      assert s.cache.started in s'.fetches.Keys && s.cache.started !in s.fetches.Keys;
    }
  }

  /** Consecutive launches are at least the refresh interval apart on the clock, whatever the
      readings, unless the earlier one fell exactly on the zero time. */
  lemma {:induction false} StartsAreSpaced(maxStale: int, es: seq<Event>, k: nat)
    requires Valid(maxStale, es) && k + 1 < |Starts(maxStale, es)|
    ensures var starts := Starts(maxStale, es);
            starts[k] == ZERO_TIME || starts[k + 1] - starts[k] >= MIN_REFRESH_INTERVAL
  {
    var before := Starts(maxStale, Front(es));
    StartsAreRecorded(maxStale, Front(es));
    StartGrowsFetches(maxStale, es);
    if k + 1 < |before| {
      StartsAreSpaced(maxStale, Front(es), k);
    } else {
      assert before[k] == Last(before);
    }
  }

  ghost predicate StartsWithin(maxStale: int, es: seq<Event>, lo: Time, hi: Time)
    requires Valid(maxStale, es)
  {
    lo <= hi && forall k :: 0 <= k < |Starts(maxStale, es)| ==> lo <= Starts(maxStale, es)[k] <= hi
  }

  /** A run whose launches all read the clock within [lo, hi] makes at most
      (hi - lo) / 30s + 1 of them. */
  lemma {:induction false} FetchRateBound(maxStale: int, es: seq<Event>, lo: Time, hi: Time)
    requires Valid(maxStale, es) && StartsWithin(maxStale, es, lo, hi)
    requires ZERO_TIME !in Starts(maxStale, es)
    ensures |Starts(maxStale, es)| <= (hi - lo) / MIN_REFRESH_INTERVAL + 1
  {
    var starts := Starts(maxStale, es);
    if starts != [] {
      SpanOfStarts(maxStale, es, 0, |starts| - 1);
      assert (|starts| - 1) * MIN_REFRESH_INTERVAL <= hi - lo;
    }
  }

  lemma {:induction false} SpanOfStarts(maxStale: int, es: seq<Event>, i: nat, j: nat)
    requires Valid(maxStale, es) && i <= j < |Starts(maxStale, es)|
    requires ZERO_TIME !in Starts(maxStale, es)
    ensures Starts(maxStale, es)[j] - Starts(maxStale, es)[i] >= (j - i) * MIN_REFRESH_INTERVAL
  {
    if i < j {
      SpanOfStarts(maxStale, es, i, j - 1);
      StartsAreSpaced(maxStale, es, j - 1);
    }
  }

  /** Every clock reading of the run is an allowed one. */
  ghost predicate ReadsOnly(es: seq<Event>, allowed: Time -> bool) {
    && (forall i :: 0 <= i < |es| && es[i].PassLock? ==> allowed(es[i].now))
    && (forall i :: 0 <= i < |es| && es[i].FinishFetch? ==> allowed(es[i].at))
  }

  ghost predicate Spaced(starts: seq<Time>) {
    forall i, j :: 0 <= i < j < |starts| ==> starts[j] - starts[i] >= MIN_REFRESH_INTERVAL
  }

  /** So the rate limit holds in every run over a clock exactly when that clock never shows the
      zero time. */
  lemma {:induction false} RateLimitHoldsIff(maxStale: int, allowed: Time -> bool)
    ensures (forall es :: Valid(maxStale, es) && ReadsOnly(es, allowed) ==> Spaced(Starts(maxStale, es)))
            <==> !allowed(ZERO_TIME)
  {
    if allowed(ZERO_TIME) {
      var es := ZeroReadingLiftsTheLimit(maxStale, "", ZERO_TIME);
      assert Starts(maxStale, es)[1] - Starts(maxStale, es)[0] == 0;
      assert !Spaced(Starts(maxStale, es));
    } else {
      forall es | Valid(maxStale, es) && ReadsOnly(es, allowed)
        ensures Spaced(Starts(maxStale, es))
      {
        StartsWereRead(maxStale, es, allowed);
        forall i, j | 0 <= i < j < |Starts(maxStale, es)|
          ensures Starts(maxStale, es)[j] - Starts(maxStale, es)[i] >= MIN_REFRESH_INTERVAL
        {
          SpanOfStarts(maxStale, es, i, j);
        }
      }
    }
  }

  /** And so does the bound on how many fetches a span of time can see. */
  lemma {:induction false} FetchRateHoldsIff(maxStale: int, allowed: Time -> bool)
    ensures (forall es, lo, hi ::
               Valid(maxStale, es) && ReadsOnly(es, allowed) && StartsWithin(maxStale, es, lo, hi)
               ==> |Starts(maxStale, es)| <= (hi - lo) / MIN_REFRESH_INTERVAL + 1)
            <==> !allowed(ZERO_TIME)
  {
    if allowed(ZERO_TIME) {
      var es := ZeroReadingLiftsTheLimit(maxStale, "", ZERO_TIME);
      assert ReadsOnly(es, allowed) && StartsWithin(maxStale, es, ZERO_TIME, ZERO_TIME);
      assert |Starts(maxStale, es)| == 2;
    } else {
      forall es, lo, hi | Valid(maxStale, es) && ReadsOnly(es, allowed) && StartsWithin(maxStale, es, lo, hi)
        ensures |Starts(maxStale, es)| <= (hi - lo) / MIN_REFRESH_INTERVAL + 1
      {
        StartsWereRead(maxStale, es, allowed);
        FetchRateBound(maxStale, es, lo, hi);
      }
    }
  }

  lemma {:induction false} StartsWereRead(maxStale: int, es: seq<Event>, allowed: Time -> bool)
    requires Valid(maxStale, es) && ReadsOnly(es, allowed)
    ensures forall t :: t in Starts(maxStale, es) ==> allowed(t)
  {
    if es != [] {
      assert forall i :: 0 <= i < |Front(es)| ==> Front(es)[i] == es[i];
      StartsWereRead(maxStale, Front(es), allowed);
      assert Last(es) == es[|es| - 1];
    }
  }

  lemma {:induction false} Append(maxStale: int, es: seq<Event>, e: Event, allowed: Time -> bool) returns (es': seq<Event>)
    requires Valid(maxStale, es) && Enabled(Exec(maxStale, es), e) && ReadsOnly(es, allowed)
    requires (e.PassLock? ==> allowed(e.now)) && (e.FinishFetch? ==> allowed(e.at))
    ensures es' == es + [e] && Valid(maxStale, es') && ReadsOnly(es', allowed)
    ensures Exec(maxStale, es') == Next(maxStale, Exec(maxStale, es), e)
    ensures Starts(maxStale, es') == Starts(maxStale, es) +
              if e.PassLock? && Exec(maxStale, es').cache.started > Exec(maxStale, es).cache.started then [e.now] else []
  {
    es' := es + [e];
    assert Front(es') == es;
    StartGrowsFetches(maxStale, es');
  }

  /** A first launch that reads the zero time. */
  lemma {:induction false} LaunchAtZero(maxStale: int, kid: string, allowed: Time -> bool) returns (es: seq<Event>)
    requires allowed(ZERO_TIME)
    ensures Valid(maxStale, es) && ReadsOnly(es, allowed) && Starts(maxStale, es) == [ZERO_TIME]
    ensures Exec(maxStale, es) == State(StartFetch(EMPTY_CACHE, ZERO_TIME), map[0 := Waiting(kid, 0)], map[0 := Running("")])
  {
    es := Append(maxStale, [], Call(0, kid), allowed);
    assert Exec(maxStale, es) == State(EMPTY_CACHE, map[0 := Ready(kid, false)], map[]);
    es := Append(maxStale, es, PassLock(0, ZERO_TIME), allowed);
  }

  /** ... whose fetch has failed: the cache still counts as never attempted. */
  lemma {:induction false} FailAtZero(maxStale: int, kid: string, allowed: Time -> bool) returns (es: seq<Event>)
    requires allowed(ZERO_TIME)
    ensures Valid(maxStale, es) && ReadsOnly(es, allowed) && Starts(maxStale, es) == [ZERO_TIME]
    ensures Exec(maxStale, es).callers == map[0 := Waiting(kid, 0)]
    ensures var c := Exec(maxStale, es).cache;
            c.keys.None? && c.inflight.None? && c.lastAttempt == ZERO_TIME && c.started == 1
  {
    es := LaunchAtZero(maxStale, kid, allowed);
    es := Append(maxStale, es, FinishFetch(0, DiscoveryFailed("down"), ZERO_TIME), allowed);
  }

  /** The exception is real: after a launch that read the zero time, another one may follow at any
      reading at all. */
  lemma {:induction false} ZeroReadingLiftsTheLimit(maxStale: int, kid: string, t: Time) returns (es: seq<Event>)
    ensures Valid(maxStale, es) && Starts(maxStale, es) == [ZERO_TIME, t]
    ensures ReadsOnly(es, r => r == ZERO_TIME || r == t)
  {
    var allowed := r => r == ZERO_TIME || r == t;
    es := FailAtZero(maxStale, kid, allowed);
    es := Append(maxStale, es, Call(1, kid), allowed);
    es := Append(maxStale, es, PassLock(1, t), allowed);
    assert Starts(maxStale, es) == [ZERO_TIME] + [t];
  }

  /** jwks_uri is the first one discovered, for the rest of the run. */
  lemma {:induction false} JwksUriIsFirstDiscovered(maxStale: int, es: seq<Event>)
    requires Valid(maxStale, es)
    ensures Exec(maxStale, es).cache.jwksURI == FirstDiscovered(es)
  {
    if es != [] {
      JwksUriIsFirstDiscovered(maxStale, Front(es));
      Reachable(maxStale, Front(es));
    }
  }

  lemma {:induction false} JwksUriIsSticky(maxStale: int, es: seq<Event>, n: nat)
    requires Valid(maxStale, es) && n <= |es|
    requires Valid(maxStale, es[..n]) && Exec(maxStale, es[..n]).cache.jwksURI != ""
    ensures Exec(maxStale, es).cache.jwksURI == Exec(maxStale, es[..n]).cache.jwksURI
  {
    if n == |es| {
      assert es[..n] == es;
    } else {
      assert Front(es)[..n] == es[..n];
      JwksUriIsSticky(maxStale, Front(es), n);
      Reachable(maxStale, Front(es));
    }
  }

  // ----- One lookup call

  predicate About(w: nat, e: Event) {
    (e.Call? || e.PassLock? || e.Wake? || e.Cancel?) && e.who == w
  }

  /** A pass that ends in a wait waits for the fetch then in flight, which carries the next ordinal. */
  lemma {:induction false} PassWaitsForTheRunningFetch(maxStale: int, es: seq<Event>)
    requires Valid(maxStale, es) && es != [] && Last(es).PassLock?
    ensures var s := Exec(maxStale, Front(es));
            var s' := Exec(maxStale, es);
            var w := Last(es).who;
            s'.callers[w].Waiting? ==>
              && s'.callers[w].channel == Completions(es)
              && s'.cache.inflight == Some(Completions(es))
              && (StartsFetch(maxStale, es) ==> !s.callers[w].fetched)
  {
    Reachable(maxStale, Front(es));
    Reachable(maxStale, es);
    StartGrowsFetches(maxStale, es);
  }

  /** A channel that was closed belongs to a completed fetch. */
  lemma {:induction false} ClosedMeansCompleted(maxStale: int, es: seq<Event>, f: nat)
    requires Valid(maxStale, es)
    requires f in Exec(maxStale, es).fetches && !Exec(maxStale, es).fetches[f].Running?
    ensures f < Completions(es)
  {
    Reachable(maxStale, es);
  }

  /** The channels a caller waits on have increasing ordinals, all completed once it is awake. */
  ghost predicate WaitsInOrder(maxStale: int, w: nat, es: seq<Event>)
    requires Valid(maxStale, es)
  {
    var s := Exec(maxStale, es);
    var waits := Waits(maxStale, w, es);
    && (forall i, j :: 0 <= i < j < |waits| ==> waits[i] < waits[j])
    && (w !in s.callers ==> waits == [])
    && (w in s.callers && s.callers[w].Ready? ==>
          && (s.callers[w].fetched <==> waits != [])
          && forall i :: 0 <= i < |waits| ==> waits[i] < Completions(es))
    && (w in s.callers && s.callers[w].Waiting? ==> waits != [] && Last(waits) == s.callers[w].channel)
  }

  lemma {:induction false} WaitsStayInOrder(maxStale: int, w: nat, es: seq<Event>)
    requires Valid(maxStale, es)
    ensures WaitsInOrder(maxStale, w, es)
  {
    if es != [] {
      WaitsStayInOrder(maxStale, w, Front(es));
      if Last(es) == Wake(w) {
        WaitsAfterWake(maxStale, w, es);
      } else if Last(es).PassLock? && Last(es).who == w {
        WaitsGrowInOrder(maxStale, w, es);
      } else {
        WaitsUntouched(maxStale, w, es);
      }
    }
  }

  lemma {:induction false} WaitsAfterWake(maxStale: int, w: nat, es: seq<Event>)
    requires Valid(maxStale, es) && es != [] && WaitsInOrder(maxStale, w, Front(es)) && Last(es) == Wake(w)
    ensures WaitsInOrder(maxStale, w, es)
  {
    var s := Exec(maxStale, Front(es));
    ClosedMeansCompleted(maxStale, Front(es), s.callers[w].channel);
    assert Exec(maxStale, es).callers == s.callers[w := Ready(s.callers[w].kid, true)];
    WaitsUnchanged(maxStale, w, es);
  }

  lemma WaitsUnchanged(maxStale: int, w: nat, es: seq<Event>)
    requires Valid(maxStale, es) && es != [] && !(Last(es).PassLock? && Last(es).who == w)
    ensures Waits(maxStale, w, es) == Waits(maxStale, w, Front(es))
    ensures Completions(es) >= Completions(Front(es))
  {
  }

  /** What an event other than w's own pass or wake-up does to caller w. */
  lemma CallerUntouched(maxStale: int, s: State, e: Event, w: nat)
    requires Enabled(s, e) && e != Wake(w) && !(e.PassLock? && e.who == w)
    ensures var s' := Next(maxStale, s, e);
            if w !in s.callers then w in s'.callers ==> s'.callers[w].Ready? && !s'.callers[w].fetched
            else w in s'.callers && (s'.callers[w] == s.callers[w] || s'.callers[w].Done?)
  {
  }

  lemma {:induction false} WaitsUntouched(maxStale: int, w: nat, es: seq<Event>)
    requires Valid(maxStale, es) && es != [] && WaitsInOrder(maxStale, w, Front(es))
    requires Last(es) != Wake(w) && !(Last(es).PassLock? && Last(es).who == w)
    ensures WaitsInOrder(maxStale, w, es)
  {
    WaitsUnchanged(maxStale, w, es);
    CallerUntouched(maxStale, Exec(maxStale, Front(es)), Last(es), w);
  }

  lemma {:induction false} WaitsGrowInOrder(maxStale: int, w: nat, es: seq<Event>)
    requires Valid(maxStale, es) && es != [] && Last(es).PassLock? && Last(es).who == w
    requires WaitsInOrder(maxStale, w, Front(es))
    ensures WaitsInOrder(maxStale, w, es)
  {
    PassWaitsForTheRunningFetch(maxStale, es);
    var before, after := Waits(maxStale, w, Front(es)), Waits(maxStale, w, es);
    var s' := Exec(maxStale, es);
    assert !s'.callers[w].Ready?;
    if s'.callers[w].Waiting? {
      assert after == before + [Completions(es)];
    } else {
      assert after == before;
    }
  }

  /** Every wait of one lookup call is on a different fetch. */
  lemma {:induction false} WaitsAreDistinct(maxStale: int, w: nat, es: seq<Event>, i: nat, j: nat)
    requires Valid(maxStale, es)
    requires i < j < |Waits(maxStale, w, es)|
    ensures Waits(maxStale, w, es)[i] != Waits(maxStale, w, es)[j]
  {
    WaitsStayInOrder(maxStale, w, es);
  }

  /** One lookup call launches at most one fetch, and none before its first wait. */
  lemma {:induction false} AtMostOneStart(maxStale: int, w: nat, es: seq<Event>)
    requires Valid(maxStale, es)
    ensures StartsBy(maxStale, w, es) <= 1
    ensures Waits(maxStale, w, es) == [] ==> StartsBy(maxStale, w, es) == 0
  {
    if es != [] {
      AtMostOneStart(maxStale, w, Front(es));
      WaitsStayInOrder(maxStale, w, Front(es));
      if Last(es).PassLock? && Last(es).who == w {
        PassWaitsForTheRunningFetch(maxStale, es);
        StartGrowsFetches(maxStale, es);
      }
    }
  }

  /** The loop of one lookup call runs at most once more than the number of fetches that
      completed while the call was in progress. */
  lemma {:induction false} IterationsAreBounded(maxStale: int, w: nat, es: seq<Event>)
    requires Valid(maxStale, es)
    ensures Iterations(w, es) <= 1 + Completions(es) - CompletionsAtCall(w, es)
  {
    IterationProgress(maxStale, w, es);
    var s := Exec(maxStale, es);
    if w in s.callers && s.callers[w].Waiting? {
      Reachable(maxStale, es);
    }
  }

  lemma {:induction false} IterationProgress(maxStale: int, w: nat, es: seq<Event>)
    requires Valid(maxStale, es)
    ensures var s := Exec(maxStale, es);
            var done, base := Completions(es), CompletionsAtCall(w, es);
            && base <= done
            && if w !in s.callers then Iterations(w, es) == 0
               else match s.callers[w]
                 case Ready(_, _) => Iterations(w, es) <= done - base
                 case Waiting(_, ch) => Iterations(w, es) <= 1 + ch - base
                 case Done(_, _) => Iterations(w, es) <= 1 + done - base
  {
    if es != [] {
      IterationProgress(maxStale, w, Front(es));
      var e := Last(es);
      if About(w, e) {
        if e.PassLock? {
          PassWaitsForTheRunningFetch(maxStale, es);
        } else if e.Wake? {
          ClosedMeansCompleted(maxStale, Front(es), Exec(maxStale, Front(es)).callers[w].channel);
        } else if e.Cancel? {
          Reachable(maxStale, Front(es));
        }
      }
    }
  }

  /** How many events still lie between a waiting caller and the top of its loop. */
  function StepsToWake(s: State, w: nat): nat {
    if w !in s.callers || !s.callers[w].Waiting? || s.callers[w].channel !in s.fetches then 0
    else match s.fetches[s.callers[w].channel]
      case Running(_) => 3
      case Closing => 2
      case Closed => 1
  }

  /** No lost wakeups: whatever a waiting caller waits for, at most three further events — none
      of them another caller's — bring it back to the top of its loop. */
  lemma {:induction false} WaiterCanAlwaysWake(maxStale: int, w: nat, es: seq<Event>) returns (more: seq<Event>)
    requires Valid(maxStale, es)
    requires w in Exec(maxStale, es).callers && Exec(maxStale, es).callers[w].Waiting?
    ensures |more| == StepsToWake(Exec(maxStale, es), w) <= 3
    ensures forall i :: 0 <= i < |more| ==> more[i].FinishFetch? || more[i].CloseChannel? || more[i] == Wake(w)
    ensures Valid(maxStale, es + more) && w in Exec(maxStale, es + more).callers
    ensures Exec(maxStale, es + more).callers[w] == Ready(Exec(maxStale, es).callers[w].kid, true)
    decreases StepsToWake(Exec(maxStale, es), w)
  {
    Reachable(maxStale, es);
    var s := Exec(maxStale, es);
    var ch := s.callers[w].channel;
    if s.fetches[ch].Closed? {
      more := [Wake(w)];
      Extend(maxStale, es, Wake(w));
    } else {
      var e := FetchStep(s, ch);
      Extend(maxStale, es, e);
      var rest := WaiterCanAlwaysWake(maxStale, w, es + [e]);
      more := [e] + rest;
      assert es + more == es + [e] + rest;
    }
  }

  /** A next event of an unfinished fetch. */
  function FetchStep(s: State, f: nat): (e: Event)
    requires f in s.fetches && !s.fetches[f].Closed?
    ensures Enabled(s, e) && (e.FinishFetch? || e.CloseChannel?) && e.id == f
  {
    match s.fetches[f]
    case Running(uri) => FinishFetch(f, KeysFailed(if uri == "" then "u" else uri, "down"), ZERO_TIME)
    case _ => CloseChannel(f)
  }

  lemma {:induction false} Extend(maxStale: int, es: seq<Event>, e: Event)
    requires Valid(maxStale, es) && Enabled(Exec(maxStale, es), e)
    ensures Valid(maxStale, es + [e])
    ensures Exec(maxStale, es + [e]) == Next(maxStale, Exec(maxStale, es), e)
  {
    assert Front(es + [e]) == es;
  }

  // ----- What a lookup answers

  /** The kid a caller asked for. */
  function AskedFor(w: nat, es: seq<Event>): string {
    if es == [] then ""
    else if Last(es).Call? && Last(es).who == w then Last(es).kid
    else AskedFor(w, Front(es))
  }

  lemma {:induction false} CallersKeepTheirKid(maxStale: int, w: nat, es: seq<Event>)
    requires Valid(maxStale, es)
    ensures var s := Exec(maxStale, es); w in s.callers ==> s.callers[w].kid == AskedFor(w, es)
  {
    if es != [] {
      CallersKeepTheirKid(maxStale, w, Front(es));
    }
  }

  /** At clock reading now the run may not launch a fetch yet. */
  ghost predicate RateLimited(maxStale: int, es: seq<Event>, now: Time)
    requires Valid(maxStale, es)
  {
    var starts := Starts(maxStale, es);
    starts != [] && Last(starts) != ZERO_TIME && now - Last(starts) < MIN_REFRESH_INTERVAL
  }

  /** The last installed set is usable at this reading and lists the kid. */
  ghost predicate Listed(maxStale: int, i: Option<Install>, kid: string, now: Time) {
    i.Some? && now < i.value.at + maxStale && kid in i.value.keys && i.value.keys[kid] != []
  }

  ghost predicate WithinTtl(i: Option<Install>, now: Time) {
    i.Some? && now < i.value.at + Ttl(i.value.directives)
  }

  ghost predicate FetchRunning(s: State) {
    exists f :: f in s.fetches && s.fetches[f].Running?
  }

  /** The decision of one critical section, on the cache's own terms. */
  lemma PassTable(c: Cache, maxStale: int, kid: string, fetched: bool, now: Time)
    ensures var (c', v) := Pass(c, maxStale, kid, fetched, now);
            var listed := Candidates(c, maxStale, kid, now) != [];
            var served := listed && (now < c.expiresAt || fetched);
            && (v.Found? <==> served || (listed && c.inflight.None? && !MayFetch(c, now)))
            && (v.Wait? <==> !served && (c.inflight.Some? || (!fetched && MayFetch(c, now))))
            && (c'.started == if !served && c.inflight.None? && !fetched && MayFetch(c, now) then c.started + 1 else c.started)
  {
  }

  /** What one pass decides, in full: it returns keys, waits or launches a fetch exactly as the
      history of the run dictates, and otherwise fails. */
  lemma {:induction false} PassDecision(maxStale: int, es: seq<Event>)
    requires Valid(maxStale, es) && es != [] && Last(es).PassLock?
    ensures var w, now := Last(es).who, Last(es).now;
            var i, kid, before := LastInstall(es), AskedFor(w, es), Front(es);
            var after := Exec(maxStale, es).callers[w];
            var listed := Listed(maxStale, i, kid, now);
            var waited := Waits(maxStale, w, before) != [];
            var running := FetchRunning(Exec(maxStale, before));
            var limited := RateLimited(maxStale, before, now);
            var served := listed && (WithinTtl(i, now) || waited);
            && (after.Done? && after.answer.Keys? <==> served || (listed && !running && limited))
            && (after.Waiting? <==> !served && (running || (!waited && !limited)))
            && (StartsFetch(maxStale, es) <==> !served && !running && !waited && !limited)
  {
    var before := Front(es);
    var c := Exec(maxStale, before).cache;
    var me := Exec(maxStale, before).callers[Last(es).who];
    PassTable(c, maxStale, me.kid, me.fetched, Last(es).now);
    assert Listed(maxStale, LastInstall(es), me.kid, Last(es).now) == (Candidates(c, maxStale, me.kid, Last(es).now) != [])
           && (Usable(c, maxStale, Last(es).now) ==> WithinTtl(LastInstall(es), Last(es).now) == (Last(es).now < c.expiresAt)) by {
      CacheHoldsLastInstall(maxStale, before);
    }
    CallersKeepTheirKid(maxStale, Last(es).who, before);
    assert RateLimited(maxStale, before, Last(es).now) == !MayFetch(c, Last(es).now) by {
      StartsAreRecorded(maxStale, before);
    }
    assert me.fetched == (Waits(maxStale, Last(es).who, before) != []) by {
      WaitsStayInOrder(maxStale, Last(es).who, before);
    }
    assert FetchRunning(Exec(maxStale, before)) == c.inflight.Some? by {
      Reachable(maxStale, before);
    }
    StartGrowsFetches(maxStale, es);
  }

  /** The event that gave caller w its answer. */
  ghost predicate Answers(maxStale: int, es: seq<Event>, w: nat, a: Answer)
    requires Valid(maxStale, es) && es != []
  {
    && w in Exec(maxStale, es).callers
    && (w in Exec(maxStale, Front(es)).callers ==> !Exec(maxStale, Front(es)).callers[w].Done?)
    && Exec(maxStale, es).callers[w].Done? && Exec(maxStale, es).callers[w].answer == a
  }

  lemma {:induction false} FoundKeysAreInstalled(maxStale: int, es: seq<Event>, w: nat, ks: seq<Jwk>)
    requires Valid(maxStale, es) && es != [] && Answers(maxStale, es, w, Keys(ks))
    ensures Last(es).PassLock? && Last(es).who == w
    ensures Listed(maxStale, LastInstall(es), AskedFor(w, es), Last(es).now)
    ensures ks == LastInstall(es).value.keys[AskedFor(w, es)]
  {
    CacheHoldsLastInstall(maxStale, Front(es));
    CallersKeepTheirKid(maxStale, w, Front(es));
  }

  /** Returned keys are those the most recent successful fetch lists under the requested kid; the
      returning pass read the clock before that fetch's staleness bound; and a set past its
      freshness is returned only if this caller already waited for a fetch or none may start. */
  lemma {:induction false} ReturnedKeysAreCurrent(maxStale: int, es: seq<Event>, w: nat, ks: seq<Jwk>)
    requires Valid(maxStale, es) && es != [] && Answers(maxStale, es, w, Keys(ks))
    ensures Last(es).PassLock? && Last(es).who == w
    ensures LastInstall(es).Some?
    ensures var i := LastInstall(es).value;
            var now := Last(es).now;
            var ttl := Ttl(i.directives);
            && AskedFor(w, es) in i.keys && ks == i.keys[AskedFor(w, es)] && ks != []
            && now < i.at + maxStale
            && (|| now < i.at + ttl
                || Waits(maxStale, w, Front(es)) != []
                || RateLimited(maxStale, Front(es), now))
  {
    FoundKeysAreInstalled(maxStale, es, w, ks);
    PassDecision(maxStale, es);
  }

  /** An error names its cause exactly: UnknownKey means a usable set without that kid,
      KeySetUnavailable means no usable set, and either means that this caller waited for a
      fetch or that none may start.  A cancelled wait is an error of its own here; the source
      reports it as an unavailable key set too, and that is the one case in which it does so
      whatever the cache holds. */
  lemma {:induction false} ErrorsArePrecise(maxStale: int, es: seq<Event>, w: nat, err: LookupError)
    requires Valid(maxStale, es) && es != [] && Answers(maxStale, es, w, Error(err))
    ensures Last(es).who == w && (err.Cancelled? <==> Last(es).Cancel?)
    ensures !err.Cancelled? ==>
              && Last(es).PassLock?
              && var i := LastInstall(es);
                 var now := Last(es).now;
                 var usable := i.Some? && now < i.value.at + maxStale;
                 && (err.UnknownKey? <==> usable)
                 && (err.UnknownKey? ==>
                       && err.kid == AskedFor(w, es)
                       && (err.kid !in i.value.keys || i.value.keys[err.kid] == []))
                 && (err.KeySetUnavailable? ==>
                       && (err.reason == if i.Some? then BeyondMaxStale(i.value.at) else NeverFetched)
                       && err.cause == LastFailure(es))
                 && (Waits(maxStale, w, Front(es)) != [] || RateLimited(maxStale, Front(es), now))
  {
    if !err.Cancelled? {
      MissIsPrecise(maxStale, es, w, err);
      PassDecision(maxStale, es);
    }
  }

  lemma {:induction false} MissIsPrecise(maxStale: int, es: seq<Event>, w: nat, err: LookupError)
    requires Valid(maxStale, es) && es != [] && Answers(maxStale, es, w, Error(err)) && !err.Cancelled?
    ensures Last(es).PassLock? && Last(es).who == w
    ensures !Listed(maxStale, LastInstall(es), AskedFor(w, es), Last(es).now)
    ensures var i := LastInstall(es);
            var usable := i.Some? && Last(es).now < i.value.at + maxStale;
            err == if usable then UnknownKey(AskedFor(w, es))
                   else KeySetUnavailable(if i.Some? then BeyondMaxStale(i.value.at) else NeverFetched, LastFailure(es))
  {
    CacheHoldsLastInstall(maxStale, Front(es));
    CallersKeepTheirKid(maxStale, w, Front(es));
  }
}
