// The issuer key-set cache (oidc/jwks.go): what each critical section under the
// cache mutex does.  `Pass` and `Finish` are the two sections as functions on
// the cache's value; the class keeps the fields the source mutates.

module KeyCache {
  import opened Common
  import opened CacheControl

  const MIN_REFRESH_INTERVAL: int := 30 * SECOND

  datatype Jwk = Jwk(kid: string, kty: string, crv: string, alg: string, material: int)

  type KeySet = map<string, seq<Jwk>>

  /** The cache fields.  A done channel is named by the ordinal of its fetch. */
  datatype Cache = Cache(
    jwksURI: string,
    keys: Option<KeySet>,
    fetchedAt: Time,
    expiresAt: Time,
    lastAttempt: Time,
    lastErr: Option<string>,
    inflight: Option<nat>,
    started: nat)

  datatype Reason = NeverFetched | BeyondMaxStale(fetchedAt: Time)

  /** Cancelled is the caller's own context ending; the source wraps it as an unavailable key set. */
  datatype LookupError =
    | UnknownKey(kid: string)
    | KeySetUnavailable(reason: Reason, cause: Option<string>)
    | Cancelled

  /** What one pass of the lookup loop decides while it holds the lock. */
  datatype Verdict = Found(keys: seq<Jwk>) | Missed(error: LookupError) | Wait(channel: nat)

  const EMPTY_CACHE := Cache("", None, ZERO_TIME, ZERO_TIME, ZERO_TIME, None, None, 0)

  predicate MayFetch(c: Cache, now: Time) {
    c.lastAttempt == ZERO_TIME || now - c.lastAttempt >= MIN_REFRESH_INTERVAL
  }

  predicate Usable(c: Cache, maxStale: int, now: Time) {
    c.keys.Some? && now < c.fetchedAt + maxStale
  }

  /** The keys named kid, when the cached set may be used at all. */
  function Candidates(c: Cache, maxStale: int, kid: string, now: Time): seq<Jwk> {
    if Usable(c, maxStale, now) && kid in c.keys.value then c.keys.value[kid] else []
  }

  function Miss(c: Cache, kid: string, usable: bool): LookupError {
    if usable then UnknownKey(kid)
    else KeySetUnavailable(if c.keys.Some? then BeyondMaxStale(c.fetchedAt) else NeverFetched, c.lastErr)
  }

  function StartFetch(c: Cache, now: Time): Cache {
    c.(inflight := Some(c.started), lastAttempt := now, started := c.started + 1)
  }

  function Pass(c: Cache, maxStale: int, kid: string, fetched: bool, now: Time): (Cache, Verdict) {
    var usable := Usable(c, maxStale, now);
    var found := Candidates(c, maxStale, kid, now);
    var isFresh := usable && now < c.expiresAt;
    if found != [] && (isFresh || fetched) then (c, Found(found))
    else if c.inflight.Some? then (c, Wait(c.inflight.value))
    else if fetched || !MayFetch(c, now) then
      (c, if found != [] then Found(found) else Missed(Miss(c, kid, usable)))
    else (StartFetch(c, now), Wait(c.started))
  }

  /** How a detached fetch can end; a success brings the directives of its Cache-Control header. */
  datatype Outcome =
    | DiscoveryFailed(error: string)
    | KeysFailed(uri: string, error: string)
    | Fetched(uri: string, keys: KeySet, directives: seq<Directive>)

  /** The endings open to a fetch that read uriAtStart from the cache. */
  predicate Possible(uriAtStart: string, o: Outcome) {
    if uriAtStart != "" then !o.DiscoveryFailed? && o.uri == uriAtStart
    else o.DiscoveryFailed? || o.uri != ""
  }

  function Finish(c: Cache, maxStale: int, uriAtStart: string, o: Outcome, at: Time): Cache {
    var c1 := c.(
      jwksURI := if uriAtStart == "" && !o.DiscoveryFailed? && o.uri != "" then o.uri else c.jwksURI,
      inflight := None);
    if o.Fetched? then
      var ttl := Ttl(o.directives);
      c1.(keys := Some(o.keys), fetchedAt := at, lastErr := None,
          expiresAt := at + if ttl < maxStale then ttl else maxStale)
    else c1.(lastErr := Some(o.error))
  }

  class KeyCacheStore {
    const maxStale: int
    var jwksURI: string
    var keys: Option<KeySet>
    var fetchedAt: Time
    var expiresAt: Time
    var lastAttempt: Time
    var lastErr: Option<string>
    var inflight: Option<nat>
    var started: nat

    constructor (maxStale: int)
      ensures this.maxStale == maxStale && View() == EMPTY_CACHE
    {
      this.maxStale := maxStale;
      jwksURI, keys, lastErr, inflight, started := "", None, None, None, 0;
      fetchedAt, expiresAt, lastAttempt := ZERO_TIME, ZERO_TIME, ZERO_TIME;
    }

    ghost function View(): Cache
      reads this
    {
      Cache(jwksURI, keys, fetchedAt, expiresAt, lastAttempt, lastErr, inflight, started)
    }

    /** The locked part of one iteration of lookup, at clock reading now. */
    method LookupPass(kid: string, fetched: bool, now: Time) returns (v: Verdict)
      modifies this
      ensures (View(), v) == Pass(old(View()), maxStale, kid, fetched, now)
    {
      var usable := keys.Some? && now < fetchedAt + maxStale;
      var found: seq<Jwk> := [];
      if usable && kid in keys.value {
        found := keys.value[kid];
      }
      var isFresh := usable && now < expiresAt;
      if found != [] && (isFresh || fetched) {
        return Found(found);
      }
      if inflight.Some? {
        return Wait(inflight.value);
      }
      if fetched || !(lastAttempt == ZERO_TIME || now - lastAttempt >= MIN_REFRESH_INTERVAL) {
        if found != [] {
          return Found(found);
        }
        if usable {
          return Missed(UnknownKey(kid));
        }
        var reason := if keys.Some? then BeyondMaxStale(fetchedAt) else NeverFetched;
        return Missed(KeySetUnavailable(reason, lastErr));
      }
      v := StartFetchLocked(now);
    }

    method StartFetchLocked(now: Time) returns (v: Verdict)
      modifies this
      ensures View() == StartFetch(old(View()), now)
      ensures v == Wait(old(started))
    {
      v := Wait(started);
      inflight := Some(started);
      lastAttempt := now;
      started := started + 1;
    }

    /** The locked tail of the fetch goroutine, which read uriAtStart when it was launched. */
    method FinishFetch(uriAtStart: string, o: Outcome, at: Time)
      modifies this
      ensures View() == Finish(old(View()), maxStale, uriAtStart, o, at)
    {
      if uriAtStart == "" && !o.DiscoveryFailed? && o.uri != "" {
        jwksURI := o.uri;
      }
      if o.Fetched? {
        keys, fetchedAt, lastErr := Some(o.keys), at, None;
        var ttl := Ttl(o.directives);
        expiresAt := at + if ttl < maxStale then ttl else maxStale;
      } else {
        lastErr := Some(o.error);
      }
      inflight := None;
    }
  }
}
