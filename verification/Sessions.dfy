// Sessions (domain/services.go, SessionService over adapters/memory/memory.go,
// SessionRepo).  Stored sessions are keyed by the hash of the bearer token; the
// model is parametric in that key function, so that keying by the raw token is
// an instance and the hashed store can be proved to refine it.

module Sessions {
  import opened Common

  /** A stored session; the map key is its token's at-rest form. */
  datatype Session = Session(user: string, tenant: string, createdAt: Time, expiresAt: Time)

  type Store = map<string, Session>

  datatype Error = NotFound | Expired | InvalidToken | InvalidUserID | InvalidTenantID

  function WithoutUser(m: Store, user: string): Store {
    map k | k in m && m[k].user != user :: m[k]
  }

  function Swap(m: Store, oldKey: string, newKey: string, s: Session): Option<Store> {
    if oldKey in m then Some((m - {oldKey})[newKey := s]) else None
  }

  class SessionRepo {
    var m: Store

    constructor ()
      ensures m == map[]
    {
      m := map[];
    }

    method Save(key: string, s: Session)
      modifies this
      ensures m == old(m)[key := s]
    {
      m := m[key := s];
    }

    method FindByToken(key: string) returns (r: Option<Session>)
      ensures r == if key in m then Some(m[key]) else None
    {
      r := if key in m then Some(m[key]) else None;
    }

    method Delete(key: string)
      modifies this
      ensures m == old(m) - {key}
    {
      m := m - {key};
    }

    method DeleteByUser(user: string)
      modifies this
      ensures m == WithoutUser(old(m), user)
      ensures forall k :: k in m <==> k in old(m) && old(m)[k].user != user
      ensures forall k :: k in m ==> m[k] == old(m)[k]
    {
      var todo := m.Keys;
      while todo != {}
        invariant todo <= old(m).Keys && m.Keys <= old(m).Keys
        invariant forall k :: k in old(m) ==> (k in m <==> k in todo || old(m)[k].user != user)
        invariant forall k :: k in m ==> m[k] == old(m)[k]
        decreases todo
      {
        var k :| k in todo;
        if m[k].user == user {
          m := m - {k};
        }
        todo := todo - {k};
      }
    }

    method RotateAtomically(oldKey: string, newKey: string, s: Session) returns (ok: bool)
      modifies this
      ensures match Swap(old(m), oldKey, newKey, s)
              case Some(m') => ok && m == m'
              case None => !ok && m == old(m)
    {
      if oldKey !in m {
        return false;
      }
      m := m - {oldKey};
      m := m[newKey := s];
      return true;
    }
  }

  /** The service methods run without interference; `token` arguments are raw bearer tokens and
      `minted` is the fresh random token a call draws. */
  class SessionService {
    const repo: SessionRepo
    const ttl: int
    const key: string -> string

    constructor (repo: SessionRepo, ttl: int, key: string -> string)
      ensures this.repo == repo && this.ttl == ttl && this.key == key
    {
      this.repo, this.ttl, this.key := repo, ttl, key;
    }

    function NewSession(user: string, tenant: string, now: Time): (r: Result<Session, Error>)
      ensures r.Ok? <==> user != "" && tenant != ""
      ensures r.Ok? ==> r.value.user == user && r.value.tenant == tenant
      ensures r.Ok? ==> r.value.createdAt == now && r.value.expiresAt == now + ttl
      ensures r == Err(InvalidUserID) <==> user == ""
      ensures r == Err(InvalidTenantID) <==> user != "" && tenant == ""
    {
      if user == "" then Err(InvalidUserID)
      else if tenant == "" then Err(InvalidTenantID)
      else Ok(Session(user, tenant, now, now + ttl))
    }

    method Issue(user: string, tenant: string, minted: string, now: Time) returns (r: Result<Session, Error>)
      modifies repo
      ensures r == NewSession(user, tenant, now)
      ensures repo.m == if r.Ok? then old(repo.m)[key(minted) := r.value] else old(repo.m)
    {
      r := NewSession(user, tenant, now);
      if r.Err? {
        return;
      }
      repo.Save(key(minted), r.value);
    }

    method Validate(token: string, now: Time) returns (r: Result<Session, Error>)
      modifies repo
      ensures r == Check(old(repo.m), key, token, now)
      ensures repo.m == if r == Err(Expired) then old(repo.m) - {key(token)} else old(repo.m)
      ensures r.Ok? <==> token != "" && key(token) in old(repo.m) && now < old(repo.m)[key(token)].expiresAt
      ensures r.Ok? ==> r.value == old(repo.m)[key(token)]
      ensures r == Err(InvalidToken) <==> token == ""
      ensures r == Err(NotFound) <==> token != "" && key(token) !in old(repo.m)
      ensures r == Err(Expired) <==> token != "" && key(token) in old(repo.m) && old(repo.m)[key(token)].expiresAt <= now
    {
      if token == "" {
        return Err(InvalidToken);
      }
      var s := repo.FindByToken(key(token));
      if s.None? {
        return Err(NotFound);
      }
      if !(now < s.value.expiresAt) {
        repo.Delete(key(token));
        return Err(Expired);
      }
      return Ok(s.value);
    }

    /** A rotation either fails and issues nothing, or the old token is gone and the new one carries
        the same user and tenant with a full lifetime, counted from the call's second clock
        reading. */
    method Rotate(token: string, minted: string, now: Time, later: Time) returns (r: Result<Session, Error>)
      modifies repo
      ensures r.Ok? ==>
                && token != "" && key(token) in old(repo.m) && now < old(repo.m)[key(token)].expiresAt
                && r.value.user == old(repo.m)[key(token)].user && r.value.tenant == old(repo.m)[key(token)].tenant
      ensures match Check(old(repo.m), key, token, now)
              case Err(e) => r == Err(e) && repo.m == if e.Expired? then old(repo.m) - {key(token)} else old(repo.m)
              case Ok(s) =>
                && r == NewSession(s.user, s.tenant, later)
                && repo.m == if r.Ok? then (old(repo.m) - {key(token)})[key(minted) := r.value] else old(repo.m)
    {
      r := Validate(token, now);
      if r.Err? {
        return;
      }
      r := NewSession(r.value.user, r.value.tenant, later);
      if r.Err? {
        return;
      }
      var ok := repo.RotateAtomically(key(token), key(minted), r.value);
      if !ok {
        return Err(NotFound);
      }
    }

    method Revoke(token: string) returns (r: Result<(), Error>)
      modifies repo
      ensures token == "" ==> r == Err(InvalidToken) && repo.m == old(repo.m)
      ensures token != "" ==> r == Ok(()) && repo.m == old(repo.m) - {key(token)}
    {
      if token == "" {
        return Err(InvalidToken);
      }
      repo.Delete(key(token));
      return Ok(());
    }

    method RevokeAll(user: string)
      modifies repo
      ensures repo.m == WithoutUser(old(repo.m), user)
    {
      repo.DeleteByUser(user);
    }
  }

  function Check(m: Store, key: string -> string, token: string, now: Time): Result<Session, Error> {
    if token == "" then Err(InvalidToken)
    else if key(token) !in m then Err(NotFound)
    else if now >= m[key(token)].expiresAt then Err(Expired)
    else Ok(m[key(token)])
  }

  // ----- Interleaved runs

  /** A Validate or Rotate call between its repository steps. */
  datatype Call =
    | Purging(token: string)
    | Rotating(token: string, session: Session)
    | Finished(result: Result<Session, Error>)

  /** minted holds every token drawn so far. */
  datatype State = State(m: Store, calls: map<nat, Call>, minted: set<string>)

  datatype Event =
    | Issue(token: string, user: string, tenant: string, now: Time)
    | Read(who: nat, token: string, now: Time, rotate: bool)
    | Purge(who: nat)
    | Replace(who: nat, token: string, now: Time)
    | Revoke(token: string)
    | RevokeAll(user: string)

  const INITIAL := State(map[], map[], {})

  predicate Drawable(s: State, token: string) {
    token != "" && token !in s.minted
  }

  predicate Enabled(s: State, e: Event) {
    match e
    case Issue(t, user, tenant, _) => Drawable(s, t) && user != "" && tenant != ""
    case Read(w, _, _, _) => w !in s.calls
    case Purge(w) => w in s.calls && s.calls[w].Purging?
    case Replace(w, t, _) => w in s.calls && s.calls[w].Rotating? && Drawable(s, t)
    case Revoke(t) => t != ""
    case RevokeAll(_) => true
  }

  /** The session a rotation puts in place of the one it holds. */
  function Renewed(held: Session, now: Time, ttl: int): Session {
    Session(held.user, held.tenant, now, now + ttl)
  }

  /** How a rotation ends, given what the swap made of the store, if it took place. */
  function Rotated(s: State, w: nat, swapped: Option<Store>, token: string, renewed: Session): State {
    match swapped
    case Some(m) => State(m, s.calls[w := Finished(Ok(renewed))], s.minted + {token})
    case None => State(s.m, s.calls[w := Finished(Err(NotFound))], s.minted + {token})
  }

  function Next(key: string -> string, ttl: int, s: State, e: Event): State
    requires Enabled(s, e)
  {
    match e
    case Issue(t, user, tenant, now) =>
      s.(m := s.m[key(t) := Session(user, tenant, now, now + ttl)], minted := s.minted + {t})
    case Read(w, t, now, rotate) =>
      s.(calls := s.calls[w := match Check(s.m, key, t, now)
                               case Ok(sess) => if rotate then Rotating(t, sess) else Finished(Ok(sess))
                               case Err(err) => if err.Expired? then Purging(t) else Finished(Err(err))])
    case Purge(w) =>
      s.(m := s.m - {key(s.calls[w].token)}, calls := s.calls[w := Finished(Err(Expired))])
    case Replace(w, t, now) =>
      var renewed := Renewed(s.calls[w].session, now, ttl);
      Rotated(s, w, Swap(s.m, key(s.calls[w].token), key(t), renewed), t, renewed)
    case Revoke(t) => s.(m := s.m - {key(t)})
    case RevokeAll(user) => s.(m := WithoutUser(s.m, user))
  }

  ghost predicate Valid(key: string -> string, ttl: int, es: seq<Event>)
    decreases |es|, 0
  {
    es == [] || (Valid(key, ttl, Front(es)) && Enabled(Exec(key, ttl, Front(es)), Last(es)))
  }

  ghost function Exec(key: string -> string, ttl: int, es: seq<Event>): State
    requires Valid(key, ttl, es)
    decreases |es|, 1
  {
    if es == [] then INITIAL else Next(key, ttl, Exec(key, ttl, Front(es)), Last(es))
  }

  /** The hash tells the tokens in play apart. */
  ghost predicate Injective(key: string -> string, T: set<string>) {
    forall a, b :: a in T && b in T && key(a) == key(b) ==> a == b
  }

  predicate HasToken(e: Event) {
    e.Issue? || e.Read? || e.Replace? || e.Revoke?
  }

  /** Every token the run mentions is in T. */
  ghost predicate InPlay(T: set<string>, es: seq<Event>) {
    forall i :: 0 <= i < |es| && HasToken(es[i]) ==> es[i].token in T
  }

  lemma {:induction false} InPlayPrefix(T: set<string>, es: seq<Event>)
    requires es != [] && InPlay(T, es)
    ensures InPlay(T, Front(es)) && (HasToken(Last(es)) ==> Last(es).token in T)
  {
    forall i | 0 <= i < |Front(es)| && HasToken(Front(es)[i])
      ensures Front(es)[i].token in T
    {
      assert Front(es)[i] == es[i];
    }
  }

  ghost predicate TokensIn(T: set<string>, s: State) {
    s.minted <= T && forall w :: w in s.calls && !s.calls[w].Finished? ==> s.calls[w].token in T
  }

  // ----- The hashed store refines a store keyed by raw tokens

  const RAW: string -> string := t => t

  /** The same session under a token's key as under the token itself, and nothing else. */
  ghost predicate StoreRefines(key: string -> string, T: set<string>, c: Store, a: Store) {
    && (forall t :: t in a ==> t in T && key(t) in c && c[key(t)] == a[t])
    && (forall k :: k in c ==> exists t :: t in a && key(t) == k)
  }

  ghost predicate Refines(key: string -> string, T: set<string>, c: State, a: State) {
    c.calls == a.calls && c.minted == a.minted && TokensIn(T, a) && StoreRefines(key, T, c.m, a.m)
  }

  lemma {:induction false} PutRefines(key: string -> string, T: set<string>, c: Store, a: Store, t: string, s: Session)
    requires Injective(key, T) && StoreRefines(key, T, c, a) && t in T
    ensures StoreRefines(key, T, c[key(t) := s], a[t := s])
  {
    var c' := c[key(t) := s];
    forall k | k in c'
      ensures exists u :: u in a[t := s] && key(u) == k
    {
      if k == key(t) {
        assert t in a[t := s];
      } else {
        var u :| u in a && key(u) == k;
        assert u in a[t := s];
      }
    }
  }

  lemma {:induction false} DeleteRefines(key: string -> string, T: set<string>, c: Store, a: Store, t: string)
    requires Injective(key, T) && StoreRefines(key, T, c, a) && t in T
    ensures StoreRefines(key, T, c - {key(t)}, a - {t})
  {
    forall k | k in c - {key(t)}
      ensures exists u :: u in a - {t} && key(u) == k
    {
      var u :| u in a && key(u) == k;
      assert u in a - {t};
    }
  }

  lemma {:induction false} WithoutUserRefines(key: string -> string, T: set<string>, c: Store, a: Store, user: string)
    requires Injective(key, T) && StoreRefines(key, T, c, a)
    ensures StoreRefines(key, T, WithoutUser(c, user), WithoutUser(a, user))
  {
    forall k | k in WithoutUser(c, user)
      ensures exists u :: u in WithoutUser(a, user) && key(u) == k
    {
      var u :| u in a && key(u) == k;
      assert u in WithoutUser(a, user);
    }
  }

  lemma {:induction false} PresenceRefines(key: string -> string, T: set<string>, c: Store, a: Store, t: string)
    requires Injective(key, T) && StoreRefines(key, T, c, a) && t in T
    ensures key(t) in c <==> t in a
    ensures t in a ==> c[key(t)] == a[t]
  {
  }

  lemma {:induction false} SwapRefines(key: string -> string, T: set<string>, c: Store, a: Store, prior: string, t: string, s: Session)
    requires Injective(key, T) && StoreRefines(key, T, c, a) && prior in T && t in T
    ensures Swap(c, key(prior), key(t), s).Some? <==> Swap(a, prior, t, s).Some?
    ensures Swap(a, prior, t, s).Some? ==> StoreRefines(key, T, Swap(c, key(prior), key(t), s).value, Swap(a, prior, t, s).value)
  {
    PresenceRefines(key, T, c, a, prior);
    DeleteRefines(key, T, c, a, prior);
    PutRefines(key, T, c - {key(prior)}, a - {prior}, t, s);
  }

  lemma {:induction false} StepRefines(key: string -> string, T: set<string>, ttl: int, c: State, a: State, e: Event)
    requires Injective(key, T) && Refines(key, T, c, a) && Enabled(a, e) && (HasToken(e) ==> e.token in T)
    ensures Enabled(c, e) && Refines(key, T, Next(key, ttl, c, e), Next(RAW, ttl, a, e))
  {
    if e.Issue? {
      PutRefines(key, T, c.m, a.m, e.token, Session(e.user, e.tenant, e.now, e.now + ttl));
    } else if e.Read? {
      ReadRefines(key, T, ttl, c, a, e);
    } else if e.Purge? {
      DeleteRefines(key, T, c.m, a.m, a.calls[e.who].token);
    } else if e.Replace? {
      ReplaceRefines(key, T, ttl, c, a, e);
    } else if e.Revoke? {
      DeleteRefines(key, T, c.m, a.m, e.token);
    } else {
      WithoutUserRefines(key, T, c.m, a.m, e.user);
    }
  }

  lemma {:induction false} ReadRefines(key: string -> string, T: set<string>, ttl: int, c: State, a: State, e: Event)
    requires Injective(key, T) && Refines(key, T, c, a) && Enabled(a, e) && e.Read? && e.token in T
    ensures Refines(key, T, Next(key, ttl, c, e), Next(RAW, ttl, a, e))
  {
    PresenceRefines(key, T, c.m, a.m, e.token);
    assert Check(c.m, key, e.token, e.now) == Check(a.m, RAW, e.token, e.now);
  }

  lemma {:induction false} ReplaceRefines(key: string -> string, T: set<string>, ttl: int, c: State, a: State, e: Event)
    requires Injective(key, T) && Refines(key, T, c, a) && Enabled(a, e) && e.Replace? && e.token in T
    ensures Refines(key, T, Next(key, ttl, c, e), Next(RAW, ttl, a, e))
  {
    var prior, renewed := a.calls[e.who].token, Renewed(a.calls[e.who].session, e.now, ttl);
    SwapRefines(key, T, c.m, a.m, prior, e.token, renewed);
    RotatedRefines(key, T, c, a, e.who, Swap(c.m, key(prior), key(e.token), renewed), Swap(a.m, prior, e.token, renewed), e.token, renewed);
  }

  lemma RotatedRefines(
      key: string -> string, T: set<string>, c: State, a: State, w: nat, c': Option<Store>, a': Option<Store>,
      token: string, renewed: Session)
    requires Refines(key, T, c, a) && token in T && (c'.Some? <==> a'.Some?)
    requires a'.Some? ==> StoreRefines(key, T, c'.value, a'.value)
    ensures Refines(key, T, Rotated(c, w, c', token, renewed), Rotated(a, w, a', token, renewed))
  {
  }

  /** When the hash tells the tokens in play apart, every run of the hashed store is a run of the
      raw-token store with the same answers, and back. */
  lemma {:induction false} HashedStoreRefinesRaw(key: string -> string, T: set<string>, ttl: int, es: seq<Event>)
    requires Injective(key, T) && InPlay(T, es)
    ensures Valid(key, ttl, es) <==> Valid(RAW, ttl, es)
    ensures Valid(key, ttl, es) ==> Refines(key, T, Exec(key, ttl, es), Exec(RAW, ttl, es))
  {
    if es != [] {
      InPlayPrefix(T, es);
      HashedStoreRefinesRaw(key, T, ttl, Front(es));
      if Valid(key, ttl, Front(es)) {
        var c, a := Exec(key, ttl, Front(es)), Exec(RAW, ttl, Front(es));
        if Enabled(a, Last(es)) {
          StepRefines(key, T, ttl, c, a, Last(es));
        }
      }
    }
  }

  // ----- What every reachable state keeps

  /** Sessions sit under the keys of drawn tokens. */
  ghost predicate Stored(key: string -> string, s: State) {
    forall k :: k in s.m ==> s.m[k].user != "" && s.m[k].tenant != "" && exists t :: t in s.minted && key(t) == k
  }

  /** A rotation under way still holds the session as it is stored, if it is. */
  ghost predicate Held(key: string -> string, s: State) {
    forall w :: w in s.calls && s.calls[w].Rotating? ==>
      && s.calls[w].token in s.minted
      && (key(s.calls[w].token) in s.m ==> s.m[key(s.calls[w].token)] == s.calls[w].session)
  }

  ghost predicate Inv(key: string -> string, T: set<string>, s: State) {
    TokensIn(T, s) && Stored(key, s) && Held(key, s)
  }

  lemma {:induction false} Reachable(key: string -> string, T: set<string>, ttl: int, es: seq<Event>)
    requires Injective(key, T) && InPlay(T, es) && Valid(key, ttl, es)
    ensures Inv(key, T, Exec(key, ttl, es))
  {
    if es != [] {
      InPlayPrefix(T, es);
      Reachable(key, T, ttl, Front(es));
      StepKeepsInv(key, T, ttl, Exec(key, ttl, Front(es)), Last(es));
    }
  }

  lemma {:induction false} StepKeepsInv(key: string -> string, T: set<string>, ttl: int, s: State, e: Event)
    requires Injective(key, T) && Inv(key, T, s) && Enabled(s, e) && (HasToken(e) ==> e.token in T)
    ensures Inv(key, T, Next(key, ttl, s, e))
  {
    StepKeepsStored(key, ttl, s, e);
    StepKeepsHeld(key, T, ttl, s, e);
  }

  lemma {:induction false} StepKeepsStored(key: string -> string, ttl: int, s: State, e: Event)
    requires Stored(key, s) && Held(key, s) && Enabled(s, e)
    ensures Stored(key, Next(key, ttl, s, e))
  {
    var s' := Next(key, ttl, s, e);
    forall k | k in s'.m
      ensures s'.m[k].user != "" && s'.m[k].tenant != "" && exists t :: t in s'.minted && key(t) == k
    {
      if k in s.m && s'.m[k] == s.m[k] {
        var t :| t in s.minted && key(t) == k;
        assert t in s'.minted;
      } else {
        assert e.token in s'.minted && key(e.token) == k;
      }
    }
  }

  lemma {:induction false} StepKeepsHeld(key: string -> string, T: set<string>, ttl: int, s: State, e: Event)
    requires Injective(key, T) && Inv(key, T, s) && Enabled(s, e) && (HasToken(e) ==> e.token in T)
    ensures Held(key, Next(key, ttl, s, e))
  {
    if e.Read? && key(e.token) in s.m {
      var t :| t in s.minted && key(t) == key(e.token);
      assert t == e.token;
    }
  }

  // ----- Tokens that ended stay ended

  /** The run's last event takes the token out of service: logout, expiry purge, or rotation. */
  ghost predicate Ends(key: string -> string, ttl: int, es: seq<Event>, token: string)
    requires es != [] && Valid(key, ttl, es)
  {
    var s := Exec(key, ttl, Front(es));
    match Last(es)
    case Revoke(t) => t == token
    case RevokeAll(user) => key(token) in s.m && s.m[key(token)].user == user
    case Purge(w) => s.calls[w].token == token
    case Replace(w, _, _) => s.calls[w].token == token
    case _ => false
  }

  lemma {:induction false} GoneStaysGone(key: string -> string, T: set<string>, ttl: int, es: seq<Event>, n: nat, token: string)
    requires Injective(key, T) && InPlay(T, es) && Valid(key, ttl, es) && n <= |es| && Valid(key, ttl, es[..n]) && token in T
    requires token in Exec(key, ttl, es[..n]).minted && key(token) !in Exec(key, ttl, es[..n]).m
    ensures token in Exec(key, ttl, es).minted && key(token) !in Exec(key, ttl, es).m
  {
    if n == |es| {
      assert es[..n] == es;
    } else {
      InPlayPrefix(T, es);
      assert Front(es)[..n] == es[..n];
      GoneStaysGone(key, T, ttl, Front(es), n, token);
    }
  }

  /** No resurrection: once an issued token is rotated away, revoked or purged it never validates
      again, whatever else runs. */
  lemma {:induction false} EndedTokensNeverValidate(
      key: string -> string, T: set<string>, ttl: int, es: seq<Event>, n: nat, token: string, now: Time)
    requires Injective(key, T) && InPlay(T, es) && token in T
    requires Valid(key, ttl, es) && 0 < n <= |es| && Valid(key, ttl, es[..n])
    requires token in Exec(key, ttl, es[..n]).minted && Ends(key, ttl, es[..n], token)
    ensures Check(Exec(key, ttl, es).m, key, token, now) == if token == "" then Err(InvalidToken) else Err(NotFound)
  {
    assert InPlay(T, es[..n]);
    EndTakesTokenOut(key, T, ttl, es[..n], token);
    GoneStaysGone(key, T, ttl, es, n, token);
  }

  lemma {:induction false} EndTakesTokenOut(key: string -> string, T: set<string>, ttl: int, es: seq<Event>, token: string)
    requires Injective(key, T) && InPlay(T, es) && token in T && Valid(key, ttl, es) && es != []
    requires token in Exec(key, ttl, es).minted && Ends(key, ttl, es, token)
    ensures key(token) !in Exec(key, ttl, es).m
  {
    InPlayPrefix(T, es);
    Reachable(key, T, ttl, Front(es));
  }

  // ----- Rotation

  /** The run's last event replaces prior by a successor. */
  ghost predicate Succeeds(key: string -> string, ttl: int, es: seq<Event>, prior: string)
    requires es != [] && Valid(key, ttl, es)
  {
    var s := Exec(key, ttl, Front(es));
    Last(es).Replace? && s.calls[Last(es).who].token == prior && key(prior) in s.m
  }

  ghost function Successors(key: string -> string, ttl: int, es: seq<Event>, prior: string): seq<string>
    requires Valid(key, ttl, es)
  {
    if es == [] then []
    else Successors(key, ttl, Front(es), prior) + if Succeeds(key, ttl, es, prior) then [Last(es).token] else []
  }

  /** No forked lineage: however many rotations of one token race, it gets at most one successor. */
  lemma {:induction false} AtMostOneSuccessor(key: string -> string, T: set<string>, ttl: int, es: seq<Event>, prior: string)
    requires Injective(key, T) && InPlay(T, es) && prior in T && Valid(key, ttl, es)
    ensures |Successors(key, ttl, es, prior)| <= 1
    ensures Successors(key, ttl, es, prior) != [] ==>
              prior in Exec(key, ttl, es).minted && key(prior) !in Exec(key, ttl, es).m
  {
    if es != [] {
      InPlayPrefix(T, es);
      AtMostOneSuccessor(key, T, ttl, Front(es), prior);
      Reachable(key, T, ttl, Front(es));
    }
  }

  /** The successor belongs to the stored session's own user and tenant. */
  lemma {:induction false} SuccessorKeepsOwner(key: string -> string, T: set<string>, ttl: int, es: seq<Event>, prior: string)
    requires Injective(key, T) && InPlay(T, es) && Valid(key, ttl, es) && es != [] && Succeeds(key, ttl, es, prior)
    ensures var before, after := Exec(key, ttl, Front(es)).m, Exec(key, ttl, es).m;
            && key(Last(es).token) in after
            && after[key(Last(es).token)] ==
               Session(before[key(prior)].user, before[key(prior)].tenant, Last(es).now, Last(es).now + ttl)
  {
    InPlayPrefix(T, es);
    Reachable(key, T, ttl, Front(es));
  }

  /** Some Issue in the run named this user and tenant. */
  ghost predicate IssuedFor(es: seq<Event>, user: string, tenant: string) {
    exists i :: 0 <= i < |es| && es[i].Issue? && es[i].user == user && es[i].tenant == tenant
  }

  lemma {:induction false} IssuedForGrows(es: seq<Event>, user: string, tenant: string)
    requires es != [] && IssuedFor(Front(es), user, tenant)
    ensures IssuedFor(es, user, tenant)
  {
    var i :| 0 <= i < |Front(es)| && Front(es)[i].Issue? && Front(es)[i].user == user && Front(es)[i].tenant == tenant;
    assert es[i] == Front(es)[i];
  }

  /** Every live session goes back, through rotations, to an Issue for the same user and tenant, and
      lives exactly ttl from the moment it was made. */
  lemma {:induction false} SessionsTraceToIssue(key: string -> string, T: set<string>, ttl: int, es: seq<Event>, k: string)
    requires Injective(key, T) && InPlay(T, es) && Valid(key, ttl, es) && k in Exec(key, ttl, es).m
    ensures var s := Exec(key, ttl, es).m[k];
            IssuedFor(es, s.user, s.tenant) && s.expiresAt == s.createdAt + ttl
  {
    InPlayPrefix(T, es);
    Reachable(key, T, ttl, Front(es));
    var before, e := Exec(key, ttl, Front(es)), Last(es);
    var s := Exec(key, ttl, es).m[k];
    if k in before.m && before.m[k] == s {
      SessionsTraceToIssue(key, T, ttl, Front(es), k);
      IssuedForGrows(es, s.user, s.tenant);
    } else if e.Issue? {
      assert es[|es| - 1] == e;
    } else {
      SessionsTraceToIssue(key, T, ttl, Front(es), key(before.calls[e.who].token));
      IssuedForGrows(es, s.user, s.tenant);
    }
  }

  ghost predicate NoSessionOf(m: Store, user: string) {
    forall k :: k in m ==> m[k].user != user
  }

  /** Logout everywhere holds: after RevokeAll, and without a later Issue for that user, no rotation
      that was under way leaves the user a session. */
  lemma {:induction false} RevokeAllIsFinal(key: string -> string, T: set<string>, ttl: int, es: seq<Event>, n: nat, user: string)
    requires Injective(key, T) && InPlay(T, es) && Valid(key, ttl, es) && n < |es| && es[n] == RevokeAll(user)
    requires forall i :: n < i < |es| && es[i].Issue? ==> es[i].user != user
    ensures NoSessionOf(Exec(key, ttl, es).m, user)
  {
    if n < |es| - 1 {
      InPlayPrefix(T, es);
      forall i | n < i < |Front(es)| && Front(es)[i].Issue?
        ensures Front(es)[i].user != user
      {
        assert es[i] == Front(es)[i];
      }
      assert Front(es)[n] == es[n];
      RevokeAllIsFinal(key, T, ttl, Front(es), n, user);
      Reachable(key, T, ttl, Front(es));
      assert Last(es) == es[|es| - 1];
    }
  }

  // ----- How long a session lives

  /** The run's last event makes the session of this token: it is issued, or a rotation succeeds. */
  ghost predicate Makes(key: string -> string, ttl: int, es: seq<Event>, token: string)
    requires es != [] && Valid(key, ttl, es)
  {
    var s, e := Exec(key, ttl, Front(es)), Last(es);
    (e.Issue? || (e.Replace? && key(s.calls[e.who].token) in s.m)) && e.token == token
  }

  /** The token's session was made by event n, and no event since has ended it. */
  ghost predicate Alive(key: string -> string, ttl: int, es: seq<Event>, n: nat, token: string)
    requires Valid(key, ttl, es)
    decreases |es|
  {
    && n < |es|
    && if n == |es| - 1 then Makes(key, ttl, es, token)
       else Alive(key, ttl, Front(es), n, token) && !Ends(key, ttl, es, token)
  }

  /** Such a session is stored as it was made, with its whole lifetime. */
  lemma {:induction false} AliveIsStored(key: string -> string, T: set<string>, ttl: int, es: seq<Event>, n: nat, token: string)
    requires Injective(key, T) && InPlay(T, es) && token in T && Valid(key, ttl, es) && Alive(key, ttl, es, n, token)
    ensures token in Exec(key, ttl, es).minted && token != "" && key(token) in Exec(key, ttl, es).m
    ensures es[n].Issue? || es[n].Replace?
    ensures var s := Exec(key, ttl, es).m[key(token)];
            && s.createdAt == es[n].now && s.expiresAt == es[n].now + ttl
            && (es[n].Issue? ==> s.user == es[n].user && s.tenant == es[n].tenant)
  {
    InPlayPrefix(T, es);
    Reachable(key, T, ttl, Front(es));
    if n < |es| - 1 {
      AliveIsStored(key, T, ttl, Front(es), n, token);
      StepKeepsOthers(key, T, ttl, Exec(key, ttl, Front(es)), Last(es), token);
      assert Front(es)[n] == es[n];
    }
  }

  /** An event that does not end a token's session leaves it alone. */
  lemma {:induction false} StepKeepsOthers(key: string -> string, T: set<string>, ttl: int, s: State, e: Event, token: string)
    requires Injective(key, T) && Inv(key, T, s) && Enabled(s, e) && (HasToken(e) ==> e.token in T)
    requires token in T && token in s.minted && key(token) in s.m
    requires match e
             case Revoke(t) => t != token
             case RevokeAll(user) => s.m[key(token)].user != user
             case Purge(w) => s.calls[w].token != token
             case Replace(w, _, _) => s.calls[w].token != token
             case _ => true
    ensures var s' := Next(key, ttl, s, e);
            token in s'.minted && key(token) in s'.m && s'.m[key(token)] == s.m[key(token)]
  {
  }

  /** A session made at time t and not ended since is found by every read before t + ttl, and by none
      from then on: a read that finds it expired goes on to purge it. */
  lemma {:induction false} FoundUntilItExpires(
      key: string -> string, T: set<string>, ttl: int, es: seq<Event>, n: nat, token: string, w: nat, now: Time, rotate: bool)
    requires Injective(key, T) && InPlay(T, es) && token in T && Valid(key, ttl, es) && Alive(key, ttl, es, n, token)
    requires w !in Exec(key, ttl, es).calls
    ensures es[n].Issue? || es[n].Replace?
    ensures var s := Exec(key, ttl, es);
            key(token) in s.m &&
            Next(key, ttl, s, Read(w, token, now, rotate)).calls[w] ==
            if now >= es[n].now + ttl then Purging(token)
            else if rotate then Rotating(token, s.m[key(token)])
            else Finished(Ok(s.m[key(token)]))
  {
    AliveIsStored(key, T, ttl, es, n, token);
  }

  /** A read finds nothing under a token that was never made, and takes no empty one. */
  lemma {:induction false} UnknownTokensAreNotFound(
      key: string -> string, T: set<string>, ttl: int, es: seq<Event>, token: string, w: nat, now: Time, rotate: bool)
    requires Injective(key, T) && InPlay(T, es) && token in T && Valid(key, ttl, es)
    requires token !in Exec(key, ttl, es).minted && w !in Exec(key, ttl, es).calls
    ensures Next(key, ttl, Exec(key, ttl, es), Read(w, token, now, rotate)).calls[w] ==
            Finished(Err(if token == "" then InvalidToken else NotFound))
  {
    Reachable(key, T, ttl, es);
  }

  /** A rotation's last step answers with the new session exactly when it took the old one's place;
      a purge answers that the session has expired. */
  lemma {:induction false} CallsAnswerWhatHappened(key: string -> string, T: set<string>, ttl: int, es: seq<Event>)
    requires Injective(key, T) && InPlay(T, es) && Valid(key, ttl, es) && es != []
    ensures var s, s', e := Exec(key, ttl, Front(es)), Exec(key, ttl, es), Last(es);
            && (e.Purge? ==> s'.calls[e.who] == Finished(Err(Expired)))
            && (e.Replace? ==>
                  var prior := s.calls[e.who].token;
                  if Succeeds(key, ttl, es, prior) then
                    && key(prior) !in s'.m && key(e.token) in s'.m
                    && s'.calls[e.who] == Finished(Ok(s'.m[key(e.token)]))
                  else s'.m == s.m && s'.calls[e.who] == Finished(Err(NotFound)))
  {
    InPlayPrefix(T, es);
    Reachable(key, T, ttl, Front(es));
  }
}
