// Magic links (domain/services.go, MagicLinkService over adapters/memory/memory.go,
// MagicLinkRepo): single use under every interleaving of Issue, Peek and Consume,
// where Consume is a read step and, later, an atomic flip.

module MagicLinks {
  import opened Common

  datatype Link = Link(hash: string, email: string, tenant: string, expiresAt: Time, consumed: bool)

  type Store = map<string, Link>

  predicate Outstanding(l: Link, email: string, tenant: string) {
    !l.consumed && l.email == email && l.tenant == tenant
  }

  function Invalidate(m: Store, email: string, tenant: string): Store {
    map h | h in m :: if Outstanding(m[h], email, tenant) then m[h].(consumed := true) else m[h]
  }

  function IssueInto(m: Store, link: Link): Store {
    Invalidate(m, link.email, link.tenant)[link.hash := link]
  }

  /** The flip, and whether this call performed it. */
  function Mark(m: Store, hash: string): (Store, bool) {
    if hash !in m || m[hash].consumed then (m, false)
    else (m[hash := m[hash].(consumed := true)], true)
  }

  datatype Error = NotFound | Expired | Consumed | InvalidTenantID

  /** The checks Peek and Consume share. */
  function Inspect(m: Store, hash: string, now: Time): Result<Link, Error> {
    if hash !in m then Err(NotFound)
    else if m[hash].consumed then Err(Consumed)
    else if now >= m[hash].expiresAt then Err(Expired)
    else Ok(m[hash])
  }

  class MagicLinkRepo {
    var m: Store

    /** Links are stored under their own hash. */
    ghost predicate Keyed()
      reads this
    {
      forall h :: h in m ==> m[h].hash == h
    }

    constructor ()
      ensures m == map[] && Keyed()
    {
      m := map[];
    }

    method FindByHash(hash: string) returns (r: Option<Link>)
      ensures r == if hash in m then Some(m[hash]) else None
    {
      r := if hash in m then Some(m[hash]) else None;
    }

    method MarkConsumed(hash: string) returns (flipped: bool)
      modifies this
      ensures (m, flipped) == Mark(old(m), hash)
    {
      if hash !in m || m[hash].consumed {
        return false;
      }
      m := m[hash := m[hash].(consumed := true)];
      return true;
    }

    /** invalidateLocked: one pass over the map in any order. */
    method InvalidateOutstanding(email: string, tenant: string)
      modifies this
      ensures m == Invalidate(old(m), email, tenant)
      ensures m.Keys == old(m).Keys
      ensures forall h :: h in m ==>
                m[h] == if old(m)[h].email == email && old(m)[h].tenant == tenant then old(m)[h].(consumed := true) else old(m)[h]
    {
      var todo := m.Keys;
      while todo != {}
        invariant todo <= m.Keys == old(m).Keys
        invariant forall h :: h in m ==> m[h] == if h in todo then old(m)[h] else Invalidate(old(m), email, tenant)[h]
        decreases todo
      {
        var h :| h in todo;
        if !m[h].consumed && m[h].email == email && m[h].tenant == tenant {
          m := m[h := m[h].(consumed := true)];
        }
        todo := todo - {h};
      }
    }

    method IssueAtomically(link: Link)
      modifies this
      ensures m == IssueInto(old(m), link)
      ensures m.Keys == old(m).Keys + {link.hash} && m[link.hash] == link
      ensures forall h :: h in old(m) && h != link.hash ==>
                m[h] == if old(m)[h].email == link.email && old(m)[h].tenant == link.tenant then old(m)[h].(consumed := true)
                        else old(m)[h]
    {
      InvalidateOutstanding(link.email, link.tenant);
      m := m[link.hash := link];
    }
  }

  class MagicLinkService {
    const repo: MagicLinkRepo
    const ttl: int
    /** HashToken, an uninterpreted function of the raw token. */
    const hash: string -> string

    constructor (repo: MagicLinkRepo, ttl: int, hash: string -> string)
      ensures this.repo == repo && this.ttl == ttl && this.hash == hash
    {
      this.repo, this.ttl, this.hash := repo, ttl, hash;
    }

    method Issue(raw: string, email: string, tenant: string, now: Time) returns (r: Result<string, Error>)
      requires repo.Keyed()
      modifies repo
      ensures repo.Keyed()
      ensures tenant == "" ==> r == Err(InvalidTenantID) && repo.m == old(repo.m)
      ensures tenant != "" ==> r == Ok(raw) && repo.m == IssueInto(old(repo.m), Link(hash(raw), email, tenant, now + ttl, false))
    {
      if tenant == "" {
        return Err(InvalidTenantID);
      }
      repo.IssueAtomically(Link(hash(raw), email, tenant, now + ttl, false));
      return Ok(raw);
    }

    method Peek(raw: string, now: Time) returns (r: Result<Link, Error>)
      ensures r == Inspect(repo.m, hash(raw), now)
      ensures r == Err(NotFound) <==> hash(raw) !in repo.m
      ensures r == Err(Consumed) <==> hash(raw) in repo.m && repo.m[hash(raw)].consumed
      ensures r == Err(Expired) <==>
                hash(raw) in repo.m && !repo.m[hash(raw)].consumed && repo.m[hash(raw)].expiresAt <= now
      ensures r.Ok? <==> hash(raw) in repo.m && !repo.m[hash(raw)].consumed && now < repo.m[hash(raw)].expiresAt
      ensures r.Ok? ==> r.value == repo.m[hash(raw)]
    {
      var link := repo.FindByHash(hash(raw));
      if link.None? {
        return Err(NotFound);
      }
      if link.value.consumed {
        return Err(Consumed);
      }
      if !(now < link.value.expiresAt) {
        return Err(Expired);
      }
      return Ok(link.value);
    }

    /** Consume run without interference: it succeeds exactly when Peek would, and spends the link. */
    method Consume(raw: string, now: Time) returns (r: Result<Link, Error>)
      requires repo.Keyed()
      modifies repo
      ensures repo.Keyed()
      ensures match Inspect(old(repo.m), hash(raw), now)
              case Ok(l) => r == Ok(l.(consumed := true)) && repo.m == old(repo.m)[hash(raw) := l.(consumed := true)]
              case Err(e) => r == Err(e) && repo.m == old(repo.m)
    {
      r := Peek(raw, now);
      if r.Err? {
        return;
      }
      var flipped := repo.MarkConsumed(r.value.hash);
      if !flipped {
        return Err(Consumed);
      }
      return Ok(r.value.(consumed := true));
    }
  }

  // ----- Interleaved runs

  /** A Consume call after its read: holding a link that looked good, or finished. */
  datatype Consumer = Holding(link: Link) | Finished(result: Result<Link, Error>)

  datatype State = State(m: Store, consumers: map<nat, Consumer>)

  datatype Event =
    | Issue(hash: string, email: string, tenant: string, now: Time)
    | Peek(hash: string, now: Time)
    | Find(who: nat, hash: string, now: Time)
    | Flip(who: nat)

  const INITIAL := State(map[], map[])

  /** Issue draws a token whose hash is not in use. */
  predicate Enabled(s: State, e: Event) {
    match e
    case Issue(h, _, tenant, _) => h !in s.m && tenant != ""
    case Peek(_, _) => true
    case Find(w, _, _) => w !in s.consumers
    case Flip(w) => w in s.consumers && s.consumers[w].Holding?
  }

  function Next(ttl: int, s: State, e: Event): State
    requires Enabled(s, e)
  {
    match e
    case Issue(h, email, tenant, now) => s.(m := IssueInto(s.m, Link(h, email, tenant, now + ttl, false)))
    case Peek(_, _) => s
    case Find(w, h, now) =>
      (match Inspect(s.m, h, now)
       case Ok(l) => s.(consumers := s.consumers[w := Holding(l)])
       case Err(err) => s.(consumers := s.consumers[w := Finished(Err(err))]))
    case Flip(w) =>
      var l := s.consumers[w].link;
      var (m, flipped) := Mark(s.m, l.hash);
      State(m, s.consumers[w := Finished(if flipped then Ok(l.(consumed := true)) else Err(Consumed))])
  }

  ghost predicate Valid(ttl: int, es: seq<Event>)
    decreases |es|, 0
  {
    es == [] || (Valid(ttl, Front(es)) && Enabled(Exec(ttl, Front(es)), Last(es)))
  }

  ghost function Exec(ttl: int, es: seq<Event>): State
    requires Valid(ttl, es)
    decreases |es|, 1
  {
    if es == [] then INITIAL else Next(ttl, Exec(ttl, Front(es)), Last(es))
  }

  /** The run's last event redeems the link stored under h. */
  ghost predicate Redeems(ttl: int, es: seq<Event>, h: string)
    requires es != [] && Valid(ttl, es)
  {
    var s := Exec(ttl, Front(es));
    Last(es).Flip? && s.consumers[Last(es).who].link.hash == h && Mark(s.m, h).1
  }

  ghost function Redemptions(ttl: int, es: seq<Event>, h: string): nat
    requires Valid(ttl, es)
  {
    if es == [] then 0 else Redemptions(ttl, Front(es), h) + if Redeems(ttl, es, h) then 1 else 0
  }

  /** What every reachable state keeps: links sit under their own hash, at most one per address and
      tenant is outstanding, and a consumer holds the link that was stored when it read. */
  ghost predicate Inv(s: State) {
    && (forall h :: h in s.m ==> s.m[h].hash == h)
    && (forall h1, h2 :: h1 in s.m && h2 in s.m && h1 != h2 && !s.m[h1].consumed && !s.m[h2].consumed ==>
          s.m[h1].email != s.m[h2].email || s.m[h1].tenant != s.m[h2].tenant)
    && (forall w :: w in s.consumers && s.consumers[w].Holding? ==>
          var l := s.consumers[w].link;
          !l.consumed && l.hash in s.m && s.m[l.hash].(consumed := false) == l)
  }

  lemma {:induction false} Reachable(ttl: int, es: seq<Event>)
    requires Valid(ttl, es)
    ensures Inv(Exec(ttl, es))
  {
    if es != [] {
      Reachable(ttl, Front(es));
      var s, e := Exec(ttl, Front(es)), Last(es);
      match e
      case Issue(_, _, _, _) => IssueKeepsInv(ttl, s, e);
      case Peek(_, _) =>
      case Find(_, _, _) => FindKeepsInv(ttl, s, e);
      case Flip(_) => FlipKeepsInv(ttl, s, e);
    }
  }

  lemma IssueKeepsInv(ttl: int, s: State, e: Event)
    requires Inv(s) && Enabled(s, e) && e.Issue?
    ensures Inv(Next(ttl, s, e))
  {
  }

  lemma FindKeepsInv(ttl: int, s: State, e: Event)
    requires Inv(s) && Enabled(s, e) && e.Find?
    ensures Inv(Next(ttl, s, e))
  {
  }

  lemma FlipKeepsInv(ttl: int, s: State, e: Event)
    requires Inv(s) && Enabled(s, e) && e.Flip?
    ensures Inv(Next(ttl, s, e))
  {
  }

  /** Links stay in the store, keep their contents, and once consumed stay consumed. */
  lemma {:induction false} ConsumedForever(ttl: int, es: seq<Event>, n: nat, h: string)
    requires Valid(ttl, es) && n <= |es| && Valid(ttl, es[..n]) && h in Exec(ttl, es[..n]).m
    ensures h in Exec(ttl, es).m
    ensures Exec(ttl, es).m[h].(consumed := false) == Exec(ttl, es[..n]).m[h].(consumed := false)
    ensures Exec(ttl, es[..n]).m[h].consumed ==> Exec(ttl, es).m[h].consumed
  {
    if n == |es| {
      assert es[..n] == es;
    } else {
      assert Front(es)[..n] == es[..n];
      ConsumedForever(ttl, Front(es), n, h);
      StepKeepsLink(ttl, Exec(ttl, Front(es)), Last(es), h);
    }
  }

  lemma StepKeepsLink(ttl: int, s: State, e: Event, h: string)
    requires Enabled(s, e) && h in s.m
    ensures var m := Next(ttl, s, e).m;
            h in m && m[h].(consumed := false) == s.m[h].(consumed := false) && (s.m[h].consumed ==> m[h].consumed)
  {
  }

  /** At most one link per address and tenant can still be redeemed. */
  lemma {:induction false} OneOutstandingLink(ttl: int, es: seq<Event>, h1: string, h2: string, email: string, tenant: string)
    requires Valid(ttl, es)
    requires h1 in Exec(ttl, es).m && Outstanding(Exec(ttl, es).m[h1], email, tenant)
    requires h2 in Exec(ttl, es).m && Outstanding(Exec(ttl, es).m[h2], email, tenant)
    ensures h1 == h2
  {
    Reachable(ttl, es);
  }

  /** Single use: however Consume calls interleave, a link is redeemed at most once. */
  lemma {:induction false} RedeemedAtMostOnce(ttl: int, es: seq<Event>, h: string)
    requires Valid(ttl, es)
    ensures Redemptions(ttl, es, h) <= 1
    ensures Redemptions(ttl, es, h) == 1 ==> h in Exec(ttl, es).m && Exec(ttl, es).m[h].consumed
  {
    if es != [] {
      RedeemedAtMostOnce(ttl, Front(es), h);
      if h in Exec(ttl, Front(es)).m {
        ConsumedForever(ttl, es, |es| - 1, h);
      }
    }
  }

  lemma {:induction false} IssuedIsStored(ttl: int, es: seq<Event>, i: nat)
    requires Valid(ttl, es) && i < |es| && es[i].Issue?
    ensures es[i].hash in Exec(ttl, es).m
    ensures var l := Exec(ttl, es).m[es[i].hash]; l.email == es[i].email && l.tenant == es[i].tenant
  {
    if i < |es| - 1 {
      assert es[i] == Front(es)[i];
      IssuedIsStored(ttl, Front(es), i);
    }
  }

  lemma {:induction false} IssueSupersedes(ttl: int, es: seq<Event>, i: nat)
    requires Valid(ttl, es) && i < |es| - 1 && es[i].Issue? && Last(es).Issue?
    requires es[i].email == Last(es).email && es[i].tenant == Last(es).tenant
    ensures es[i].hash in Exec(ttl, es).m && Exec(ttl, es).m[es[i].hash].consumed
  {
    assert es[i] == Front(es)[i];
    IssuedIsStored(ttl, Front(es), i);
  }

  /** A link superseded by a later Issue for its address and tenant is never redeemed afterwards,
      even by a Consume that had read it before that Issue. */
  lemma {:induction false} SupersededIsDead(ttl: int, es: seq<Event>, i: nat, j: nat)
    requires Valid(ttl, es) && i < j < |es| - 1
    requires es[i].Issue? && es[j].Issue? && es[i].email == es[j].email && es[i].tenant == es[j].tenant
    ensures !Redeems(ttl, es, es[i].hash)
  {
    ValidPrefix(ttl, es, j + 1);
    IssueSupersedes(ttl, es[..j + 1], i);
    assert Front(es)[..j + 1] == es[..j + 1];
    ConsumedForever(ttl, Front(es), j + 1, es[i].hash);
  }

  lemma {:induction false} ValidPrefix(ttl: int, es: seq<Event>, n: nat)
    requires Valid(ttl, es) && n <= |es|
    ensures Valid(ttl, es[..n])
  {
    if n == |es| {
      assert es[..n] == es;
    } else {
      ValidPrefix(ttl, Front(es), n);
      assert Front(es)[..n] == es[..n];
    }
  }

  /** The event that issued the link stored under h. */
  ghost predicate IssuedAs(ttl: int, es: seq<Event>, l: Link) {
    exists i ::
      && 0 <= i < |es|
      && es[i].Issue? && l == Link(es[i].hash, es[i].email, es[i].tenant, es[i].now + ttl, l.consumed)
  }

  /** Every stored link is one that was issued, with that Issue's address, tenant and lifetime. */
  lemma {:induction false} StoredLinksWereIssued(ttl: int, es: seq<Event>, h: string)
    requires Valid(ttl, es) && h in Exec(ttl, es).m
    ensures IssuedAs(ttl, es, Exec(ttl, es).m[h])
  {
    var before := Exec(ttl, Front(es));
    Reachable(ttl, Front(es));
    if h in before.m {
      StoredLinksWereIssued(ttl, Front(es), h);
      ConsumedForever(ttl, es, |es| - 1, h);
      var i :| 0 <= i < |Front(es)| && Front(es)[i].Issue?
               && before.m[h] == Link(Front(es)[i].hash, Front(es)[i].email, Front(es)[i].tenant, Front(es)[i].now + ttl, before.m[h].consumed);
      assert es[i] == Front(es)[i];
    } else {
      assert Last(es) == es[|es| - 1];
    }
  }

  /** Consumer w's read step found this link, unexpired. */
  ghost predicate FoundLive(es: seq<Event>, w: nat, l: Link) {
    exists i :: 0 <= i < |es| && es[i].Find? && es[i].who == w && es[i].hash == l.hash && es[i].now < l.expiresAt
  }

  lemma {:induction false} FoundLiveGrows(es: seq<Event>, w: nat, l: Link)
    requires es != [] && FoundLive(Front(es), w, l)
    ensures FoundLive(es, w, l)
  {
    var i :| 0 <= i < |Front(es)| && Front(es)[i].Find? && Front(es)[i].who == w
             && Front(es)[i].hash == l.hash && Front(es)[i].now < l.expiresAt;
    assert es[i] == Front(es)[i];
  }

  lemma {:induction false} IssuedAsGrows(ttl: int, es: seq<Event>, l: Link, consumed: bool)
    requires es != [] && IssuedAs(ttl, Front(es), l)
    ensures IssuedAs(ttl, es, l.(consumed := consumed))
  {
    var k :| 0 <= k < |Front(es)| && Front(es)[k].Issue?
             && l == Link(Front(es)[k].hash, Front(es)[k].email, Front(es)[k].tenant, Front(es)[k].now + ttl, l.consumed);
    assert es[k] == Front(es)[k];
  }

  /** A successful Consume returns a link that was issued, and its read step found it unexpired. */
  lemma {:induction false} RedeemedWasLive(ttl: int, es: seq<Event>, w: nat, l: Link)
    requires Valid(ttl, es) && w in Exec(ttl, es).consumers
    requires Exec(ttl, es).consumers[w] == Finished(Ok(l)) || Exec(ttl, es).consumers[w] == Holding(l)
    ensures IssuedAs(ttl, es, l) && FoundLive(es, w, l)
  {
    var before := Exec(ttl, Front(es));
    Reachable(ttl, Front(es));
    if w in before.consumers {
      var l0 := if before.consumers[w].Holding? then before.consumers[w].link else l;
      RedeemedWasLive(ttl, Front(es), w, l0);
      IssuedAsGrows(ttl, es, l0, l.consumed);
      FoundLiveGrows(es, w, l0);
    } else {
      StoredLinksWereIssued(ttl, Front(es), l.hash);
      IssuedAsGrows(ttl, es, before.m[l.hash], l.consumed);
      assert Last(es) == es[|es| - 1];
    }
  }

  // ----- Which links can be redeemed

  /** An event that neither issues for this link's own address and tenant nor flips it leaves it as
      it is. */
  lemma {:induction false} StepLeavesOthers(ttl: int, s: State, e: Event, h: string)
    requires Inv(s) && Enabled(s, e) && h in s.m
    requires e.Issue? ==> e.email != s.m[h].email || e.tenant != s.m[h].tenant
    requires e.Flip? ==> s.consumers[e.who].link.hash != h
    ensures h in Next(ttl, s, e).m && Next(ttl, s, e).m[h] == s.m[h]
  {
  }

  /** The link issued under h has been redeemed, or superseded by an Issue for its address and tenant. */
  ghost predicate Spent(ttl: int, es: seq<Event>, h: string)
    requires Valid(ttl, es)
  {
    && es != []
    && var s, e := Exec(ttl, Front(es)), Last(es);
       || Spent(ttl, Front(es), h)
       || Redeems(ttl, es, h)
       || (e.Issue? && h in s.m && e.email == s.m[h].email && e.tenant == s.m[h].tenant)
  }

  ghost predicate WasIssued(es: seq<Event>, h: string) {
    exists i :: 0 <= i < |es| && es[i].Issue? && es[i].hash == h
  }

  lemma {:induction false} StoredIffIssued(ttl: int, es: seq<Event>, h: string)
    requires Valid(ttl, es)
    ensures h in Exec(ttl, es).m <==> WasIssued(es, h)
  {
    if i :| 0 <= i < |es| && es[i].Issue? && es[i].hash == h {
      IssuedIsStored(ttl, es, i);
    }
    if h in Exec(ttl, es).m {
      Reachable(ttl, es);
      StoredLinksWereIssued(ttl, es, h);
    }
  }

  /** A link is consumed exactly when it has been redeemed or superseded: nothing else touches it. */
  lemma {:induction false} ConsumedIffSpent(ttl: int, es: seq<Event>, h: string)
    requires Valid(ttl, es) && h in Exec(ttl, es).m
    ensures Exec(ttl, es).m[h].consumed <==> Spent(ttl, es, h)
  {
    var s, e := Exec(ttl, Front(es)), Last(es);
    Reachable(ttl, Front(es));
    if h in s.m {
      ConsumedIffSpent(ttl, Front(es), h);
      if !(e.Issue? && e.email == s.m[h].email && e.tenant == s.m[h].tenant) && !(e.Flip? && s.consumers[e.who].link.hash == h) {
        StepLeavesOthers(ttl, s, e, h);
      }
    } else {
      UnissuedIsNotSpent(ttl, Front(es), h);
    }
  }

  lemma {:induction false} UnissuedIsNotSpent(ttl: int, es: seq<Event>, h: string)
    requires Valid(ttl, es) && h !in Exec(ttl, es).m
    ensures !Spent(ttl, es, h)
  {
    if es != [] {
      Reachable(ttl, Front(es));
      UnissuedIsNotSpent(ttl, Front(es), h);
    }
  }

  /** What the read of a Consume finds, from the history alone: no such link, a spent one, an expired
      one, or the link as it was issued at event i. */
  lemma {:induction false} ReadAnswers(ttl: int, es: seq<Event>, w: nat, h: string, now: Time, i: nat)
    requires Valid(ttl, es) && w !in Exec(ttl, es).consumers
    requires WasIssued(es, h) ==> i < |es| && es[i].Issue? && es[i].hash == h
    ensures Next(ttl, Exec(ttl, es), Find(w, h, now)).consumers[w] ==
            if !WasIssued(es, h) then Finished(Err(NotFound))
            else if Spent(ttl, es, h) then Finished(Err(Consumed))
            else if es[i].now + ttl <= now then Finished(Err(Expired))
            else Holding(Link(h, es[i].email, es[i].tenant, es[i].now + ttl, false))
  {
    StoredIffIssued(ttl, es, h);
    if WasIssued(es, h) {
      ConsumedIffSpent(ttl, es, h);
      StoredAsIssued(ttl, es, h, i);
    }
  }

  lemma {:induction false} StoredAsIssued(ttl: int, es: seq<Event>, h: string, i: nat)
    requires Valid(ttl, es) && i < |es| && es[i].Issue? && es[i].hash == h
    ensures h in Exec(ttl, es).m
    ensures Exec(ttl, es).m[h].(consumed := false) == Link(h, es[i].email, es[i].tenant, es[i].now + ttl, false)
  {
    if i < |es| - 1 {
      assert es[i] == Front(es)[i];
      StoredAsIssued(ttl, Front(es), h, i);
      StepKeepsLink(ttl, Exec(ttl, Front(es)), Last(es), h);
    }
  }

  /** And a flip redeems the link it holds exactly when that link has not been spent since the read. */
  lemma {:induction false} FlipAnswers(ttl: int, es: seq<Event>, w: nat, l: Link)
    requires Valid(ttl, es) && w in Exec(ttl, es).consumers && Exec(ttl, es).consumers[w] == Holding(l)
    ensures Next(ttl, Exec(ttl, es), Flip(w)).consumers[w] ==
            Finished(if Spent(ttl, es, l.hash) then Err(Consumed) else Ok(l.(consumed := true)))
  {
    Reachable(ttl, es);
    ConsumedIffSpent(ttl, es, l.hash);
  }
}
