// Workload API keys (domain/services.go, WorkloadKeyService over
// adapters/memory/memory.go, WorkloadKeyRepo): the two-map index, rotation and
// revocation, and the lineage of keys under interleaved rotations.

module WorkloadKeys {
  import opened Common

  datatype Key = Key(id: string, hash: string, worker: string, scope: seq<string>, expiresAt: Time, createdAt: Time)

  datatype Index = Index(byID: map<string, Key>, byHash: map<string, string>)

  datatype Error =
    | NotFound | Conflict
    | KeyNotFound | KeyExpired
    | InvalidWorkerID | InvalidScope | InvalidExpiry

  /** byHash is exactly the inverse of byID on hashes. */
  ghost predicate Consistent(ix: Index) {
    && (forall id :: id in ix.byID ==>
          && ix.byID[id].id == id
          && ix.byID[id].hash in ix.byHash && ix.byHash[ix.byID[id].hash] == id)
    && (forall h :: h in ix.byHash ==> ix.byHash[h] in ix.byID && ix.byID[ix.byHash[h]].hash == h)
  }

  function Insert(ix: Index, k: Key): Index {
    Index(ix.byID[k.id := k], ix.byHash[k.hash := k.id])
  }

  function Remove(ix: Index, k: Key): Index {
    Index(ix.byID - {k.id}, ix.byHash - {k.hash})
  }

  function Create(ix: Index, k: Key): Result<Index, Error> {
    if k.id in ix.byID || k.hash in ix.byHash then Err(Conflict) else Ok(Insert(ix, k))
  }

  function Delete(ix: Index, id: string): Result<Index, Error> {
    if id !in ix.byID then Err(NotFound) else Ok(Remove(ix, ix.byID[id]))
  }

  function Rotate(ix: Index, oldID: string, k: Key): Result<Index, Error> {
    if oldID !in ix.byID then Err(NotFound)
    else if k.id in ix.byID || k.hash in ix.byHash then Err(Conflict)
    else Ok(Insert(Remove(ix, ix.byID[oldID]), k))
  }

  lemma InsertIsConsistent(ix: Index, k: Key)
    requires Consistent(ix) && k.id !in ix.byID && k.hash !in ix.byHash
    ensures Consistent(Insert(ix, k))
  {
  }

  lemma RemoveIsConsistent(ix: Index, id: string)
    requires Consistent(ix) && id in ix.byID
    ensures Consistent(Remove(ix, ix.byID[id]))
  {
  }

  function NotOfWorker(byID: map<string, Key>, worker: string): map<string, Key> {
    map id | id in byID && byID[id].worker != worker :: byID[id]
  }

  class WorkloadKeyRepo {
    var byID: map<string, Key>
    var byHash: map<string, string>

    ghost predicate Valid()
      reads this
    {
      Consistent(View())
    }

    ghost function View(): Index
      reads this
    {
      Index(byID, byHash)
    }

    constructor ()
      ensures Valid() && View() == Index(map[], map[])
    {
      byID, byHash := map[], map[];
    }

    method CreateKey(k: Key) returns (r: Result<(), Error>)
      requires Valid()
      modifies this
      ensures Valid()
      ensures match Create(old(View()), k)
              case Ok(ix) => r == Ok(()) && View() == ix
              case Err(e) => r == Err(e) && View() == old(View())
      ensures r.Ok? <==> k.id !in old(byID) && forall id :: id in old(byID) ==> old(byID)[id].hash != k.hash
      ensures r.Ok? ==> byID == old(byID)[k.id := k]
      ensures r.Err? ==> r == Err(Conflict) && byID == old(byID)
    {
      if k.id in byID {
        return Err(Conflict);
      }
      if k.hash in byHash {
        return Err(Conflict);
      }
      InsertIsConsistent(View(), k);
      byID := byID[k.id := k];
      byHash := byHash[k.hash := k.id];
      return Ok(());
    }

    /** The indexed lookup finds exactly what a scan of all keys would. */
    method GetKeyByHash(hash: string) returns (r: Option<Key>)
      requires Valid()
      ensures r.Some? <==> exists id :: id in byID && byID[id].hash == hash
      ensures r.Some? ==> r.value.id in byID && byID[r.value.id] == r.value && r.value.hash == hash
      ensures forall id :: id in byID && byID[id].hash == hash ==> r == Some(byID[id])
    {
      if hash !in byHash {
        return None;
      }
      return Some(byID[byHash[hash]]);
    }

    method GetKey(id: string) returns (r: Option<Key>)
      ensures r == if id in byID then Some(byID[id]) else None
    {
      r := if id in byID then Some(byID[id]) else None;
    }

    method ListKeysByWorker(worker: string) returns (out: seq<Key>)
      requires Valid()
      ensures forall k :: k in out <==> k.id in byID && byID[k.id] == k && k.worker == worker
      ensures forall i, j :: 0 <= i < j < |out| ==> out[i].id != out[j].id
    {
      out := [];
      var todo := byID.Keys;
      while todo != {}
        invariant todo <= byID.Keys
        invariant forall k :: k in out <==> k.id in byID && k.id !in todo && byID[k.id] == k && k.worker == worker
        invariant forall i, j :: 0 <= i < j < |out| ==> out[i].id != out[j].id
        decreases todo
      {
        var id :| id in todo;
        if byID[id].worker == worker {
          assert byID[id] !in out;
          out := out + [byID[id]];
        }
        todo := todo - {id};
      }
    }

    method DeleteKey(id: string) returns (r: Result<(), Error>)
      requires Valid()
      modifies this
      ensures Valid()
      ensures match Delete(old(View()), id)
              case Ok(ix) => r == Ok(()) && View() == ix
              case Err(e) => r == Err(e) && View() == old(View())
      ensures r == (if id in old(byID) then Ok(()) else Err(NotFound)) && byID == old(byID) - {id}
    {
      if id !in byID {
        return Err(NotFound);
      }
      RemoveIsConsistent(View(), id);
      var k := byID[id];
      byID := byID - {k.id};
      byHash := byHash - {k.hash};
      return Ok(());
    }

    /** Either the swap fully applies or nothing changes. */
    method RotateAtomically(oldID: string, k: Key) returns (r: Result<(), Error>)
      requires Valid()
      modifies this
      ensures Valid()
      ensures match Rotate(old(View()), oldID, k)
              case Ok(ix) => r == Ok(()) && View() == ix
              case Err(e) => r == Err(e) && View() == old(View())
      ensures r == Err(NotFound) <==> oldID !in old(byID)
      ensures r.Ok? <==>
                oldID in old(byID) && k.id !in old(byID) && forall id :: id in old(byID) ==> old(byID)[id].hash != k.hash
      ensures byID == if r.Ok? then (old(byID) - {oldID})[k.id := k] else old(byID)
    {
      if oldID !in byID {
        return Err(NotFound);
      }
      if k.id in byID {
        return Err(Conflict);
      }
      if k.hash in byHash {
        return Err(Conflict);
      }
      var prior := byID[oldID];
      RemoveIsConsistent(View(), oldID);
      InsertIsConsistent(Remove(View(), prior), k);
      byID := byID - {prior.id};
      byHash := byHash - {prior.hash};
      byID := byID[k.id := k];
      byHash := byHash[k.hash := k.id];
      return Ok(());
    }
  }

  datatype Claims = Claims(worker: string, scope: seq<string>)

  /** The checks of issue, before anything random is drawn. */
  function CheckRequest(worker: string, scope: seq<string>, expiresAt: Time, now: Time): Option<Error> {
    if worker == "" then Some(InvalidWorkerID)
    else if scope == [] then Some(InvalidScope)
    else if expiresAt <= now then Some(InvalidExpiry)
    else None
  }

  /** The service run without interference; newID and newToken are the random draws of a call. */
  class WorkloadKeyService {
    const store: WorkloadKeyRepo
    const hash: string -> string

    constructor (store: WorkloadKeyRepo, hash: string -> string)
      ensures this.store == store && this.hash == hash
    {
      this.store, this.hash := store, hash;
    }

    method IssueKey(worker: string, scope: seq<string>, expiresAt: Time, now: Time, newID: string, newToken: string)
      returns (r: Result<Key, Error>)
      requires store.Valid()
      modifies store
      ensures store.Valid()
      ensures var bad := CheckRequest(worker, scope, expiresAt, now);
              var k := Key(newID, hash(newToken), worker, scope, expiresAt, now);
              if bad.Some? then r == Err(bad.value) && store.View() == old(store.View())
              else match Create(old(store.View()), k)
                case Ok(ix) => r == Ok(k) && store.View() == ix
                case Err(e) => r == Err(e) && store.View() == old(store.View())
      ensures r == Err(InvalidWorkerID) <==> worker == ""
      ensures r == Err(InvalidScope) <==> worker != "" && scope == []
      ensures r == Err(InvalidExpiry) <==> worker != "" && scope != [] && expiresAt <= now
      ensures r.Ok? ==>
                && r.value == Key(newID, hash(newToken), worker, scope, expiresAt, now)
                && newID !in old(store.byID) && store.byID == old(store.byID)[newID := r.value]
    {
      var bad := CheckRequest(worker, scope, expiresAt, now);
      if bad.Some? {
        return Err(bad.value);
      }
      var k := Key(newID, hash(newToken), worker, scope, expiresAt, now);
      var created := store.CreateKey(k);
      return if created.Ok? then Ok(k) else Err(created.error);
    }

    /** A token validates exactly when some stored key carries its hash and has not expired. */
    method ValidateKey(token: string, now: Time) returns (r: Result<Claims, Error>)
      requires store.Valid()
      ensures r.Ok? <==> exists id :: id in store.byID && store.byID[id].hash == hash(token) && now < store.byID[id].expiresAt
      ensures forall id :: id in store.byID && store.byID[id].hash == hash(token) ==>
                r == if now < store.byID[id].expiresAt then Ok(Claims(store.byID[id].worker, store.byID[id].scope)) else Err(KeyExpired)
      ensures (forall id :: id in store.byID ==> store.byID[id].hash != hash(token)) ==> r == Err(KeyNotFound)
    {
      var k := store.GetKeyByHash(hash(token));
      if k.None? || k.value.hash != hash(token) {
        return Err(KeyNotFound);
      }
      if !(now < k.value.expiresAt) {
        return Err(KeyExpired);
      }
      return Ok(Claims(k.value.worker, k.value.scope));
    }

    /** The kill-switch leaves exactly the other workers' keys. */
    method RevokeAllKeys(worker: string)
      requires store.Valid()
      modifies store
      ensures store.Valid()
      ensures store.byID == NotOfWorker(old(store.byID), worker)
      ensures forall id :: id in store.byID <==> id in old(store.byID) && old(store.byID)[id].worker != worker
      ensures forall id :: id in store.byID ==> store.byID[id] == old(store.byID)[id]
    {
      var keys := store.ListKeysByWorker(worker);
      for i := 0 to |keys|
        invariant store.Valid()
        invariant forall id :: id in store.byID ==> id in old(store.byID) && store.byID[id] == old(store.byID)[id]
        invariant forall id :: id in old(store.byID) && old(store.byID)[id] !in keys[..i] ==> id in store.byID
        invariant forall k :: k in keys[..i] ==> k.id !in store.byID
      {
        assert keys[..i + 1] == keys[..i] + [keys[i]];
        var _ := store.DeleteKey(keys[i].id);
      }
      assert keys[..|keys|] == keys;
    }

    /** Rotation keeps worker, scope and expiry, and the old key is gone with it. */
    method RotateKey(id: string, now: Time, newID: string, newToken: string) returns (r: Result<Key, Error>)
      requires store.Valid()
      modifies store
      ensures store.Valid()
      ensures r.Ok? ==>
                && id in old(store.byID)
                && r.value == old(store.byID)[id].(id := newID, hash := hash(newToken), createdAt := now)
                && store.byID == (old(store.byID) - {id})[newID := r.value]
                && now < r.value.expiresAt
      ensures r.Err? ==> store.View() == old(store.View())
      ensures r == Err(KeyNotFound) <==> id !in old(store.byID)
      ensures id in old(store.byID) ==>
                var k := old(store.byID)[id];
                match CheckRequest(k.worker, k.scope, k.expiresAt, now)
                case Some(e) => r == Err(e)
                case None =>
                  if newID in old(store.byID) || hash(newToken) in old(store.byHash) then r == Err(Conflict) else r.Ok?
    {
      var got := store.GetKey(id);
      if got.None? {
        return Err(KeyNotFound);
      }
      var prior := got.value;
      var bad := CheckRequest(prior.worker, prior.scope, prior.expiresAt, now);
      if bad.Some? {
        return Err(bad.value);
      }
      var k := Key(newID, hash(newToken), prior.worker, prior.scope, prior.expiresAt, now);
      var swapped := store.RotateAtomically(prior.id, k);
      if swapped.Err? {
        return Err(if swapped.error.NotFound? then KeyNotFound else swapped.error);
      }
      return Ok(k);
    }
  }

  // ----- Interleaved runs

  /** A RotateKey call after its read, holding the key it read, or finished; or a RevokeAllKeys call
      with the listed keys it has still to delete, done when there are none. */
  datatype Call = Holding(key: Key) | Finished(result: Result<Key, Error>) | Sweeping(worker: string, left: set<string>)

  /** ids and hashes collect every random draw so far. */
  datatype State = State(ix: Index, calls: map<nat, Call>, ids: set<string>, hashes: set<string>)

  datatype Event =
    | Issue(id: string, hash: string, worker: string, scope: seq<string>, expiresAt: Time, now: Time)
    | ReadKey(who: nat, id: string)
    | Swap(who: nat, id: string, hash: string, now: Time)
    | Revoke(id: string)
    | ListKeys(who: nat, worker: string)
    | DeleteListed(who: nat, id: string)

  const INITIAL := State(Index(map[], map[]), map[], {}, {})

  predicate Drawable(s: State, id: string, hash: string) {
    id !in s.ids && hash !in s.hashes
  }

  predicate Enabled(s: State, e: Event) {
    match e
    case Issue(id, h, worker, scope, expiresAt, now) =>
      Drawable(s, id, h) && CheckRequest(worker, scope, expiresAt, now).None?
    case ReadKey(w, _) => w !in s.calls
    case Swap(w, id, h, _) => w in s.calls && s.calls[w].Holding? && Drawable(s, id, h)
    case Revoke(_) => true
    case ListKeys(w, _) => w !in s.calls
    case DeleteListed(w, id) => w in s.calls && s.calls[w].Sweeping? && id in s.calls[w].left
  }

  function Without(ix: Index, id: string): Index {
    match Delete(ix, id)
    case Ok(ix') => ix'
    case Err(_) => ix
  }

  function KeysOf(ix: Index, worker: string): set<string> {
    set id | id in ix.byID && ix.byID[id].worker == worker
  }

  /** What the swap step of a call makes of the index, and its answer. */
  function SwapStep(ix: Index, prior: Key, id: string, hash: string, now: Time): (Index, Result<Key, Error>) {
    var bad := CheckRequest(prior.worker, prior.scope, prior.expiresAt, now);
    if bad.Some? then (ix, Err(bad.value))
    else
      var k := Key(id, hash, prior.worker, prior.scope, prior.expiresAt, now);
      match Rotate(ix, prior.id, k)
      case Ok(ix') => (ix', Ok(k))
      case Err(err) => (ix, Err(if err.NotFound? then KeyNotFound else err))
  }

  function Next(s: State, e: Event): State
    requires Enabled(s, e)
  {
    match e
    case Issue(id, h, worker, scope, expiresAt, now) =>
      (match Create(s.ix, Key(id, h, worker, scope, expiresAt, now))
       case Ok(ix) => s.(ix := ix, ids := s.ids + {id}, hashes := s.hashes + {h})
       case Err(_) => s.(ids := s.ids + {id}, hashes := s.hashes + {h}))
    case ReadKey(w, id) =>
      s.(calls := s.calls[w := if id in s.ix.byID then Holding(s.ix.byID[id]) else Finished(Err(KeyNotFound))])
    case Swap(w, id, h, now) =>
      var (ix, r) := SwapStep(s.ix, s.calls[w].key, id, h, now);
      State(ix, s.calls[w := Finished(r)], s.ids + {id}, s.hashes + {h})
    case Revoke(id) => s.(ix := Without(s.ix, id))
    case ListKeys(w, worker) => s.(calls := s.calls[w := Sweeping(worker, KeysOf(s.ix, worker))])
    case DeleteListed(w, id) =>
      s.(ix := Without(s.ix, id), calls := s.calls[w := Sweeping(s.calls[w].worker, s.calls[w].left - {id})])
  }

  ghost predicate Valid(es: seq<Event>)
    decreases |es|, 0
  {
    es == [] || (Valid(Front(es)) && Enabled(Exec(Front(es)), Last(es)))
  }

  ghost function Exec(es: seq<Event>): State
    requires Valid(es)
    decreases |es|, 1
  {
    if es == [] then INITIAL else Next(Exec(Front(es)), Last(es))
  }

  ghost predicate Inv(s: State) {
    && Consistent(s.ix)
    && s.ix.byID.Keys <= s.ids && s.ix.byHash.Keys <= s.hashes
    && (forall w :: w in s.calls && s.calls[w].Holding? ==>
          var k := s.calls[w].key;
          k.id in s.ids && (k.id in s.ix.byID ==> s.ix.byID[k.id] == k))
  }

  lemma {:induction false} StepKeepsInv(s: State, e: Event)
    requires Inv(s) && Enabled(s, e)
    ensures Inv(Next(s, e))
  {
    match e
    case Issue(id, h, worker, scope, expiresAt, now) =>
      InsertIsConsistent(s.ix, Key(id, h, worker, scope, expiresAt, now));
    case ReadKey(_, _) =>
    case Swap(w, id, h, now) =>
      var prior := s.calls[w].key;
      if prior.id in s.ix.byID {
        RemoveIsConsistent(s.ix, prior.id);
        InsertIsConsistent(Remove(s.ix, prior), Key(id, h, prior.worker, prior.scope, prior.expiresAt, now));
      }
    case ListKeys(_, _) =>
    case _ =>
      if e.id in s.ix.byID {
        RemoveIsConsistent(s.ix, e.id);
      }
  }

  /** The index stays exact in every run, and a call holds the key as it is still stored. */
  lemma {:induction false} Reachable(es: seq<Event>)
    requires Valid(es)
    ensures Inv(Exec(es))
  {
    if es != [] {
      Reachable(Front(es));
      StepKeepsInv(Exec(Front(es)), Last(es));
    }
  }

  // ----- Lineage

  /** The run's last event replaces key prior by its successor. */
  ghost predicate Replaces(es: seq<Event>, prior: string)
    requires es != [] && Valid(es)
  {
    var s := Exec(Front(es));
    && Last(es).Swap? && s.calls[Last(es).who].key.id == prior
    && SwapStep(s.ix, s.calls[Last(es).who].key, Last(es).id, Last(es).hash, Last(es).now).1.Ok?
  }

  ghost function Successors(es: seq<Event>, prior: string): seq<string>
    requires Valid(es)
  {
    if es == [] then [] else Successors(Front(es), prior) + if Replaces(es, prior) then [Last(es).id] else []
  }

  lemma {:induction false} GoneStaysGone(es: seq<Event>, id: string)
    requires Valid(es) && es != []
    requires id in Exec(Front(es)).ids && id !in Exec(Front(es)).ix.byID
    ensures id in Exec(es).ids && id !in Exec(es).ix.byID
  {
  }

  /** However many RotateKey calls race on one key, it gets at most one successor. */
  lemma {:induction false} AtMostOneSuccessor(es: seq<Event>, prior: string)
    requires Valid(es)
    ensures |Successors(es, prior)| <= 1
    ensures Successors(es, prior) != [] ==> prior in Exec(es).ids && prior !in Exec(es).ix.byID
  {
    if es != [] {
      AtMostOneSuccessor(Front(es), prior);
      Reachable(Front(es));
      if Successors(Front(es), prior) != [] {
        GoneStaysGone(es, prior);
        assert !Replaces(es, prior);
      }
    }
  }

  /** The issued key a key descends from through rotations. */
  ghost function Root(es: seq<Event>, id: string): string
    requires Valid(es)
  {
    if es == [] then id
    else if Last(es).Issue? && Last(es).id == id then id
    else if Last(es).Swap? && Last(es).id == id then Root(Front(es), Exec(Front(es)).calls[Last(es).who].key.id)
    else Root(Front(es), id)
  }

  lemma {:induction false} RootsWereDrawn(es: seq<Event>, id: string)
    requires Valid(es) && id in Exec(es).ids
    ensures Root(es, id) in Exec(es).ids
  {
    if es != [] {
      Reachable(Front(es));
      if Last(es).Swap? && Last(es).id == id {
        RootsWereDrawn(Front(es), Exec(Front(es)).calls[Last(es).who].key.id);
      } else if !(Last(es).Issue? && Last(es).id == id) {
        RootsWereDrawn(Front(es), id);
      }
    }
  }

  /** A key's lineage never forks: of all keys that descend from one issued key, at most one lives. */
  lemma {:induction false} LineageNeverForks(es: seq<Event>, a: string, b: string)
    requires Valid(es) && a in Exec(es).ix.byID && b in Exec(es).ix.byID && Root(es, a) == Root(es, b)
    ensures a == b
  {
    var s, e := Exec(Front(es)), Last(es);
    Reachable(Front(es));
    if a != b {
      if e.Issue? && (a == e.id || b == e.id) {
        RootsWereDrawn(Front(es), if a == e.id then b else a);
        assert false;
      } else if e.Swap? && (a == e.id || b == e.id) {
        LineageNeverForks(Front(es), s.calls[e.who].key.id, if a == e.id then b else a);
        assert false;
      } else {
        LineageNeverForks(Front(es), a, b);
        assert false;
      }
    }
  }

  /** The Issue event a key's worker, scope and expiry come from. */
  ghost predicate IssuedAs(es: seq<Event>, root: string, k: Key) {
    exists i ::
      && 0 <= i < |es| && es[i].Issue? && es[i].id == root
      && es[i].worker == k.worker && es[i].scope == k.scope && es[i].expiresAt == k.expiresAt
  }

  lemma {:induction false} IssuedAsGrows(es: seq<Event>, root: string, k: Key)
    requires es != [] && IssuedAs(Front(es), root, k)
    ensures IssuedAs(es, root, k)
  {
    var i :| 0 <= i < |Front(es)| && Front(es)[i].Issue? && Front(es)[i].id == root
             && Front(es)[i].worker == k.worker && Front(es)[i].scope == k.scope && Front(es)[i].expiresAt == k.expiresAt;
    assert es[i] == Front(es)[i];
  }

  /** Through any chain of rotations a key keeps the worker, scope and expiry it was issued with. */
  lemma {:induction false} RotationKeepsGrant(es: seq<Event>, id: string)
    requires Valid(es) && id in Exec(es).ix.byID
    ensures IssuedAs(es, Root(es, id), Exec(es).ix.byID[id])
  {
    var s, e := Exec(Front(es)), Last(es);
    Reachable(Front(es));
    if e.Issue? && e.id == id {
      assert es[|es| - 1] == e;
    } else if e.Swap? && e.id == id {
      var prior := s.calls[e.who].key;
      RotationKeepsGrant(Front(es), prior.id);
      IssuedAsGrows(es, Root(Front(es), prior.id), prior);
    } else {
      RotationKeepsGrant(Front(es), id);
      IssuedAsGrows(es, Root(Front(es), id), s.ix.byID[id]);
    }
  }

  // ----- How long a key lives

  /** The run's last event takes key id out of service: it is revoked, or replaced by a rotation. */
  ghost predicate EndsKey(es: seq<Event>, id: string)
    requires es != [] && Valid(es)
  {
    Last(es) == Revoke(id) || (Last(es).DeleteListed? && Last(es).id == id) || Replaces(es, id)
  }

  /** Key id was issued at event n, and no event since has ended it. */
  ghost predicate Alive(es: seq<Event>, n: nat, id: string)
    requires Valid(es)
    decreases |es|
  {
    && n < |es|
    && if n == |es| - 1 then Last(es).Issue? && Last(es).id == id
       else Alive(Front(es), n, id) && !EndsKey(es, id)
  }

  /** Such a key is stored as it was issued, so its token is found. */
  lemma {:induction false} AliveIsStored(es: seq<Event>, n: nat, id: string)
    requires Valid(es) && Alive(es, n, id)
    ensures id in Exec(es).ids && id in Exec(es).ix.byID && es[n].Issue?
    ensures Exec(es).ix.byID[id] == Key(id, es[n].hash, es[n].worker, es[n].scope, es[n].expiresAt, es[n].now)
  {
    Reachable(Front(es));
    if n < |es| - 1 {
      AliveIsStored(Front(es), n, id);
      assert Front(es)[n] == es[n];
      StepKeepsKey(Exec(Front(es)), Last(es), id);
    }
  }

  lemma {:induction false} StepKeepsKey(s: State, e: Event, id: string)
    requires Inv(s) && Enabled(s, e) && id in s.ix.byID && id in s.ids
    requires e != Revoke(id) && !(e.DeleteListed? && e.id == id)
    requires e.Swap? && s.calls[e.who].key.id == id ==> SwapStep(s.ix, s.calls[e.who].key, e.id, e.hash, e.now).1.Err?
    ensures id in Next(s, e).ix.byID && Next(s, e).ix.byID[id] == s.ix.byID[id]
  {
  }

  /** A key that has ended is never stored again, whatever else runs. */
  lemma {:induction false} EndedKeysStayDead(es: seq<Event>, n: nat, id: string)
    requires Valid(es) && 0 < n <= |es| && Valid(es[..n]) && EndsKey(es[..n], id) && id in Exec(es[..n]).ids
    ensures id in Exec(es).ids && id !in Exec(es).ix.byID
  {
    if n == |es| {
      assert es[..n] == es;
      Reachable(Front(es));
      Reachable(es);
    } else {
      assert Front(es)[..n] == es[..n];
      EndedKeysStayDead(Front(es), n, id);
      GoneStaysGone(es, id);
    }
  }

  /** A rotation's swap succeeds exactly when the key it read is still there and has not expired; it
      then answers with the new key, and otherwise changes nothing. */
  lemma {:induction false} SwapAnswers(es: seq<Event>)
    requires Valid(es) && es != [] && Last(es).Swap?
    ensures var s, s', e := Exec(Front(es)), Exec(es), Last(es);
            var prior := s.calls[e.who].key;
            var k := Key(e.id, e.hash, prior.worker, prior.scope, prior.expiresAt, e.now);
            if prior.worker != "" && prior.scope != [] && e.now < prior.expiresAt && prior.id in s.ix.byID then
              s'.ix.byID == (s.ix.byID - {prior.id})[e.id := k] && s'.calls[e.who] == Finished(Ok(k))
            else s'.ix == s.ix && s'.calls[e.who].Finished? && s'.calls[e.who].result.Err?
  {
    Reachable(Front(es));
  }

  // ----- The kill-switch among other calls

  /** The key that a step makes for this worker, if it makes one. */
  function Creates(s: State, e: Event, worker: string): set<string>
    requires Enabled(s, e)
  {
    if (e.Issue? || e.Swap?) && e.id in KeysOf(Next(s, e).ix, worker) then {e.id} else {}
  }

  /** Every key a run has issued or rotated in for this worker. */
  ghost function Made(es: seq<Event>, worker: string): set<string>
    requires Valid(es)
  {
    if es == [] then {} else Made(Front(es), worker) + Creates(Exec(Front(es)), Last(es), worker)
  }

  lemma {:induction false} StepKeys(s: State, e: Event, worker: string)
    requires Inv(s) && Enabled(s, e)
    ensures KeysOf(Next(s, e).ix, worker) <= KeysOf(s.ix, worker) + Creates(s, e, worker)
    ensures Creates(s, e, worker) !! s.ids && Creates(s, e, worker) <= Next(s, e).ids && s.ids <= Next(s, e).ids
    ensures e.DeleteListed? ==> e.id !in KeysOf(Next(s, e).ix, worker)
  {
  }

  lemma {:induction false} LiveKeysWereMade(es: seq<Event>, worker: string)
    requires Valid(es)
    ensures KeysOf(Exec(es).ix, worker) <= Made(es, worker) <= Exec(es).ids
  {
    if es != [] {
      LiveKeysWereMade(Front(es), worker);
      Reachable(Front(es));
      StepKeys(Exec(Front(es)), Last(es), worker);
    }
  }

  /** Call w listed this worker's keys at event i of the run. */
  ghost predicate Listed(es: seq<Event>, i: nat, w: nat, worker: string) {
    i < |es| && es[i] == ListKeys(w, worker) && Valid(es[..i]) && Valid(es)
  }

  lemma ListedBefore(es: seq<Event>, i: nat, w: nat, worker: string)
    requires Listed(es, i, w, worker) && i < |es| - 1
    ensures Listed(Front(es), i, w, worker) && Front(es)[..i] == es[..i]
  {
    assert Front(es)[..i] == es[..i];
  }

  /** While the sweep runs, a live key of the worker is still to be deleted, or was made since the
      listing. */
  lemma {:induction false} LeftOrLater(es: seq<Event>, i: nat, w: nat, worker: string)
    requires Listed(es, i, w, worker)
    ensures w in Exec(es).calls && Exec(es).calls[w].Sweeping? && Exec(es).calls[w].worker == worker
    ensures Made(es[..i], worker) <= Made(es, worker)
    ensures KeysOf(Exec(es).ix, worker) <= Exec(es).calls[w].left + (Made(es, worker) - Made(es[..i], worker))
  {
    var s := Exec(Front(es));
    if i == |es| - 1 {
      assert es[..i] == Front(es) && Last(es) == es[i];
    } else {
      ListedBefore(es, i, w, worker);
      LeftOrLater(Front(es), i, w, worker);
      LiveKeysWereMade(Front(es), worker);
      Reachable(Front(es));
      StepKeys(s, Last(es), worker);
    }
  }

  /** Once the kill-switch has deleted all it listed, every key that still lives was issued, or
      rotated in, after the listing. */
  lemma {:induction false} SurvivorsAreLater(es: seq<Event>, i: nat, w: nat, worker: string)
    requires Listed(es, i, w, worker) && w in Exec(es).calls && Exec(es).calls[w] == Sweeping(worker, {})
    ensures KeysOf(Exec(es).ix, worker) <= Made(es, worker) - Made(es[..i], worker)
  {
    LeftOrLater(es, i, w, worker);
  }

  /** So it leaves the worker without keys when none was made since. */
  lemma {:induction false} KillSwitchHolds(es: seq<Event>, i: nat, w: nat, worker: string)
    requires Listed(es, i, w, worker) && w in Exec(es).calls && Exec(es).calls[w] == Sweeping(worker, {})
    requires Made(es, worker) == Made(es[..i], worker)
    ensures KeysOf(Exec(es).ix, worker) == {}
  {
    SurvivorsAreLater(es, i, w, worker);
  }

  lemma {:induction false} Extend(es: seq<Event>, e: Event)
    requires Valid(es) && Enabled(Exec(es), e)
    ensures Valid(es + [e]) && Exec(es + [e]) == Next(Exec(es), e)
  {
    assert Front(es + [e]) == es;
  }

  /** The condition is needed: a rotation that read its key before the kill-switch and swaps between
      the listing and the deletion leaves the worker a live key. */
  lemma {:induction false} RotationOutlivesKillSwitch(
      worker: string, scope: seq<string>, expiresAt: Time, now: Time, a: Key, b: Key) returns (es: seq<Event>)
    requires CheckRequest(worker, scope, expiresAt, now).None? && a.id != b.id && a.hash != b.hash
    requires a == Key(a.id, a.hash, worker, scope, expiresAt, now) && b == Key(b.id, b.hash, worker, scope, expiresAt, now)
    ensures Listed(es, 2, 1, worker) && 1 in Exec(es).calls && Exec(es).calls[1] == Sweeping(worker, {})
    ensures Exec(es).ix.byID == map[b.id := b]
  {
    es := [Issue(a.id, a.hash, worker, scope, expiresAt, now)];
    assert es == [] + [Issue(a.id, a.hash, worker, scope, expiresAt, now)];
    Extend([], Issue(a.id, a.hash, worker, scope, expiresAt, now));
    Extend(es, ReadKey(0, a.id));
    es := es + [ReadKey(0, a.id)];
    ghost var read := es;
    assert Exec(es) == State(Index(map[a.id := a], map[a.hash := a.id]), map[0 := Holding(a)], {a.id}, {a.hash});
    Extend(es, ListKeys(1, worker));
    es := es + [ListKeys(1, worker)];
    assert Exec(es).calls[1] == Sweeping(worker, {a.id});
    Extend(es, Swap(0, b.id, b.hash, now));
    es := es + [Swap(0, b.id, b.hash, now)];
    assert Exec(es).ix == Index(map[b.id := b], map[b.hash := b.id]);
    Extend(es, DeleteListed(1, a.id));
    es := es + [DeleteListed(1, a.id)];
    assert es[..2] == read;
  }
}
