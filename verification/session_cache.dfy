/**
 The session store that ships: records and revocation markers in a shared cache that drops them
 once their time to live is over. Every method is proved to answer as `Sessions.Ledger` does, the
 table that forgets nothing.
 */
module SessionCache {
  import opened Wrappers
  import opened Sessions

  const RECORD_KEY_PREFIX := "session:"
  const REVOKED_KEY_PREFIX := "revoked:"

  datatype Key = RecordKey(id: string) | RevokedKey(subject: string)

  function KeyText(key: Key): string {
    match key
    case RecordKey(id) => RECORD_KEY_PREFIX + id
    case RevokedKey(subject) => REVOKED_KEY_PREFIX + subject
  }

  /** No id or subject, whatever it contains, reaches into the other kind's entries. */
  lemma KeyTextInjective(a: Key, b: Key)
    requires KeyText(a) == KeyText(b)
    ensures a == b
  {
    assert KeyText(a)[0] == KeyText(b)[0];
    assert |RECORD_KEY_PREFIX| == |REVOKED_KEY_PREFIX| == 8;
    assert KeyText(a)[8..] == KeyText(b)[8..];
    match a
    case RecordKey(id) => assert (RECORD_KEY_PREFIX + id)[8..] == id;
      assert b.RecordKey? && KeyText(b)[8..] == b.id;
    case RevokedKey(subject) => assert (REVOKED_KEY_PREFIX + subject)[8..] == subject;
      assert b.RevokedKey? && KeyText(b)[8..] == b.subject;
  }

  datatype Value = Record(session: Session) | Marker(at: Instant)

  datatype Entry = Entry(value: Value, expiry: Instant)

  datatype Fetched = Hit(value: Value) | Miss | NoAnswer

  type Entries = map<Key, Entry>

  /** What the cache still holds, against everything that ever happened. */
  ghost predicate Mirrors(cfg: Config, entries: Entries, ledger: Ledger, now: Instant) {
    && RecordsMirror(cfg, entries, ledger)
    && AbsentRecordsAreDead(cfg, entries, ledger, now)
    && MarkersMirror(cfg, entries, ledger)
    && AbsentMarkersAreSpent(cfg, entries, ledger, now)
  }

  /** Every stored record is current and expires at the nearer of its two deadlines. */
  ghost predicate RecordsMirror(cfg: Config, entries: Entries, ledger: Ledger) {
    forall id :: RecordKey(id) in entries ==>
      && id in ledger.lives
      && !ledger.lives[id].ended
      && var session := ledger.lives[id].session;
         entries[RecordKey(id)] == Entry(Record(session), Deadline(cfg, session))
  }

  ghost predicate AbsentRecordsAreDead(cfg: Config, entries: Entries, ledger: Ledger, now: Instant) {
    forall id :: id in ledger.lives && RecordKey(id) !in entries ==> !Alive(cfg, ledger, id, now)
  }

  /** A marker is the subject's latest revocation, kept as long as any session it refuses could live. */
  ghost predicate MarkersMirror(cfg: Config, entries: Entries, ledger: Ledger) {
    forall subject :: RevokedKey(subject) in entries ==>
      var entry := entries[RevokedKey(subject)];
      && entry.value.Marker?
      && entry.expiry == entry.value.at + cfg.MaxAbsoluteTTL()
      && Revocation(subject, entry.value.at) in ledger.revocations
      && forall r :: r in ledger.revocations && r.subject == subject ==> r.at <= entry.value.at
  }

  ghost predicate AbsentMarkersAreSpent(cfg: Config, entries: Entries, ledger: Ledger, now: Instant) {
    forall r :: r in ledger.revocations && RevokedKey(r.subject) !in entries ==> r.at + cfg.MaxAbsoluteTTL() <= now
  }

  /** The marker decides like the whole list of revocations, even once it is gone. */
  lemma MarkerDecides(cfg: Config, entries: Entries, ledger: Ledger, now: Instant, session: Session)
    requires Mirrors(cfg, entries, ledger, now) && LedgerOk(cfg, ledger, now)
    requires session.expiresAt == session.createdAt + cfg.AbsoluteTTLFor(session.persistent)
    requires now < session.expiresAt
    ensures
      var key := RevokedKey(session.snapshot.subject);
      RevokedWholesale(ledger, session)
      <==>
      key in entries && entries[key].value.at != ZERO_INSTANT && session.createdAt <= entries[key].value.at
  {
    var key := RevokedKey(session.snapshot.subject);
    if key in entries {
      assert Revocation(session.snapshot.subject, entries[key].value.at) in ledger.revocations;
    }
  }

  /** Waiting costs nothing: a dead session stays dead and a spent marker spent. */
  lemma MirrorsLater(cfg: Config, entries: Entries, ledger: Ledger, clock: Instant, now: Instant)
    requires Mirrors(cfg, entries, ledger, clock) && clock <= now && LedgerOk(cfg, ledger, clock)
    ensures Mirrors(cfg, entries, ledger, now) && LedgerOk(cfg, ledger, now)
  {
  }

  /** A use that reaches the cache rewrites the record it is about and touches no other. */
  lemma UseIsMirrored(cfg: Config, entries: Entries, ledger: Ledger, session: Session, now: Instant, write: Effect)
    requires Mirrors(cfg, entries, ledger, now)
    requires Alive(cfg, ledger, session.id, now) && ledger.lives[session.id].session == session
    ensures
      var touched := session.(lastSeenAt := now);
      var entries' := if !RefreshDue(cfg, session, now) || write == Lost then entries
                      else entries[RecordKey(session.id) := Entry(Record(touched), Deadline(cfg, touched))];
      Mirrors(cfg, entries', Step(cfg, ledger, now, Event.Lookup(session.id, NO_FAULTS.(write := write))), now)
  {
    var ledger' := Step(cfg, ledger, now, Event.Lookup(session.id, NO_FAULTS.(write := write)));
    assert ledger'.revocations == ledger.revocations;
    assert forall other :: other in ledger.lives && other != session.id ==> ledger'.lives[other] == ledger.lives[other];
  }

  /**
   The cache every process shares. Only `entries` is real; `ledger` and `clock` record what
   happened to it and when.
   */
  class SharedCache {
    var entries: Entries
    ghost var ledger: Ledger
    ghost var clock: Instant

    constructor (start: Instant)
      ensures entries == map[] && ledger == EMPTY_LEDGER && clock == start
    {
      entries, ledger, clock := map[], EMPTY_LEDGER, start;
    }

    ghost predicate Valid(cfg: Config)
      reads this
    {
      && cfg.Valid()
      && ZERO_INSTANT < clock
      && LedgerOk(cfg, ledger, clock)
      && Mirrors(cfg, entries, ledger, clock)
    }

    method Get(key: Key, answered: bool) returns (r: Fetched)
      ensures r == if !answered then NoAnswer else if key in entries then Hit(entries[key].value) else Miss
    {
      if !answered {
        return NoAnswer;
      }
      if key in entries {
        return Hit(entries[key].value);
      }
      return Miss;
    }

    /** A time to live that is not positive deletes the key. */
    method Set(now: Instant, key: Key, value: Value, ttl: Duration, effect: Effect) returns (ok: bool)
      modifies this`entries
      ensures ok == (effect == Done)
      ensures entries ==
              if effect == Lost then old(entries)
              else if ttl <= 0 then old(entries) - {key}
              else old(entries)[key := Entry(value, now + ttl)]
    {
      if effect != Lost {
        entries := if ttl <= 0 then entries - {key} else entries[key := Entry(value, now + ttl)];
      }
      ok := effect == Done;
    }

    method Delete(key: Key, effect: Effect) returns (ok: bool)
      modifies this`entries
      ensures ok == (effect == Done)
      ensures entries == if effect == Lost then old(entries) else old(entries) - {key}
    {
      if effect != Lost {
        entries := entries - {key};
      }
      ok := effect == Done;
    }

    /** The cache may drop what has expired, as soon or as late as it likes. */
    method Collect(cfg: Config, now: Instant, keys: set<Key>)
      requires Valid(cfg) && clock <= now
      modifies this`entries, this`clock
      ensures Valid(cfg) && clock == now
      ensures entries == map k | k in old(entries) && !(k in keys && old(entries)[k].expiry <= now) :: old(entries)[k]
    {
      MirrorsLater(cfg, entries, ledger, clock, now);
      ghost var before := entries;
      entries := map k | k in entries && !(k in keys && entries[k].expiry <= now) :: entries[k];
      clock := now;
      forall r | r in ledger.revocations && RevokedKey(r.subject) !in entries
        ensures r.at + cfg.MaxAbsoluteTTL() <= now
      {
        if RevokedKey(r.subject) in before {
          assert before[RevokedKey(r.subject)].expiry <= now;
        }
      }
    }
  }

  /** The store one process runs. Any number of them may share a cache. */
  class CacheStore {
    const cache: SharedCache
    const cfg: Config

    constructor (cache: SharedCache, cfg: Config)
      requires cache.Valid(cfg)
      ensures this.cache == cache && this.cfg == cfg && Valid()
    {
      this.cache, this.cfg := cache, cfg;
    }

    ghost predicate Valid()
      reads cache
    {
      cache.Valid(cfg)
    }

    method Create(now: Instant, id: string, snapshot: Option<Snapshot>, persistent: bool, write: Effect)
      returns (answer: Answer)
      requires Valid() && cache.clock <= now
      requires Admissible(cache.ledger, Event.Create(id, snapshot, persistent, write))
      modifies cache
      ensures Valid() && cache.clock == now
      ensures var event := Event.Create(id, snapshot, persistent, write);
              && Agrees(cfg, old(cache.ledger), now, event, answer)
              && cache.ledger == Step(cfg, old(cache.ledger), now, event)
      ensures answer == if snapshot.None? || snapshot.value.subject == "" then Rejected
                        else if write != Done then Unavailable
                        else
                          var ttl := if persistent then cfg.persistentAbsoluteTTL else cfg.absoluteTTL;
                          Found(Session(id, snapshot.value, persistent, now, now + ttl, now))
      ensures cache.entries ==
              if snapshot.None? || snapshot.value.subject == "" || write == Lost then old(cache.entries)
              else
                var ttl := if persistent then cfg.persistentAbsoluteTTL else cfg.absoluteTTL;
                var session := Session(id, snapshot.value, persistent, now, now + ttl, now);
                old(cache.entries)[RecordKey(id) := Entry(Record(session), now + if ttl < cfg.idleTTL then ttl else cfg.idleTTL)]
    {
      ghost var ledger := cache.ledger;
      ghost var event := Event.Create(id, snapshot, persistent, write);
      MirrorsLater(cfg, cache.entries, ledger, cache.clock, now);
      StepKeepsLedgerOk(cfg, ledger, cache.clock, now, event);
      cache.clock, cache.ledger := now, Step(cfg, ledger, now, event);
      if snapshot.None? || snapshot.value.subject == "" {
        return Rejected;
      }
      var session := Session(id, snapshot.value, persistent, now, now + cfg.AbsoluteTTLFor(persistent), now);
      assert RecordKey(id) !in cache.entries;
      answer := Write(session, now, write);
      if answer == Accepted {
        answer := Found(session);
      }
      assert cache.ledger.revocations == ledger.revocations;
    }

    method Lookup(now: Instant, id: string, faults: LookupFaults) returns (answer: Answer)
      requires Valid() && cache.clock <= now
      modifies cache
      ensures Valid() && cache.clock == now
      ensures Agrees(cfg, old(cache.ledger), now, Event.Lookup(id, faults), answer)
      ensures id == "" ==> answer == NotFound
      ensures cache.ledger == Step(cfg, old(cache.ledger), now, Event.Lookup(id, faults))
    {
      ghost var ledger := cache.ledger;
      ghost var event := Event.Lookup(id, faults);
      MirrorsLater(cfg, cache.entries, ledger, cache.clock, now);
      StepKeepsLedgerOk(cfg, ledger, cache.clock, now, event);
      cache.clock := now;
      if id == "" {
        return NotFound;
      }
      var fetched := cache.Get(RecordKey(id), faults.get);
      if fetched == NoAnswer {
        return Unavailable;
      }
      if fetched == Miss {
        return NotFound;
      }
      var session := fetched.value.session;
      if session.expiresAt <= now || IdleDeadline(cfg, session) <= now {
        answer := Forget(id, faults.forget);
        return;
      }
      MarkerDecides(cfg, cache.entries, ledger, now, session);
      var answered, revoked := RevokedAt(session.snapshot.subject, faults.marker);
      if !answered {
        return Unavailable;
      }
      if revoked != ZERO_INSTANT && session.createdAt <= revoked {
        answer := Forget(id, faults.forget);
        return;
      }
      assert Alive(cfg, ledger, id, now);
      answer := Touch(session, now, faults.write);
    }

    method Revoke(now: Instant, id: string, delete: Effect) returns (answer: Answer)
      requires Valid() && cache.clock <= now
      modifies cache
      ensures Valid() && cache.clock == now
      ensures Agrees(cfg, old(cache.ledger), now, Event.Revoke(id, delete), answer)
      ensures cache.ledger == Step(cfg, old(cache.ledger), now, Event.Revoke(id, delete))
      ensures answer == if id == "" || delete == Done then Accepted else Unavailable
      ensures cache.entries == if id == "" || delete == Lost then old(cache.entries) else old(cache.entries) - {RecordKey(id)}
    {
      ghost var ledger := cache.ledger;
      MirrorsLater(cfg, cache.entries, ledger, cache.clock, now);
      StepKeepsLedgerOk(cfg, ledger, cache.clock, now, Event.Revoke(id, delete));
      cache.clock, cache.ledger := now, Step(cfg, ledger, now, Event.Revoke(id, delete));
      assert cache.ledger.revocations == ledger.revocations;
      if id == "" {
        return Accepted;
      }
      var ok := cache.Delete(RecordKey(id), delete);
      answer := if ok then Accepted else Unavailable;
    }

    method RevokeSubject(now: Instant, subject: string, write: Effect) returns (answer: Answer)
      requires Valid() && cache.clock <= now
      modifies cache
      ensures Valid() && cache.clock == now
      ensures Agrees(cfg, old(cache.ledger), now, Event.RevokeSubject(subject, write), answer)
      ensures cache.ledger == Step(cfg, old(cache.ledger), now, Event.RevokeSubject(subject, write))
      ensures answer == if subject == "" then Rejected else if write == Done then Accepted else Unavailable
      ensures cache.entries ==
              if subject == "" || write == Lost then old(cache.entries)
              else
                var longest := if cfg.absoluteTTL < cfg.persistentAbsoluteTTL then cfg.persistentAbsoluteTTL else cfg.absoluteTTL;
                old(cache.entries)[RevokedKey(subject) := Entry(Marker(now), now + longest)]
    {
      ghost var ledger := cache.ledger;
      MirrorsLater(cfg, cache.entries, ledger, cache.clock, now);
      StepKeepsLedgerOk(cfg, ledger, cache.clock, now, Event.RevokeSubject(subject, write));
      cache.clock, cache.ledger := now, Step(cfg, ledger, now, Event.RevokeSubject(subject, write));
      if subject == "" {
        return Rejected;
      }
      var ok := cache.Set(now, RevokedKey(subject), Marker(now), cfg.MaxAbsoluteTTL(), write);
      answer := if ok then Accepted else Unavailable;
      forall other | other in ledger.lives && RecordKey(other) !in cache.entries
        ensures !Alive(cfg, cache.ledger, other, now)
      {
        if write != Lost {
          RevokeSubjectIsExact(cfg, ledger, now, subject, write, other, now);
        }
      }
    }

    /** The zero instant when the subject's sessions were never revoked wholesale. */
    method RevokedAt(subject: string, answered: bool) returns (ok: bool, revoked: Instant)
      requires Valid()
      ensures ok == answered
      ensures revoked == if answered && RevokedKey(subject) in cache.entries
                         then cache.entries[RevokedKey(subject)].value.at
                         else ZERO_INSTANT
    {
      var fetched := cache.Get(RevokedKey(subject), answered);
      match fetched
      case NoAnswer => return false, ZERO_INSTANT;
      case Miss => return true, ZERO_INSTANT;
      case Hit(value) => return true, value.at;
    }

    /** Moves the idle deadline forward, unless the record is recent enough. */
    method Touch(session: Session, now: Instant, write: Effect) returns (answer: Answer)
      requires Valid() && cache.clock == now
      requires Alive(cfg, cache.ledger, session.id, now) && cache.ledger.lives[session.id].session == session
      requires LedgerOk(cfg, Step(cfg, cache.ledger, now, Event.Lookup(session.id, NO_FAULTS.(write := write))), now)
      modifies cache
      ensures Valid() && cache.clock == now
      ensures cache.ledger == Step(cfg, old(cache.ledger), now, Event.Lookup(session.id, NO_FAULTS.(write := write)))
      ensures
        var due, touched := now - session.lastSeenAt >= cfg.idleTTL / 10, session.(lastSeenAt := now);
        && answer == (if !due then Found(session) else if write == Done then Found(touched) else Unavailable)
        && cache.entries ==
           if !due || write == Lost then old(cache.entries)
           else old(cache.entries)[RecordKey(session.id) := Entry(Record(touched), Deadline(cfg, touched))]
    {
      ghost var ledger := cache.ledger;
      ghost var event := Event.Lookup(session.id, NO_FAULTS.(write := write));
      UseIsMirrored(cfg, cache.entries, ledger, session, now, write);
      cache.ledger := Step(cfg, ledger, now, event);
      if now - session.lastSeenAt < cfg.IdleRefreshInterval() {
        return Found(session);
      }
      var touched := session.(lastSeenAt := now);
      answer := Write(touched, now, write);
      if answer == Accepted {
        answer := Found(touched);
      }
    }

    /** Stores the session under the nearer of its two deadlines. */
    method Write(session: Session, now: Instant, write: Effect) returns (answer: Answer)
      requires now < Deadline(cfg, session)
      modifies cache`entries
      ensures answer == if write == Done then Accepted else Unavailable
      ensures cache.entries ==
              if write == Lost then old(cache.entries)
              else old(cache.entries)[RecordKey(session.id) := Entry(Record(session), Deadline(cfg, session))]
    {
      var ttl := Remaining(cfg, session, now);
      if ttl <= 0 {
        assert false;
        return PastDeadline;
      }
      var ok := cache.Set(now, RecordKey(session.id), Record(session), ttl, write);
      answer := if ok then Accepted else Unavailable;
    }

    /** Whether or not the deletion succeeds, the answer is that there is no such session. */
    method Forget(id: string, forget: Effect) returns (answer: Answer)
      requires Valid() && !Alive(cfg, cache.ledger, id, cache.clock)
      modifies cache`entries
      ensures Valid()
      ensures answer == NotFound
    {
      var _ := cache.Delete(RecordKey(id), forget);
      return NotFound;
    }

    /** Serves one call, for the benefit of `Replay`. */
    method Serve(now: Instant, event: Event) returns (answer: Answer)
      requires Valid() && cache.clock <= now && Admissible(cache.ledger, event)
      modifies cache
      ensures Valid() && cache.clock == now
      ensures Agrees(cfg, old(cache.ledger), now, event, answer)
      ensures cache.ledger == Step(cfg, old(cache.ledger), now, event)
    {
      match event
      case Create(id, snapshot, persistent, write) => answer := Create(now, id, snapshot, persistent, write);
      case Lookup(id, faults) => answer := Lookup(now, id, faults);
      case Revoke(id, delete) => answer := Revoke(now, id, delete);
      case RevokeSubject(subject, write) => answer := RevokeSubject(now, subject, write);
    }
  }

  function Remaining(cfg: Config, session: Session, now: Instant): Duration {
    var absolute, idle := session.expiresAt - now, IdleDeadline(cfg, session) - now;
    if absolute < idle then absolute else idle
  }

  /**
   Any run, over any number of stores sharing the cache, with the cache dropping whatever expired
   before each call: every answer is the one the ledger gives, or an admission that the cache did
   not answer.
   */
  method Replay(cache: SharedCache, cfg: Config, stores: seq<CacheStore>, events: seq<Timed>, dropped: seq<set<Key>>)
    returns (answers: seq<Answer>)
    requires cache.Valid(cfg)
    requires |stores| == |events| == |dropped|
    requires forall s | s in stores :: s.cache == cache && s.cfg == cfg
    requires Runs(cfg, cache.ledger, cache.clock, events)
    modifies cache
    ensures cache.Valid(cfg) && |answers| == |events|
    ensures cache.ledger == Run(cfg, old(cache.ledger), events)
    ensures forall i | 0 <= i < |events| ::
              Agrees(cfg, Run(cfg, old(cache.ledger), events[..i]), events[i].now, events[i].event, answers[i])
  {
    ghost var start := cache.ledger;
    ghost var clock := cache.clock;
    answers := [];
    var k := 0;
    while k < |events|
      invariant 0 <= k <= |events| && |answers| == k
      invariant cache.Valid(cfg)
      invariant cache.ledger == Run(cfg, start, events[..k])
      invariant cache.clock == End(clock, events[..k])
      invariant Runs(cfg, cache.ledger, cache.clock, events[k..])
      invariant forall i | 0 <= i < k ::
          Agrees(cfg, Run(cfg, start, events[..i]), events[i].now, events[i].event, answers[i])
    {
      assert events[k..][0] == events[k] && events[k..][1..] == events[k + 1..];
      assert events[..k + 1] == events[..k] + [events[k]];
      RunAppend(cfg, start, clock, events[..k], events[k]);
      cache.Collect(cfg, events[k].now, dropped[k]);
      var answer := stores[k].Serve(events[k].now, events[k].event);
      answers := answers + [answer];
      k := k + 1;
    }
    assert events[..|events|] == events;
  }
}
