/**
 The session store as its documentation describes it: a table that keeps every
 record and every revocation for ever, against which the cache-backed store of
 `SessionCache` is proved.

 Instants and durations are integers (nanoseconds). The clock only moves forward
 and reads later than `ZERO_INSTANT`, the zero `time.Time`.
 */
module Sessions {
  import opened Wrappers

  type Instant = int
  type Duration = int

  const ZERO_INSTANT: Instant := 0
  const IDLE_REFRESH_DIVISOR := 10
  const HOST_COOKIE_PREFIX := "__Host-"

  datatype Config = Config(
    cookieName: string,
    cookieSecure: bool,
    absoluteTTL: Duration,
    persistentAbsoluteTTL: Duration,
    idleTTL: Duration)
  {
    predicate Valid() {
      && cookieName != ""
      && (HOST_COOKIE_PREFIX <= cookieName ==> cookieSecure)
      && 0 < absoluteTTL
      && 0 < persistentAbsoluteTTL
      && 0 < idleTTL
    }

    function AbsoluteTTLFor(persistent: bool): Duration {
      if persistent then persistentAbsoluteTTL else absoluteTTL
    }

    function MaxAbsoluteTTL(): Duration {
      if absoluteTTL < persistentAbsoluteTTL then persistentAbsoluteTTL else absoluteTTL
    }

    function IdleRefreshInterval(): Duration {
      idleTTL / IDLE_REFRESH_DIVISOR
    }
  }

  datatype Snapshot = Snapshot(subject: string, scopes: seq<string>)

  datatype Session = Session(
    id: string,
    snapshot: Snapshot,
    persistent: bool,
    createdAt: Instant,
    expiresAt: Instant,
    lastSeenAt: Instant)

  function IdleDeadline(cfg: Config, session: Session): Instant {
    session.lastSeenAt + cfg.idleTTL
  }

  function Deadline(cfg: Config, session: Session): Instant {
    if session.expiresAt < IdleDeadline(cfg, session) then session.expiresAt else IdleDeadline(cfg, session)
  }

  /** What a request to the cache came to. `Lost` reports a failure of a request that did
      nothing; `Unacknowledged` reports a failure of one that nevertheless took effect. */
  datatype Effect = Done | Lost | Unacknowledged

  /** How each cache request of one Lookup goes, should the Lookup get as far as making it. */
  datatype LookupFaults = LookupFaults(get: bool, marker: bool, write: Effect, forget: Effect)

  const NO_FAULTS := LookupFaults(true, true, Done, Done)

  datatype Answer =
    | Found(session: Session)
    | NotFound
    | Accepted
    | Rejected
    | PastDeadline
    | Unavailable

  datatype Event =
    | Create(id: string, snapshot: Option<Snapshot>, persistent: bool, write: Effect)
    | Lookup(id: string, faults: LookupFaults)
    | Revoke(id: string, delete: Effect)
    | RevokeSubject(subject: string, write: Effect)

  datatype Timed = At(now: Instant, event: Event)

  /******* The store that forgets nothing *******/

  datatype Revocation = Revocation(subject: string, at: Instant)

  /** `lastUse` is the last Lookup that found the session alive and whose refresh of the
      idle deadline, if one was due, reached the cache. */
  datatype Life = Life(session: Session, ended: bool, lastUse: Instant)

  datatype Ledger = Ledger(lives: map<string, Life>, revocations: set<Revocation>)

  const EMPTY_LEDGER := Ledger(map[], {})

  ghost predicate RevokedWholesale(ledger: Ledger, session: Session) {
    exists r :: r in ledger.revocations && r.subject == session.snapshot.subject && session.createdAt <= r.at
  }

  ghost predicate LifeGoesOn(cfg: Config, ledger: Ledger, life: Life, now: Instant) {
    && !life.ended
    && now < life.session.expiresAt
    && now < IdleDeadline(cfg, life.session)
    && !RevokedWholesale(ledger, life.session)
  }

  ghost predicate Alive(cfg: Config, ledger: Ledger, id: string, now: Instant) {
    id in ledger.lives && LifeGoesOn(cfg, ledger, ledger.lives[id], now)
  }

  /** A session that existed and is over, as opposed to an id nobody was ever given. */
  ghost predicate Dead(cfg: Config, ledger: Ledger, id: string, now: Instant) {
    id in ledger.lives && !Alive(cfg, ledger, id, now)
  }

  function NewSession(cfg: Config, id: string, snapshot: Snapshot, persistent: bool, now: Instant): Session {
    Session(id, snapshot, persistent, now, now + cfg.AbsoluteTTLFor(persistent), now)
  }

  predicate RefreshDue(cfg: Config, session: Session, now: Instant) {
    cfg.IdleRefreshInterval() <= now - session.lastSeenAt
  }

  function Touched(cfg: Config, session: Session, now: Instant): Session {
    if RefreshDue(cfg, session, now) then session.(lastSeenAt := now) else session
  }

  function UseLife(cfg: Config, life: Life, now: Instant, write: Effect): Life {
    if RefreshDue(cfg, life.session, now) && write == Lost then life
    else life.(session := Touched(cfg, life.session, now), lastUse := now)
  }

  ghost function Step(cfg: Config, ledger: Ledger, now: Instant, event: Event): Ledger {
    match event
    case Create(id, snapshot, persistent, write) =>
      if snapshot.None? || snapshot.value.subject == "" || write == Lost then ledger
      else
        var life := Life(NewSession(cfg, id, snapshot.value, persistent, now), false, now);
        ledger.(lives := ledger.lives[id := life])
    case Lookup(id, faults) =>
      if faults.get && faults.marker && Alive(cfg, ledger, id, now) then
        ledger.(lives := ledger.lives[id := UseLife(cfg, ledger.lives[id], now, faults.write)])
      else ledger
    case Revoke(id, delete) =>
      if id in ledger.lives && delete != Lost then
        ledger.(lives := ledger.lives[id := ledger.lives[id].(ended := true)])
      else ledger
    case RevokeSubject(subject, write) =>
      if subject == "" || write == Lost then ledger
      else ledger.(revocations := ledger.revocations + {Revocation(subject, now)})
  }

  /** The answer the ledger gives when nothing fails. */
  ghost function Expected(cfg: Config, ledger: Ledger, now: Instant, event: Event): Answer {
    match event
    case Create(id, snapshot, persistent, _) =>
      if snapshot.None? || snapshot.value.subject == "" then Rejected
      else Found(NewSession(cfg, id, snapshot.value, persistent, now))
    case Lookup(id, _) =>
      if Alive(cfg, ledger, id, now) then Found(Touched(cfg, ledger.lives[id].session, now)) else NotFound
    case Revoke(_, _) => Accepted
    case RevokeSubject(subject, _) => if subject == "" then Rejected else Accepted
  }

  /** The session is not over by itself: only a revocation of its subject may have ended it. */
  predicate BeforeItsDeadline(cfg: Config, ledger: Ledger, id: string, now: Instant) {
    id in ledger.lives && !ledger.lives[id].ended && now < Deadline(cfg, ledger.lives[id].session)
  }

  /** The answer of a call some of whose cache requests fail: the expected one, unless a request the call
      makes goes unanswered. Only one thing is left open: whether the record of a session its subject's
      revocation ended is still there, for the marker to be asked for. */
  ghost predicate Agrees(cfg: Config, ledger: Ledger, now: Instant, event: Event, answer: Answer) {
    var expected := Expected(cfg, ledger, now, event);
    match event
    case Lookup(id, faults) =>
      if id == "" then answer == NotFound
      else if !faults.get then answer == Unavailable
      else if Alive(cfg, ledger, id, now) then
        answer == if !faults.marker || (RefreshDue(cfg, ledger.lives[id].session, now) && faults.write != Done)
                  then Unavailable else expected
      else answer == NotFound || (answer == Unavailable && BeforeItsDeadline(cfg, ledger, id, now) && !faults.marker)
    case Create(_, _, _, write) => answer == if expected == Rejected || write == Done then expected else Unavailable
    case RevokeSubject(_, write) => answer == if expected == Rejected || write == Done then expected else Unavailable
    case Revoke(id, delete) => answer == if id == "" || delete == Done then expected else Unavailable
  }

  /** With every request answered, a Lookup finds exactly a session that is alive, as it was stored but
      for its last-seen instant; and it is never told more than that a session is not there. */
  lemma AnswersTellWhoIsAlive(cfg: Config, ledger: Ledger, now: Instant, id: string, faults: LookupFaults, answer: Answer)
    requires id != "" && Agrees(cfg, ledger, now, Lookup(id, faults), answer)
    ensures answer in {NotFound, Unavailable} || (answer.Found? && Alive(cfg, ledger, id, now))
    ensures answer.Found? ==> answer.session.(lastSeenAt := 0) == ledger.lives[id].session.(lastSeenAt := 0)
    ensures answer == NotFound ==> !Alive(cfg, ledger, id, now)
    ensures faults.get && faults.marker && faults.write == Done ==> (answer.Found? <==> Alive(cfg, ledger, id, now))
    ensures faults.get && faults.marker && faults.write == Done ==> answer != Unavailable
    ensures answer.Found? ==> answer.session == Step(cfg, ledger, now, Lookup(id, faults)).lives[id].session
  {
  }

  /** A Create that is accepted opens the session of the profile asked for, alive from that instant. */
  lemma CreateOpens(cfg: Config, ledger: Ledger, now: Instant, id: string, snapshot: Option<Snapshot>, persistent: bool, answer: Answer)
    requires cfg.Valid() && id !in ledger.lives
    requires Agrees(cfg, ledger, now, Create(id, snapshot, persistent, Done), answer)
    ensures answer == Rejected <==> snapshot.None? || snapshot.value.subject == ""
    ensures answer != Rejected ==>
              var ttl := if persistent then cfg.persistentAbsoluteTTL else cfg.absoluteTTL;
              answer == Found(Session(id, snapshot.value, persistent, now, now + ttl, now))
  {
  }

  /******* What every run keeps *******/

  ghost predicate LifeOk(cfg: Config, id: string, life: Life, now: Instant) {
    var s := life.session;
    && s.id == id
    && s.snapshot.subject != ""
    && s.expiresAt == s.createdAt + (if s.persistent then cfg.persistentAbsoluteTTL else cfg.absoluteTTL)
    && ZERO_INSTANT < s.createdAt <= s.lastSeenAt <= life.lastUse <= now
    && (s.lastSeenAt == life.lastUse || life.lastUse - s.lastSeenAt < cfg.idleTTL / 10)
  }

  ghost predicate LedgerOk(cfg: Config, ledger: Ledger, now: Instant) {
    && (forall id | id in ledger.lives :: id != "" && LifeOk(cfg, id, ledger.lives[id], now))
    && (forall r | r in ledger.revocations :: ZERO_INSTANT < r.at <= now)
  }

  /** `newID` returns an id that was never used. */
  ghost predicate Admissible(ledger: Ledger, event: Event) {
    event.Create? ==> event.id != "" && event.id !in ledger.lives
  }

  ghost function Run(cfg: Config, ledger: Ledger, events: seq<Timed>): Ledger
    decreases |events|
  {
    if events == [] then ledger
    else Run(cfg, Step(cfg, ledger, events[0].now, events[0].event), events[1..])
  }

  /** A run: instants never go back, and ids are fresh. */
  ghost predicate Runs(cfg: Config, ledger: Ledger, clock: Instant, events: seq<Timed>)
    decreases |events|
  {
    events == [] ||
    (&& clock <= events[0].now
     && Admissible(ledger, events[0].event)
     && Runs(cfg, Step(cfg, ledger, events[0].now, events[0].event), events[0].now, events[1..]))
  }

  function End(clock: Instant, events: seq<Timed>): Instant
    decreases |events|
  {
    if events == [] then clock else End(events[0].now, events[1..])
  }

  lemma UseKeepsLifeOk(cfg: Config, id: string, life: Life, clock: Instant, now: Instant, write: Effect)
    requires cfg.Valid() && LifeOk(cfg, id, life, clock) && clock <= now
    ensures LifeOk(cfg, id, UseLife(cfg, life, now, write), now)
  {
  }

  lemma StepKeepsLedgerOk(cfg: Config, ledger: Ledger, clock: Instant, now: Instant, event: Event)
    requires cfg.Valid() && LedgerOk(cfg, ledger, clock)
    requires ZERO_INSTANT < now && clock <= now && Admissible(ledger, event)
    ensures LedgerOk(cfg, Step(cfg, ledger, now, event), now)
  {
    assert forall id | id in ledger.lives :: LifeOk(cfg, id, ledger.lives[id], now);
    match event
    case Create(id, snapshot, persistent, write) =>
      if snapshot.Some? && snapshot.value.subject != "" {
        assert LifeOk(cfg, id, Life(NewSession(cfg, id, snapshot.value, persistent, now), false, now), now);
      }
    case Lookup(id, faults) =>
      if id in ledger.lives {
        UseKeepsLifeOk(cfg, id, ledger.lives[id], clock, now, faults.write);
      }
    case Revoke(id, _) =>
      if id in ledger.lives {
        assert LifeOk(cfg, id, ledger.lives[id].(ended := true), now);
      }
    case RevokeSubject(_, _) =>
  }

  /** Dead is for ever: no event revives a session, and neither does the passing of time. */
  lemma DeadStaysDeadStep(cfg: Config, ledger: Ledger, clock: Instant, now: Instant, event: Event, id: string)
    requires clock <= now && Admissible(ledger, event)
    requires Dead(cfg, ledger, id, clock)
    ensures Dead(cfg, Step(cfg, ledger, now, event), id, now)
  {
    var next := Step(cfg, ledger, now, event);
    assert ledger.revocations <= next.revocations;
    assert next.lives[id].session == ledger.lives[id].session;
    if RevokedWholesale(ledger, ledger.lives[id].session) {
      assert RevokedWholesale(next, next.lives[id].session);
    }
  }

  lemma {:induction false} DeadStaysDead(cfg: Config, ledger: Ledger, clock: Instant, events: seq<Timed>, id: string)
    requires Runs(cfg, ledger, clock, events)
    requires Dead(cfg, ledger, id, clock)
    ensures Dead(cfg, Run(cfg, ledger, events), id, End(clock, events))
    decreases |events|
  {
    if events != [] {
      DeadStaysDeadStep(cfg, ledger, clock, events[0].now, events[0].event, id);
      DeadStaysDead(cfg, Step(cfg, ledger, events[0].now, events[0].event), events[0].now, events[1..], id);
    }
  }

  ghost predicate NeverCreates(events: seq<Timed>, id: string) {
    forall e :: e in events && e.event.Create? ==> e.event.id != id
  }

  /** The same for an id that names no live session, as long as the generator never returns it. */
  lemma {:induction false} GoneStaysGone(cfg: Config, ledger: Ledger, clock: Instant, events: seq<Timed>, id: string)
    requires Runs(cfg, ledger, clock, events) && NeverCreates(events, id)
    requires !Alive(cfg, ledger, id, clock)
    ensures !Alive(cfg, Run(cfg, ledger, events), id, End(clock, events))
    decreases |events|
  {
    if id in ledger.lives {
      DeadStaysDead(cfg, ledger, clock, events, id);
    } else if events != [] {
      assert events[0] in events;
      assert id !in Step(cfg, ledger, events[0].now, events[0].event).lives;
      GoneStaysGone(cfg, Step(cfg, ledger, events[0].now, events[0].event), events[0].now, events[1..], id);
    }
  }

  lemma {:induction false} RunKeepsLedgerOk(cfg: Config, ledger: Ledger, clock: Instant, events: seq<Timed>)
    requires cfg.Valid() && LedgerOk(cfg, ledger, clock) && ZERO_INSTANT < clock
    requires Runs(cfg, ledger, clock, events)
    ensures LedgerOk(cfg, Run(cfg, ledger, events), End(clock, events))
    ensures clock <= End(clock, events)
    decreases |events|
  {
    if events != [] {
      var e := events[0];
      StepKeepsLedgerOk(cfg, ledger, clock, e.now, e.event);
      RunKeepsLedgerOk(cfg, Step(cfg, ledger, e.now, e.event), e.now, events[1..]);
    }
  }

  /** The run up to and including its last event. */
  lemma {:induction false} RunAppend(cfg: Config, ledger: Ledger, clock: Instant, events: seq<Timed>, last: Timed)
    ensures Run(cfg, ledger, events + [last]) == Step(cfg, Run(cfg, ledger, events), last.now, last.event)
    ensures End(clock, events + [last]) == last.now
    decreases |events|
  {
    var all := events + [last];
    if events == [] {
      assert all[1..] == [];
      assert Run(cfg, Step(cfg, ledger, last.now, last.event), []) == Step(cfg, ledger, last.now, last.event);
    } else {
      assert all[1..] == events[1..] + [last];
      RunAppend(cfg, Step(cfg, ledger, events[0].now, events[0].event), events[0].now, events[1..], last);
    }
  }

  /** Who a session belongs to, and until when, is fixed when it is created. */
  lemma {:induction false} SessionIsFixed(cfg: Config, ledger: Ledger, clock: Instant, events: seq<Timed>, id: string)
    requires Runs(cfg, ledger, clock, events) && id in ledger.lives
    ensures id in Run(cfg, ledger, events).lives
    ensures Run(cfg, ledger, events).lives[id].session.(lastSeenAt := 0) == ledger.lives[id].session.(lastSeenAt := 0)
    decreases |events|
  {
    if events != [] {
      SessionIsFixed(cfg, Step(cfg, ledger, events[0].now, events[0].event), events[0].now, events[1..], id);
    }
  }

  /******* Ending every session of a subject *******/

  lemma {:induction false} RevocationsAreKept(cfg: Config, ledger: Ledger, events: seq<Timed>)
    ensures ledger.revocations <= Run(cfg, ledger, events).revocations
    decreases |events|
  {
    if events != [] {
      RevocationsAreKept(cfg, Step(cfg, ledger, events[0].now, events[0].event), events[1..]);
    }
  }

  /** Once RevokeSubject took effect at `r`, no session the subject opened at or before `r` is ever
      alive again, however long the run goes on. */
  lemma RevokeSubjectIsFinal(
    cfg: Config, ledger: Ledger, r: Instant, subject: string, write: Effect, events: seq<Timed>, id: string)
    requires subject != "" && write != Lost
    ensures
      var after := Run(cfg, Step(cfg, ledger, r, RevokeSubject(subject, write)), events);
      id in after.lives
      && after.lives[id].session.snapshot.subject == subject
      && after.lives[id].session.createdAt <= r
      ==> forall t :: !Alive(cfg, after, id, t)
  {
    var revoked := Step(cfg, ledger, r, RevokeSubject(subject, write));
    RevocationsAreKept(cfg, revoked, events);
    assert Revocation(subject, r) in Run(cfg, revoked, events).revocations;
  }

  /** RevokeSubject touches nothing else: it ends exactly the sessions that subject opened at or
      before that instant. */
  lemma RevokeSubjectIsExact(
    cfg: Config, ledger: Ledger, r: Instant, subject: string, write: Effect, id: string, t: Instant)
    requires subject != "" && write != Lost && id in ledger.lives
    ensures
      var session := ledger.lives[id].session;
      Alive(cfg, Step(cfg, ledger, r, RevokeSubject(subject, write)), id, t)
      <==>
      Alive(cfg, ledger, id, t) && !(session.snapshot.subject == subject && session.createdAt <= r)
  {
    var session := ledger.lives[id].session;
    var after := Step(cfg, ledger, r, RevokeSubject(subject, write));
    assert Revocation(subject, r) in after.revocations;
    if RevokedWholesale(ledger, session) {
      var earlier :| earlier in ledger.revocations && earlier.subject == session.snapshot.subject
        && session.createdAt <= earlier.at;
      assert earlier in after.revocations;
    }
  }

  /******* The idle deadline *******/

  /** A Lookup that finds the session leaves its last-seen instant alone for a tenth of the idle limit,
      and moves it to its own instant from then on. */
  lemma RefreshIsExact(cfg: Config, ledger: Ledger, t: Instant, id: string, faults: LookupFaults)
    requires Alive(cfg, ledger, id, t) && faults.get && faults.marker
    ensures
      var seen := ledger.lives[id].session.lastSeenAt;
      var after := Step(cfg, ledger, t, Lookup(id, faults));
      && after.lives.Keys == ledger.lives.Keys
      && after.lives[id].session ==
         ledger.lives[id].session.(
           lastSeenAt := if t - seen < cfg.idleTTL / 10 || faults.write == Lost then seen else t)
      && (t - seen < cfg.idleTTL / 10 || faults.write != Lost ==> after.lives[id].lastUse == t)
  {
  }

  /** Reading costs at most a tenth of the idle limit, and only in the safe direction. */
  lemma IdleAccuracy(cfg: Config, ledger: Ledger, clock: Instant, id: string, t: Instant)
    requires cfg.Valid() && LedgerOk(cfg, ledger, clock) && clock <= t
    requires id in ledger.lives && !ledger.lives[id].ended
    requires !RevokedWholesale(ledger, ledger.lives[id].session)
    requires t < ledger.lives[id].session.expiresAt
    ensures
      var lastUse := ledger.lives[id].lastUse;
      && (10 * (t - lastUse) < 9 * cfg.idleTTL ==> Alive(cfg, ledger, id, t))
      && (lastUse + cfg.idleTTL <= t ==> !Alive(cfg, ledger, id, t))
  {
    assert LifeOk(cfg, id, ledger.lives[id], clock);
  }

  /** Nothing ends the session but time, and its holder comes back before nine tenths of the idle
      limit have gone by, each time before the absolute deadline. */
  ghost predicate UsedSteadily(cfg: Config, session: Session, lastUse: Instant, events: seq<Timed>)
    decreases |events|
  {
    events == [] ||
    (var e := events[0];
     match e.event
     case Create(_, _, _, _) => UsedSteadily(cfg, session, lastUse, events[1..])
     case Revoke(id, _) => id != session.id && UsedSteadily(cfg, session, lastUse, events[1..])
     case RevokeSubject(subject, _) =>
       subject != session.snapshot.subject && UsedSteadily(cfg, session, lastUse, events[1..])
     case Lookup(id, faults) =>
       if id != session.id then UsedSteadily(cfg, session, lastUse, events[1..])
       else
         && faults.get && faults.marker && faults.write == Done
         && e.now < session.expiresAt
         && 10 * (e.now - lastUse) < 9 * cfg.idleTTL
         && UsedSteadily(cfg, session, e.now, events[1..]))
  }

  ghost predicate EveryLookupFinds(cfg: Config, ledger: Ledger, events: seq<Timed>, id: string)
    decreases |events|
  {
    events == [] ||
    (&& (events[0].event.Lookup? && events[0].event.id == id ==>
           Alive(cfg, ledger, id, events[0].now))
     && EveryLookupFinds(cfg, Step(cfg, ledger, events[0].now, events[0].event), events[1..], id))
  }

  /** A session in use never idles out: it lives up to its absolute deadline, whatever else the
      store is asked in between. */
  lemma {:induction false} SteadyUseKeepsAlive(
    cfg: Config, ledger: Ledger, clock: Instant, events: seq<Timed>, id: string)
    requires cfg.Valid() && LedgerOk(cfg, ledger, clock) && ZERO_INSTANT < clock
    requires Runs(cfg, ledger, clock, events)
    requires id in ledger.lives && !ledger.lives[id].ended
    requires !RevokedWholesale(ledger, ledger.lives[id].session)
    requires UsedSteadily(cfg, ledger.lives[id].session, ledger.lives[id].lastUse, events)
    ensures EveryLookupFinds(cfg, ledger, events, id)
    decreases |events|
  {
    if events != [] {
      var e := events[0];
      var next := Step(cfg, ledger, e.now, e.event);
      StepKeepsLedgerOk(cfg, ledger, clock, e.now, e.event);
      if e.event.Lookup? && e.event.id == id {
        IdleAccuracy(cfg, ledger, clock, id, e.now);
      }
      assert next.lives[id].session.(lastSeenAt := 0) == ledger.lives[id].session.(lastSeenAt := 0);
      LastSeenDoesNotMatter(cfg, ledger.lives[id].session, next.lives[id].session, next.lives[id].lastUse, events[1..]);
      SteadyUseKeepsAlive(cfg, next, e.now, events[1..], id);
    }
  }

  lemma {:induction false} LastSeenDoesNotMatter(
    cfg: Config, a: Session, b: Session, lastUse: Instant, events: seq<Timed>)
    requires a.(lastSeenAt := 0) == b.(lastSeenAt := 0)
    ensures UsedSteadily(cfg, a, lastUse, events) == UsedSteadily(cfg, b, lastUse, events)
    decreases |events|
  {
    assert a.id == b.id && a.snapshot == b.snapshot && a.expiresAt == b.expiresAt;
    if events != [] {
      LastSeenDoesNotMatter(cfg, a, b, lastUse, events[1..]);
      LastSeenDoesNotMatter(cfg, a, b, events[0].now, events[1..]);
    }
  }

  /** However it is used, no session outlives the profile it was opened with, nor idles unused
      past the idle limit. */
  lemma NeverPastItsDeadlines(cfg: Config, events: seq<Timed>, start: Instant, id: string, t: Instant)
    requires cfg.Valid() && ZERO_INSTANT < start
    requires Runs(cfg, EMPTY_LEDGER, start, events) && End(start, events) <= t
    ensures
      var after := Run(cfg, EMPTY_LEDGER, events);
      Alive(cfg, after, id, t) ==>
        && t < after.lives[id].session.createdAt
               + (if after.lives[id].session.persistent then cfg.persistentAbsoluteTTL else cfg.absoluteTTL)
        && t < after.lives[id].lastUse + cfg.idleTTL
  {
    RunKeepsLedgerOk(cfg, EMPTY_LEDGER, start, events);
  }
}
