/**
 Many nodes on one cache, interleaved one step at a time. A step is a clock reading or a single cache
 request: a write, once sent, may reach the cache at any later instant, any number of times or never,
 until its sender gives it up; a record, once read, may be judged at any later instant, and the marker
 looked up at any instant after that; RevokeSubject's marker may arrive long after its clock was read.
 */
module SessionRace {
  import opened Wrappers
  import opened Sessions
  import opened SessionCache

  datatype Sent = Sent(session: Session, ttl: Duration)

  /** A Lookup whose clock read `asked`, before both deadlines of the session it holds. */
  datatype Judged = Judged(session: Session, asked: Instant)

  /** A revocation whose marker reached the cache at `arrived`. */
  datatype Ended = Ended(subject: string, at: Instant, arrived: Instant)

  datatype World = World(
    clock: Instant,
    entries: Entries,
    sent: set<Sent>,
    held: set<Session>,
    judged: set<Judged>,
    ending: set<Revocation>,
    ended: seq<Ended>)

  datatype Action =
    | StartCreate(id: string, snapshot: Snapshot, persistent: bool)
    | Arrive(sent: Sent)
    | Settle(sent: Sent)
    | Read(id: string)
    | Judge(session: Session)
    | LetGo(session: Session)
    | Decide(judged: Judged)
    | Leave(judged: Judged)
    | Remove(id: string)
    | StartEnd(subject: string)
    | ArriveEnd(revocation: Revocation)
    | Drop(keys: set<Key>)

  datatype Moment = Moment(now: Instant, action: Action)

  function Send(cfg: Config, session: Session, now: Instant): Sent {
    Sent(session, Remaining(cfg, session, now))
  }

  /** When the subject's sessions were last ended, as far as the cache remembers. */
  function MarkerOf(entries: Entries, subject: string): Instant {
    var key := RevokedKey(subject);
    if key in entries && entries[key].value.Marker? then entries[key].value.at else ZERO_INSTANT
  }

  /** What the marker says about the session a Lookup judged alive. */
  predicate Serves(world: World, judged: Judged) {
    var revoked := MarkerOf(world.entries, judged.session.snapshot.subject);
    !(revoked != ZERO_INSTANT && judged.session.createdAt <= revoked)
  }

  predicate Possible(world: World, moment: Moment) {
    && world.clock <= moment.now
    && match moment.action
       case Arrive(sent) => sent in world.sent
       case Read(id) => RecordKey(id) in world.entries
       case Judge(session) => session in world.held
       case Decide(judged) => judged in world.judged
       case ArriveEnd(revocation) => revocation in world.ending
       case _ => true
  }

  function Act(cfg: Config, before: World, moment: Moment): World {
    var now := moment.now;
    var world := before.(clock := now);
    match moment.action
    case StartCreate(id, snapshot, persistent) =>
      world.(sent := world.sent + {Send(cfg, NewSession(cfg, id, snapshot, persistent, now), now)})
    case Arrive(sent) =>
      var key := RecordKey(sent.session.id);
      world.(entries := if sent.ttl <= 0 then world.entries - {key}
                        else world.entries[key := Entry(Record(sent.session), now + sent.ttl)])
    case Settle(sent) =>
      world.(sent := world.sent - {sent})
    case Read(id) =>
      if RecordKey(id) in world.entries && world.entries[RecordKey(id)].value.Record?
      then world.(held := world.held + {world.entries[RecordKey(id)].value.session})
      else world
    case Judge(session) =>
      if now < Deadline(cfg, session) then world.(judged := world.judged + {Judged(session, now)}) else world
    case LetGo(session) =>
      world.(held := world.held - {session})
    case Decide(judged) =>
      if Serves(world, judged) && RefreshDue(cfg, judged.session, judged.asked)
      then world.(sent := world.sent + {Send(cfg, Touched(cfg, judged.session, judged.asked), judged.asked)})
      else world
    case Leave(judged) =>
      world.(judged := world.judged - {judged})
    case Remove(id) =>
      world.(entries := world.entries - {RecordKey(id)})
    case StartEnd(subject) =>
      world.(ending := world.ending + {Revocation(subject, now)})
    case ArriveEnd(r) =>
      world.(entries := world.entries[RevokedKey(r.subject) := Entry(Marker(r.at), now + cfg.MaxAbsoluteTTL())],
             ended := world.ended + [Ended(r.subject, r.at, now)])
    case Drop(keys) =>
      world.(entries := map k | k in world.entries && !(k in keys && world.entries[k].expiry <= now) :: world.entries[k])
  }

  function Acts(cfg: Config, world: World, moments: seq<Moment>): World
    decreases |moments|
  {
    if moments == [] then world else Acts(cfg, Act(cfg, world, moments[0]), moments[1..])
  }

  predicate Possibles(cfg: Config, world: World, moments: seq<Moment>)
    decreases |moments|
  {
    moments == [] || (Possible(world, moments[0]) && Possibles(cfg, Act(cfg, world, moments[0]), moments[1..]))
  }

  function Beginning(start: Instant): World {
    World(start, map[], {}, {}, {}, {}, [])
  }

  /** One step more of a run. */
  lemma {:induction false} ActsAppend(cfg: Config, world: World, moments: seq<Moment>, last: Moment)
    ensures Acts(cfg, world, moments + [last]) == Act(cfg, Acts(cfg, world, moments), last)
    ensures Possibles(cfg, world, moments + [last])
            <==> Possibles(cfg, world, moments) && Possible(Acts(cfg, world, moments), last)
    decreases |moments|
  {
    var all := moments + [last];
    if moments == [] {
      assert all[1..] == [];
      var after := Act(cfg, world, last);
      assert Acts(cfg, after, []) == after && Possibles(cfg, after, []);
    } else {
      assert all[1..] == moments[1..] + [last];
      ActsAppend(cfg, Act(cfg, world, moments[0]), moments[1..], last);
    }
  }

  /******* What every step keeps *******/

  /** The absolute deadline is the one the session's profile gives it. */
  predicate Profiled(cfg: Config, session: Session) {
    session.expiresAt == session.createdAt + if session.persistent then cfg.persistentAbsoluteTTL else cfg.absoluteTTL
  }

  /** The subject's marker that reached the cache last. */
  function LastEnd(ended: seq<Ended>, subject: string): Option<Ended> {
    if ended == [] then None
    else if ended[|ended| - 1].subject == subject then Some(ended[|ended| - 1])
    else LastEnd(ended[..|ended| - 1], subject)
  }

  /** The record entries hold sessions under their own id. */
  ghost predicate RecordsAreTrue(cfg: Config, world: World) {
    forall id :: RecordKey(id) in world.entries ==>
      var value := world.entries[RecordKey(id)].value;
      value.Record? && value.session.id == id && Profiled(cfg, value.session)
  }

  /** A marker in the cache is its subject's last to arrive; a marker gone outlived its time. */
  ghost predicate MarkersAreLast(cfg: Config, world: World) {
    forall subject ::
      match LastEnd(world.ended, subject)
      case None => RevokedKey(subject) !in world.entries
      case Some(last) =>
        if RevokedKey(subject) in world.entries
        then world.entries[RevokedKey(subject)] == Entry(Marker(last.at), last.arrived + cfg.MaxAbsoluteTTL())
        else last.arrived + cfg.MaxAbsoluteTTL() <= world.clock
  }

  ghost predicate Sound(cfg: Config, world: World) {
    && ZERO_INSTANT < world.clock
    && (forall sent :: sent in world.sent ==> Profiled(cfg, sent.session))
    && (forall session :: session in world.held ==> Profiled(cfg, session))
    && (forall j :: j in world.judged ==> Profiled(cfg, j.session) && j.asked < Deadline(cfg, j.session) && j.asked <= world.clock)
    && (forall r :: r in world.ending ==> ZERO_INSTANT < r.at <= world.clock)
    && (forall e :: e in world.ended ==> ZERO_INSTANT < e.at <= e.arrived <= world.clock)
    && RecordsAreTrue(cfg, world)
    && MarkersAreLast(cfg, world)
  }

  lemma ActKeepsMarkers(cfg: Config, world: World, moment: Moment)
    requires cfg.Valid() && MarkersAreLast(cfg, world) && Possible(world, moment)
    ensures MarkersAreLast(cfg, Act(cfg, world, moment))
  {
    var after := Act(cfg, world, moment);
    if moment.action.ArriveEnd? {
      assert after.ended[..|after.ended| - 1] == world.ended;
    }
  }

  lemma ActKeepsSound(cfg: Config, world: World, moment: Moment)
    requires cfg.Valid() && Sound(cfg, world) && Possible(world, moment)
    ensures Sound(cfg, Act(cfg, world, moment))
  {
    ActKeepsMarkers(cfg, world, moment);
  }

  lemma {:induction false} ActsKeepSound(cfg: Config, world: World, moments: seq<Moment>)
    requires cfg.Valid() && Sound(cfg, world) && Possibles(cfg, world, moments)
    ensures Sound(cfg, Acts(cfg, world, moments))
    ensures world.ended <= Acts(cfg, world, moments).ended
    ensures world.clock <= Acts(cfg, world, moments).clock
    decreases |moments|
  {
    if moments != [] {
      ActKeepsSound(cfg, world, moments[0]);
      ActsKeepSound(cfg, Act(cfg, world, moments[0]), moments[1..]);
    }
  }

  /******* Ending every session of a subject *******/

  /** Some revocation that took effect covers the session. */
  ghost predicate Covered(ended: seq<Ended>, session: Session) {
    exists e :: e in ended && e.subject == session.snapshot.subject && session.createdAt <= e.at
  }

  /** A marker arrived after one with a later clock reading, so that the session it covered no longer is. */
  ghost predicate Overtaken(ended: seq<Ended>, session: Session) {
    && Covered(ended, session)
    && LastEnd(ended, session.snapshot.subject).Some?
    && LastEnd(ended, session.snapshot.subject).value.at < session.createdAt
  }

  /** The last marker covered the session but is gone from the cache. */
  ghost predicate Outlasted(world: World, session: Session) {
    && LastEnd(world.ended, session.snapshot.subject).Some?
    && LastEnd(world.ended, session.snapshot.subject).value.at >= session.createdAt
    && RevokedKey(session.snapshot.subject) !in world.entries
  }

  lemma {:induction false} LastEndIsThere(ended: seq<Ended>, subject: string)
    ensures LastEnd(ended, subject).Some? ==> LastEnd(ended, subject).value in ended && LastEnd(ended, subject).value.subject == subject
    ensures LastEnd(ended, subject).None? ==> forall e :: e in ended ==> e.subject != subject
    decreases |ended|
  {
    if ended != [] {
      var before, last := ended[..|ended| - 1], ended[|ended| - 1];
      assert ended == before + [last];
      LastEndIsThere(before, subject);
    }
  }

  /** However the steps interleave, a Lookup serves the session it judged alive exactly when no revocation
      covers it, or the covering one was overtaken by an older marker, or the marker was outlasted. */
  lemma VerdictIsExact(cfg: Config, start: Instant, moments: seq<Moment>, judged: Judged)
    requires cfg.Valid() && ZERO_INSTANT < start && Possibles(cfg, Beginning(start), moments)
    requires judged in Acts(cfg, Beginning(start), moments).judged
    ensures
      var world := Acts(cfg, Beginning(start), moments);
      Serves(world, judged)
      <==>
      !Covered(world.ended, judged.session) || Overtaken(world.ended, judged.session) || Outlasted(world, judged.session)
  {
    ActsKeepSound(cfg, Beginning(start), moments);
    var world := Acts(cfg, Beginning(start), moments);
    LastEndIsThere(world.ended, judged.session.snapshot.subject);
  }

  /** A Lookup writes only what it serves: the session used at the instant its clock read, when a refresh
      was due by then, for what is left of its deadlines. */
  lemma OnlyServedIsRefreshed(cfg: Config, start: Instant, moments: seq<Moment>, judged: Judged, now: Instant)
    requires cfg.Valid() && ZERO_INSTANT < start && Possibles(cfg, Beginning(start), moments)
    requires judged in Acts(cfg, Beginning(start), moments).judged
    requires Acts(cfg, Beginning(start), moments).clock <= now
    ensures
      var world := Acts(cfg, Beginning(start), moments);
      var session, left := judged.session, judged.session.expiresAt - judged.asked;
      var served := !Covered(world.ended, session) || Overtaken(world.ended, session) || Outlasted(world, session);
      var due := judged.asked - session.lastSeenAt >= cfg.idleTTL / 10;
      Act(cfg, world, Moment(now, Decide(judged))) ==
      world.(clock := now,
             sent := world.sent
                     + if served && due
                       then {Sent(session.(lastSeenAt := judged.asked), if left < cfg.idleTTL then left else cfg.idleTTL)}
                       else {})
  {
    VerdictIsExact(cfg, start, moments, judged);
  }

  /** A marker is outlasted only by a Lookup that read its clock before the session's absolute deadline
      and the marker no earlier than that deadline. */
  lemma OutlastingTakesADeadline(cfg: Config, start: Instant, moments: seq<Moment>, judged: Judged)
    requires cfg.Valid() && ZERO_INSTANT < start && Possibles(cfg, Beginning(start), moments)
    requires judged in Acts(cfg, Beginning(start), moments).judged
    requires Outlasted(Acts(cfg, Beginning(start), moments), judged.session)
    ensures judged.asked < judged.session.expiresAt <= Acts(cfg, Beginning(start), moments).clock
  {
    ActsKeepSound(cfg, Beginning(start), moments);
    LastEndIsThere(Acts(cfg, Beginning(start), moments).ended, judged.session.snapshot.subject);
  }

  /** Each subject's markers arrive in the order of their clock readings. */
  ghost predicate InOrder(ended: seq<Ended>) {
    forall i, j :: 0 <= i < j < |ended| && ended[i].subject == ended[j].subject ==> ended[i].at <= ended[j].at
  }

  lemma {:induction false} InOrderIsNotOvertaken(ended: seq<Ended>, session: Session)
    requires InOrder(ended)
    ensures !Overtaken(ended, session)
    decreases |ended|
  {
    if Covered(ended, session) {
      var e :| e in ended && e.subject == session.snapshot.subject && session.createdAt <= e.at;
      LastIsLatest(ended, e);
    }
  }

  lemma {:induction false} LastIsLatest(ended: seq<Ended>, e: Ended)
    requires InOrder(ended) && e in ended
    ensures LastEnd(ended, e.subject).Some? && e.at <= LastEnd(ended, e.subject).value.at
    decreases |ended|
  {
    var before, last := ended[..|ended| - 1], ended[|ended| - 1];
    assert ended == before + [last];
    if last.subject == e.subject {
      var i :| 0 <= i < |ended| && ended[i] == e;
      assert i < |ended| - 1 ==> ended[i].at <= ended[|ended| - 1].at;
    } else {
      forall i, j | 0 <= i < j < |before| && before[i].subject == before[j].subject
        ensures before[i].at <= before[j].at
      {
        assert ended[i] == before[i] && ended[j] == before[j];
      }
      LastIsLatest(before, e);
    }
  }

  /** After a marker written at `r` arrived, no Lookup serves a session opened at or before `r`, even one
      whose record was read, or whose write was sent, before `r`: as long as markers arrive in the order
      their clocks were read, and the Lookup reads the marker before the session's absolute deadline. */
  lemma RevokeSubjectIsFinal(cfg: Config, start: Instant, before: seq<Moment>, after: seq<Moment>, r: Revocation, judged: Judged)
    requires cfg.Valid() && ZERO_INSTANT < start
    requires Possibles(cfg, Beginning(start), before + after)
    requires exists e :: e in Acts(cfg, Beginning(start), before).ended && e.subject == r.subject && e.at == r.at
    requires
      var world := Acts(cfg, Beginning(start), before + after);
      && judged in world.judged
      && judged.session.snapshot.subject == r.subject
      && judged.session.createdAt <= r.at
      && InOrder(world.ended)
      && world.clock < judged.session.expiresAt
    ensures !Serves(Acts(cfg, Beginning(start), before + after), judged)
  {
    var world := Acts(cfg, Beginning(start), before + after);
    ActsConcat(cfg, Beginning(start), before, after);
    var early := Acts(cfg, Beginning(start), before);
    ActsKeepSound(cfg, Beginning(start), before);
    ActsKeepSound(cfg, early, after);
    var e :| e in early.ended && e.subject == r.subject && e.at == r.at;
    assert e in world.ended;
    VerdictIsExact(cfg, start, before + after, judged);
    InOrderIsNotOvertaken(world.ended, judged.session);
    if Outlasted(world, judged.session) {
      OutlastingTakesADeadline(cfg, start, before + after, judged);
    }
  }

  lemma {:induction false} ActsConcat(cfg: Config, world: World, first: seq<Moment>, second: seq<Moment>)
    ensures Acts(cfg, world, first + second) == Acts(cfg, Acts(cfg, world, first), second)
    ensures Possibles(cfg, world, first + second)
            <==> Possibles(cfg, world, first) && Possibles(cfg, Acts(cfg, world, first), second)
    decreases |first|
  {
    if first == [] {
      assert first + second == second;
    } else {
      assert (first + second)[1..] == first[1..] + second;
      ActsConcat(cfg, Act(cfg, world, first[0]), first[1..], second);
    }
  }

  /** A run and the world it leads to. */
  ghost predicate Leads(cfg: Config, start: Instant, moments: seq<Moment>, world: World) {
    Possibles(cfg, Beginning(start), moments) && Acts(cfg, Beginning(start), moments) == world
  }

  lemma LeadsOn(cfg: Config, start: Instant, moments: seq<Moment>, world: World, next: Moment)
    requires Leads(cfg, start, moments, world) && Possible(world, next)
    ensures Leads(cfg, start, moments + [next], Act(cfg, world, next))
  {
    ActsAppend(cfg, Beginning(start), moments, next);
  }

  /** A session created, stored and read in one instant. */
  lemma StoredAndHeld(
    cfg: Config, start: Instant, before: seq<Moment>, world: World, now: Instant,
    id: string, snapshot: Snapshot, persistent: bool)
    returns (moments: seq<Moment>, after: World, session: Session)
    requires cfg.Valid() && Leads(cfg, start, before, world) && world.clock <= now
    ensures session == NewSession(cfg, id, snapshot, persistent, now)
    ensures Leads(cfg, start, moments, after) && after.clock == now
    ensures after.held == world.held + {session} && after.sent == world.sent - {Send(cfg, session, now)}
    ensures after.entries == world.entries[RecordKey(id) := Entry(Record(session), Deadline(cfg, session))]
    ensures after.judged == world.judged && after.ending == world.ending && after.ended == world.ended
  {
    session := NewSession(cfg, id, snapshot, persistent, now);
    var sent := Send(cfg, session, now);
    moments, after := before, world;
    var steps := [StartCreate(id, snapshot, persistent), Arrive(sent), Settle(sent), Read(id)];
    LeadsOn(cfg, start, moments, after, Moment(now, steps[0]));
    moments, after := moments + [Moment(now, steps[0])], Act(cfg, after, Moment(now, steps[0]));
    LeadsOn(cfg, start, moments, after, Moment(now, steps[1]));
    moments, after := moments + [Moment(now, steps[1])], Act(cfg, after, Moment(now, steps[1]));
    LeadsOn(cfg, start, moments, after, Moment(now, steps[2]));
    moments, after := moments + [Moment(now, steps[2])], Act(cfg, after, Moment(now, steps[2]));
    LeadsOn(cfg, start, moments, after, Moment(now, steps[3]));
    moments, after := moments + [Moment(now, steps[3])], Act(cfg, after, Moment(now, steps[3]));
  }

  lemma LeadsOnTwice(cfg: Config, start: Instant, moments: seq<Moment>, world: World, a: Moment, b: Moment)
    returns (longer: seq<Moment>, after: World)
    requires Leads(cfg, start, moments, world) && Possible(world, a) && Possible(Act(cfg, world, a), b)
    ensures after == Act(cfg, Act(cfg, world, a), b) && Leads(cfg, start, longer, after)
  {
    LeadsOn(cfg, start, moments, world, a);
    LeadsOn(cfg, start, moments + [a], Act(cfg, world, a), b);
    longer, after := moments + [a] + [b], Act(cfg, Act(cfg, world, a), b);
  }

  /** Two nodes end a subject's sessions, and the one that read its clock first writes last: a session
      opened in between is served although the later revocation took effect. */
  lemma OvertakingIsReachable(cfg: Config, start: Instant, id: string, snapshot: Snapshot, persistent: bool)
    returns (moments: seq<Moment>, world: World, judged: Judged)
    requires cfg.Valid() && ZERO_INSTANT < start
    ensures Leads(cfg, start, moments, world) && judged in world.judged
    ensures Overtaken(world.ended, judged.session) && Serves(world, judged)
  {
    var subject, later := snapshot.subject, start + 1;
    var older, newer := Revocation(subject, start), Revocation(subject, later);
    world := Beginning(start);
    LeadsOn(cfg, start, [], world, Moment(start, StartEnd(subject)));
    world := Act(cfg, world, Moment(start, StartEnd(subject)));
    var session;
    moments, world, session := StoredAndHeld(
      cfg, start, [] + [Moment(start, StartEnd(subject))], world, later, id, snapshot, persistent);
    moments, world := LeadsOnTwice(cfg, start, moments, world, Moment(later, Judge(session)), Moment(later, StartEnd(subject)));
    moments, world := LeadsOnTwice(cfg, start, moments, world, Moment(later, ArriveEnd(newer)), Moment(later, ArriveEnd(older)));
    judged := Judged(session, later);
    assert world.ended == [Ended(subject, later, later), Ended(subject, start, later)];
    assert world.ended[0] in world.ended;
  }

  /** A Lookup that dwells between its clock and the marker serves a revoked session once the marker is gone. */
  lemma OutlastingIsReachable(cfg: Config, start: Instant, id: string, snapshot: Snapshot, persistent: bool)
    returns (moments: seq<Moment>, world: World, judged: Judged)
    requires cfg.Valid() && ZERO_INSTANT < start
    ensures Leads(cfg, start, moments, world) && judged in world.judged
    ensures Outlasted(world, judged.session) && Covered(world.ended, judged.session) && Serves(world, judged)
  {
    var subject := snapshot.subject;
    var r := Revocation(subject, start);
    var session;
    moments, world, session := StoredAndHeld(cfg, start, [], Beginning(start), start, id, snapshot, persistent);
    moments, world := LeadsOnTwice(cfg, start, moments, world, Moment(start, Judge(session)), Moment(start, StartEnd(subject)));
    moments, world := LeadsOnTwice(
      cfg, start, moments, world, Moment(start, ArriveEnd(r)), Moment(start + cfg.MaxAbsoluteTTL(), Drop({RevokedKey(subject)})));
    judged := Judged(session, start);
    assert world.ended == [Ended(subject, start, start)];
    assert world.ended[0] in world.ended;
  }

  /******* Ending one session *******/

  /** The record removed does not come back by itself, in any run. */
  ghost predicate RemovalLasts(cfg: Config, world: World, id: string) {
    forall moments: seq<Moment> ::
      Possibles(cfg, world, moments) && NeverCreates(moments, id) ==> RecordKey(id) !in Acts(cfg, world, moments).entries
  }

  predicate NeverCreates(moments: seq<Moment>, id: string) {
    forall i | 0 <= i < |moments| :: moments[i].action.StartCreate? ==> moments[i].action.id != id
  }

  /** A refresh of the session is due at some instant from now on at which it is not past a deadline. */
  ghost predicate RefreshAhead(cfg: Config, session: Session, now: Instant) {
    exists asked :: now <= asked < Deadline(cfg, session) && RefreshDue(cfg, session, asked)
  }

  /** No write of the session is under way, nor can a Lookup already holding its record send one. */
  ghost predicate NothingUnderWay(cfg: Config, world: World, id: string) {
    && (forall sent :: sent in world.sent && sent.session.id == id ==> sent.ttl <= 0)
    && (forall j :: j in world.judged && j.session.id == id ==> !RefreshDue(cfg, j.session, j.asked))
    && (forall session :: session in world.held && session.id == id ==> !RefreshAhead(cfg, session, world.clock))
  }

  lemma RefreshAheadEarlier(cfg: Config, session: Session, earlier: Instant, later: Instant)
    requires earlier <= later
    ensures RefreshAhead(cfg, session, later) ==> RefreshAhead(cfg, session, earlier)
  {
    if RefreshAhead(cfg, session, later) {
      var asked :| later <= asked < Deadline(cfg, session) && RefreshDue(cfg, session, asked);
      assert earlier <= asked;
    }
  }

  lemma QuietStaysQuiet(cfg: Config, world: World, moment: Moment, id: string)
    requires cfg.Valid() && Sound(cfg, world) && Possible(world, moment)
    requires NothingUnderWay(cfg, world, id) && RecordKey(id) !in world.entries
    requires moment.action.StartCreate? ==> moment.action.id != id
    ensures NothingUnderWay(cfg, Act(cfg, world, moment), id)
    ensures RecordKey(id) !in Act(cfg, world, moment).entries
  {
    var after := Act(cfg, world, moment);
    forall session | session in after.held && session.id == id
      ensures !RefreshAhead(cfg, session, after.clock)
    {
      assert session in world.held;
      RefreshAheadEarlier(cfg, session, world.clock, after.clock);
    }
  }

  lemma {:induction false} QuietForGood(cfg: Config, world: World, moments: seq<Moment>, id: string)
    requires cfg.Valid() && Sound(cfg, world) && Possibles(cfg, world, moments) && NeverCreates(moments, id)
    requires NothingUnderWay(cfg, world, id) && RecordKey(id) !in world.entries
    ensures RecordKey(id) !in Acts(cfg, world, moments).entries
    decreases |moments|
  {
    if moments != [] {
      QuietStaysQuiet(cfg, world, moments[0], id);
      ActKeepsSound(cfg, world, moments[0]);
      QuietForGood(cfg, Act(cfg, world, moments[0]), moments[1..], id);
    }
  }

  /** What comes back after one more step could come back before it. */
  lemma ComesBackBefore(cfg: Config, world: World, first: Moment, id: string)
    requires Possible(world, first) && !first.action.StartCreate?
    requires !RemovalLasts(cfg, Act(cfg, world, first), id)
    ensures !RemovalLasts(cfg, world, id)
  {
    var after := Act(cfg, world, first);
    var rest: seq<Moment> :| Possibles(cfg, after, rest) && NeverCreates(rest, id)
      && RecordKey(id) in Acts(cfg, after, rest).entries;
    var moments := [first] + rest;
    assert moments[1..] == rest;
    assert Possibles(cfg, world, moments) && NeverCreates(moments, id);
    assert Acts(cfg, world, moments) == Acts(cfg, after, rest);
  }

  lemma StoredIsBack(cfg: Config, world: World, id: string)
    requires RecordKey(id) in world.entries
    ensures !RemovalLasts(cfg, world, id)
  {
    assert Possibles(cfg, world, []) && NeverCreates([], id) && Acts(cfg, world, []) == world;
  }

  lemma WriteComesBack(cfg: Config, world: World, sent: Sent)
    requires sent in world.sent && 0 < sent.ttl
    ensures !RemovalLasts(cfg, world, sent.session.id)
  {
    var arrive := Moment(world.clock, Arrive(sent));
    StoredIsBack(cfg, Act(cfg, world, arrive), sent.session.id);
    ComesBackBefore(cfg, world, arrive, sent.session.id);
  }

  /** A Lookup that found a refresh due sends it once no marker refuses the session, at the latest when
      the marker has expired. */
  lemma JudgedComesBack(cfg: Config, world: World, j: Judged)
    requires cfg.Valid() && Sound(cfg, world) && j in world.judged && RefreshDue(cfg, j.session, j.asked)
    ensures !RemovalLasts(cfg, world, j.session.id)
  {
    var key := RevokedKey(j.session.snapshot.subject);
    var now := if key in world.entries && world.clock < world.entries[key].expiry then world.entries[key].expiry else world.clock;
    var drop, decide := Moment(now, Drop({key})), Moment(now, Decide(j));
    var dropped := Act(cfg, world, drop);
    assert key !in dropped.entries;
    var sent := Send(cfg, Touched(cfg, j.session, j.asked), j.asked);
    var decided := Act(cfg, dropped, decide);
    assert sent in decided.sent && 0 < sent.ttl;
    WriteComesBack(cfg, decided, sent);
    ComesBackBefore(cfg, dropped, decide, j.session.id);
    ComesBackBefore(cfg, world, drop, j.session.id);
  }

  lemma HeldComesBack(cfg: Config, world: World, session: Session)
    requires cfg.Valid() && Sound(cfg, world) && session in world.held && RefreshAhead(cfg, session, world.clock)
    ensures !RemovalLasts(cfg, world, session.id)
  {
    var asked :| world.clock <= asked < Deadline(cfg, session) && RefreshDue(cfg, session, asked);
    var judge := Moment(asked, Judge(session));
    ActKeepsSound(cfg, world, judge);
    JudgedComesBack(cfg, Act(cfg, world, judge), Judged(session, asked));
    ComesBackBefore(cfg, world, judge, session.id);
  }

  /** Ending one session lasts, whatever follows, exactly when no write of it is under way and no Lookup
      holding its record can still find a refresh due. */
  lemma RemovalLastsExactlyWhenQuiet(cfg: Config, world: World, now: Instant, id: string)
    requires cfg.Valid() && Sound(cfg, world) && world.clock <= now
    ensures
      var removed := Act(cfg, world, Moment(now, Remove(id)));
      RemovalLasts(cfg, removed, id) <==> NothingUnderWay(cfg, removed, id)
  {
    var removed := Act(cfg, world, Moment(now, Remove(id)));
    ActKeepsSound(cfg, world, Moment(now, Remove(id)));
    if NothingUnderWay(cfg, removed, id) {
      forall moments: seq<Moment> | Possibles(cfg, removed, moments) && NeverCreates(moments, id)
        ensures RecordKey(id) !in Acts(cfg, removed, moments).entries
      {
        QuietForGood(cfg, removed, moments, id);
      }
    } else if exists sent :: sent in removed.sent && sent.session.id == id && 0 < sent.ttl {
      var sent :| sent in removed.sent && sent.session.id == id && 0 < sent.ttl;
      WriteComesBack(cfg, removed, sent);
    } else if exists j :: j in removed.judged && j.session.id == id && RefreshDue(cfg, j.session, j.asked) {
      var j :| j in removed.judged && j.session.id == id && RefreshDue(cfg, j.session, j.asked);
      JudgedComesBack(cfg, removed, j);
    } else {
      var session :| session in removed.held && session.id == id && RefreshAhead(cfg, session, removed.clock);
      HeldComesBack(cfg, removed, session);
    }
  }

  lemma IdleWorldLetsGo(cfg: Config, world: World, now: Instant, id: string)
    requires cfg.Valid() && Sound(cfg, world) && world.clock <= now
    requires world.sent == {} && world.held == {} && world.judged == {}
    ensures RemovalLasts(cfg, Act(cfg, world, Moment(now, Remove(id))), id)
  {
    RemovalLastsExactlyWhenQuiet(cfg, world, now, id);
  }

  /** A Create that has completed, ended by a Revoke while no Lookup is at work, stays ended. */
  lemma CompletedCreateStaysEnded(
    cfg: Config, start: Instant, id: string, snapshot: Snapshot, persistent: bool, now: Instant)
    returns (moments: seq<Moment>, world: World)
    requires cfg.Valid() && ZERO_INSTANT < start <= now
    ensures Leads(cfg, start, moments, world) && RecordKey(id) in world.entries && world.clock <= now
    ensures RemovalLasts(cfg, Act(cfg, world, Moment(now, Remove(id))), id)
  {
    var session;
    moments, world, session := StoredAndHeld(cfg, start, [], Beginning(start), start, id, snapshot, persistent);
    LeadsOn(cfg, start, moments, world, Moment(start, LetGo(session)));
    moments, world := moments + [Moment(start, LetGo(session))], Act(cfg, world, Moment(start, LetGo(session)));
    ActsKeepSound(cfg, Beginning(start), moments);
    IdleWorldLetsGo(cfg, world, now, id);
  }

  /** A Lookup that holds a session refreshes it at `t` and completes. */
  lemma UsedAndLeft(cfg: Config, start: Instant, before: seq<Moment>, world: World, session: Session, t: Instant)
    returns (moments: seq<Moment>, after: World)
    requires cfg.Valid() && Leads(cfg, start, before, world) && world.clock <= t < Deadline(cfg, session)
    requires world.held == {session} && world.sent == {} && world.judged == {} && RefreshDue(cfg, session, t)
    requires RevokedKey(session.snapshot.subject) !in world.entries
    ensures Leads(cfg, start, moments, after) && after.clock == t
    ensures after.held == {} && after.sent == {} && after.judged == {}
    ensures RecordKey(session.id) in after.entries
    ensures after.entries[RecordKey(session.id)].value == Record(session.(lastSeenAt := t))
  {
    var judged, sent := Judged(session, t), Send(cfg, session.(lastSeenAt := t), t);
    moments, after := LeadsOnTwice(cfg, start, before, world, Moment(t, Judge(session)), Moment(t, Decide(judged)));
    assert after.sent == {sent} && after.judged == {judged};
    moments, after := LeadsOnTwice(cfg, start, moments, after, Moment(t, Arrive(sent)), Moment(t, Settle(sent)));
    moments, after := LeadsOnTwice(cfg, start, moments, after, Moment(t, Leave(judged)), Moment(t, LetGo(session)));
  }

  /** So does one that a Lookup has used and refreshed, once that Lookup has completed. */
  lemma CompletedUseStaysEnded(
    cfg: Config, start: Instant, id: string, snapshot: Snapshot, persistent: bool, now: Instant)
    returns (moments: seq<Moment>, world: World)
    requires cfg.Valid() && ZERO_INSTANT < start && start + cfg.idleTTL / 10 <= now
    requires cfg.idleTTL / 10 < if persistent then cfg.persistentAbsoluteTTL else cfg.absoluteTTL
    ensures Leads(cfg, start, moments, world) && world.clock <= now && RecordKey(id) in world.entries
    ensures world.entries[RecordKey(id)].value ==
            Record(NewSession(cfg, id, snapshot, persistent, start).(lastSeenAt := start + cfg.idleTTL / 10))
    ensures RemovalLasts(cfg, Act(cfg, world, Moment(now, Remove(id))), id)
  {
    var t := start + cfg.idleTTL / 10;
    var session;
    moments, world, session := StoredAndHeld(cfg, start, [], Beginning(start), start, id, snapshot, persistent);
    moments, world := UsedAndLeft(cfg, start, moments, world, session, t);
    ActsKeepSound(cfg, Beginning(start), moments);
    IdleWorldLetsGo(cfg, world, now, id);
  }

  /** A Lookup that has read the record puts it back after the Revoke exactly when a refresh can fall due
      before the session's deadline. */
  lemma LookupAtWorkPutsItBack(
    cfg: Config, start: Instant, id: string, snapshot: Snapshot, persistent: bool)
    returns (moments: seq<Moment>, world: World)
    requires cfg.Valid() && ZERO_INSTANT < start
    ensures Leads(cfg, start, moments, world) && RecordKey(id) in world.entries
    ensures !RemovalLasts(cfg, Act(cfg, world, Moment(start, Remove(id))), id)
            <==> cfg.idleTTL / 10 < if persistent then cfg.persistentAbsoluteTTL else cfg.absoluteTTL
  {
    var session;
    moments, world, session := StoredAndHeld(cfg, start, [], Beginning(start), start, id, snapshot, persistent);
    ActsKeepSound(cfg, Beginning(start), moments);
    RemovalLastsExactlyWhenQuiet(cfg, world, start, id);
    var removed := Act(cfg, world, Moment(start, Remove(id)));
    assert session in removed.held;
    if cfg.idleTTL / 10 < cfg.AbsoluteTTLFor(persistent) {
      var asked := start + cfg.idleTTL / 10;
      assert removed.clock <= asked < Deadline(cfg, session) && RefreshDue(cfg, session, asked);
    }
  }
}
