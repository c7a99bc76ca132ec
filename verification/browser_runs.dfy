/**
 One browser, its requests served one at a time, while anything else happens to the store in
 between: what every request keeps, and what every run keeps.
 */
module BrowserRuns {
  import opened Wrappers
  import opened Sessions
  import opened Scope
  import opened Browser

  /** A request served at `now`, with what the store answered. */
  datatype Visit = Visit(now: Instant, req: Request, lookup: Answer, answers: Answers)

  datatype Happening = Visits(visit: Visit) | Elsewhere(timed: Timed)

  /** `obtained` is every session id this browser was ever given. */
  datatype State = State(ledger: Ledger, clock: Instant, jar: Jar, obtained: set<string>)

  function OperationsOf(policy: Policy, jar: Jar, v: Visit): seq<Operation> {
    Operations(policy, v.now, jar, v.req, v.lookup, v.answers)
  }

  function ResponseTo(policy: Policy, jar: Jar, v: Visit): Response {
    Answered(policy, jar, v.req, v.lookup, v.answers)
  }

  function Cookies(res: Response): seq<Cookie> {
    if res.NoResponse? then [] else res.cookies
  }

  function Stored(jar: Jar, cookies: seq<Cookie>): Jar
    decreases |cookies|
  {
    if cookies == [] then jar
    else Stored(if cookies[0].Issue? then Some(cookies[0].id) else None, cookies[1..])
  }

  function Issued(cookies: seq<Cookie>): set<string> {
    set c | c in cookies && c.Issue? :: c.id
  }

  function Finish(v: Visit): Instant {
    v.now + v.req.lag
  }

  ghost predicate Plausible(cfg: Config, policy: Policy, ledger: Ledger, clock: Instant, jar: Jar, v: Visit) {
    && clock <= v.now
    && FreshFor(ledger, jar, v.req)
    && AnswersAgree(cfg, ledger, OperationsOf(policy, jar, v))
  }

  ghost function LedgerAfter(cfg: Config, policy: Policy, ledger: Ledger, jar: Jar, v: Visit): Ledger {
    After(cfg, ledger, OperationsOf(policy, jar, v))
  }

  /******* The operations of a visit are a run of the store *******/

  function EventsOf(operations: seq<Operation>): seq<Timed> {
    if operations == [] then [] else [operations[0].0] + EventsOf(operations[1..])
  }

  lemma {:induction false} AfterIsRun(cfg: Config, ledger: Ledger, operations: seq<Operation>)
    ensures After(cfg, ledger, operations) == Run(cfg, ledger, EventsOf(operations))
    decreases |operations|
  {
    if operations != [] {
      var e := operations[0].0;
      assert EventsOf(operations)[1..] == EventsOf(operations[1..]);
      AfterIsRun(cfg, Step(cfg, ledger, e.now, e.event), operations[1..]);
    }
  }

  lemma RunsTwo(cfg: Config, ledger: Ledger, clock: Instant, operations: seq<Operation>, finish: Instant)
    requires |operations| <= 2 && clock <= finish
    requires forall i :: 0 <= i < |operations| ==> operations[i].0.now == finish
    requires |operations| >= 1 ==> Admissible(ledger, operations[0].0.event)
    requires |operations| == 2 ==> !operations[1].0.event.Create?
    ensures Runs(cfg, ledger, clock, EventsOf(operations))
    ensures End(clock, EventsOf(operations)) <= finish
  {
    var events := EventsOf(operations);
    if |operations| == 1 {
      assert operations[1..] == [] && events == [operations[0].0] && events[1..] == [];
    } else if |operations| == 2 {
      assert operations[1..][1..] == [] && EventsOf(operations[1..]) == [operations[1].0];
      assert events == [operations[0].0, operations[1].0] && events[1..] == [operations[1].0];
      assert events[1..][1..] == [];
      var next := Step(cfg, ledger, finish, events[0].event);
      assert Runs(cfg, next, finish, events[1..]) && End(finish, events[1..]) == finish;
    }
  }

  lemma VisitRuns(cfg: Config, policy: Policy, ledger: Ledger, clock: Instant, jar: Jar, v: Visit)
    requires Plausible(cfg, policy, ledger, clock, jar, v)
    ensures var events := EventsOf(OperationsOf(policy, jar, v));
            && Runs(cfg, ledger, clock, events)
            && End(clock, events) <= Finish(v)
            && LedgerAfter(cfg, policy, ledger, jar, v) == Run(cfg, ledger, events)
  {
    AfterIsRun(cfg, ledger, OperationsOf(policy, jar, v));
    var first := Asked(v.now, jar, v.req, v.lookup);
    var second := Admitted(policy, Finish(v), jar, VerdictOn(v.req, jar, v.lookup), v.req.target, v.answers);
    if first == [] {
      assert first + second == second;
      RunsTwo(cfg, ledger, clock, second, Finish(v));
    } else {
      var asked := first[0].0;
      var next := Step(cfg, ledger, asked.now, asked.event);
      assert (first + second)[1..] == second;
      assert EventsOf(first + second) == [asked] + EventsOf(second);
      assert ([asked] + EventsOf(second))[1..] == EventsOf(second);
      RunsTwo(cfg, next, asked.now, second, Finish(v));
    }
  }

  /******* What a single request can do *******/

  /** A visit ends no session but the one its own cookie names, and that one only by signing out or by
      a sign-in that succeeded. */
  lemma OnlyItsOwnSessionEnds(
    cfg: Config, policy: Policy, ledger: Ledger, clock: Instant, jar: Jar, v: Visit, id: string, t: Instant)
    requires cfg.Valid() && LedgerOk(cfg, ledger, clock) && Plausible(cfg, policy, ledger, clock, jar, v)
    requires Alive(cfg, ledger, id, t) && v.now <= t
    requires !Alive(cfg, LedgerAfter(cfg, policy, ledger, jar, v), id, t)
    ensures jar == Some(id)
    ensures || (v.req.target.SignOut? && v.req.target.delete != Lost)
            || (v.req.target.SignIn? && v.req.target.replace != Lost && ResponseTo(policy, jar, v) == Response(CREATED, [Issue(v.req.target.newId)]))
  {
    var first := Asked(v.now, jar, v.req, v.lookup);
    var second := Admitted(policy, Finish(v), jar, VerdictOn(v.req, jar, v.lookup), v.req.target, v.answers);
    var asked := After(cfg, ledger, first);
    AfterConcat(cfg, ledger, first, second);
    AskingEndsNothing(cfg, ledger, clock, jar, v, id, t);
    if |second| == 1 {
      AfterOne(cfg, asked, second[0]);
      assert second == [second[0]];
      HandlingEndsItsOwn(cfg, asked, second[0].0, id, t);
    } else if |second| == 2 {
      AfterConcat(cfg, asked, [second[0]], [second[1]]);
      assert second == [second[0]] + [second[1]];
      AfterOne(cfg, asked, second[0]);
      var created := Step(cfg, asked, second[0].0.now, second[0].0.event);
      AfterOne(cfg, created, second[1]);
      HandlingEndsItsOwn(cfg, asked, second[0].0, id, t);
      HandlingEndsItsOwn(cfg, created, second[1].0, id, t);
    }
  }

  lemma AskingEndsNothing(cfg: Config, ledger: Ledger, clock: Instant, jar: Jar, v: Visit, id: string, t: Instant)
    requires cfg.Valid() && LedgerOk(cfg, ledger, clock) && clock <= v.now <= t
    requires Alive(cfg, ledger, id, t)
    ensures Alive(cfg, After(cfg, ledger, Asked(v.now, jar, v.req, v.lookup)), id, t)
    ensures After(cfg, ledger, Asked(v.now, jar, v.req, v.lookup)).lives.Keys == ledger.lives.Keys
  {
    if AsksStore(v.req, jar) {
      var event := Lookup(jar.value, v.req.lookup);
      AfterOne(cfg, ledger, (At(v.now, event), v.lookup));
      var next := Step(cfg, ledger, v.now, event);
      assert next.revocations == ledger.revocations;
      assert LifeOk(cfg, id, ledger.lives[id], clock);
      assert RevokedWholesale(next, next.lives[id].session) == RevokedWholesale(ledger, ledger.lives[id].session);
    }
  }

  lemma HandlingEndsItsOwn(cfg: Config, ledger: Ledger, timed: Timed, id: string, t: Instant)
    requires timed.event.Create? || timed.event.Revoke?
    requires Admissible(ledger, timed.event)
    requires Alive(cfg, ledger, id, t)
    ensures Alive(cfg, Step(cfg, ledger, timed.now, timed.event), id, t)
         || (timed.event.Revoke? && timed.event.id == id && timed.event.delete != Lost)
  {
    var next := Step(cfg, ledger, timed.now, timed.event);
    assert next.revocations == ledger.revocations;
  }

  /** A sign-out that succeeds was made with the cookie, and ended the session it names. */
  lemma SignOutLedger(cfg: Config, policy: Policy, ledger: Ledger, clock: Instant, jar: Jar, v: Visit)
    requires Plausible(cfg, policy, ledger, clock, jar, v) && v.req.target.SignOut?
    requires ResponseTo(policy, jar, v) == Response(NO_CONTENT, [Discard])
    ensures Presented(jar) && v.req.target.delete == Done
    ensures LedgerAfter(cfg, policy, ledger, jar, v).lives.Keys == ledger.lives.Keys
    ensures jar.value in ledger.lives ==> LedgerAfter(cfg, policy, ledger, jar, v).lives[jar.value].ended
  {
    var verdict := VerdictOn(v.req, jar, v.lookup);
    assert verdict.Caller? && verdict.principal.scheme == SCHEME_SESSION;
    var first := Asked(v.now, jar, v.req, v.lookup);
    var second := Admitted(policy, Finish(v), jar, verdict, v.req.target, v.answers);
    var asked := After(cfg, ledger, first);
    AfterConcat(cfg, ledger, first, second);
    AfterOne(cfg, ledger, first[0]);
    AfterOne(cfg, asked, second[0]);
  }

  /** A browser is told to drop its cookie only when the session it names is over, for good: it is not
      alive when the response is written, nor after anything that happens to the store later. */
  lemma DiscardOnlyWhenGone(
    cfg: Config, policy: Policy, ledger: Ledger, clock: Instant, jar: Jar, v: Visit, later: seq<Timed>)
    requires cfg.Valid() && LedgerOk(cfg, ledger, clock) && Plausible(cfg, policy, ledger, clock, jar, v)
    requires Discard in Cookies(ResponseTo(policy, jar, v))
    requires Runs(cfg, LedgerAfter(cfg, policy, ledger, jar, v), Finish(v), later)
    requires jar.Some? ==> NeverCreates(later, jar.value)
    ensures Presented(jar)
    ensures !Alive(cfg, LedgerAfter(cfg, policy, ledger, jar, v), jar.value, Finish(v))
    ensures !Alive(cfg, Run(cfg, LedgerAfter(cfg, policy, ledger, jar, v), later), jar.value, End(Finish(v), later))
  {
    var verdict := VerdictOn(v.req, jar, v.lookup);
    var after := LedgerAfter(cfg, policy, ledger, jar, v);
    if verdict == Anonymous(true) {
      NotFoundIsGone(cfg, policy, ledger, clock, jar, v);
    } else {
      assert v.req.target.SignOut?;
      assert ResponseTo(policy, jar, v) == Response(NO_CONTENT, [Discard]);
      SignOutLedger(cfg, policy, ledger, clock, jar, v);
    }
    GoneStaysGone(cfg, after, Finish(v), later, jar.value);
  }

  lemma NotFoundIsGone(cfg: Config, policy: Policy, ledger: Ledger, clock: Instant, jar: Jar, v: Visit)
    requires cfg.Valid() && LedgerOk(cfg, ledger, clock) && Plausible(cfg, policy, ledger, clock, jar, v)
    requires VerdictOn(v.req, jar, v.lookup) == Anonymous(true)
    ensures AsksStore(v.req, jar)
    ensures !Alive(cfg, ledger, jar.value, v.now)
    ensures !Alive(cfg, LedgerAfter(cfg, policy, ledger, jar, v), jar.value, Finish(v))
  {
    var first := Asked(v.now, jar, v.req, v.lookup);
    assert OperationsOf(policy, jar, v) == first;
    AfterOne(cfg, ledger, first[0]);
  }

  /** A cache request the verification needs that fails, for whatever reason, yields 503 with the cookie
      left in place; and the store is as it was, unless it was the refresh that went through unacknowledged. */
  lemma OutageDecidesNothing(cfg: Config, policy: Policy, ledger: Ledger, clock: Instant, jar: Jar, v: Visit)
    requires cfg.Valid() && LedgerOk(cfg, ledger, clock) && Plausible(cfg, policy, ledger, clock, jar, v)
    requires AsksStore(v.req, jar)
    requires || !v.req.lookup.get
             || (&& Alive(cfg, ledger, jar.value, v.now)
                 && (!v.req.lookup.marker
                     || (RefreshDue(cfg, ledger.lives[jar.value].session, v.now) && v.req.lookup.write != Done)))
    ensures ResponseTo(policy, jar, v) == Response(UNAVAILABLE, [])
    ensures v.req.lookup.write != Unacknowledged || !v.req.lookup.get || !v.req.lookup.marker ==>
              LedgerAfter(cfg, policy, ledger, jar, v) == ledger
  {
    var first := Asked(v.now, jar, v.req, v.lookup);
    var second := Admitted(policy, Finish(v), jar, VerdictOn(v.req, jar, v.lookup), v.req.target, v.answers);
    AfterConcat(cfg, ledger, first, second);
    AfterOne(cfg, ledger, first[0]);
    assert v.lookup == Unavailable && second == [] && first + second == first;
    var next := Step(cfg, ledger, v.now, first[0].0.event);
    if v.req.lookup.get && v.req.lookup.marker && v.req.lookup.write == Lost {
      assert next.lives == ledger.lives;
    }
  }

  /** A session endpoint answers 401 exactly when the request carries a credential known to be bad, or
      no credential at all, or a cookie the store said names no live session. */
  lemma UnauthorizedIsTrue(cfg: Config, policy: Policy, ledger: Ledger, clock: Instant, jar: Jar, v: Visit)
    requires cfg.Valid() && LedgerOk(cfg, ledger, clock) && Plausible(cfg, policy, ledger, clock, jar, v)
    requires !v.req.target.Other?
    ensures
      var res := ResponseTo(policy, jar, v);
      res.Response? &&
      (res.status == UNAUTHORIZED
       <==>
       || v.req.bearer.BadToken?
       || (v.req.bearer.NoToken? && v.req.apiKey.UnknownKey?)
       || (v.req.bearer.NoToken? && v.req.apiKey.NoKey?
           && (!Presented(jar) || (v.lookup != Unavailable && !Alive(cfg, ledger, jar.value, v.now)))))
  {
    if AsksStore(v.req, jar) {
      var first := Asked(v.now, jar, v.req, v.lookup);
      var second := Admitted(policy, Finish(v), jar, VerdictOn(v.req, jar, v.lookup), v.req.target, v.answers);
      AfterConcat(cfg, ledger, first, second);
      AfterOne(cfg, ledger, first[0]);
    }
  }

  /** A sign-out that fails leaves the cookie where it is, and every session alive but one: its own,
      when the deletion took effect without being acknowledged. */
  lemma FailedSignOutKeepsBoth(
    cfg: Config, policy: Policy, ledger: Ledger, clock: Instant, jar: Jar, v: Visit, id: string, t: Instant)
    requires cfg.Valid() && LedgerOk(cfg, ledger, clock) && Plausible(cfg, policy, ledger, clock, jar, v)
    requires v.req.target.SignOut? && ResponseTo(policy, jar, v) == Response(UNAVAILABLE, [])
    requires v.now <= t && Alive(cfg, ledger, id, t)
    ensures Stored(jar, Cookies(ResponseTo(policy, jar, v))) == jar
    ensures Alive(cfg, LedgerAfter(cfg, policy, ledger, jar, v), id, t)
            <==> !(AsksStore(v.req, jar) && v.lookup.Found? && jar == Some(id) && v.req.target.delete == Unacknowledged)
  {
    var first := Asked(v.now, jar, v.req, v.lookup);
    var verdict := VerdictOn(v.req, jar, v.lookup);
    var second := Admitted(policy, Finish(v), jar, verdict, v.req.target, v.answers);
    AfterConcat(cfg, ledger, first, second);
    AskingEndsNothing(cfg, ledger, clock, jar, v, id, t);
    if second == [] {
      assert first + second == first;
    } else {
      assert second == [second[0]];
      AfterOne(cfg, After(cfg, ledger, first), second[0]);
      HandlingEndsItsOwn(cfg, After(cfg, ledger, first), second[0].0, id, t);
      assert id != "";
    }
  }

  /** That happens: any live session can be signed out of with a 503 that keeps its cookie. */
  lemma FailedSignOutMayEnd(cfg: Config, policy: Policy, ledger: Ledger, clock: Instant, id: string, now: Instant)
    returns (v: Visit)
    requires cfg.Valid() && LedgerOk(cfg, ledger, clock) && clock <= now && Alive(cfg, ledger, id, now)
    ensures Plausible(cfg, policy, ledger, clock, Some(id), v) && v.now == now && v.req.target.SignOut?
    ensures ResponseTo(policy, Some(id), v) == Response(UNAVAILABLE, [])
    ensures !Alive(cfg, LedgerAfter(cfg, policy, ledger, Some(id), v), id, now)
  {
    var req := Request(NoToken, NoKey, NO_FAULTS, 0, SignOut(Unacknowledged));
    var found := Expected(cfg, ledger, now, Lookup(id, NO_FAULTS));
    v := Visit(now, req, found, Answers(Unavailable, Unavailable));
    var jar: Jar := Some(id);
    var first := Asked(now, jar, req, found);
    var verdict := VerdictOn(req, jar, found);
    var second := Admitted(policy, now, jar, verdict, req.target, v.answers);
    assert Satisfies(verdict.principal.(implied := policy), []);
    assert second == [second[0]];
    AfterConcat(cfg, ledger, first, second);
    AfterOne(cfg, ledger, first[0]);
    AfterOne(cfg, After(cfg, ledger, first), second[0]);
    FailedSignOutKeepsBoth(cfg, policy, ledger, clock, jar, v, id, now);
  }

  /** The table the application's policy was resolved from, if it states one. */
  ghost predicate Governs(table: Table, policy: Policy) {
    policy.Attached? ==> Resolves(policy.policy, table)
  }

  /** A caller of this scheme holding these scopes may use the endpoint. */
  ghost predicate MayUse(policy: Policy, table: Table, security: Security, scheme: string, held: seq<string>) {
    || security.isPublic
    || (&& (security.schemes == [] || scheme in security.schemes)
        && forall s :: s in security.scopes ==> Has(policy, table, held, s))
  }

  /** Past verification, an endpoint is closed unless it is public, or the caller came by an accepted
      scheme and every scope it requires is carried or reachable in the policy from one that is. */
  lemma AdmissionIsReachability(policy: Policy, table: Table, security: Security, verdict: Verdict)
    requires Governs(table, policy) && (verdict.Caller? || verdict.Anonymous?)
    ensures
      Refusal(security, WithPolicy(verdict, policy)) ==
      if verdict.Anonymous? then (if security.isPublic then None else Some(401))
      else if MayUse(policy, table, security, verdict.principal.scheme, verdict.principal.scopes) then None
      else Some(403)
  {
    if verdict.Caller? {
      SatisfiesIsReachability(verdict.principal.(implied := policy), table, security.scopes);
    }
  }

  /******* What each credential is answered *******/

  /** A credential known to be bad is refused everywhere, at public endpoints too, and one nobody could
      judge leaves the request unanswered; neither reaches an endpoint or the store. */
  lemma BadCredentialsGetNowhere(policy: Policy, now: Instant, jar: Jar, req: Request, lookup: Answer, answers: Answers)
    ensures req.bearer.BadToken? || (req.bearer.NoToken? && req.apiKey.UnknownKey?) ==>
              && Answered(policy, jar, req, lookup, answers) == Response(401, [])
              && Operations(policy, now, jar, req, lookup, answers) == []
    ensures req.bearer.NoToken? && req.apiKey.UncheckedKey? ==>
              && Answered(policy, jar, req, lookup, answers) == Response(503, [])
              && Operations(policy, now, jar, req, lookup, answers) == []
  {
  }

  /** The caller an endpoint sees is the credential's: its subject and scopes as issued, marked with the way
      it came, and judged under the application's policy. */
  lemma CallerIsTheCredentials(policy: Policy, jar: Jar, req: Request, lookup: Answer)
    ensures
      var verdict := WithPolicy(VerdictOn(req, jar, lookup), policy);
      && (req.bearer.GoodToken? ==>
            verdict == Caller(Principal(req.bearer.subject, req.bearer.scopes, "jwt", policy)))
      && (req.bearer.NoToken? && req.apiKey.GoodKey? ==>
            verdict == Caller(Principal(req.apiKey.subject, req.apiKey.scopes, "apiKey", policy)))
      && (req.bearer.NoToken? && req.apiKey.NoKey? && jar.Some? && jar.value != "" && lookup.Found? ==>
            verdict ==
            Caller(Principal(lookup.session.snapshot.subject, lookup.session.snapshot.scopes, "session", policy)))
      && (verdict.Caller? ==>
            || req.bearer.GoodToken?
            || (req.bearer.NoToken? && req.apiKey.GoodKey?)
            || (req.bearer.NoToken? && req.apiKey.NoKey? && jar.Some? && jar.value != "" && lookup.Found?))
  {
  }

  /** The endpoint's own answer. */
  function Own(target: Target): Response
    requires target.Other?
  {
    if target.answer.None? then NoResponse else Response(target.answer.value, [])
  }

  /** A header decides alone: with a good token neither the API key nor the cookie changes the answer,
      with a good API key the cookie does not; and each enters exactly where its scheme and scopes may. */
  lemma HeadersDecide(policy: Policy, table: Table, jar: Jar, req: Request, lookup: Answer, answers: Answers)
    requires Governs(table, policy) && req.target.Other?
    ensures req.bearer.GoodToken? ==>
              Answered(policy, jar, req, lookup, answers) ==
              if MayUse(policy, table, req.target.security, "jwt", req.bearer.scopes)
              then Own(req.target) else Response(403, [])
    ensures req.bearer.NoToken? && req.apiKey.GoodKey? ==>
              Answered(policy, jar, req, lookup, answers) ==
              if MayUse(policy, table, req.target.security, "apiKey", req.apiKey.scopes)
              then Own(req.target) else Response(403, [])
  {
    var verdict := VerdictOn(req, jar, lookup);
    if verdict.Caller? {
      AdmissionIsReachability(policy, table, req.target.security, verdict);
    }
  }

  /** Without a header the cookie decides: a session found speaks for its subject's scopes, one that is
      gone leaves an anonymous request and takes its cookie along, and no answer is no answer. */
  lemma CookieDecides(policy: Policy, table: Table, jar: Jar, req: Request, lookup: Answer, answers: Answers)
    requires Governs(table, policy) && req.target.Other?
    requires req.bearer.NoToken? && req.apiKey.NoKey?
    ensures
      Answered(policy, jar, req, lookup, answers) ==
      var security, presented := req.target.security, jar.Some? && jar.value != "";
      if presented && lookup.Found? then
        (if MayUse(policy, table, security, "session", lookup.session.snapshot.scopes)
         then Own(req.target) else Response(403, []))
      else if presented && lookup != NotFound then Response(503, [])
      else
        var discards := if presented then [Discard] else [];
        if !security.isPublic then Response(401, discards)
        else if req.target.answer.None? then NoResponse
        else Response(req.target.answer.value, discards)
  {
    var verdict := VerdictOn(req, jar, lookup);
    if verdict.Caller? || verdict.Anonymous? {
      AdmissionIsReachability(policy, table, req.target.security, verdict);
    }
  }

  /** POST /session takes a token and nothing else, DELETE /session a session and nothing else. */
  lemma SessionEndpointsAnswer(policy: Policy, jar: Jar, req: Request, lookup: Answer, answers: Answers)
    ensures req.target.SignIn? && req.bearer.GoodToken? ==>
              Answered(policy, jar, req, lookup, answers) ==
              if !req.target.bodyOk then Response(422, [])
              else if answers.create.Found? then Response(201, [Issue(req.target.newId)])
              else Response(503, [])
    ensures req.target.SignOut? && req.bearer.GoodToken? ==> Answered(policy, jar, req, lookup, answers) == Response(403, [])
    ensures !req.target.Other? && req.bearer.NoToken? && req.apiKey.GoodKey? ==>
              Answered(policy, jar, req, lookup, answers) == Response(403, [])
    ensures !req.target.Other? && req.bearer.NoToken? && req.apiKey.NoKey? && jar.Some? && jar.value != "" ==>
              Answered(policy, jar, req, lookup, answers) ==
              if lookup == NotFound then Response(401, [Discard])
              else if !lookup.Found? then Response(503, [])
              else if req.target.SignIn? then Response(403, [])
              else if answers.revoke == Accepted then Response(204, [Discard])
              else Response(503, [])
  {
    var verdict := VerdictOn(req, jar, lookup);
    if verdict.Caller? {
      assert Satisfies(verdict.principal.(implied := policy), []);
    }
  }

  /** A token traded for a session: for as long as the session is found, whatever happens in between,
      requests carrying its cookie are made by the token's subject, with the token's scopes and no
      more, and count as session requests. */
  lemma SessionSpeaksForItsCaller(
    cfg: Config, policy: Policy, ledger: Ledger, clock: Instant, jar: Jar, v: Visit, between: seq<Timed>, w: Visit)
    requires cfg.Valid() && LedgerOk(cfg, ledger, clock) && Plausible(cfg, policy, ledger, clock, jar, v)
    requires v.req.target.SignIn? && ResponseTo(policy, jar, v) == Response(CREATED, [Issue(v.req.target.newId)])
    requires
      var signedIn := LedgerAfter(cfg, policy, ledger, jar, v);
      && Runs(cfg, signedIn, Finish(v), between)
      && Plausible(cfg, policy, Run(cfg, signedIn, between), End(Finish(v), between), Some(v.req.target.newId), w)
    requires AsksStore(w.req, Some(v.req.target.newId)) && w.lookup.Found?
    ensures v.req.bearer.GoodToken?
    ensures VerdictOn(w.req, Some(v.req.target.newId), w.lookup) ==
            Caller(Principal(v.req.bearer.subject, v.req.bearer.scopes, SCHEME_SESSION, NoPolicy))
  {
    var id := v.req.target.newId;
    var signedIn := LedgerAfter(cfg, policy, ledger, jar, v);
    NewSessionIsTheTokens(cfg, policy, ledger, clock, jar, v);
    SessionIsFixed(cfg, signedIn, Finish(v), between, id);
    var later := Run(cfg, signedIn, between);
    var first := Asked(w.now, Some(id), w.req, w.lookup);
    AfterConcat(cfg, later, first,
                Admitted(policy, Finish(w), Some(id), VerdictOn(w.req, Some(id), w.lookup), w.req.target, w.answers));
    AfterOne(cfg, later, first[0]);
  }

  /** A sign-in that succeeds opens exactly the session asked for: the token's subject and scopes, the
      profile in the body, its lifetime counted from the handler's clock. */
  lemma NewSessionIsTheTokens(cfg: Config, policy: Policy, ledger: Ledger, clock: Instant, jar: Jar, v: Visit)
    requires Plausible(cfg, policy, ledger, clock, jar, v)
    requires v.req.target.SignIn? && ResponseTo(policy, jar, v) == Response(201, [Issue(v.req.target.newId)])
    ensures v.req.bearer.GoodToken?
    ensures
      var after, id := LedgerAfter(cfg, policy, ledger, jar, v), v.req.target.newId;
      var handled, ttl := v.now + v.req.lag, if v.req.target.persistent then cfg.persistentAbsoluteTTL else cfg.absoluteTTL;
      && id in after.lives
      && !after.lives[id].ended
      && after.lives[id].session ==
         Session(id, Snapshot(v.req.bearer.subject, v.req.bearer.scopes), v.req.target.persistent, handled, handled + ttl, handled)
  {
    var verdict := VerdictOn(v.req, jar, v.lookup);
    assert verdict.Caller? && verdict.principal.scheme == SCHEME_JWT;
    var second := Admitted(policy, Finish(v), jar, verdict, v.req.target, v.answers);
    assert OperationsOf(policy, jar, v) == second;
    AfterOne(cfg, ledger, second[0]);
    if Presented(jar) {
      assert second == [second[0]] + [second[1]];
      AfterConcat(cfg, ledger, [second[0]], [second[1]]);
      AfterOne(cfg, After(cfg, ledger, [second[0]]), second[1]);
    } else {
      assert second == [second[0]];
    }
  }

  /******* Every run *******/

  /** A sign-in gets through to the session it replaces, acknowledged or not. */
  predicate EndsWhatItReplaces(v: Visit) {
    v.req.target.SignIn? ==> v.req.target.replace != Lost
  }

  ghost predicate CanHappen(cfg: Config, policy: Policy, st: State, h: Happening) {
    match h
    case Visits(v) => Plausible(cfg, policy, st.ledger, st.clock, st.jar, v)
    case Elsewhere(timed) => st.clock <= timed.now && Admissible(st.ledger, timed.event)
  }

  ghost function Next(cfg: Config, policy: Policy, st: State, h: Happening): State {
    match h
    case Visits(v) =>
      var cookies := Cookies(ResponseTo(policy, st.jar, v));
      State(LedgerAfter(cfg, policy, st.ledger, st.jar, v), Finish(v), Stored(st.jar, cookies),
            st.obtained + Issued(cookies))
    case Elsewhere(timed) =>
      st.(ledger := Step(cfg, st.ledger, timed.now, timed.event), clock := timed.now)
  }

  ghost predicate CanAllHappen(cfg: Config, policy: Policy, st: State, hs: seq<Happening>)
    decreases |hs|
  {
    hs == [] || (CanHappen(cfg, policy, st, hs[0]) && CanAllHappen(cfg, policy, Next(cfg, policy, st, hs[0]), hs[1..]))
  }

  ghost function Last(cfg: Config, policy: Policy, st: State, hs: seq<Happening>): State
    decreases |hs|
  {
    if hs == [] then st else Last(cfg, policy, Next(cfg, policy, st, hs[0]), hs[1..])
  }

  /** Every session the browser was ever given is the one in its jar, or over. */
  ghost predicate NothingLeftBehind(cfg: Config, st: State) {
    && st.obtained <= st.ledger.lives.Keys
    && forall id :: id in st.obtained && Alive(cfg, st.ledger, id, st.clock) ==> st.jar == Some(id)
  }

  ghost predicate StateOk(cfg: Config, st: State) {
    && cfg.Valid()
    && ZERO_INSTANT < st.clock
    && LedgerOk(cfg, st.ledger, st.clock)
    && NothingLeftBehind(cfg, st)
  }

  lemma VisitKeepsLedgerOk(cfg: Config, policy: Policy, st: State, v: Visit)
    requires StateOk(cfg, st) && Plausible(cfg, policy, st.ledger, st.clock, st.jar, v)
    ensures LedgerOk(cfg, LedgerAfter(cfg, policy, st.ledger, st.jar, v), Finish(v))
    ensures forall id :: Dead(cfg, st.ledger, id, st.clock) ==>
              Dead(cfg, LedgerAfter(cfg, policy, st.ledger, st.jar, v), id, Finish(v))
  {
    var events := EventsOf(OperationsOf(policy, st.jar, v));
    VisitRuns(cfg, policy, st.ledger, st.clock, st.jar, v);
    RunKeepsLedgerOk(cfg, st.ledger, st.clock, events);
    forall id | Dead(cfg, st.ledger, id, st.clock)
      ensures Dead(cfg, LedgerAfter(cfg, policy, st.ledger, st.jar, v), id, Finish(v))
    {
      DeadStaysDead(cfg, st.ledger, st.clock, events, id);
    }
  }

  /** A successful sign-in ends the session the browser was holding. */
  lemma SignInLedger(cfg: Config, policy: Policy, ledger: Ledger, clock: Instant, jar: Jar, v: Visit)
    requires Plausible(cfg, policy, ledger, clock, jar, v) && v.req.target.SignIn? && EndsWhatItReplaces(v)
    requires ResponseTo(policy, jar, v) == Response(CREATED, [Issue(v.req.target.newId)])
    ensures v.req.target.newId in LedgerAfter(cfg, policy, ledger, jar, v).lives
    ensures Presented(jar) && jar.value in ledger.lives ==>
              var after := LedgerAfter(cfg, policy, ledger, jar, v);
              jar.value in after.lives && after.lives[jar.value].ended
  {
    var verdict := VerdictOn(v.req, jar, v.lookup);
    assert verdict.Caller? && verdict.principal.scheme == SCHEME_JWT;
    var second := Admitted(policy, Finish(v), jar, verdict, v.req.target, v.answers);
    assert OperationsOf(policy, jar, v) == second;
    AfterOne(cfg, ledger, second[0]);
    if Presented(jar) {
      assert second == [second[0]] + [second[1]];
      AfterConcat(cfg, ledger, [second[0]], [second[1]]);
      AfterOne(cfg, After(cfg, ledger, [second[0]]), second[1]);
    } else {
      assert second == [second[0]];
    }
  }

  /** The sessions that could be left behind by a change of cookie are over. */
  lemma OldCookieIsOver(cfg: Config, policy: Policy, st: State, v: Visit, id: string)
    requires StateOk(cfg, st) && Plausible(cfg, policy, st.ledger, st.clock, st.jar, v) && EndsWhatItReplaces(v)
    requires id in st.obtained && Cookies(ResponseTo(policy, st.jar, v)) != []
    ensures !Alive(cfg, LedgerAfter(cfg, policy, st.ledger, st.jar, v), id, Finish(v))
  {
    VisitKeepsLedgerOk(cfg, policy, st, v);
    assert id in st.ledger.lives && id != "";
    if st.jar == Some(id) {
      if Discard in Cookies(ResponseTo(policy, st.jar, v)) {
        DiscardOnlyWhenGone(cfg, policy, st.ledger, st.clock, st.jar, v, []);
      } else {
        SignInLedger(cfg, policy, st.ledger, st.clock, st.jar, v);
      }
    } else {
      assert Dead(cfg, st.ledger, id, st.clock);
    }
  }

  /** A response carries at most one cookie, and a new one only to the session just created. */
  lemma CookieChange(cfg: Config, policy: Policy, st: State, v: Visit)
    requires StateOk(cfg, st) && Plausible(cfg, policy, st.ledger, st.clock, st.jar, v) && EndsWhatItReplaces(v)
    ensures
      var cookies := Cookies(ResponseTo(policy, st.jar, v));
      || cookies == []
      || cookies == [Discard]
      || (&& v.req.target.SignIn?
          && cookies == [Issue(v.req.target.newId)]
          && v.req.target.newId in LedgerAfter(cfg, policy, st.ledger, st.jar, v).lives)
  {
    if v.req.target.SignIn? && ResponseTo(policy, st.jar, v) == Response(CREATED, [Issue(v.req.target.newId)]) {
      SignInLedger(cfg, policy, st.ledger, st.clock, st.jar, v);
    }
  }

  lemma VisitLeavesNothingBehind(cfg: Config, policy: Policy, st: State, v: Visit)
    requires StateOk(cfg, st) && Plausible(cfg, policy, st.ledger, st.clock, st.jar, v) && EndsWhatItReplaces(v)
    ensures StateOk(cfg, Next(cfg, policy, st, Visits(v)))
  {
    var cookies := Cookies(ResponseTo(policy, st.jar, v));
    var next := Next(cfg, policy, st, Visits(v));
    VisitKeepsLedgerOk(cfg, policy, st, v);
    KeysSurvive(cfg, policy, st, v);
    CookieChange(cfg, policy, st, v);
    if cookies != [] {
      StoredOne(st.jar, cookies[0]);
      assert cookies == [cookies[0]];
    }
    forall id | id in next.obtained && Alive(cfg, next.ledger, id, next.clock)
      ensures next.jar == Some(id)
    {
      if id in st.obtained {
        if cookies != [] {
          OldCookieIsOver(cfg, policy, st, v, id);
          assert false;
        }
        assert st.jar != Some(id) ==> Dead(cfg, st.ledger, id, st.clock);
      }
    }
  }

  lemma StoredOne(jar: Jar, cookie: Cookie)
    ensures Stored(jar, [cookie]) == if cookie.Issue? then Some(cookie.id) else None
    ensures Issued([cookie]) == if cookie.Issue? then {cookie.id} else {}
  {
    assert [cookie][1..] == [];
  }

  lemma KeysSurvive(cfg: Config, policy: Policy, st: State, v: Visit)
    ensures st.ledger.lives.Keys <= LedgerAfter(cfg, policy, st.ledger, st.jar, v).lives.Keys
  {
    AfterKeepsKeys(cfg, st.ledger, OperationsOf(policy, st.jar, v));
  }

  lemma {:induction false} AfterKeepsKeys(cfg: Config, ledger: Ledger, operations: seq<Operation>)
    ensures ledger.lives.Keys <= After(cfg, ledger, operations).lives.Keys
    decreases |operations|
  {
    if operations != [] {
      AfterKeepsKeys(cfg, Step(cfg, ledger, operations[0].0.now, operations[0].0.event), operations[1..]);
    }
  }

  lemma ElsewhereLeavesNothingBehind(cfg: Config, policy: Policy, st: State, timed: Timed)
    requires StateOk(cfg, st) && CanHappen(cfg, policy, st, Elsewhere(timed))
    ensures StateOk(cfg, Next(cfg, policy, st, Elsewhere(timed)))
  {
    StepKeepsLedgerOk(cfg, st.ledger, st.clock, timed.now, timed.event);
    forall id | id in st.obtained && st.jar != Some(id)
      ensures Dead(cfg, Next(cfg, policy, st, Elsewhere(timed)).ledger, id, timed.now)
    {
      DeadStaysDeadStep(cfg, st.ledger, st.clock, timed.now, timed.event, id);
    }
  }

  /** Every live session a browser ever obtained is the one in its jar, over every run of sign-ins,
      sign-outs and other requests, whatever headers they carry, whatever cache requests fail and
      whatever happens elsewhere in between, as long as each sign-in gets through to the session it
      replaces. */
  lemma {:induction false} NoSessionIsLeftBehind(cfg: Config, policy: Policy, st: State, hs: seq<Happening>)
    requires StateOk(cfg, st) && CanAllHappen(cfg, policy, st, hs)
    requires forall i :: 0 <= i < |hs| && hs[i].Visits? ==> EndsWhatItReplaces(hs[i].visit)
    ensures StateOk(cfg, Last(cfg, policy, st, hs))
    decreases |hs|
  {
    if hs != [] {
      match hs[0] {
        case Visits(v) => VisitLeavesNothingBehind(cfg, policy, st, v);
        case Elsewhere(timed) => ElsewhereLeavesNothingBehind(cfg, policy, st, timed);
      }
      NoSessionIsLeftBehind(cfg, policy, Next(cfg, policy, st, hs[0]), hs[1..]);
    }
  }

  /** The visit signs in over a session the browser was given, and loses the request to end it. */
  ghost predicate LosesWhatItReplaces(cfg: Config, policy: Policy, st: State, v: Visit) {
    && v.req.target.SignIn?
    && v.req.target.replace == Lost
    && ResponseTo(policy, st.jar, v) == Response(CREATED, [Issue(v.req.target.newId)])
    && st.jar.Some?
    && st.jar.value in st.obtained
    && Alive(cfg, st.ledger, st.jar.value, Finish(v))
  }

  /** A visit leaves a live session behind exactly when it loses what it replaces. */
  lemma LeftBehindExactly(cfg: Config, policy: Policy, st: State, v: Visit)
    requires StateOk(cfg, st) && Plausible(cfg, policy, st.ledger, st.clock, st.jar, v)
    ensures NothingLeftBehind(cfg, Next(cfg, policy, st, Visits(v))) <==> !LosesWhatItReplaces(cfg, policy, st, v)
  {
    if EndsWhatItReplaces(v) {
      VisitLeavesNothingBehind(cfg, policy, st, v);
    } else if ResponseTo(policy, st.jar, v) == Response(CREATED, [Issue(v.req.target.newId)]) {
      LostReplacementLives(cfg, policy, st, v);
    } else {
      KeysSurvive(cfg, policy, st, v);
      VisitKeepsLedgerOk(cfg, policy, st, v);
      NoNewCookie(cfg, policy, st, v);
    }
  }

  /** With the request to end it lost, the replaced session lives on as if nothing had happened. */
  lemma LostReplacementLives(cfg: Config, policy: Policy, st: State, v: Visit)
    requires StateOk(cfg, st) && Plausible(cfg, policy, st.ledger, st.clock, st.jar, v)
    requires v.req.target.SignIn? && v.req.target.replace == Lost
    requires ResponseTo(policy, st.jar, v) == Response(CREATED, [Issue(v.req.target.newId)])
    ensures NothingLeftBehind(cfg, Next(cfg, policy, st, Visits(v))) <==> !LosesWhatItReplaces(cfg, policy, st, v)
  {
    var after := LedgerAfter(cfg, policy, st.ledger, st.jar, v);
    LostReplacementLedger(cfg, policy, st.ledger, st.clock, st.jar, v);
    StoredOne(st.jar, Issue(v.req.target.newId));
    VisitKeepsLedgerOk(cfg, policy, st, v);
    KeysSurvive(cfg, policy, st, v);
    var next := Next(cfg, policy, st, Visits(v));
    forall id | id in st.obtained && st.jar != Some(id)
      ensures !Alive(cfg, after, id, Finish(v))
    {
      assert Dead(cfg, st.ledger, id, st.clock);
    }
    if st.jar.Some? && st.jar.value in st.obtained {
      assert Alive(cfg, after, st.jar.value, Finish(v)) == Alive(cfg, st.ledger, st.jar.value, Finish(v));
    }
  }

  /** It leaves every session as it was. */
  lemma LostReplacementLedger(cfg: Config, policy: Policy, ledger: Ledger, clock: Instant, jar: Jar, v: Visit)
    requires Plausible(cfg, policy, ledger, clock, jar, v)
    requires v.req.target.SignIn? && v.req.target.replace == Lost
    requires ResponseTo(policy, jar, v) == Response(CREATED, [Issue(v.req.target.newId)])
    ensures v.req.target.newId in LedgerAfter(cfg, policy, ledger, jar, v).lives
    ensures forall id, t :: id in ledger.lives ==>
              (Alive(cfg, LedgerAfter(cfg, policy, ledger, jar, v), id, t) <==> Alive(cfg, ledger, id, t))
  {
    var verdict := VerdictOn(v.req, jar, v.lookup);
    assert verdict.Caller? && verdict.principal.scheme == SCHEME_JWT;
    var second := Admitted(policy, Finish(v), jar, verdict, v.req.target, v.answers);
    assert OperationsOf(policy, jar, v) == second;
    AfterOne(cfg, ledger, second[0]);
    var created := Step(cfg, ledger, Finish(v), second[0].0.event);
    if Presented(jar) {
      assert second == [second[0]] + [second[1]];
      AfterConcat(cfg, ledger, [second[0]], [second[1]]);
      AfterOne(cfg, created, second[1]);
    } else {
      assert second == [second[0]];
    }
    assert LedgerAfter(cfg, policy, ledger, jar, v) == created && created.revocations == ledger.revocations;
    assert forall id :: id in ledger.lives ==> created.lives[id] == ledger.lives[id];
  }

  /** A sign-in that does not succeed changes neither the jar nor what the browser holds. */
  lemma NoNewCookie(cfg: Config, policy: Policy, st: State, v: Visit)
    requires StateOk(cfg, st) && Plausible(cfg, policy, st.ledger, st.clock, st.jar, v)
    requires v.req.target.SignIn? && ResponseTo(policy, st.jar, v) != Response(CREATED, [Issue(v.req.target.newId)])
    ensures NothingLeftBehind(cfg, Next(cfg, policy, st, Visits(v)))
  {
    var cookies := Cookies(ResponseTo(policy, st.jar, v));
    var next := Next(cfg, policy, st, Visits(v));
    VisitKeepsLedgerOk(cfg, policy, st, v);
    KeysSurvive(cfg, policy, st, v);
    if cookies != [] {
      assert cookies == [Discard];
      StoredOne(st.jar, Discard);
      DiscardOnlyWhenGone(cfg, policy, st.ledger, st.clock, st.jar, v, []);
    }
    forall id | id in next.obtained && Alive(cfg, next.ledger, id, next.clock)
      ensures next.jar == Some(id)
    {
      assert st.jar != Some(id) ==> Dead(cfg, st.ledger, id, st.clock);
    }
  }
}
