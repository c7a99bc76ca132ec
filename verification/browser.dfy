/**
 The request path around the session store: credential verification, the authentication middleware,
 the two session endpoints, and the cookie jar of the browser on the other end (the storage model of
 section 5.3 of RFC 6265, restricted to the session cookie).

 Token verification and the API key lookup are given by their verdicts; every failure of the cache
 is the environment's choice.
 */
module Browser {
  import opened Wrappers
  import opened Sessions
  import opened SessionCache
  import opened Scope

  const SCHEME_JWT := "jwt"
  const SCHEME_API_KEY := "apiKey"
  const SCHEME_SESSION := "session"

  const CREATED := 201
  const NO_CONTENT := 204
  const UNAUTHORIZED := 401
  const FORBIDDEN := 403
  const UNPROCESSABLE := 422
  const UNAVAILABLE := 503

  datatype Bearer = NoToken | BadToken | GoodToken(subject: string, scopes: seq<string>)

  datatype ApiKey = NoKey | UnknownKey | UncheckedKey | GoodKey(subject: string, scopes: seq<string>)

  datatype Security = Security(isPublic: bool, schemes: seq<string>, scopes: seq<string>)

  /** Where a request goes. `newId` is what the id generator returns. Any other endpoint answers with
      a status of its own, or with no response at all. */
  datatype Target =
    | SignIn(bodyOk: bool, persistent: bool, newId: string, create: Effect, replace: Effect)
    | SignOut(delete: Effect)
    | Other(security: Security, answer: Option<int>)

  /** `lag` is the time between verification and the handler. */
  datatype Request = Request(bearer: Bearer, apiKey: ApiKey, lookup: LookupFaults, lag: nat, target: Target)

  datatype Cookie = Issue(id: string) | Discard

  datatype Response = NoResponse | Response(status: int, cookies: seq<Cookie>)

  type Jar = Option<string>

  /******* Verification *******/

  datatype Verdict =
    | Caller(principal: Principal)
    | Anonymous(discard: bool)
    | Untrusted
    | Unchecked

  function Presented(jar: Jar): bool {
    jar.Some? && jar.value != ""
  }

  /** Only a request without a header to judge has its cookie looked up. */
  predicate AsksStore(req: Request, jar: Jar) {
    req.bearer.NoToken? && req.apiKey.NoKey? && Presented(jar)
  }

  function VerdictOn(req: Request, jar: Jar, lookup: Answer): Verdict {
    match req.bearer
    case BadToken => Untrusted
    case GoodToken(subject, scopes) => Caller(Principal(subject, scopes, SCHEME_JWT, NoPolicy))
    case NoToken =>
      match req.apiKey
      case UnknownKey => Untrusted
      case UncheckedKey => Unchecked
      case GoodKey(subject, scopes) => Caller(Principal(subject, scopes, SCHEME_API_KEY, NoPolicy))
      case NoKey =>
        if !Presented(jar) then Anonymous(false)
        else match lookup
             case Found(session) =>
               Caller(Principal(session.snapshot.subject, session.snapshot.scopes, SCHEME_SESSION, NoPolicy))
             case NotFound => Anonymous(true)
             case _ => Unchecked
  }

  method Verify(store: CacheStore, now: Instant, jar: Jar, req: Request) returns (verdict: Verdict, ghost lookup: Answer)
    requires store.Valid() && store.cache.clock <= now
    modifies store.cache
    ensures store.Valid() && store.cache.clock <= now
    ensures verdict == VerdictOn(req, jar, lookup)
    ensures AsksStore(req, jar) ==>
              var event := Lookup(jar.value, req.lookup);
              && Agrees(store.cfg, old(store.cache.ledger), now, event, lookup)
              && store.cache.ledger == Step(store.cfg, old(store.cache.ledger), now, event)
    ensures !AsksStore(req, jar) ==> store.cache.ledger == old(store.cache.ledger)
  {
    lookup := Unavailable;
    match req.bearer
    case BadToken => verdict := Untrusted;
    case GoodToken(subject, scopes) => verdict := Caller(Principal(subject, scopes, SCHEME_JWT, NoPolicy));
    case NoToken =>
      match req.apiKey
      case UnknownKey => verdict := Untrusted;
      case UncheckedKey => verdict := Unchecked;
      case GoodKey(subject, scopes) => verdict := Caller(Principal(subject, scopes, SCHEME_API_KEY, NoPolicy));
      case NoKey => verdict, lookup := VerifySession(store, now, jar, req);
  }

  /** A session that is gone leaves the request without a caller; no answer leaves it without a verdict. */
  method VerifySession(store: CacheStore, now: Instant, jar: Jar, req: Request)
    returns (verdict: Verdict, ghost lookup: Answer)
    requires store.Valid() && store.cache.clock <= now
    requires req.bearer.NoToken? && req.apiKey.NoKey?
    modifies store.cache
    ensures store.Valid() && store.cache.clock <= now
    ensures verdict == VerdictOn(req, jar, lookup)
    ensures AsksStore(req, jar) ==>
              var event := Lookup(jar.value, req.lookup);
              && Agrees(store.cfg, old(store.cache.ledger), now, event, lookup)
              && store.cache.ledger == Step(store.cfg, old(store.cache.ledger), now, event)
    ensures !AsksStore(req, jar) ==> store.cache.ledger == old(store.cache.ledger)
  {
    lookup := Unavailable;
    if jar.None? || jar.value == "" {
      return Anonymous(false), lookup;
    }
    var answer := store.Lookup(now, jar.value, req.lookup);
    lookup := answer;
    match answer
    case Found(session) =>
      var snapshot := session.snapshot;
      verdict := Caller(Principal(snapshot.subject, snapshot.scopes, SCHEME_SESSION, NoPolicy));
    case NotFound => verdict := Anonymous(true);
    case _ => verdict := Unchecked;
  }

  /******* The endpoints *******/

  function SecurityOf(target: Target): Security {
    match target
    case SignIn(_, _, _, _, _) => Security(false, [SCHEME_JWT], [])
    case SignOut(_) => Security(false, [SCHEME_SESSION], [])
    case Other(security, _) => security
  }

  predicate HasScheme(p: Principal, accepted: seq<string>) {
    accepted == [] || p.scheme in accepted
  }

  /** 401 when nobody is authenticated, 403 when the caller is known and may not. */
  function Refusal(security: Security, verdict: Verdict): Option<int>
    requires verdict.Caller? || verdict.Anonymous?
  {
    if security.isPublic then None
    else match verdict
         case Anonymous(_) => Some(UNAUTHORIZED)
         case Caller(p) =>
           if !HasScheme(p, security.schemes) || !Satisfies(p, security.scopes) then Some(FORBIDDEN) else None
         case _ => None
  }

  function WithPolicy(verdict: Verdict, policy: Policy): Verdict {
    if verdict.Caller? then Caller(verdict.principal.(implied := policy)) else verdict
  }

  function CreateEvent(p: Principal, target: Target): Event
    requires target.SignIn?
  {
    Create(target.newId, Some(Snapshot(p.subject, p.scopes)), target.persistent, target.create)
  }

  /** What the store answered the handler. */
  datatype Answers = Answers(create: Answer, revoke: Answer)

  function Handled(jar: Jar, verdict: Verdict, target: Target, answers: Answers): Response
    requires verdict.Caller? || verdict.Anonymous?
  {
    var refusal := Refusal(SecurityOf(target), verdict);
    if refusal.Some? then Response(refusal.value, [])
    else match target
         case Other(_, None) => NoResponse
         case Other(_, Some(status)) => Response(status, [])
         case SignIn(bodyOk, _, newId, _, _) =>
           if !bodyOk then Response(UNPROCESSABLE, [])
           else if !answers.create.Found? then Response(UNAVAILABLE, [])
           else Response(CREATED, [Issue(newId)])
         case SignOut(_) =>
           if answers.revoke != Accepted then Response(UNAVAILABLE, [])
           else Response(NO_CONTENT, [Discard])
  }

  function Replied(policy: Policy, jar: Jar, verdict: Verdict, target: Target, answers: Answers): Response {
    match verdict
    case Untrusted => Response(UNAUTHORIZED, [])
    case Unchecked => Response(UNAVAILABLE, [])
    case _ => WithDiscard(Handled(jar, WithPolicy(verdict, policy), target, answers), verdict)
  }

  function Answered(policy: Policy, jar: Jar, req: Request, lookup: Answer, answers: Answers): Response {
    Replied(policy, jar, VerdictOn(req, jar, lookup), req.target, answers)
  }

  function WithDiscard(res: Response, verdict: Verdict): Response {
    if res.NoResponse? || !verdict.Anonymous? || !verdict.discard then res
    else res.(cookies := res.cookies + [Discard])
  }

  function CookieText(jar: Jar): string {
    if jar.Some? then jar.value else ""
  }

  type Operation = (Timed, Answer)

  function Asked(now: Instant, jar: Jar, req: Request, lookup: Answer): seq<Operation> {
    if AsksStore(req, jar) then [(At(now, Lookup(jar.value, req.lookup)), lookup)] else []
  }

  /** What the handler asks of the store, on behalf of a caller the endpoint lets in. */
  function Performed(now: Instant, jar: Jar, p: Principal, target: Target, answers: Answers): seq<Operation> {
    match target
    case Other(_, _) => []
    case SignIn(bodyOk, _, _, _, replace) =>
      if !bodyOk then []
      else
        var created := [(At(now, CreateEvent(p, target)), answers.create)];
        if answers.create.Found? && Presented(jar)
        then created + [(At(now, Revoke(jar.value, replace)), answers.revoke)]
        else created
    case SignOut(delete) => [(At(now, Revoke(CookieText(jar), delete)), answers.revoke)]
  }

  function Admitted(policy: Policy, now: Instant, jar: Jar, verdict: Verdict, target: Target, answers: Answers)
    : seq<Operation>
  {
    if (verdict.Caller? || verdict.Anonymous?) && Refusal(SecurityOf(target), WithPolicy(verdict, policy)).None?
       && verdict.Caller?
    then Performed(now, jar, verdict.principal, target, answers)
    else []
  }

  /** The store operations of one request, in order, each with the answer it got. */
  function Operations(policy: Policy, now: Instant, jar: Jar, req: Request, lookup: Answer, answers: Answers)
    : seq<Operation>
  {
    Asked(now, jar, req, lookup)
    + Admitted(policy, now + req.lag, jar, VerdictOn(req, jar, lookup), req.target, answers)
  }

  /** Each answer agrees with the ledger as the operations before it left it. */
  ghost predicate AnswersAgree(cfg: Config, ledger: Ledger, operations: seq<Operation>)
    decreases |operations|
  {
    operations == [] ||
    (var (timed, answer) := operations[0];
     && Agrees(cfg, ledger, timed.now, timed.event, answer)
     && AnswersAgree(cfg, Step(cfg, ledger, timed.now, timed.event), operations[1..]))
  }

  ghost function After(cfg: Config, ledger: Ledger, operations: seq<Operation>): Ledger
    decreases |operations|
  {
    if operations == [] then ledger
    else After(cfg, Step(cfg, ledger, operations[0].0.now, operations[0].0.event), operations[1..])
  }

  ghost predicate Trace(cfg: Config, before: Ledger, operations: seq<Operation>, after: Ledger) {
    AnswersAgree(cfg, before, operations) && after == After(cfg, before, operations)
  }

  ghost predicate FreshFor(ledger: Ledger, jar: Jar, req: Request) {
    req.target.SignIn? ==>
      req.target.newId != "" && req.target.newId !in ledger.lives && jar != Some(req.target.newId)
  }

  lemma {:induction false} AfterConcat(cfg: Config, ledger: Ledger, first: seq<Operation>, second: seq<Operation>)
    ensures After(cfg, ledger, first + second) == After(cfg, After(cfg, ledger, first), second)
    ensures AnswersAgree(cfg, ledger, first + second)
            <==> AnswersAgree(cfg, ledger, first) && AnswersAgree(cfg, After(cfg, ledger, first), second)
    decreases |first|
  {
    if first == [] {
      assert first + second == second;
    } else {
      assert (first + second)[1..] == first[1..] + second;
      AfterConcat(cfg, Step(cfg, ledger, first[0].0.now, first[0].0.event), first[1..], second);
    }
  }

  lemma AfterOne(cfg: Config, ledger: Ledger, only: Operation)
    ensures After(cfg, ledger, [only]) == Step(cfg, ledger, only.0.now, only.0.event)
    ensures AnswersAgree(cfg, ledger, [only]) <==> Agrees(cfg, ledger, only.0.now, only.0.event, only.1)
  {
    assert [only][1..] == [];
    assert After(cfg, Step(cfg, ledger, only.0.now, only.0.event), []) == Step(cfg, ledger, only.0.now, only.0.event);
  }

  /** Trades a verified token for a session: create, then end the session the browser was holding. */
  method CreateSession(store: CacheStore, now: Instant, jar: Jar, p: Principal, target: Target)
    returns (res: Response, ghost answers: Answers)
    requires store.Valid() && store.cache.clock <= now
    requires target.SignIn? && target.bodyOk && target.newId != "" && target.newId !in store.cache.ledger.lives
    modifies store.cache
    ensures store.Valid()
    ensures res == if answers.create.Found? then Response(CREATED, [Issue(target.newId)]) else Response(UNAVAILABLE, [])
    ensures Trace(store.cfg, old(store.cache.ledger), Performed(now, jar, p, target, answers), store.cache.ledger)
  {
    ghost var ledger := store.cache.ledger;
    var answer := store.Create(now, target.newId, Some(Snapshot(p.subject, p.scopes)), target.persistent, target.create);
    answers := Answers(answer, Unavailable);
    ghost var created: Operation := (At(now, CreateEvent(p, target)), answer);
    AfterOne(store.cfg, ledger, created);
    if !answer.Found? {
      return Response(UNAVAILABLE, []), answers;
    }
    if jar.Some? && jar.value != "" {
      ghost var before := store.cache.ledger;
      var ended := store.Revoke(now, jar.value, target.replace);
      answers := Answers(answer, ended);
      ghost var revoked: Operation := (At(now, Revoke(jar.value, target.replace)), ended);
      AfterOne(store.cfg, before, revoked);
      AfterConcat(store.cfg, ledger, [created], [revoked]);
    }
    res := Response(CREATED, [Issue(answer.session.id)]);
  }

  /** Ends the session the request authenticated with; the cookie goes only once the session has. */
  method DeleteSession(store: CacheStore, now: Instant, jar: Jar, p: Principal, target: Target)
    returns (res: Response, ghost answers: Answers)
    requires store.Valid() && store.cache.clock <= now && target.SignOut?
    modifies store.cache
    ensures store.Valid()
    ensures res == if answers.revoke == Accepted then Response(NO_CONTENT, [Discard]) else Response(UNAVAILABLE, [])
    ensures Trace(store.cfg, old(store.cache.ledger), Performed(now, jar, p, target, answers), store.cache.ledger)
  {
    ghost var ledger := store.cache.ledger;
    var answer := store.Revoke(now, CookieText(jar), target.delete);
    answers := Answers(Unavailable, answer);
    AfterOne(store.cfg, ledger, (At(now, Revoke(CookieText(jar), target.delete)), answer));
    if answer != Accepted {
      return Response(UNAVAILABLE, []), answers;
    }
    res := Response(NO_CONTENT, [Discard]);
  }

  /** What follows the verdict: a refusal, or the endpoint with its security declaration and its body
      rules, and then the discard instruction on whatever it answered. */
  method Reply(store: CacheStore, policy: Policy, now: Instant, jar: Jar, verdict: Verdict, target: Target)
    returns (res: Response, ghost answers: Answers)
    requires store.Valid() && store.cache.clock <= now
    requires target.SignIn? ==> target.newId != "" && target.newId !in store.cache.ledger.lives
    modifies store.cache
    ensures store.Valid()
    ensures res == Replied(policy, jar, verdict, target, answers)
    ensures Trace(store.cfg, old(store.cache.ledger), Admitted(policy, now, jar, verdict, target, answers), store.cache.ledger)
  {
    answers := Answers(Unavailable, Unavailable);
    if verdict.Untrusted? {
      return Response(UNAUTHORIZED, []), answers;
    }
    if verdict.Unchecked? {
      return Response(UNAVAILABLE, []), answers;
    }
    var refusal := Refusal(SecurityOf(target), WithPolicy(verdict, policy));
    if refusal.Some? {
      res := Response(refusal.value, []);
    } else {
      match target
      case Other(_, answer) =>
        res := if answer.None? then NoResponse else Response(answer.value, []);
      case SignIn(bodyOk, _, _, _, _) =>
        if !bodyOk {
          res := Response(UNPROCESSABLE, []);
        } else {
          res, answers := CreateSession(store, now, jar, verdict.principal, target);
        }
      case SignOut(_) =>
        res, answers := DeleteSession(store, now, jar, verdict.principal, target);
    }
    res := WithDiscard(res, verdict);
  }

  /** One request, from the credential to the response. */
  method Serve(store: CacheStore, policy: Policy, now: Instant, jar: Jar, req: Request)
    returns (res: Response, ghost lookup: Answer, ghost answers: Answers)
    requires store.Valid() && store.cache.clock <= now
    requires FreshFor(store.cache.ledger, jar, req)
    modifies store.cache
    ensures store.Valid()
    ensures res == Answered(policy, jar, req, lookup, answers)
    ensures Trace(store.cfg, old(store.cache.ledger), Operations(policy, now, jar, req, lookup, answers), store.cache.ledger)
  {
    ghost var ledger := store.cache.ledger;
    var verdict;
    verdict, lookup := Verify(store, now, jar, req);
    AskedTrace(store.cfg, ledger, store.cache.ledger, now, jar, req, lookup);
    ghost var asked := store.cache.ledger;
    res, answers := Reply(store, policy, now + req.lag, jar, verdict, req.target);
    WholeTrace(store.cfg, ledger, asked, store.cache.ledger, policy, now, jar, req, verdict, lookup, answers);
  }

  lemma WholeTrace(
    cfg: Config, before: Ledger, middle: Ledger, after: Ledger, policy: Policy,
    now: Instant, jar: Jar, req: Request, verdict: Verdict, lookup: Answer, answers: Answers)
    requires verdict == VerdictOn(req, jar, lookup)
    requires Trace(cfg, before, Asked(now, jar, req, lookup), middle)
    requires Trace(cfg, middle, Admitted(policy, now + req.lag, jar, verdict, req.target, answers), after)
    ensures Trace(cfg, before, Operations(policy, now, jar, req, lookup, answers), after)
    ensures Answered(policy, jar, req, lookup, answers) == Replied(policy, jar, verdict, req.target, answers)
  {
    AfterConcat(cfg, before, Asked(now, jar, req, lookup),
                Admitted(policy, now + req.lag, jar, verdict, req.target, answers));
  }

  lemma AskedTrace(cfg: Config, before: Ledger, after: Ledger, now: Instant, jar: Jar, req: Request, lookup: Answer)
    requires if AsksStore(req, jar)
             then && Agrees(cfg, before, now, Lookup(jar.value, req.lookup), lookup)
                  && after == Step(cfg, before, now, Lookup(jar.value, req.lookup))
             else after == before
    ensures Trace(cfg, before, Asked(now, jar, req, lookup), after)
    ensures after.lives.Keys == before.lives.Keys
  {
    if AsksStore(req, jar) {
      AfterOne(cfg, before, (At(now, Lookup(jar.value, req.lookup)), lookup));
    }
  }
}
