/**
 The adapter between an endpoint's resource check and its handler: `Authorize` writes to a state the
 adapter reads once the handler has answered.

 A handler is any finite sequence of Authorize calls followed by any outcome; it sees the result of
 each call, but nothing it does with it restricts what it calls next or how it answers.
 */
module Resource {
  import opened Wrappers

  const OK := 200
  const BAD_REQUEST := 400
  const FORBIDDEN := 403
  const UNPROCESSABLE := 422
  const INTERNAL_ERROR := 500

  /** The predicate an endpoint declares, and the resource type it takes. */
  datatype ResourceCheck = ResourceCheck(declared: string, approves: (string, int) -> bool)

  /** What a handler hands to Authorize: a value of a type, or the untyped nil. */
  datatype Passed = Nil | Value(typeName: string, content: int)

  /** A call made on the request's context as the adapter left it, or on one the handler put in its
      place that no longer carries the state. */
  datatype Call = Call(passed: Passed, attached: bool)

  datatype Violation =
    | MissingAuthorization
    | UndeclaredAuthorization(declared: Option<string>, passed: string)
    | UndeclaredStatus(status: int)

  datatype HandlerError = HTTPError(status: int) | Unclassified

  /** A success has the status and the content type it was rendered with, the latter possibly "". */
  datatype Outcome = Success(status: int, contentType: string) | Failure(error: HandlerError)

  datatype Response = Served(status: int, contentType: string) | Refused(status: int) | Panic(violation: Violation)

  /** What an endpoint says about itself: no success status is 200, no content type is "". */
  datatype Endpoint = Endpoint(check: Option<ResourceCheck>, success: int, responses: seq<int>, produces: string)

  function TypeName(passed: Passed): string {
    match passed
    case Nil => "nil"
    case Value(typeName, _) => typeName
  }

  /** The check declared cannot answer for what was passed. */
  predicate IsMisuse(check: Option<ResourceCheck>, call: Call) {
    || !call.attached
    || check.None?
    || call.passed.Nil?
    || call.passed.typeName != check.value.declared
  }

  predicate IsApproval(check: Option<ResourceCheck>, caller: Option<string>, call: Call) {
    && !IsMisuse(check, call)
    && caller.Some?
    && check.value.approves(caller.value, call.passed.content)
  }

  function Report(check: Option<ResourceCheck>, call: Call): Violation {
    UndeclaredAuthorization(
      if call.attached && check.Some? then Some(check.value.declared) else None, TypeName(call.passed))
  }

  /** One report for each misuse, in the order of the calls. */
  function Reports(check: Option<ResourceCheck>, calls: seq<Call>): seq<Violation> {
    if calls == [] then []
    else
      var earlier := Reports(check, calls[..|calls| - 1]);
      var last := calls[|calls| - 1];
      if IsMisuse(check, last) then earlier + [Report(check, last)] else earlier
  }

  class AuthorizationState {
    const check: Option<ResourceCheck>
    var done: bool
    var reported: bool

    constructor (check: Option<ResourceCheck>)
      ensures this.check == check && !done && !reported
    {
      this.check, done, reported := check, false, false;
    }

    /** Looks, once the handler answered with a success, for the check that should have passed. */
    method Verify(journal: Journal) returns (answer: Option<Response>)
      modifies journal
      ensures answer == if reported || (check.Some? && !done) then Some(Refused(500)) else None
      ensures journal.drift ==
              if !reported && check.Some? && !done then old(journal.drift) + [MissingAuthorization] else old(journal.drift)
    {
      if reported {
        return Some(Refused(INTERNAL_ERROR));
      }
      if check.Some? && !done {
        journal.Write(MissingAuthorization);
        return Some(Refused(INTERNAL_ERROR));
      }
      answer := None;
    }
  }

  class Journal {
    var drift: seq<Violation>

    constructor ()
      ensures drift == []
    {
      drift := [];
    }

    method Write(v: Violation)
      modifies this
      ensures drift == old(drift) + [v]
    {
      drift := drift + [v];
    }
  }

  /** What a handler calls. `state` is absent on a context without one. */
  method Authorize(state: AuthorizationState?, journal: Journal, caller: Option<string>, passed: Passed)
    returns (error: Option<HandlerError>)
    modifies state, journal
    ensures state == null || state.check.None? ==>
              && error == Some(Unclassified)
              && journal.drift == old(journal.drift) + [UndeclaredAuthorization(None, TypeName(passed))]
    ensures state != null && state.check.Some? ==>
              var declared := state.check.value.declared;
              if passed.Nil? || passed.typeName != declared then
                && error == Some(Unclassified)
                && journal.drift == old(journal.drift) + [UndeclaredAuthorization(Some(declared), TypeName(passed))]
              else
                && journal.drift == old(journal.drift)
                && error == if caller.Some? && state.check.value.approves(caller.value, passed.content)
                            then None else Some(HTTPError(403))
    ensures state != null ==>
              && state.done == (old(state.done) || error.None?)
              && state.reported == (old(state.reported) || error == Some(Unclassified))
  {
    if state == null {
      journal.Write(UndeclaredAuthorization(None, TypeName(passed)));
      return Some(Unclassified);
    }
    if state.check.None? {
      state.reported := true;
      journal.Write(UndeclaredAuthorization(None, TypeName(passed)));
      return Some(Unclassified);
    }
    var check := state.check.value;
    if passed.Nil? || passed.typeName != check.declared {
      state.reported := true;
      journal.Write(UndeclaredAuthorization(Some(check.declared), TypeName(passed)));
      return Some(Unclassified);
    }
    if caller.None? || !check.approves(caller.value, passed.content) {
      return Some(HTTPError(FORBIDDEN));
    }
    state.done := true;
    error := None;
  }

  /** What stands before the handler, in the order it is asked. */
  datatype Gate = Gate(refusal: Option<int>, bodyUnparsable: bool, bodyInvalid: bool, pathInvalid: bool, queryInvalid: bool)

  function ErrorStatus(error: HandlerError): int {
    match error
    case HTTPError(status) => status
    case Unclassified => INTERNAL_ERROR
  }

  ghost predicate SomeApproval(check: Option<ResourceCheck>, caller: Option<string>, calls: seq<Call>) {
    exists i :: 0 <= i < |calls| && IsApproval(check, caller, calls[i])
  }

  ghost predicate SomeAttachedMisuse(check: Option<ResourceCheck>, calls: seq<Call>) {
    exists i :: 0 <= i < |calls| && calls[i].attached && IsMisuse(check, calls[i])
  }

  /** Every call on the request's context passed a value of the type a check is declared for. */
  ghost predicate AllFit(check: Option<ResourceCheck>, calls: seq<Call>) {
    forall i :: 0 <= i < |calls| && calls[i].attached ==>
      check.Some? && calls[i].passed.Value? && calls[i].passed.typeName == check.value.declared
  }

  predicate Declares(endpoint: Endpoint, status: int) {
    status == (if endpoint.success == 0 then 200 else endpoint.success) || status in endpoint.responses
  }

  /** Where a developer works, a status nobody declared is a panic; elsewhere it is on record. */
  method CheckDeclaredStatus(endpoint: Endpoint, status: int, strict: bool, journal: Journal) returns (panic: Option<Violation>)
    modifies journal
    ensures panic == if strict && !Declares(endpoint, status) then Some(UndeclaredStatus(status)) else None
    ensures journal.drift ==
            old(journal.drift) + if !strict && !Declares(endpoint, status) then [UndeclaredStatus(status)] else []
  {
    var expected := endpoint.success;
    if expected == 0 {
      expected := OK;
    }
    if status == expected {
      return None;
    }
    for i := 0 to |endpoint.responses|
      invariant status !in endpoint.responses[..i]
    {
      if endpoint.responses[i] == status {
        return None;
      }
    }
    if strict {
      return Some(UndeclaredStatus(status));
    }
    journal.Write(UndeclaredStatus(status));
    panic := None;
  }

  /**
   One request through the adapter. The handler runs exactly past every gate. A success leaves exactly
   when the handler answered with one, every call on the request's context passed a value of the type
   the endpoint declares a check for, and that check, if any, was asked about one such value and
   approved the caller for it. Every misuse is on record once, a check that was never passed once more,
   and so is an undeclared status unless it panics.
   */
  method Handle(
    endpoint: Endpoint, caller: Option<string>, gate: Gate, calls: seq<Call>, outcome: Outcome, strict: bool)
    returns (response: Response, drift: seq<Violation>, ran: bool)
    ensures ran <==> gate.refusal.None? && !gate.bodyUnparsable && !gate.bodyInvalid && !gate.pathInvalid && !gate.queryInvalid
    ensures !ran ==>
              && drift == []
              && response == Refused(
                   if gate.refusal.Some? then gate.refusal.value else if gate.bodyUnparsable then 400 else 422)
    ensures ran ==>
              (response.Served? || response.Panic?
               <==>
               && outcome.Success?
               && AllFit(endpoint.check, calls)
               && (endpoint.check.Some? ==>
                     && caller.Some?
                     && exists i :: 0 <= i < |calls| && calls[i].attached
                                    && calls[i].passed.Value?
                                    && calls[i].passed.typeName == endpoint.check.value.declared
                                    && endpoint.check.value.approves(caller.value, calls[i].passed.content)))
    ensures response.Panic? ==> strict && !Declares(endpoint, outcome.status) && response.violation == UndeclaredStatus(outcome.status)
    ensures response.Served? ==>
              && (strict ==> Declares(endpoint, outcome.status))
              && response.status == outcome.status
              && response.contentType == if outcome.contentType == "" then endpoint.produces else outcome.contentType
    ensures ran && response.Refused? ==>
              response.status ==
              if outcome.Failure? && outcome.error.HTTPError? then outcome.error.status else 500
    ensures ran ==>
              drift == Reports(endpoint.check, calls)
                       + (if response.Refused? && outcome.Success? && endpoint.check.Some? && AllFit(endpoint.check, calls)
                          then [MissingAuthorization]
                          else if response.Served? && !Declares(endpoint, outcome.status)
                          then [UndeclaredStatus(outcome.status)]
                          else [])
  {
    if gate.refusal.Some? {
      return Refused(gate.refusal.value), [], false;
    }
    if gate.bodyUnparsable {
      return Refused(BAD_REQUEST), [], false;
    }
    if gate.bodyInvalid {
      return Refused(UNPROCESSABLE), [], false;
    }
    if gate.pathInvalid {
      return Refused(UNPROCESSABLE), [], false;
    }
    if gate.queryInvalid {
      return Refused(UNPROCESSABLE), [], false;
    }
    var check := endpoint.check;
    var state := new AuthorizationState(check);
    var journal := new Journal();
    for i := 0 to |calls|
      invariant fresh(state) && fresh(journal) && state.check == check
      invariant state.done <==> SomeApproval(check, caller, calls[..i])
      invariant state.reported <==> SomeAttachedMisuse(check, calls[..i])
      invariant journal.drift == Reports(check, calls[..i])
    {
      var before, after := calls[..i], calls[..i + 1];
      assert after == before + [calls[i]] && after[..|after| - 1] == before;
      SomeMore(check, caller, before, calls[i]);
      var _ := Authorize(if calls[i].attached then state else null, journal, caller, calls[i].passed);
    }
    assert calls[..|calls|] == calls;
    if outcome.Failure? {
      return Refused(ErrorStatus(outcome.error)), journal.drift, true;
    }
    var refused := state.Verify(journal);
    if refused.Some? {
      return refused.value, journal.drift, true;
    }
    var panic := CheckDeclaredStatus(endpoint, outcome.status, strict, journal);
    if panic.Some? {
      return Panic(panic.value), journal.drift, true;
    }
    var contentType := outcome.contentType;
    if contentType == "" && endpoint.produces != "" {
      contentType := endpoint.produces;
    }
    response, drift, ran := Served(outcome.status, contentType), journal.drift, true;
  }

  lemma SomeMore(check: Option<ResourceCheck>, caller: Option<string>, before: seq<Call>, call: Call)
    ensures SomeApproval(check, caller, before + [call])
            <==> SomeApproval(check, caller, before) || IsApproval(check, caller, call)
    ensures SomeAttachedMisuse(check, before + [call])
            <==> SomeAttachedMisuse(check, before) || (call.attached && IsMisuse(check, call))
  {
    var after := before + [call];
    assert after[|before|] == call;
    if SomeApproval(check, caller, before) {
      var i :| 0 <= i < |before| && IsApproval(check, caller, before[i]);
      assert after[i] == before[i];
    }
    if SomeAttachedMisuse(check, before) {
      var i :| 0 <= i < |before| && before[i].attached && IsMisuse(check, before[i]);
      assert after[i] == before[i];
    }
  }

  function CountMisuses(check: Option<ResourceCheck>, calls: seq<Call>): nat {
    if calls == [] then 0
    else (if IsMisuse(check, calls[0]) then 1 else 0) + CountMisuses(check, calls[1..])
  }

  /** No misuse goes unreported, none is reported twice, and each report says what was passed and what
      was declared. */
  lemma {:induction false} ReportsCountMisuses(check: Option<ResourceCheck>, calls: seq<Call>)
    ensures |Reports(check, calls)| == CountMisuses(check, calls)
    ensures forall v :: v in Reports(check, calls) <==>
              exists call :: call in calls && IsMisuse(check, call)
                && v == UndeclaredAuthorization(
                          if call.attached && check.Some? then Some(check.value.declared) else None,
                          if call.passed.Nil? then "nil" else call.passed.typeName)
    decreases |calls|
  {
    if calls != [] {
      var earlier, last := calls[..|calls| - 1], calls[|calls| - 1];
      ReportsCountMisuses(check, earlier);
      CountMisusesAppend(check, earlier, last);
      assert calls == earlier + [last];
    }
  }

  lemma {:induction false} CountMisusesAppend(check: Option<ResourceCheck>, calls: seq<Call>, last: Call)
    ensures CountMisuses(check, calls + [last]) == CountMisuses(check, calls) + if IsMisuse(check, last) then 1 else 0
    decreases |calls|
  {
    if calls == [] {
      assert ([last])[1..] == [];
    } else {
      assert (calls + [last])[1..] == calls[1..] + [last];
      CountMisusesAppend(check, calls[1..], last);
    }
  }
}
