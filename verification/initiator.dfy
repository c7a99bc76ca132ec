/**
 Who started a piece of work, in the form it travels in: written into a message's or a job's
 metadata, and read back on the other side under the receiver's list of claims.

 The JSON text of the claims is a codec the caller supplies; everything that depends on it says so.
 */
module Initiators {
  import opened Wrappers
  import opened Sorting

  const HEADER_KIND := "ce_authtype"
  const HEADER_ID := "ce_authid"
  const HEADER_CLAIMS := "ce_authclaims"

  const KIND_APP_USER := "app_user"
  const KIND_API_KEY := "api_key"
  const KIND_UNAUTHENTICATED := "unauthenticated"
  const KIND_UNKNOWN := "unknown"

  const FORBIDDEN_CLAIMS := {"scope", "iss", "sub", "aud", "exp", "nbf", "iat", "jti"}

  type Metadata = map<string, string>

  /** A claim's value, by its JSON text. */
  type ClaimValue = string
  type Claims = map<string, ClaimValue>

  /** What a claims header decodes to. */
  datatype Decoded = NotJson | NotAnObject | Object(claims: Claims)

  datatype Codec = Codec(encode: Claims -> string, decode: string -> Decoded)

  ghost predicate RoundTrips(codec: Codec) {
    forall claims: Claims :: codec.decode(codec.encode(claims)) == Object(claims)
  }

  datatype Initiator = Initiator(kind: string, id: string, claims: Claims)

  const UNKNOWN := Initiator(KIND_UNKNOWN, "", map[])

  predicate IsReservedHeader(key: string) {
    key == HEADER_KIND || key == HEADER_ID || key == HEADER_CLAIMS
  }

  function Restricted(claims: Claims, allowed: set<string>): Claims {
    map name | name in claims && name in allowed :: claims[name]
  }

  /** What an Initiator may hold: a kind, and no claim that describes a token or grants a scope. */
  predicate Carriable(i: Initiator) {
    i.kind != "" && i.claims.Keys !! FORBIDDEN_CLAIMS
  }

  /******* Writing and reading the wire form *******/

  function Headers(i: Initiator, codec: Codec): Metadata {
    map[HEADER_KIND := if i.kind == "" then KIND_UNKNOWN else i.kind]
    + (if i.id != "" then map[HEADER_ID := i.id] else map[])
    + (if i.claims != map[] then map[HEADER_CLAIMS := codec.encode(i.claims)] else map[])
  }

  function WithoutHeaders(metadata: Metadata): Metadata {
    map key | key in metadata && !IsReservedHeader(key) :: metadata[key]
  }

  function Text(metadata: Metadata, key: string): string {
    if key in metadata then metadata[key] else ""
  }

  /** Never refuses: whatever cannot be read is unknown. */
  function FromHeaders(metadata: Metadata, allowed: set<string>, codec: Codec): Initiator {
    var kind, id := Text(metadata, HEADER_KIND), Text(metadata, HEADER_ID);
    if kind == "" then UNKNOWN
    else if HEADER_CLAIMS !in metadata then Initiator(kind, id, map[])
    else match codec.decode(metadata[HEADER_CLAIMS])
         case Object(received) =>
           if received.Keys !! FORBIDDEN_CLAIMS then Initiator(kind, id, Restricted(received, allowed)) else UNKNOWN
         case _ => UNKNOWN
  }

  lemma HeadersOver(i: Initiator, codec: Codec, metadata: Metadata)
    requires i.kind != ""
    ensures
      var d := metadata + Headers(i, codec);
      && Text(d, HEADER_KIND) == i.kind
      && Text(d, HEADER_ID) == (if i.id != "" then i.id else Text(metadata, HEADER_ID))
      && (HEADER_CLAIMS in d <==> i.claims != map[] || HEADER_CLAIMS in metadata)
      && (i.claims != map[] ==> d[HEADER_CLAIMS] == codec.encode(i.claims))
      && (i.claims == map[] && HEADER_CLAIMS in metadata ==> d[HEADER_CLAIMS] == metadata[HEADER_CLAIMS])
      && WithoutHeaders(d) == WithoutHeaders(metadata)
  {
    var own := Headers(i, codec);
    var d := metadata + own;
    assert own.Keys <= {HEADER_KIND, HEADER_ID, HEADER_CLAIMS};
    assert forall key :: !IsReservedHeader(key) ==> (key in d <==> key in metadata);
    assert WithoutHeaders(d) == WithoutHeaders(metadata);
  }

  /** The wire form: a kind always, an ID and claims only where there are some, and nothing else. */
  lemma WireForm(i: Initiator, codec: Codec)
    ensures
      var h := Headers(i, codec);
      && h.Keys == {"ce_authtype"} + (if i.id != "" then {"ce_authid"} else {}) + (if i.claims != map[] then {"ce_authclaims"} else {})
      && h["ce_authtype"] == (if i.kind == "" then "unknown" else i.kind)
      && (i.id != "" ==> h["ce_authid"] == i.id)
      && (i.claims != map[] ==> h["ce_authclaims"] == codec.encode(i.claims))
  {
  }

  /** Received metadata is read as it stands, unless it names no kind, or its claims are no object or
      name what an Initiator never carries: then who started the work is unknown. */
  lemma Received(metadata: Metadata, allowed: set<string>, codec: Codec)
    ensures
      var i := FromHeaders(metadata, allowed, codec);
      var decoded := if "ce_authclaims" in metadata then codec.decode(metadata["ce_authclaims"]) else Object(map[]);
      if "ce_authtype" in metadata && metadata["ce_authtype"] != ""
         && decoded.Object? && decoded.claims.Keys !! {"scope", "iss", "sub", "aud", "exp", "nbf", "iat", "jti"}
      then
        && i.kind == metadata["ce_authtype"]
        && i.id == (if "ce_authid" in metadata then metadata["ce_authid"] else "")
        && (forall n :: n in i.claims <==> n in decoded.claims && n in allowed)
        && (forall n :: n in i.claims ==> i.claims[n] == decoded.claims[n])
      else i == Initiator("unknown", "", map[])
  {
  }

  ghost predicate Clean(metadata: Metadata) {
    forall key :: key in metadata ==> !IsReservedHeader(key)
  }

  lemma ReadsBackWhatWasWritten(i: Initiator, allowed: set<string>, codec: Codec, metadata: Metadata)
    requires RoundTrips(codec) && Carriable(i) && Clean(metadata)
    ensures FromHeaders(metadata + Headers(i, codec), allowed, codec) == i.(claims := Restricted(i.claims, allowed))
    ensures WithoutHeaders(metadata + Headers(i, codec)) == metadata
  {
    HeadersOver(i, codec, metadata);
    assert IsReservedHeader(HEADER_ID) && IsReservedHeader(HEADER_CLAIMS);
    assert WithoutHeaders(metadata) == metadata;
    if i.claims != map[] {
      assert codec.decode(codec.encode(i.claims)) == Object(i.claims);
    }
  }

  /** Whatever arrives, from whomever, nothing forbidden or unlisted gets in. */
  lemma NothingForbiddenIsRestored(metadata: Metadata, allowed: set<string>, codec: Codec)
    ensures Carriable(FromHeaders(metadata, allowed, codec))
    ensures FromHeaders(metadata, allowed, codec).claims.Keys <= allowed
  {
  }

  /******* Reporting dropped claims *******/

  const MAX_REPORTED := 32

  datatype Record = Dropped(name: string) | FurtherNamesNotReported

  /** The log names each reported claim once, and ends with the notice once there is one; the notice is
      there exactly when more names were dropped than are reported. */
  ghost predicate ReportedOnce(reported: set<string>, saturated: bool, written: seq<Record>, dropped: set<string>) {
    var names := if saturated then |written| - 1 else |written|;
    && 0 <= names == |reported| <= MAX_REPORTED
    && (saturated ==> written[names] == FurtherNamesNotReported)
    && (forall k :: 0 <= k < names ==> written[k].Dropped? && written[k].name in reported)
    && (forall j, k :: 0 <= j < k < names ==> written[j] != written[k])
    && reported <= dropped
    && (saturated <==> MAX_REPORTED < |dropped|)
    && (!saturated ==> reported == dropped)
  }

  /**
   The claims an application carries. `written` is what it logged about dropped ones; `dropped` every
   name it ever dropped.
   */
  class ClaimSet {
    const allowed: set<string>
    const names: seq<string>
    var reported: set<string>
    var saturated: bool
    var written: seq<Record>
    ghost var dropped: set<string>

    constructor (allowed: set<string>, names: seq<string>)
      requires allowed !! FORBIDDEN_CLAIMS && "" !in allowed
      ensures this.allowed == allowed && this.names == names && Valid() && dropped == {} && written == []
    {
      this.allowed, this.names, reported, saturated, written, dropped := allowed, names, {}, false, [], {};
    }

    ghost predicate Valid()
      reads this
    {
      allowed !! FORBIDDEN_CLAIMS && ReportedOnce(reported, saturated, written, dropped)
    }

    method ReportDropped(name: string)
      requires Valid()
      modifies this
      ensures Valid() && dropped == old(dropped) + {name}
      ensures old(written) <= written && |written| <= |old(written)| + 1
      ensures name in old(dropped) ==> written == old(written)
    {
      CardinalityGrows(dropped, name);
      CardinalityGrows(reported, name);
      SubsetCardinality(reported, dropped);
      dropped := dropped + {name};
      if name in reported || saturated {
        return;
      }
      if |reported| >= MAX_REPORTED {
        saturated := true;
        written := written + [FurtherNamesNotReported];
        return;
      }
      reported := reported + {name};
      written := written + [Dropped(name)];
    }

    /** Keeps the claims in the set and reports the others, in any order. */
    method Receive(claims: Claims) returns (kept: Claims)
      requires Valid()
      modifies this
      ensures Valid()
      ensures kept == Restricted(claims, allowed)
      ensures dropped == old(dropped) + (claims.Keys - allowed)
      ensures old(written) <= written
    {
      kept := Pick(claims);
      var left := claims.Keys;
      ghost var before, refused: set<string> := dropped, {};
      while left != {}
        invariant Valid() && left <= claims.Keys && old(written) <= written
        invariant dropped == before + refused
        invariant forall n :: n in refused <==> n in claims && n !in left && n !in allowed
        decreases left
      {
        var name :| name in left;
        left := left - {name};
        if name !in allowed {
          ReportDropped(name);
          refused := refused + {name};
        }
      }
      assert refused == claims.Keys - allowed;
    }

    method Pick(claims: Claims) returns (kept: Claims)
      ensures kept == Restricted(claims, allowed)
    {
      kept := map[];
      var left := claims.Keys;
      while left != {}
        invariant left <= claims.Keys
        invariant kept == map name | name in claims && name in allowed && name !in left :: claims[name]
        decreases left
      {
        var name :| name in left;
        left := left - {name};
        if name in allowed {
          kept := kept[name := claims[name]];
        }
      }
    }

    /** Reads an Initiator off what arrived, reporting the claims it drops. */
    method Restore(metadata: Metadata, codec: Codec) returns (i: Initiator)
      requires Valid()
      modifies this
      ensures Valid()
      ensures i == FromHeaders(metadata, allowed, codec)
      ensures old(written) <= written
      ensures dropped == old(dropped) +
                if Text(metadata, HEADER_KIND) != "" && HEADER_CLAIMS in metadata
                   && codec.decode(metadata[HEADER_CLAIMS]).Object?
                   && codec.decode(metadata[HEADER_CLAIMS]).claims.Keys !! FORBIDDEN_CLAIMS
                then codec.decode(metadata[HEADER_CLAIMS]).claims.Keys - allowed
                else {}
    {
      var kind, id := Text(metadata, HEADER_KIND), Text(metadata, HEADER_ID);
      if kind == "" {
        return UNKNOWN;
      }
      if HEADER_CLAIMS !in metadata {
        return Initiator(kind, id, map[]);
      }
      var decoded := codec.decode(metadata[HEADER_CLAIMS]);
      if !decoded.Object? {
        return UNKNOWN;
      }
      if exists name :: name in decoded.claims && name in FORBIDDEN_CLAIMS {
        return UNKNOWN;
      }
      var kept := Receive(decoded.claims);
      i := Initiator(kind, id, kept);
    }
  }

  lemma CardinalityGrows(s: set<string>, x: string)
    ensures |s + {x}| == if x in s then |s| else |s| + 1
  {
    if x in s {
      assert s + {x} == s;
    }
  }

  lemma SubsetCardinality(a: set<string>, b: set<string>)
    requires a <= b
    ensures |a| <= |b|
    ensures |a| == |b| ==> a == b
  {
    assert b == a + (b - a);
    if |a| == |b| {
      assert |b - a| == 0;
    }
  }

  ghost predicate NamedWithin(written: seq<Record>, count: nat, name: string)
    requires count <= |written|
  {
    exists k :: 0 <= k < count && written[k] == Dropped(name)
  }

  lemma {:induction false} NamedCount(written: seq<Record>, count: nat, reported: set<string>) returns (names: set<string>)
    requires count <= |written|
    requires forall k :: 0 <= k < count ==> written[k].Dropped? && written[k].name in reported
    requires forall j, k :: 0 <= j < k < count ==> written[j] != written[k]
    ensures |names| == count && names <= reported
    ensures forall n :: n in names ==> NamedWithin(written, count, n)
    decreases count
  {
    names := {};
    if count > 0 {
      var fewer := NamedCount(written, count - 1, reported);
      var last := written[count - 1].name;
      assert !NamedWithin(written, count - 1, last);
      CardinalityGrows(fewer, last);
      names := fewer + {last};
      forall n | n in names
        ensures NamedWithin(written, count, n)
      {
        if n != last {
          var k :| 0 <= k < count - 1 && written[k] == Dropped(n);
        }
      }
    }
  }

  /** Over any run at most 32 names and one notice are written, and as long as no more than 32 names
      were ever dropped every one of them is on record. */
  lemma ReportingIsBoundedAndComplete(reported: set<string>, saturated: bool, written: seq<Record>, dropped: set<string>)
    requires ReportedOnce(reported, saturated, written, dropped)
    ensures |written| <= 33
    ensures FurtherNamesNotReported in written <==> 32 < |dropped|
    ensures |dropped| <= 32 ==> forall n :: n in dropped <==> Dropped(n) in written
    ensures forall n :: Dropped(n) in written ==> n in dropped
  {
    var names := NamedCount(written, |reported|, reported);
    SubsetCardinality(names, reported);
    assert saturated ==> |written| == |reported| + 1;
    forall n | n in names
      ensures Dropped(n) in written
    {
      var k :| 0 <= k < |reported| && written[k] == Dropped(n);
    }
  }

  predicate MayBeListed(name: string) {
    name != "" && name !in FORBIDDEN_CLAIMS
  }

  function Offending(names: seq<string>): seq<string> {
    if names == [] then []
    else
      var earlier, last := Offending(names[..|names| - 1]), names[|names| - 1];
      if MayBeListed(last) then earlier else earlier + [last]
  }

  /** Refuses an empty name and every forbidden one, saying which; repetitions do not matter. */
  method NewClaimSet(names: seq<string>) returns (set_: Option<ClaimSet>, errors: seq<string>)
    ensures set_.Some? <==> errors == []
    ensures errors == Offending(names)
    ensures forall e :: e in errors <==>
              e in names && (e == "" || e in {"scope", "iss", "sub", "aud", "exp", "nbf", "iat", "jti"})
    ensures set_.Some? ==>
              && fresh(set_.value) && set_.value.Valid()
              && set_.value.allowed == (set n | n in names)
              && Distinct(set_.value.names) && Ordered(TextLe, set_.value.names)
              && forall n :: n in set_.value.names <==> n in names
  {
    var allowed: set<string> := {};
    errors := [];
    for i := 0 to |names|
      invariant errors == Offending(names[..i])
      invariant forall e :: e in errors <==> e in names[..i] && !MayBeListed(e)
      invariant allowed == set n | n in names[..i] && MayBeListed(n)
    {
      assert names[..i + 1] == names[..i] + [names[i]] && names[..i + 1][..i] == names[..i];
      if !MayBeListed(names[i]) {
        errors := errors + [names[i]];
      } else {
        allowed := allowed + {names[i]};
      }
    }
    assert names[..|names|] == names;
    if errors != [] {
      return None, errors;
    }
    assert forall n :: n in names ==> MayBeListed(n);
    var sorted := InOrder(allowed);
    var made := new ClaimSet(allowed, sorted);
    set_ := Some(made);
  }

  /******* Who started the work a context belongs to *******/

  const SCHEME_JWT := "jwt"
  const SCHEME_SESSION := "session"
  const SCHEME_API_KEY := "apiKey"

  datatype Caller = Caller(scheme: string, subject: string, claims: Claims)

  /** An entry point derives from the caller; a restored value is fixed. */
  datatype Mark = NoMark | Entry(allowed: set<string>) | Fixed(initiator: Initiator)

  datatype Context = Context(mark: Mark, caller: Option<Caller>)

  function KindOf(scheme: string): string {
    if scheme == SCHEME_JWT || scheme == SCHEME_SESSION then KIND_APP_USER
    else if scheme == SCHEME_API_KEY then KIND_API_KEY
    else KIND_UNKNOWN
  }

  function Derive(caller: Caller, allowed: set<string>): Initiator {
    Initiator(KindOf(caller.scheme), caller.subject, Restricted(caller.claims, allowed))
  }

  function From(ctx: Context): Initiator {
    match ctx.mark
    case Fixed(i) => i
    case Entry(allowed) =>
      if ctx.caller.Some? then Derive(ctx.caller.value, allowed) else Initiator(KIND_UNAUTHENTICATED, "", map[])
    case NoMark =>
      if ctx.caller.Some? then Derive(ctx.caller.value, {}) else UNKNOWN
  }

  ghost predicate WellMarked(ctx: Context) {
    match ctx.mark
    case Fixed(i) => Carriable(i)
    case Entry(allowed) => allowed !! FORBIDDEN_CLAIMS
    case NoMark => true
  }

  lemma FromIsCarriable(ctx: Context)
    requires WellMarked(ctx)
    ensures Carriable(From(ctx))
  {
  }

  /** `i` is the caller's: who it is, what kind of party its scheme makes it, and of its claims exactly
      those listed. */
  ghost predicate SpeaksFor(i: Initiator, caller: Caller, listed: set<string>) {
    && i.id == caller.subject
    && i.kind == (if caller.scheme in {"jwt", "session"} then "app_user"
                  else if caller.scheme == "apiKey" then "api_key"
                  else "unknown")
    && (forall n :: n in i.claims <==> n in caller.claims && n in listed)
    && (forall n :: n in i.claims ==> i.claims[n] == caller.claims[n])
  }

  /** Work is attributed to the caller wherever there is one; an entry point without one knows that
      nobody was authenticated, and a context without a mark knows nothing. */
  lemma FromIsTheCaller(ctx: Context)
    ensures ctx.mark.Fixed? ==> From(ctx) == ctx.mark.initiator
    ensures ctx.mark.Entry? && ctx.caller.Some? ==> SpeaksFor(From(ctx), ctx.caller.value, ctx.mark.allowed)
    ensures ctx.mark.Entry? && ctx.caller.None? ==> From(ctx) == Initiator("unauthenticated", "", map[])
    ensures ctx.mark.NoMark? && ctx.caller.Some? ==> SpeaksFor(From(ctx), ctx.caller.value, {})
    ensures ctx.mark.NoMark? && ctx.caller.None? ==> From(ctx) == Initiator("unknown", "", map[])
  {
  }

  /******* Crossing a broker or a job queue *******/

  /** The publisher: refuses metadata that names a reserved header, and adds its own. */
  method Publish(ctx: Context, metadata: Metadata, carries: bool, codec: Codec) returns (sent: Option<Metadata>)
    ensures sent.None? <==> "ce_authtype" in metadata || "ce_authid" in metadata || "ce_authclaims" in metadata
    ensures sent.Some? ==> sent.value == if carries then metadata + Headers(From(ctx), codec) else metadata
  {
    var left := metadata.Keys;
    while left != {}
      invariant left <= metadata.Keys
      invariant forall key :: key in metadata && key !in left ==> !IsReservedHeader(key)
      decreases left
    {
      var key :| key in left;
      left := left - {key};
      if IsReservedHeader(key) {
        return None;
      }
    }
    sent := Some(if carries then metadata + Headers(From(ctx), codec) else metadata);
  }

  /** The subscriber: the handler's context, and the metadata without the reserved headers. */
  method Deliver(received: Metadata, claims: ClaimSet, codec: Codec) returns (ctx: Context, metadata: Metadata)
    requires claims.Valid()
    modifies claims
    ensures claims.Valid()
    ensures ctx == Context(Fixed(FromHeaders(received, claims.allowed, codec)), None)
    ensures metadata == received - {"ce_authtype", "ce_authid", "ce_authclaims"}
  {
    var restored := claims.Restore(received, codec);
    ctx := Context(Fixed(restored), None);
    metadata := WithoutHeaders(received);
  }

  /** A message published on behalf of an entry point's caller and delivered: the handler's work is
      attributed to that caller, with the claims both ends list, and the handler sees the publisher's own
      metadata. */
  method PublishAndDeliver(ctx: Context, metadata: Metadata, claims: ClaimSet, codec: Codec)
    returns (handling: Context, seen: Metadata)
    requires RoundTrips(codec) && claims.Valid() && Clean(metadata)
    requires ctx.mark.Entry? && ctx.caller.Some? && WellMarked(ctx)
    modifies claims
    ensures claims.Valid() && seen == metadata
    ensures SpeaksFor(From(handling), ctx.caller.value, ctx.mark.allowed * claims.allowed)
  {
    var sent := Publish(ctx, metadata, true, codec);
    ReadsBackWhatWasWritten(From(ctx), claims.allowed, codec, metadata);
    FromIsTheCaller(ctx);
    handling, seen := Deliver(sent.value, claims, codec);
  }

  /** One hop, by message or by job: the metadata it travels in and the receiver's claim list. */
  datatype Hop = Hop(metadata: Metadata, allowed: set<string>)

  function Across(ctx: Context, hop: Hop, codec: Codec): Context {
    Context(Fixed(FromHeaders(hop.metadata + Headers(From(ctx), codec), hop.allowed, codec)), None)
  }

  function AcrossAll(ctx: Context, hops: seq<Hop>, codec: Codec): Context
    decreases |hops|
  {
    if hops == [] then ctx else AcrossAll(Across(ctx, hops[0], codec), hops[1..], codec)
  }

  ghost predicate AllowedByAll(hops: seq<Hop>, name: string) {
    forall k :: 0 <= k < |hops| ==> name in hops[k].allowed
  }

  lemma AllowedByFirstAndRest(hops: seq<Hop>, name: string)
    requires hops != []
    ensures AllowedByAll(hops, name) <==> name in hops[0].allowed && AllowedByAll(hops[1..], name)
  {
    if name in hops[0].allowed && AllowedByAll(hops[1..], name) {
      forall k | 0 <= k < |hops|
        ensures name in hops[k].allowed
      {
        assert k > 0 ==> hops[k] == hops[1..][k - 1];
      }
    }
  }

  ghost predicate Narrowed(origin: Claims, end: Claims, hops: seq<Hop>) {
    && (forall n :: n in end <==> n in origin && AllowedByAll(hops, n))
    && (forall n :: n in end ==> end[n] == origin[n])
  }

  lemma NarrowedOnce(origin: Claims, end: Claims, hops: seq<Hop>)
    requires hops != [] && Narrowed(Restricted(origin, hops[0].allowed), end, hops[1..])
    ensures Narrowed(origin, end, hops)
  {
    forall n
      ensures AllowedByAll(hops, n) <==> n in hops[0].allowed && AllowedByAll(hops[1..], n)
    {
      AllowedByFirstAndRest(hops, n);
    }
  }

  ghost predicate AllClean(hops: seq<Hop>) {
    forall hop :: hop in hops ==> Clean(hop.metadata)
  }

  /** Across any chain of hops the kind and the ID arrive unchanged, and the claims are exactly those
      of the origin that every receiver on the way carries. */
  lemma {:induction false} ChainKeepsWhoAndNarrowsClaims(ctx: Context, hops: seq<Hop>, codec: Codec)
    requires RoundTrips(codec) && WellMarked(ctx) && AllClean(hops)
    ensures
      var origin, end := From(ctx), From(AcrossAll(ctx, hops, codec));
      && Carriable(end)
      && end.kind == origin.kind
      && end.id == origin.id
      && Narrowed(origin.claims, end.claims, hops)
    decreases |hops|
  {
    FromIsCarriable(ctx);
    if hops != [] {
      assert hops[0] in hops;
      ReadsBackWhatWasWritten(From(ctx), hops[0].allowed, codec, hops[0].metadata);
      var next := Across(ctx, hops[0], codec);
      ChainKeepsWhoAndNarrowsClaims(next, hops[1..], codec);
      NarrowedOnce(From(ctx).claims, From(AcrossAll(next, hops[1..], codec)).claims, hops);
    }
  }

  /** A carrier that drops metadata loses who started the work, and says so. */
  lemma WithoutACarrierNothingIsKnown(metadata: Metadata, allowed: set<string>, codec: Codec)
    requires Clean(metadata)
    ensures FromHeaders(metadata, allowed, codec) == UNKNOWN
    ensures WithoutHeaders(metadata) == metadata
  {
    assert IsReservedHeader(HEADER_KIND);
    assert WithoutHeaders(metadata) == metadata;
  }

  /******* Metadata that was used before *******/

  /** Inject overwrites the headers it writes and leaves the others; what an earlier Initiator left
      in the map does no harm. */
  predicate LeftoversAreHarmless(i: Initiator, metadata: Metadata, allowed: set<string>, codec: Codec) {
    var oldClaims := i.claims == map[] && HEADER_CLAIMS in metadata;
    var decoded := if oldClaims then codec.decode(metadata[HEADER_CLAIMS]) else Object(map[]);
    if !decoded.Object? || !(decoded.claims.Keys !! FORBIDDEN_CLAIMS)
    then i.kind == KIND_UNKNOWN && i.id == ""
    else (i.id != "" || Text(metadata, HEADER_ID) == "") && decoded.claims.Keys !! allowed
  }

  /** A job's metadata need not be clean, and the hop is exact just when what it holds is harmless. */
  lemma JobHopIsExactUnlessLeftovers(i: Initiator, metadata: Metadata, allowed: set<string>, codec: Codec)
    requires RoundTrips(codec) && Carriable(i)
    ensures FromHeaders(metadata + Headers(i, codec), allowed, codec) == i.(claims := Restricted(i.claims, allowed))
            <==> LeftoversAreHarmless(i, metadata, allowed, codec)
  {
    HeadersOver(i, codec, metadata);
    if i.claims != map[] {
      assert codec.decode(codec.encode(i.claims)) == Object(i.claims);
    } else if HEADER_CLAIMS in metadata {
      var decoded := codec.decode(metadata[HEADER_CLAIMS]);
      if decoded.Object? {
        var kept := Restricted(decoded.claims, allowed);
        if kept == map[] {
          forall n | n in decoded.claims
            ensures n !in allowed
          {
            assert n !in kept;
          }
        }
      }
    }
  }

  /** Work of the application's own, injected into a map that still holds a user's headers, arrives
      under that user's ID. */
  lemma LeftoverIdIsTakenOver(codec: Codec)
    requires RoundTrips(codec)
    ensures
      var system := Initiator("system", "", map[]);
      var metadata := map[HEADER_KIND := KIND_APP_USER, HEADER_ID := "usr_1"];
      FromHeaders(metadata + Headers(system, codec), {}, codec) == Initiator("system", "usr_1", map[])
  {
    var system := Initiator("system", "", map[]);
    var metadata := map[HEADER_KIND := KIND_APP_USER, HEADER_ID := "usr_1"];
    HeadersOver(system, codec, metadata);
  }
}
