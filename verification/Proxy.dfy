/** The local client proxy: one `handle` call signs, registers, forwards, verifies, correlates and decides. */
module Proxy {
  import opened Outcome
  import opened Message
  import opened Envelope
  import opened Pipeline
  import opened Enforcement
  import opened Extraction
  import opened ResponseVerification
  import Binding
  import Correlation
  import Request
  import RequestAcceptance
  import RequestContent
  import Signing

  datatype BindingContext = BindingContext(
    audience: string, routeId: string, rpcMethod: string, toolId: Option<string>, deadline: int)

  datatype Route = Route(
    mode: Mode, legacyAllowed: bool, expectedSigner: string, audience: string,
    bind: BindingContext -> Result<AuthorizationBinding>)

  datatype CallParams = CallParams(
    onBehalfOf: string, nonce: string, issuedAt: string, expiresAt: string, now: int, deadline: int)

  /** The pieces a proxy is wired from; what performs I/O or custody checks arrives as functions. */
  datatype Wiring = Wiring(
    w: World,
    routes: string -> Option<Route>,
    signerId: string, keyId: string,
    authorized: Result<()>,                       // the custody policy's verdict on the signer
    sign: string -> Result<string>,
    resolver: Resolver,
    transport: string -> Option<string>,          // a reply, or a transport failure
    unwrap: Value -> Result<Value>)               // the payload of a verified `result`

  datatype ProxyError = UnknownRoute | MalformedRequest | Transport | FailedClosed(error: McpsError)

  datatype Path = McpsVerified | LegacyExplicit

  datatype Reply = Answer(response: Value, path: Path) | Failure(error: ProxyError)

  /** A request signed and ready to be registered and sent. */
  datatype Prepared = Prepared(route: Route, id: Value, text: string, entry: Correlation.PendingRequest)

  datatype Preparation = Ready(prepared: Prepared) | NotReady(error: ProxyError)

  function ParamsOf(plain: Value): seq<Entry> {
    match Get(plain, "params")
    case Some(Object(es)) => es
    case _ => []
  }

  function IdOf(plain: Value): Value {
    match Get(plain, "id")
    case Some(id) => id
    case None => Null
  }

  function InputsFor(x: Wiring, route: Route, binding: AuthorizationBinding, p: CallParams): Request.Inputs {
    Request.Inputs(x.signerId, x.keyId, p.onBehalfOf, route.audience, binding, p.nonce, p.issuedAt, p.expiresAt,
                   DRAFT_02_CANONICALIZATION_ALLOWLIST[0])
  }

  function BuildFor(x: Wiring, route: Route, routeId: string, plain: Value, rpcMethod: string, p: CallParams)
    : Result<(Request.SignedRequest, string)>
  {
    var toolId := GetString(Object(ParamsOf(plain)), "name");
    var binding :- route.bind(BindingContext(route.audience, routeId, rpcMethod, toolId, p.deadline));
    var _ :- x.authorized;
    var signed :- Request.Build(x.w, IdOf(plain), rpcMethod, ParamsOf(plain), InputsFor(x, route, binding, p), x.sign);
    Ok((signed, binding.digestValue))
  }

  /** Everything up to the point where the call first touches the correlation store. */
  function Prepare(x: Wiring, routeId: string, plain: Value, p: CallParams): Preparation {
    match x.routes(routeId)
    case None => NotReady(UnknownRoute)
    case Some(route) =>
      match GetString(plain, "method")
      case None => NotReady(MalformedRequest)
      case Some(rpcMethod) =>
        match BuildFor(x, route, routeId, plain, rpcMethod, p)
        case Err(e) => NotReady(FailedClosed(e))
        case Ok((signed, digest)) =>
          Ready(Prepared(route, IdOf(plain), signed.wire,
            Correlation.PendingRequest(Serialize(x.w, IdOf(plain)), signed.requestHash, p.nonce, p.now, p.deadline, routeId,
              route.audience, [route.expectedSigner], VERSION_DRAFT_02, CANONICALIZATION_ID_INT53_V1, digest)))
  }

  function ExpectationFor(r: Prepared): Expectation {
    Expectation(r.entry.requestHash, CANONICALIZATION_ID_INT53_V1, Some(r.route.expectedSigner))
  }

  /** What the evidence in a reply is worth on this route. */
  function Judge(x: Wiring, r: Prepared, reply: string): Decision {
    Decide(r.route.mode, r.route.legacyAllowed,
           Classify(VerifySignedResponse(x.w, reply, x.resolver, ExpectationFor(r))))
  }

  function PlainResponse(x: Wiring, id: Value, reply: string): Result<Value> {
    var value :- OkOr(x.w.decode(reply), CanonicalizationFailed);
    var result :- OkOr(Get(value, "result"), CanonicalizationFailed);
    var payload :- x.unwrap(result);
    Ok(Object([Entry("jsonrpc", String("2.0")), Entry("id", id), Entry("result", payload)]))
  }

  function Conclusion(x: Wiring, r: Prepared, reply: string): Reply {
    match Judge(x, r, reply)
    case AcceptMcps =>
      (match PlainResponse(x, r.id, reply)
       case Ok(v) => Answer(v, McpsVerified)
       case Err(e) => Failure(FailedClosed(e)))
    case FallBackToLegacy(_) =>
      (match x.w.decode(reply)
       case Some(v) => Answer(v, LegacyExplicit)
       case None => Failure(MalformedRequest))
    case FailClosed(e) => Failure(FailedClosed(e))
  }

  function TransportFailure(r: Prepared): Reply {
    match Decide(r.route.mode, r.route.legacyAllowed, Absent(TransportFailurePreEvidence))
    case FailClosed(e) => Failure(FailedClosed(e))
    case _ => Failure(Transport)
  }

  /** The call from registration on. */
  function Exchange(x: Wiring, s: Correlation.State, r: Prepared, now: int): (Reply, Correlation.State) {
    match Correlation.Refusal(s, r.entry, now)
    case Some(e) => (Failure(FailedClosed(Correlation.ToMcpsError(e))), s)
    case None =>
      var registered := Correlation.Registered(s, r.entry);
      var id := r.entry.correlationId;
      match x.transport(r.text)
      case None => (TransportFailure(r), Correlation.Without(registered, id))
      case Some(reply) =>
        match Correlation.TakeVerdict(registered, id, now)
        case Failed(e) => (Failure(FailedClosed(Correlation.ToMcpsError(e))), Correlation.Without(registered, id))
        case Done(_) => (Conclusion(x, r, reply), Correlation.Without(registered, id))
  }

  function Handle(x: Wiring, s: Correlation.State, routeId: string, plain: Value, p: CallParams): (Reply, Correlation.State) {
    match Prepare(x, routeId, plain, p)
    case NotReady(e) => (Failure(e), s)
    case Ready(r) => Exchange(x, s, r, p.now)
  }

  class ClientProxy {
    const x: Wiring
    const correlation: Correlation.CorrelationStore

    constructor (x: Wiring)
      ensures this.x == x && fresh(correlation) && correlation.Contents() == Correlation.EMPTY
    {
      this.x := x;
      correlation := new Correlation.CorrelationStore();
    }

    method Call(routeId: string, plain: Value, p: CallParams) returns (reply: Reply)
      modifies correlation
      ensures (reply, correlation.Contents()) == Handle(x, old(correlation.Contents()), routeId, plain, p)
    {
      match Prepare(x, routeId, plain, p) {
        case NotReady(e) => return Failure(e);
        case Ready(r) => reply := Send(r, p.now);
      }
    }

    method Send(r: Prepared, now: int) returns (reply: Reply)
      modifies correlation
      ensures (reply, correlation.Contents()) == Exchange(x, old(correlation.Contents()), r, now)
    {
      var refusal := correlation.Register(r.entry, now);
      if refusal.Some? {
        return Failure(FailedClosed(Correlation.ToMcpsError(refusal.value)));
      }
      match x.transport(r.text) {
        case None =>
          var _ := correlation.Cancel(r.entry.correlationId);
          reply := TransportFailure(r);
        case Some(text) =>
          var conclusion := Conclusion(x, r, text);
          var taken := correlation.TakeForResponse(r.entry.correlationId, now);
          if taken.Failed? {
            return Failure(FailedClosed(Correlation.ToMcpsError(taken.error)));
          }
          reply := conclusion;
      }
    }
  }

  // ----- Between calls nothing is outstanding -----

  /** The request got as far as the wire. */
  predicate Sent(x: Wiring, s: Correlation.State, routeId: string, plain: Value, p: CallParams) {
    && Prepare(x, routeId, plain, p).Ready?
    && Correlation.Refusal(s, Prepare(x, routeId, plain, p).prepared.entry, p.now).None?
  }

  lemma ExchangeRestores(x: Wiring, s: Correlation.State, r: Prepared, now: int)
    ensures var after := Exchange(x, s, r, now).1;
            && after.pending == s.pending
            && after.window == if Correlation.Refusal(s, r.entry, now).None? then s.window[r.entry.nonce := r.entry.deadline]
                               else s.window
  {
    var id := r.entry.correlationId;
    if Correlation.Refusal(s, r.entry, now).None? {
      assert s.pending[id := r.entry] - {id} == s.pending;
    }
  }

  lemma PreparedEntry(x: Wiring, routeId: string, plain: Value, p: CallParams)
    requires Prepare(x, routeId, plain, p).Ready?
    ensures var entry := Prepare(x, routeId, plain, p).prepared.entry;
            entry.nonce == p.nonce && entry.deadline == p.deadline
  {
  }

  /** On every path a call leaves the outstanding requests as it found them, and uses its nonce exactly when it sends. */
  lemma HandleRestores(x: Wiring, s: Correlation.State, routeId: string, plain: Value, p: CallParams)
    ensures var after := Handle(x, s, routeId, plain, p).1;
            && after.pending == s.pending
            && after.window == if Sent(x, s, routeId, plain, p) then s.window[p.nonce := p.deadline] else s.window
  {
    if Prepare(x, routeId, plain, p).Ready? {
      PreparedEntry(x, routeId, plain, p);
      ExchangeRestores(x, s, Prepare(x, routeId, plain, p).prepared, p.now);
    }
  }

  // ----- Runs of calls -----

  datatype Incoming = Incoming(routeId: string, plain: Value, params: CallParams)

  function Step(x: Wiring, s: Correlation.State, c: Incoming): (Reply, Correlation.State) {
    Handle(x, s, c.routeId, c.plain, c.params)
  }

  /** The store after the first k calls to a new proxy. */
  function After(x: Wiring, calls: seq<Incoming>, k: nat): Correlation.State
    requires k <= |calls|
  {
    if k == 0 then Correlation.EMPTY else Step(x, After(x, calls, k - 1), calls[k - 1]).1
  }

  predicate SentAt(x: Wiring, calls: seq<Incoming>, k: nat)
    requires k < |calls|
  {
    Sent(x, After(x, calls, k), calls[k].routeId, calls[k].plain, calls[k].params)
  }

  /** Between the calls of every run, no request is outstanding. */
  lemma {:induction false} NothingOutstanding(x: Wiring, calls: seq<Incoming>, k: nat)
    requires k <= |calls|
    ensures After(x, calls, k).pending == map[]
  {
    if k > 0 {
      NothingOutstanding(x, calls, k - 1);
      HandleRestores(x, After(x, calls, k - 1), calls[k - 1].routeId, calls[k - 1].plain, calls[k - 1].params);
    }
  }

  predicate Clocked(calls: seq<Incoming>) {
    forall i, j :: 0 <= i <= j < |calls| ==> calls[i].params.now <= calls[j].params.now
  }

  lemma StepHolds(x: Wiring, s: Correlation.State, c: Incoming, nonce: string, deadline: int, before: int)
    requires Correlation.Held(s, nonce, deadline, before) && before <= c.params.now
    ensures Correlation.Held(Step(x, s, c).1, nonce, deadline, c.params.now)
  {
    HandleRestores(x, s, c.routeId, c.plain, c.params);
    if Sent(x, s, c.routeId, c.plain, c.params) {
      PreparedEntry(x, c.routeId, c.plain, c.params);
    }
  }

  lemma {:induction false} HeldSince(x: Wiring, calls: seq<Incoming>, i: nat, k: nat, nonce: string, deadline: int)
    requires Clocked(calls) && i < k <= |calls|
    requires Correlation.Held(After(x, calls, i + 1), nonce, deadline, calls[i].params.now)
    ensures Correlation.Held(After(x, calls, k), nonce, deadline, calls[k - 1].params.now)
  {
    if k > i + 1 {
      HeldSince(x, calls, i, k - 1, nonce, deadline);
      StepHolds(x, After(x, calls, k - 1), calls[k - 1], nonce, deadline, calls[k - 2].params.now);
    }
  }

  /** No nonce goes on the wire again before the deadline of the call that used it. */
  lemma NonceSentOnce(x: Wiring, calls: seq<Incoming>, i: nat, j: nat)
    requires Clocked(calls) && i < j < |calls| && SentAt(x, calls, i) && SentAt(x, calls, j)
    requires calls[i].params.nonce == calls[j].params.nonce
    ensures calls[i].params.deadline <= calls[j].params.now
  {
    var (c, d) := (calls[i].params, calls[j].params);
    HandleRestores(x, After(x, calls, i), calls[i].routeId, calls[i].plain, c);
    HeldSince(x, calls, i, j, c.nonce, c.deadline);
    PreparedEntry(x, calls[j].routeId, calls[j].plain, d);
    assert calls[j - 1].params.now <= d.now;
  }

  // ----- What an answer means -----

  /** The call was sent, answered, and correlated in time. */
  predicate Answered(x: Wiring, s: Correlation.State, r: Prepared, now: int) {
    && Correlation.Refusal(s, r.entry, now).None?
    && x.transport(r.text).Some?
    && now <= r.entry.deadline
  }

  lemma ExchangeAnswers(x: Wiring, s: Correlation.State, r: Prepared, now: int)
    ensures Exchange(x, s, r, now).0.Answer? <==> Answered(x, s, r, now) && Conclusion(x, r, x.transport(r.text).value).Answer?
    ensures Exchange(x, s, r, now).0.Answer? ==> Exchange(x, s, r, now).0 == Conclusion(x, r, x.transport(r.text).value)
  {
  }

  lemma LegacyConclusion(x: Wiring, r: Prepared, reply: string)
    ensures (Conclusion(x, r, reply).Answer? && Conclusion(x, r, reply).path == LegacyExplicit) <==>
            r.route.mode == AllowLegacyExplicit && r.route.legacyAllowed && NoEvidence(x.w, reply, x.resolver)
  {
    FallBackExactly(x.w, reply, x.resolver, ExpectationFor(r), r.route.mode, r.route.legacyAllowed);
  }

  /**
   * Legacy pass-through, exactly: a call is answered on the legacy path if and only if it was
   * sent and answered in time, its route is in migration mode and allowlisted, and the reply
   * is well formed and counts as carrying no evidence.
   */
  lemma LegacyExactly(x: Wiring, s: Correlation.State, routeId: string, plain: Value, p: CallParams)
    ensures var reply := Handle(x, s, routeId, plain, p).0;
            reply.Answer? && reply.path == LegacyExplicit <==>
            && Prepare(x, routeId, plain, p).Ready?
            && var r := Prepare(x, routeId, plain, p).prepared;
            && Answered(x, s, r, p.now)
            && r.route.mode == AllowLegacyExplicit && r.route.legacyAllowed
            && NoEvidence(x.w, x.transport(r.text).value, x.resolver)
  {
    if Prepare(x, routeId, plain, p).Ready? {
      var r := Prepare(x, routeId, plain, p).prepared;
      ExchangeAnswers(x, s, r, p.now);
      if Answered(x, s, r, p.now) {
        LegacyConclusion(x, r, x.transport(r.text).value);
      }
    }
  }

  lemma VerifiedConclusion(x: Wiring, r: Prepared, reply: string)
    requires Conclusion(x, r, reply).Answer? && Conclusion(x, r, reply).path == McpsVerified
    ensures var e := ExpectationFor(r);
            && VerifySignedResponse(x.w, reply, x.resolver, e).Ok?
            && VerifyResponseDraft02(x.w, reply, x.resolver, e.requestHash, e.canonicalizationId).Ok?
            && VerifyResponseDraft02(x.w, reply, x.resolver, e.requestHash, e.canonicalizationId).value.serverSigner ==
               r.route.expectedSigner
  {
  }

  /** The reply is a genuine draft-02 response of the route's signer to the request sent. */
  predicate Confirms(x: Wiring, r: Prepared, reply: string) {
    && x.w.decode(reply).Some?
    && var value := x.w.decode(reply).value;
    && GetPath(value, ["result", "_meta", "se.syncom/mcps.response"]).Some?
    && var envelope := GetPath(value, ["result", "_meta", "se.syncom/mcps.response"]).value;
    && GenuineDraft02Response(x.w, reply, value, envelope, x.resolver, r.entry.requestHash, "mcps-jcs-int53-json-v1")
    && TextIs(envelope, "server_signer", r.route.expectedSigner)
  }

  lemma ConfirmedExactly(x: Wiring, r: Prepared, reply: string)
    ensures VerifySignedResponse(x.w, reply, x.resolver, ExpectationFor(r)).Ok? <==> Confirms(x, r, reply)
  {
    var (hash, id) := (r.entry.requestHash, CANONICALIZATION_ID_INT53_V1);
    ResponseRefusals(x.w, reply, x.resolver, hash, id);
    if x.w.decode(reply).Some? {
      var found := GetPath(x.w.decode(reply).value, ["result", "_meta", "se.syncom/mcps.response"]);
      if found.Some? {
        Draft02ResponseAcceptedExactly(x.w, reply, x.resolver, hash, id, found.value);
      }
    }
  }

  /** The answer handed to the client: a reply to its id with this result, and nothing else. */
  ghost predicate IsReplyWith(v: Value, id: Value, result: Value) {
    && Get(v, "id") == Some(id) && TextIs(v, "jsonrpc", "2.0") && Get(v, "result") == Some(result)
    && forall k :: k !in {"id", "jsonrpc", "result"} ==> Get(v, k).None?
  }

  lemma ReplyAssembled(id: Value, result: Value)
    ensures IsReplyWith(Object([Entry("jsonrpc", String("2.0")), Entry("id", id), Entry("result", result)]), id, result)
  {
    var es := [Entry("jsonrpc", String("2.0")), Entry("id", id), Entry("result", result)];
    Request.FindAt(es, 0);
    Request.FindAt(es, 1);
    Request.FindAt(es, 2);
    forall k | k !in {"id", "jsonrpc", "result"} ensures Find(es, k).None? {
      RequestAcceptance.FindAbsent(es, k);
    }
  }

  lemma VerifiedExactlyConcludes(x: Wiring, r: Prepared, reply: string)
    ensures (Conclusion(x, r, reply).Answer? && Conclusion(x, r, reply).path == McpsVerified) <==>
            && Confirms(x, r, reply)
            && Get(x.w.decode(reply).value, "result").Some?
            && x.unwrap(Get(x.w.decode(reply).value, "result").value).Ok?
    ensures Conclusion(x, r, reply).Answer? && Conclusion(x, r, reply).path == McpsVerified ==>
            IsReplyWith(Conclusion(x, r, reply).response, r.id, x.unwrap(Get(x.w.decode(reply).value, "result").value).value)
    ensures Conclusion(x, r, reply).Answer? && Conclusion(x, r, reply).path == LegacyExplicit ==>
            x.w.decode(reply) == Some(Conclusion(x, r, reply).response)
  {
    ConfirmedExactly(x, r, reply);
    if Confirms(x, r, reply) {
      var result := Get(x.w.decode(reply).value, "result");
      if result.Some? && x.unwrap(result.value).Ok? {
        ReplyAssembled(r.id, x.unwrap(result.value).value);
      }
    }
  }

  /**
   * A call is answered as verified if and only if it was sent and answered in time, and the
   * reply is a genuine response of the route's signer to the request sent, whose result
   * unwraps. The answer carries the caller's id and that result.
   */
  lemma VerifiedExactly(x: Wiring, s: Correlation.State, routeId: string, plain: Value, p: CallParams)
    ensures var reply := Handle(x, s, routeId, plain, p).0;
            && (reply.Answer? && reply.path == McpsVerified <==>
                && Prepare(x, routeId, plain, p).Ready?
                && var r := Prepare(x, routeId, plain, p).prepared;
                && Answered(x, s, r, p.now)
                && Confirms(x, r, x.transport(r.text).value)
                && var value := x.w.decode(x.transport(r.text).value).value;
                && Get(value, "result").Some? && x.unwrap(Get(value, "result").value).Ok?)
            && (reply.Answer? && reply.path == McpsVerified ==>
                var r := Prepare(x, routeId, plain, p).prepared;
                var value := x.w.decode(x.transport(r.text).value).value;
                IsReplyWith(reply.response, IdOf(plain), x.unwrap(Get(value, "result").value).value))
            && (reply.Answer? && reply.path == LegacyExplicit ==>
                x.w.decode(x.transport(Prepare(x, routeId, plain, p).prepared.text).value) == Some(reply.response))
  {
    if Prepare(x, routeId, plain, p).Ready? {
      var r := Prepare(x, routeId, plain, p).prepared;
      PreparedEntry(x, routeId, plain, p);
      ExchangeAnswers(x, s, r, p.now);
      if x.transport(r.text).Some? {
        VerifiedExactlyConcludes(x, r, x.transport(r.text).value);
      }
    }
  }

  // ----- What is sent -----

  /** What the route's provider is asked. */
  function ContextOf(route: Route, routeId: string, plain: Value, p: CallParams): BindingContext {
    BindingContext(route.audience, routeId, TextOf(plain, "method"), GetString(Object(ParamsOf(plain)), "name"), p.deadline)
  }

  /** The caller's call, built for the route under a binding. */
  function CallFor(x: Wiring, route: Route, plain: Value, binding: AuthorizationBinding, p: CallParams): Result<Request.SignedRequest> {
    Request.Build(x.w, IdOf(plain), TextOf(plain, "method"), ParamsOf(plain), InputsFor(x, route, binding, p), x.sign)
  }

  /** The binding is provided, then the signer authorized, then the call built; the first to fail is the verdict. */
  function ReadyVerdict(x: Wiring, route: Route, plain: Value, bound: Result<AuthorizationBinding>, p: CallParams): Result<()> {
    if bound.Err? then Err(bound.error)
    else if x.authorized.Err? then x.authorized
    else if CallFor(x, route, plain, bound.value, p).Err? then Err(CallFor(x, route, plain, bound.value, p).error)
    else Ok(())
  }

  /**
   * A call is prepared exactly for a known route and a request with a method, once the binding
   * is provided, the signer authorized and the request built; otherwise the first of these to
   * fail decides the error.
   */
  lemma PreparedExactly(x: Wiring, routeId: string, plain: Value, p: CallParams)
    ensures var r := Prepare(x, routeId, plain, p);
            match x.routes(routeId)
            case None => r == NotReady(UnknownRoute)
            case Some(route) =>
              if !HasText(plain, "method") then r == NotReady(MalformedRequest)
              else
                match ReadyVerdict(x, route, plain, route.bind(ContextOf(route, routeId, plain, p)), p)
                case Err(e) => r == NotReady(FailedClosed(e))
                case Ok(_) => r.Ready? && r.prepared.route == route && r.prepared.id == IdOf(plain)
  {
    TypedText(plain, "method", "");
  }

  /** The outstanding request records the call it stands for and what its response must show. */
  lemma EntrySays(x: Wiring, routeId: string, plain: Value, p: CallParams)
    requires Prepare(x, routeId, plain, p).Ready?
    ensures var r := Prepare(x, routeId, plain, p).prepared;
            var bound := r.route.bind(ContextOf(r.route, routeId, plain, p));
            && bound.Ok? && CallFor(x, r.route, plain, bound.value, p).Ok?
            && var signed := CallFor(x, r.route, plain, bound.value, p).value;
            && r.text == signed.wire
            && r.entry.correlationId == Serialize(x.w, IdOf(plain))
            && r.entry.requestHash == signed.requestHash
            && r.entry.nonce == p.nonce && r.entry.issuedAt == p.now && r.entry.deadline == p.deadline
            && r.entry.routeId == routeId && r.entry.audience == r.route.audience
            && r.entry.expectedSigners == [r.route.expectedSigner]
            && r.entry.version == "draft-02" && r.entry.canonicalizationId == "mcps-jcs-int53-json-v1"
            && r.entry.authzDigest == bound.value.digestValue
  {
    TypedText(plain, "method", "");
  }

  /** The plain request's params under every name, and its `_meta` beside the envelope. */
  ghost predicate KeepsPlain(plain: Value, request: Value) {
    && (forall k :: k != "_meta" ==> GetPath(request, ["params", k]) == GetPath(plain, ["params", k]))
    && (forall k :: k != "se.syncom/mcps.request" ==> GetPath(request, ["params", "_meta", k]) == GetPath(plain, ["params", "_meta", k]))
  }

  lemma PathOfTwo(v: Value, a: string, b: string)
    ensures GetPath(v, [a, b]) == match Get(v, a) case None => None case Some(x) => Get(x, b)
  {
    assert [a, b] == [a] + ([b] + []);
    PathStep(v, a, [b] + []);
    if Get(v, a).Some? {
      PathStep(Get(v, a).value, b, []);
    }
  }

  lemma PlainKept(plain: Value, request: Value)
    requires Get(request, "params").Some? && RequestContent.KeepsParams(ParamsOf(plain), Get(request, "params").value)
    ensures KeepsPlain(plain, request)
  {
    forall k | k != "_meta" ensures GetPath(request, ["params", k]) == GetPath(plain, ["params", k]) {
      PathOfTwo(request, "params", k);
      PathOfTwo(plain, "params", k);
    }
    forall k | k != "se.syncom/mcps.request" ensures GetPath(request, ["params", "_meta", k]) == GetPath(plain, ["params", "_meta", k]) {
      PathOfThree(request, "params", "_meta", k);
      PathOfThree(plain, "params", "_meta", k);
      assert Get(Get(Get(request, "params").value, "_meta").value, k) == RequestContent.CallerMeta(ParamsOf(plain), k);
    }
  }

  /** What is sent says what the caller said, and is stamped for the route. */
  lemma SentSays(x: Wiring, routeId: string, plain: Value, p: CallParams) returns (request: Value, envelope: Value)
    requires Prepare(x, routeId, plain, p).Ready?
    ensures var r := Prepare(x, routeId, plain, p).prepared;
            && r.text == Serialize(x.w, request)
            && Get(request, "params").Some? && HasText(plain, "method")
            && RequestContent.IsCall(request, IdOf(plain), Get(plain, "method").value.s, Get(request, "params").value)
            && (if Get(plain, "id").Some? then Get(plain, "id") == Some(IdOf(plain)) else IdOf(plain) == Null)
            && KeepsPlain(plain, request)
            && RequestEnvelopeIs(request, envelope)
            && TextIs(envelope, "version", "draft-02") && TextIs(envelope, "canonicalization_id", "mcps-jcs-int53-json-v1")
            && TextIs(envelope, "audience", r.route.audience)
            && TextIs(envelope, "signer", x.signerId)
            && TextIs(envelope, "on_behalf_of", p.onBehalfOf)
            && TextIs(envelope, "nonce", p.nonce)
            && TextIs(envelope, "issued_at", p.issuedAt) && TextIs(envelope, "expires_at", p.expiresAt)
            && r.route.bind(ContextOf(r.route, routeId, plain, p)).Ok?
            && Get(envelope, "authorization_binding").Some?
            && BindingReads(Get(envelope, "authorization_binding").value, r.route.bind(ContextOf(r.route, routeId, plain, p)).value)
            && RequestHash(x.w, request) == Ok(r.entry.requestHash)
  {
    EntrySays(x, routeId, plain, p);
    TypedText(plain, "method", "");
    var r := Prepare(x, routeId, plain, p).prepared;
    var rpcMethod := TextOf(plain, "method");
    var binding := r.route.bind(ContextOf(r.route, routeId, plain, p)).value;
    var inputs := InputsFor(x, r.route, binding, p);
    Request.BuiltExactly(x.w, IdOf(plain), rpcMethod, ParamsOf(plain), inputs, x.sign);
    envelope := RequestContent.BuiltSays(x.w, IdOf(plain), rpcMethod, ParamsOf(plain), inputs, x.sign);
    request := Request.Build(x.w, IdOf(plain), rpcMethod, ParamsOf(plain), inputs, x.sign).value.request;
    PlainKept(plain, request);
  }

  // ----- Failures -----

  /** Why a sent call ends before its reply counts: an id or nonce in use, no reply, or a deadline passed, in that order. */
  function Unanswered(x: Wiring, s: Correlation.State, r: Prepared, now: int): Option<ProxyError> {
    if r.entry.correlationId in s.pending || (r.entry.nonce in s.window && s.window[r.entry.nonce] > now)
    then Some(FailedClosed(ReplayDetected))
    else if x.transport(r.text).None?
    then Some(if r.route.mode == AllowLegacyExplicit && r.route.legacyAllowed then Transport else FailedClosed(DowngradeForbidden))
    else if now > r.entry.deadline then Some(FailedClosed(ExpiredRequest))
    else None
  }

  /** The first of these that applies decides, and only then is the reply's evidence judged. */
  lemma ExchangeVerdicts(x: Wiring, s: Correlation.State, r: Prepared, now: int)
    ensures Exchange(x, s, r, now).0 ==
            match Unanswered(x, s, r, now)
            case Some(e) => Failure(e)
            case None => Conclusion(x, r, x.transport(r.text).value)
  {
  }

  /** A call that is not prepared fails as its preparation did; a prepared one is sent and ends as its exchange. */
  lemma CallVerdicts(x: Wiring, s: Correlation.State, routeId: string, plain: Value, p: CallParams, preparation: Preparation)
    requires preparation == Prepare(x, routeId, plain, p)
    ensures var reply := Handle(x, s, routeId, plain, p).0;
            match preparation
            case NotReady(e) => reply == Failure(e)
            case Ready(r) =>
              match Unanswered(x, s, r, p.now)
              case Some(e) => reply == Failure(e)
              case None => reply == Conclusion(x, r, x.transport(r.text).value)
  {
    if preparation.Ready? {
      ExchangeVerdicts(x, s, preparation.prepared, p.now);
    }
  }

  /** Evidence that is there and bad fails closed with its own verdict, on every route. */
  lemma BadEvidenceRefused(x: Wiring, r: Prepared, reply: string)
    ensures var verdict := VerifyResponseDraft02(x.w, reply, x.resolver, r.entry.requestHash, "mcps-jcs-int53-json-v1");
            verdict.Err? && verdict.error != MissingEnvelope ==>
            Conclusion(x, r, reply) == Failure(FailedClosed(verdict.error))
  {
  }

  /** A genuine response from another signer than the route's fails closed, on every route. */
  lemma OtherSignerRefused(x: Wiring, r: Prepared, reply: string, envelope: Value)
    requires x.w.decode(reply).Some?
    requires GenuineDraft02Response(x.w, reply, x.w.decode(reply).value, envelope, x.resolver, r.entry.requestHash,
                                    "mcps-jcs-int53-json-v1")
    requires !TextIs(envelope, "server_signer", r.route.expectedSigner)
    ensures Conclusion(x, r, reply) == Failure(FailedClosed(ActorBindingFailed))
  {
    Draft02ResponseAcceptedExactly(x.w, reply, x.resolver, r.entry.requestHash, "mcps-jcs-int53-json-v1", envelope);
  }

  /** A reply without evidence fails closed as such wherever legacy is not allowed. */
  lemma PlainReplyRefused(x: Wiring, s: Correlation.State, routeId: string, plain: Value, p: CallParams)
    requires Prepare(x, routeId, plain, p).Ready? && Answered(x, s, Prepare(x, routeId, plain, p).prepared, p.now)
    requires var r := Prepare(x, routeId, plain, p).prepared;
             && NoEvidence(x.w, x.transport(r.text).value, x.resolver)
             && !(r.route.mode == AllowLegacyExplicit && r.route.legacyAllowed)
    ensures Handle(x, s, routeId, plain, p).0 == Failure(FailedClosed(MissingEnvelope))
  {
    var r := Prepare(x, routeId, plain, p).prepared;
    MissingEnvelopeExactly(x.w, x.transport(r.text).value, x.resolver, ExpectationFor(r));
  }

  /** Each key the signer resolves to is one of `keys`, and unforgeable. */
  ghost predicate HonestKeys(x: Wiring, signer: string, keys: string -> Key, signed: (Value, Signing.Location) -> bool) {
    && (forall keyId :: x.resolver(signer, keyId).Resolved? ==> x.resolver(signer, keyId) == Resolved(keys(keyId)))
    && (forall keyId :: Binding.Unforgeable(x.w, keys(keyId), signed))
  }

  /** The object answers this request, as this signer, under its canonicalization. */
  predicate AnswersRequest(v: Value, r: Prepared) {
    && Binding.FieldIs(v, Signing.Response, "request_hash", r.entry.requestHash)
    && Binding.FieldIs(v, Signing.Response, "server_signer", r.route.expectedSigner)
    && Binding.FieldIs(v, Signing.Response, "canonicalization_id", CANONICALIZATION_ID_INT53_V1)
  }

  lemma ReplyWasSigned(x: Wiring, r: Prepared, reply: string, keys: string -> Key, signed: (Value, Signing.Location) -> bool)
    returns (o: Value, l: Signing.Location)
    requires var e := ExpectationFor(r);
             && VerifyResponseDraft02(x.w, reply, x.resolver, e.requestHash, e.canonicalizationId).Ok?
             && VerifyResponseDraft02(x.w, reply, x.resolver, e.requestHash, e.canonicalizationId).value.serverSigner ==
                r.route.expectedSigner
    requires HonestKeys(x, r.route.expectedSigner, keys, signed)
    ensures signed(o, l) && AnswersRequest(o, r)
    ensures x.w.decode(reply).Some? && Binding.SameSignedContent(x.w.decode(reply).value, Signing.Response, o, l)
  {
    var e := ExpectationFor(r);
    var v := VerifyResponseDraft02(x.w, reply, x.resolver, e.requestHash, e.canonicalizationId).value;
    ResolvedKey(x, reply, e.requestHash, e.canonicalizationId);
    o, l := Binding.AcceptedDraft02ResponseWasSigned(x.w, reply, x.resolver, e.requestHash, e.canonicalizationId, keys(v.keyId), signed);
  }

  lemma ResolvedKey(x: Wiring, reply: string, hash: string, id: string)
    requires VerifyResponseDraft02(x.w, reply, x.resolver, hash, id).Ok?
    ensures var v := VerifyResponseDraft02(x.w, reply, x.resolver, hash, id).value;
            x.resolver(v.serverSigner, v.keyId).Resolved?
  {
    Binding.ResponseFactsDraft02(x.w, reply, x.resolver, hash, id);
  }

  /**
   * A verified answer was signed: under ideal signatures the holder of the resolved key signed
   * the reply's content, as the signer this route expects, over the hash of the request sent.
   */
  lemma VerifiedWasSigned(x: Wiring, s: Correlation.State, routeId: string, plain: Value, p: CallParams, keys: string -> Key,
                          signed: (Value, Signing.Location) -> bool)
    returns (o: Value, l: Signing.Location)
    requires var reply := Handle(x, s, routeId, plain, p).0; reply.Answer? && reply.path == McpsVerified
    requires Prepare(x, routeId, plain, p).Ready?
    requires HonestKeys(x, Prepare(x, routeId, plain, p).prepared.route.expectedSigner, keys, signed)
    ensures var r := Prepare(x, routeId, plain, p).prepared;
            && Answered(x, s, r, p.now) && signed(o, l) && AnswersRequest(o, r)
            && x.w.decode(x.transport(r.text).value).Some?
            && Binding.SameSignedContent(x.w.decode(x.transport(r.text).value).value, Signing.Response, o, l)
  {
    var r := Prepare(x, routeId, plain, p).prepared;
    ExchangeAnswers(x, s, r, p.now);
    VerifiedConclusion(x, r, x.transport(r.text).value);
    o, l := ReplyWasSigned(x, r, x.transport(r.text).value, keys, signed);
  }
}
