/** The stateful client session: one pending entry per signed request, consumed by its response. */
module Session {
  import opened Outcome
  import opened Message
  import opened Pipeline
  import opened SessionPending
  import opened SessionRuns
  import Binding
  import Jcs
  import Serialized
  import Signing
  import Timestamp

  datatype Stamps = Stamps(nonce: string, issuedAt: string, expiresAt: string)

  type Signer = (SignCall, Stamps) -> Result<string>

  /** What a session is built from: the signer with its stamping, the nonce source, the request lifetime. */
  datatype Host = Host(
    sign: (SignCall, string, int, int) -> Result<string>, nonces: nat -> string, lifetime: int)

  /** Sign a call issued and expiring at two instants, written as RFC 3339 text. */
  function Stamping(signer: Signer): (SignCall, string, int, int) -> Result<string> {
    (call: SignCall, nonce: string, issued: int, expires: int) =>
      signer(call, Stamps(nonce, Timestamp.Format(issued), Timestamp.Format(expires)))
  }

  function HashOf(w: World, text: string): Result<string> {
    var value :- OkOr(w.decode(text), CanonicalizationFailed);
    RequestHash(w, value)
  }

  function ResponseId(w: World, text: string): Result<Value> {
    var value :- OkOr(w.decode(text), CanonicalizationFailed);
    OkOr(Get(value, "id"), MissingEnvelope)
  }

  /** Stamp, sign and hash one call. */
  function SignAndHash(hash: string -> Result<string>, h: Host, call: SignCall, nonce: string, now: int): Result<SignedCall> {
    var _ :- Need(IsI64(now + h.lifetime), CanonicalizationFailed);
    var text :- h.sign(call, nonce, now, now + h.lifetime);
    var requestHash :- hash(text);
    Ok(SignedCall(text, requestHash))
  }

  function Hasher(w: World): string -> Result<string> {
    text => HashOf(w, text)
  }

  function ResponseKey(w: World, text: string): Result<string> {
    var id :- ResponseId(w, text);
    Ok(Serialize(w, id))
  }

  /** The session's operations, with their signer, hash and verifier filled in. */
  function Operations(w: World, h: Host): Ops {
    Ops((id: Value) => Serialize(w, id),
        (call: SignCall, drawn: nat, now: int) => SignAndHash(Hasher(w), h, call, h.nonces(drawn), now),
        now => now + h.lifetime,
        text => ResponseKey(w, text),
        (text: string, resolver: Resolver, hash: string) => VerifyResponse(w, text, resolver, hash))
  }

  lemma OperationsAre(w: World, h: Host, call: SignCall, drawn: nat, now: int)
    ensures var o := Operations(w, h);
            && o.idText(call.id) == Serialize(w, call.id) && o.expiry(now) == now + h.lifetime
            && o.sign(call, drawn, now) == SignAndHash(Hasher(w), h, call, h.nonces(drawn), now)
  {
  }

  class HostSession {
    const w: World
    const host: Host
    var pending: map<string, Pending>
    var drawn: nat

    function Contents(): State
      reads this
    {
      State(pending, drawn)
    }

    constructor (w: World, signer: Signer, nonces: nat -> string, lifetime: int)
      ensures this.w == w && host == Host(Stamping(signer), nonces, lifetime) && Contents() == EMPTY
    {
      this.w, host := w, Host(Stamping(signer), nonces, lifetime);
      pending, drawn := map[], 0;
    }

    method NextNonce() returns (nonce: string)
      modifies this`drawn
      ensures nonce == host.nonces(old(drawn)) && drawn == old(drawn) + 1
    {
      nonce := host.nonces(drawn);
      drawn := drawn + 1;
    }

    method StampAndSign(call: SignCall, nonce: string, now: int) returns (r: Result<SignedCall>)
      ensures r == SignAndHash(Hasher(w), host, call, nonce, now)
    {
      var expires := now + host.lifetime;
      if !IsI64(expires) {
        return Err(CanonicalizationFailed);
      }
      var text :- host.sign(call, nonce, now, expires);
      var hash :- HashOf(w, text);
      return Ok(SignedCall(text, hash));
    }

    method SignRequest(call: SignCall, now: int) returns (r: Result<string>)
      modifies this
      ensures (r, Contents()) == Sign(Operations(w, host), old(Contents()), call, now)
    {
      var key := Serialize(w, call.id);
      OperationsAre(w, host, call, drawn, now);
      if key in pending {
        return Err(ReplayDetected);
      }
      var nonce := NextNonce();
      var signed :- StampAndSign(call, nonce, now);
      pending := pending[key := Pending(signed.requestHash, now + host.lifetime)];
      return Ok(signed.text);
    }

    method VerifyAndEvict(text: string, resolver: Resolver) returns (r: Result<VerifiedResponse>)
      modifies this`pending
      ensures (r, Contents()) == Verify(Operations(w, host), old(Contents()), text, resolver)
    {
      var id :- ResponseId(w, text);
      var key := Serialize(w, id);
      if key !in pending {
        return Err(MissingEnvelope);
      }
      var verified :- VerifyResponse(w, text, resolver, pending[key].requestHash);
      pending := pending - {key};
      return Ok(verified);
    }

    method CancelRequest(id: Value) returns (found: bool)
      modifies this`pending
      ensures found == (Serialize(w, id) in old(pending))
      ensures pending == old(pending) - {Serialize(w, id)}
    {
      found := Serialize(w, id) in pending;
      pending := pending - {Serialize(w, id)};
    }

    /** Drops the expired entries one by one. */
    method ExpirePending(now: int) returns (removed: int)
      modifies this`pending
      ensures Contents() == Expire(old(Contents()), now)
      ensures removed == |old(pending)| - |pending|
    {
      var before := |pending|;
      var keys := pending.Keys;
      while keys != {}
        invariant keys <= old(pending).Keys
        invariant pending == map key | key in old(pending) && (key in keys || now < old(pending)[key].expiresAt) :: old(pending)[key]
        decreases |keys|
      {
        var key :| key in keys;
        if now >= pending[key].expiresAt {
          pending := pending - {key};
        }
        keys := keys - {key};
      }
      removed := before - |pending|;
    }
  }

  /** The session's verifier returns the hash it was given, as its runs assume. */
  lemma OperationsBind(w: World, h: Host)
    ensures BindsHash(Operations(w, h))
  {
  }

  /** The hash a sign stores is the request hash of the text it returned. */
  lemma SignedHash(hash: string -> Result<string>, h: Host, call: SignCall, drawn: nat, now: int)
    requires SignAndHash(hash, h, call, h.nonces(drawn), now).Ok?
    ensures var signed := SignAndHash(hash, h, call, h.nonces(drawn), now).value;
            hash(signed.text) == Ok(signed.requestHash)
  {
  }

  lemma SignedEvent(w: World, h: Host, s: State, step: Step)
    requires Perform(Operations(w, h), s, step).0.Signed?
    ensures var signed := Perform(Operations(w, h), s, step).0.signed;
            HashOf(w, signed.text) == Ok(signed.requestHash)
  {
    var o := Operations(w, h);
    assert o.sign(step.call, s.drawn, step.now) == SignAndHash(Hasher(w), h, step.call, h.nonces(s.drawn), step.now);
    SignedHash(Hasher(w), h, step.call, s.drawn, step.now);
  }

  // ----- Responses and requests share their ids -----

  /** The id of a message with a preimage is bound by it, and so in the canonical domain. */
  lemma SignedIdIsFine(value: Value, id: Value)
    requires Signing.SigningPreimage(value, Signing.Response).Ok? && Get(value, "id") == Some(id)
    ensures Serialized.Fine(id, 1)
  {
    var path := ["id"];
    Signing.PreimageOfSignedPart(value, Signing.Response);
    Binding.OutsideMetaBound(Signing.Response, path);
    Signing.ReadingOfSignedPart(value, Signing.Response, path);
    PathStep(value, "id", []);
    assert path == ["id"] + [];
    var part := Signing.SignedPart(value, Signing.Response).value;
    IdOfPart(part, ToJcs(id, 1).value);
  }

  lemma IdOfPart(part: Jcs.JcsValue, id: Jcs.JcsValue)
    requires Jcs.Printable(part, 0) && ReadPath(part, ["id"]) == Some(id)
    ensures Jcs.Printable(id, 1)
  {
    assert ["id"][1..] == [];
    Signing.FoundPrintable(part.members, "id", 0);
  }

  lemma ResponseIdIsFine(w: World, text: string, resolver: Resolver, hash: string)
    requires VerifyResponse(w, text, resolver, hash).Ok? && ResponseId(w, text).Ok?
    ensures Serialized.Fine(ResponseId(w, text).value, 0)
  {
    Binding.ResponseFacts(w, text, resolver, hash);
    SignedIdIsFine(w.decode(text).value, ResponseId(w, text).value);
    Serialized.FineShallower(ResponseId(w, text).value, 1, 0);
  }

  /** Ids in the canonical domain share a key only if they are the same id. */
  lemma KeysAreIds(w: World, a: Value, b: Value)
    requires Serialized.Fine(a, 0) && Serialized.Fine(b, 0)
    ensures Serialize(w, a) == Serialize(w, b) <==> a == b
  {
    Serialized.CompactInjective(a, b);
  }

  lemma VerifiedStepId(w: World, h: Host, s: State, step: Step)
    requires Perform(Operations(w, h), s, step).0.Verified?
    ensures step.VerifyStep? && ResponseId(w, step.text).Ok?
    ensures Operations(w, h).responseKey(step.text) == Ok(Serialize(w, ResponseId(w, step.text).value))
    ensures Serialized.Fine(ResponseId(w, step.text).value, 0)
  {
    var o := Operations(w, h);
    assert o.responseKey(step.text) == ResponseKey(w, step.text);
    var hash := s.pending[o.responseKey(step.text).value].requestHash;
    assert o.verify(step.text, step.resolver, hash) == VerifyResponse(w, step.text, step.resolver, hash);
    ResponseIdIsFine(w, step.text, step.resolver, hash);
  }

  /**
   * In every run of a session, an accepted response was preceded by a request whose text hashes
   * to the hash the response carries, signed under the response's own id if that request's id
   * was in the canonical domain.
   */
  lemma ResponseAnswersRequest(w: World, h: Host, steps: seq<Step>, j: nat) returns (i: nat)
    requires j < |steps| && EventAt(Operations(w, h), EMPTY, steps, j).Verified?
    ensures steps[j].VerifyStep? && Consumed(Operations(w, h), steps, j) == Some(i)
    ensures i < j && steps[i].SignStep? && EventAt(Operations(w, h), EMPTY, steps, i).Signed?
    ensures HashOf(w, EventAt(Operations(w, h), EMPTY, steps, i).signed.text) ==
            Ok(EventAt(Operations(w, h), EMPTY, steps, j).response.requestHash)
    ensures Serialized.Fine(steps[i].call.id, 0) ==> ResponseId(w, steps[j].text) == Ok(steps[i].call.id)
  {
    var o := Operations(w, h);
    OperationsBind(w, h);
    ResponseConsumesSign(o, steps, j);
    i := Consumed(o, steps, j).value;
    SignedEvent(w, h, After(o, EMPTY, steps, i), steps[i]);
    VerifiedStepId(w, h, After(o, EMPTY, steps, j), steps[j]);
    assert o.idText(steps[i].call.id) == Serialize(w, steps[i].call.id);
    if Serialized.Fine(steps[i].call.id, 0) {
      KeysAreIds(w, steps[i].call.id, ResponseId(w, steps[j].text).value);
    }
  }

  // ----- The stamps of a signed request -----

  /** The stamp reads back as the instant, or is refused when its year has not four digits. */
  predicate Says(stamp: string, unix: int) {
    Timestamp.Parse(stamp) ==
    if Timestamp.FIRST_SECOND <= unix <= Timestamp.LAST_SECOND then Ok(unix) else Err(ExpiredRequest)
  }

  lemma FormatSays(unix: int)
    ensures Says(Timestamp.Format(unix), unix)
  {
    Timestamp.FormatThenParse(unix);
  }

  /**
   * What the session's signer returns was signed under the nonce given and under stamps that
   * read back as the two instants given.
   */
  lemma StampsReadBack(signer: Signer, call: SignCall, nonce: string, issued: int, expires: int) returns (stamps: Stamps)
    ensures Stamping(signer)(call, nonce, issued, expires) == signer(call, stamps)
    ensures stamps.nonce == nonce && Says(stamps.issuedAt, issued) && Says(stamps.expiresAt, expires)
  {
    FormatSays(issued);
    FormatSays(expires);
    stamps := Stamps(nonce, Timestamp.Format(issued), Timestamp.Format(expires));
  }

  lemma SignedText(hash: string -> Result<string>, h: Host, call: SignCall, nonce: string, now: int)
    requires SignAndHash(hash, h, call, nonce, now).Ok?
    ensures h.sign(call, nonce, now, now + h.lifetime) == Ok(SignAndHash(hash, h, call, nonce, now).value.text)
  {
  }

  /** The session signs a call with the next nonce, at its instant and for the lifetime, which is also its entry's. */
  lemma SignedInstants(w: World, h: Host, call: SignCall, drawn: nat, now: int)
    requires Operations(w, h).sign(call, drawn, now).Ok?
    ensures h.sign(call, h.nonces(drawn), now, now + h.lifetime) == Ok(Operations(w, h).sign(call, drawn, now).value.text)
    ensures Operations(w, h).expiry(now) == now + h.lifetime
  {
    SignedText(Hasher(w), h, call, h.nonces(drawn), now);
  }

  /** Left alone, a signed request stays pending exactly until an expiry step at its instant plus the lifetime. */
  lemma PendingForLifetime(w: World, h: Host, r: Run, i: nat, k: nat)
    requires IsRun(Operations(w, h), r) && i < k <= |r.steps| && r.steps[i].SignStep? && r.events[i].Signed?
    requires Untouched(Operations(w, h), r, i, k, Serialize(w, r.steps[i].call.id))
    ensures Serialize(w, r.steps[i].call.id) in r.states[k].pending <==>
            NoExpiryFrom(r, i, k, r.steps[i].now + h.lifetime)
  {
    var o := Operations(w, h);
    var entry := Pending(r.events[i].signed.requestHash, r.steps[i].now + h.lifetime);
    assert o.expiry(r.steps[i].now) == r.steps[i].now + h.lifetime;
    assert o.idText(r.steps[i].call.id) == Serialize(w, r.steps[i].call.id);
    SurvivesExactly(o, r, i, k, Serialize(w, r.steps[i].call.id), entry);
  }
}
