/**
 Packages that exist: with the X25519 adapter and nothing failing, every well-formed request
 is sealed. Two such requests are exhibited that verify completely and do not open.
 */
module Witnesses {
  import opened Prelude
  import opened Primitives
  import opened Package
  import opened Commitments
  import opened SigningView
  import opened X25519
  import opened Verify
  import opened SealSpec
  import opened RoundTrip
  import KeyWrap
  import ConcatKdf
  import O = Open

  const KID := "k"

  /** Outcomes in which the authority allows everything and nothing fails. */
  function Willing(c: Primitives, ephemeral: Key32, sign: bytes -> bytes): Outcomes {
    Outcomes(
      (r: string) => Ok(IntentDecision(true, "")),
      (r: string) => Ok("sha256:"),
      Some(seq(16, _ => 0)),
      (a: string) => Some(seq(32, _ => 0)),
      (a: string) => Some(seq(NONCE_SIZE, _ => 0)),
      (a: string) => Some(ephemeral),
      Wrapper(c),
      Ok(KID),
      (m: bytes) => Ok(sign(m)))
  }

  /** sign is a signer whose signatures key accepts. */
  ghost predicate Signs(c: Primitives, key: bytes, sign: bytes -> bytes) {
    |key| == 32 && forall m: bytes {:trigger sign(m)} :: |sign(m)| == 64 && c.ed25519Verify(key, m, sign(m))
  }

  /** Trusting one key whoever asks, with the authority and formulas of the seal. */
  function Trusting(o: Outcomes, req: SealRequest, key: bytes): VerifyOptions {
    VerifyOptions(Some((iss: string, kid: string) => Some(key)), Some(o.constraintsHash), req.bindingSpecs)
  }

  /** The ephemeral key agrees with every audience's key. */
  ghost predicate Agrees(c: Primitives, ephemeral: Key32, req: SealRequest) {
    forall a :: a in req.audiences ==> |a.publicKey| == 32 && c.x25519Shared(ephemeral, a.publicKey).Some?
  }

  // ----- nothing fails -----

  lemma WrapSucceeds(c: Primitives, ephemeral: Key32, pub: bytes, dek: Key32)
    requires |pub| == 32 && c.x25519Shared(ephemeral, pub).Some?
    ensures WrapTo(c, Some(ephemeral), pub, dek).Ok?
  {
    hide DeriveKek, KeyWrap.WrapSteps, KeyWrap.Flatten, KeyWrap.Words;
    var shared := c.x25519Shared(ephemeral, pub).value;
    KekLength(c, shared);
    assert KeyWrap.Wrap(c.aes, DeriveKek(c, shared), dek).Ok?;
  }

  lemma KekLength(c: Primitives, shared: bytes)
    ensures |DeriveKek(c, shared)| == 32
  {}

  lemma AudienceSucceeds(c: Primitives, ephemeral: Key32, sign: bytes -> bytes, ctx: AADContext, aud: Audience, plaintext: Nilable<bytes>)
    requires c.OpenInvertsSeal() && |aud.publicKey| == 32 && c.x25519Shared(ephemeral, aud.publicKey).Some?
    ensures AudienceOutcome(c, Willing(c, ephemeral, sign), ctx, aud, plaintext).Ok?
  {
    hide AAD, SUPPORTED_SPEC_VERSION, SegmentFor, WireFor, WrapTo;
    var o := Willing(c, ephemeral, sign);
    var dek: Key32 := o.dek(aud.name).value;
    var nonce := o.nonce(aud.name).value;
    var aad := AAD(ctx, aud.name, SUPPORTED_SPEC_VERSION);
    assert |c.gcmSeal(dek, nonce, Contents(plaintext), aad)| >= GCM_TAG_SIZE;
    assert Encrypt(c, dek, o.nonce(aud.name), Contents(plaintext), aad).Ok?;
    WrapSucceeds(c, ephemeral, aud.publicKey, dek);
  }

  /** When nothing fails, every valid request whose order matches is sealed. */
  lemma WillingSeals(c: Primitives, ephemeral: Key32, sign: bytes -> bytes, req: SealRequest)
    requires c.OpenInvertsSeal() && ValidRequest(req) && OrderMatches(req) && req.bindingSpecs == [] && Agrees(c, ephemeral, req)
    ensures Sealing(c, Willing(c, ephemeral, sign), req).Ok?
  {
    hide AudienceOutcome, OrderMatches, SealContext, Unsigned, SignedBytes, CORE_NAMES, Wrapper, Sealing, Message;
    var o := Willing(c, ephemeral, sign);
    forall i | 0 <= i < |req.audiences| ensures OutcomeAt(c, o, req, o.packageID.value, i).Ok? {
      var aud := req.audiences[i];
      AudienceSucceeds(c, ephemeral, sign, ContextFor(req, o.packageID.value), aud, req.segments[aud.name]);
    }
    assert Preparable(c, o, req);
    assert SpecNames(req.bindingSpecs) == {};
    MessageDefined(c, o, req);
    SealsIff(c, o, req);
  }

  lemma WillingVerifies(c: Primitives, ephemeral: Key32, key: bytes, sign: bytes -> bytes, req: SealRequest) returns (p: Package)
    requires c.Lawful() && Signs(c, key, sign)
    requires ValidRequest(req) && OrderMatches(req) && req.bindingSpecs == [] && Agrees(c, ephemeral, req)
    ensures var o := Willing(c, ephemeral, sign);
      && Sealing(c, o, req) == Ok(p) && IsSealed(c, o, req, p)
      && TrustsSigner(c, o, Trusting(o, req, key).issuerKey, req.issuer) && SameAuthority(o, req, Trusting(o, req, key))
      && Answer(c, p, Trusting(o, req, key)).OK()
  {
    hide Sealing, IsSealed, Answer, OrderMatches, ValidRequest, Wrapper;
    var o := Willing(c, ephemeral, sign);
    WillingSeals(c, ephemeral, sign, req);
    p := Sealing(c, o, req).value;
    SealingIsExact(c, o, req, p);
    SealThenVerify(c, o, req, p, Trusting(o, req, key));
  }

  // ----- the requests -----

  /** One audience, named a, for the holder of priv. */
  function ForOne(c: Primitives, priv: Key32, plaintext: Nilable<bytes>): SealRequest {
    SealRequest(map["a" := plaintext], ["a"], [Audience("a", c.x25519Public(priv), "")], "", "", "", "", "", "", "", [])
  }

  /** Two audiences, a and b, under the same key. */
  function ForTwo(c: Primitives, priv: Key32, plaintext: Nilable<bytes>): SealRequest {
    var pub := c.x25519Public(priv);
    SealRequest(map["a" := plaintext, "b" := plaintext], ["a", "b"], [Audience("a", pub, ""), Audience("b", pub, "")],
                "", "", "", "", "", "", "", [])
  }

  lemma ForOneIsValid(c: Primitives, priv: Key32, plaintext: Nilable<bytes>)
    ensures ValidRequest(ForOne(c, priv, plaintext)) && OrderMatches(ForOne(c, priv, plaintext))
  {
    assert Names(ForOne(c, priv, plaintext).audiences) == ["a"];
  }

  lemma ForTwoIsValid(c: Primitives, priv: Key32, plaintext: Nilable<bytes>)
    ensures ValidRequest(ForTwo(c, priv, plaintext)) && OrderMatches(ForTwo(c, priv, plaintext))
  {
    assert Names(ForTwo(c, priv, plaintext).audiences) == ["a", "b"];
  }

  /** A plaintext for one holder is sealed, verifies, and opens as it was sealed: unless it is empty but not nil. */
  lemma SealedForOne(c: Primitives, priv: Key32, ephemeral: Key32, key: bytes, sign: bytes -> bytes, plaintext: Nilable<bytes>)
      returns (p: Package, opt: VerifyOptions)
    requires c.Lawful() && Signs(c, key, sign) && c.x25519Shared(ephemeral, c.x25519Public(priv)).Some?
    ensures IsSealed(c, Willing(c, ephemeral, sign), ForOne(c, priv, plaintext), p) && Answer(c, p, opt).OK()
    ensures O.Opened(c, Wrapper(c), p, priv, opt) == Ok(("a", plaintext)) <==> plaintext != Val([])
    ensures plaintext == Val([]) ==>
      O.Opened(c, Wrapper(c), p, priv, opt) == Err(HashMismatch) || c.Collision(PlainBytes(c, Nil), PlainBytes(c, Val([])))
  {
    hide IsSealed, Answer, OrderMatches, ValidRequest, O.Opened, Thumbprint, TrustsSigner, PlainBytes;
    var o, req := Willing(c, ephemeral, sign), ForOne(c, priv, plaintext);
    ForOneIsValid(c, priv, plaintext);
    p := WillingVerifies(c, ephemeral, key, sign, req);
    opt := Trusting(o, req, key);
    assert o.wrapper.publicKey(priv) == Ok(req.audiences[0].publicKey) && ThumbprintUnique(o.wrapper, req, 0);
    WrapperRoundTrips(c);
    SealThenOpen(c, o, req, p, opt, 0, priv);
  }

  /** The empty plaintext that is not nil: sealed and verified, and never opened. */
  lemma EmptyPlaintextIsLost(c: Primitives, priv: Key32, ephemeral: Key32, key: bytes, sign: bytes -> bytes) returns (p: Package, opt: VerifyOptions)
    requires c.Lawful() && Signs(c, key, sign) && c.x25519Shared(ephemeral, c.x25519Public(priv)).Some?
    ensures IsSealed(c, Willing(c, ephemeral, sign), ForOne(c, priv, Val([])), p) && Answer(c, p, opt).OK()
    ensures O.Opened(c, Wrapper(c), p, priv, opt) != Ok(("a", Val([])))
    ensures O.Opened(c, Wrapper(c), p, priv, opt) == Err(HashMismatch) || c.Collision(PlainBytes(c, Nil), PlainBytes(c, Val([])))
  {
    hide IsSealed, Answer, O.Opened, Wrapper, PlainBytes;
    p, opt := SealedForOne(c, priv, ephemeral, key, sign, Val([]));
  }

  /** Two audiences under one key: sealed and verified, and the key opens neither segment. */
  lemma SharedKeyOpensNothing(c: Primitives, priv: Key32, ephemeral: Key32, key: bytes, sign: bytes -> bytes, plaintext: Nilable<bytes>)
      returns (p: Package, opt: VerifyOptions)
    requires c.Lawful() && Signs(c, key, sign) && c.x25519Shared(ephemeral, c.x25519Public(priv)).Some?
    ensures IsSealed(c, Willing(c, ephemeral, sign), ForTwo(c, priv, plaintext), p) && Answer(c, p, opt).OK()
    ensures O.Opened(c, Wrapper(c), p, priv, opt) == Err(DecryptionFailed)
  {
    hide IsSealed, Answer, OrderMatches, ValidRequest, O.Opened, Thumbprint, TrustsSigner;
    var o, req := Willing(c, ephemeral, sign), ForTwo(c, priv, plaintext);
    ForTwoIsValid(c, priv, plaintext);
    p := WillingVerifies(c, ephemeral, key, sign, req);
    opt := Trusting(o, req, key);
    assert o.wrapper.publicKey(priv) == Ok(req.audiences[0].publicKey);
    assert o.wrapper.thumbprint(req.audiences[1].publicKey) == o.wrapper.thumbprint(req.audiences[0].publicKey);
    assert !ThumbprintUnique(o.wrapper, req, 0);
    WrapperRoundTrips(c);
    SealThenOpen(c, o, req, p, opt, 0, priv);
  }

  /** All of this happens for some primitives: every hypothesis of the round trip can be met at once. */
  lemma RoundTripHappens() returns (c: Primitives, o: Outcomes, req: SealRequest, p: Package, opt: VerifyOptions, priv: bytes)
    ensures c.Lawful() && o.wrapper == Wrapper(c) && IsSealed(c, o, req, p) && req.audiences != []
    ensures PublicKey(c, priv) == Ok(req.audiences[0].publicKey) && Answer(c, p, opt).OK()
    ensures O.Opened(c, Wrapper(c), p, priv, opt) == Ok(("a", Val([1])))
  {
    hide IsSealed, Answer, O.Opened, Wrapper;
    c := LawsAreConsistent();
    var zero: Key32 := seq(32, _ => 0);
    var sign := (m: bytes) => seq(64, _ => 0 as byte);
    priv := zero;
    o, req := Willing(c, zero, sign), ForOne(c, zero, Val([1]));
    p, opt := SealedForOne(c, zero, zero, zero, sign, Val([1]));
  }
}
