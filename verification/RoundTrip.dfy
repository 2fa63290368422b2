/**
 The round trip: whatever Seal returns, Verify accepts with the matching issuer key and
 authority, and each holder's private key opens exactly that holder's segment.
 */
module RoundTrip {
  import opened Prelude
  import opened Primitives
  import opened Package
  import opened Commitments
  import opened SigningView
  import opened X25519
  import opened Verify
  import opened SealSpec
  import Codec
  import O = Open

  /** The verifier's resolver returns a key that accepts everything the signer signs under the kid it announced. */
  ghost predicate TrustsSigner(c: Primitives, o: Outcomes, keys: Option<IssuerKeys>, iss: string) {
    keys.Some? && o.kid.Ok? &&
    var key := keys.value(iss, o.kid.value);
    key.Some? && |key.value| == 32 &&
    forall m {:trigger o.sign(m)} :: o.sign(m).Ok? ==>
      |o.sign(m).value| == 64 && c.ed25519Verify(key.value, m, o.sign(m).value)
  }

  /** The authority answers at Verify what it answered at Seal, and the binding formulas are the same. */
  ghost predicate SameAuthority(o: Outcomes, req: SealRequest, opt: VerifyOptions) {
    opt.intent.Some? && opt.intent.value(req.intentRef) == o.constraintsHash(req.intentRef) && opt.bindingSpecs == req.bindingSpecs
  }

  // ----- Seal, then Verify -----

  lemma SealedIsWellFormed(c: Primitives, o: Outcomes, req: SealRequest, p: Package)
    requires c.DecodeInvertsEncode() && IsSealed(c, o, req, p)
    ensures WellFormed(c, p)
  {
    hide SignedBytes, CarriesCommitments, Recorded, Names, REQUIRED_SIGNED_FIELDS, CORE_NAMES, SUPPORTED_SPEC_VERSION;
    SignedBytesDefined(p);
    var names := Names(req.audiences);
    assert names[..|req.audiences|] == names;
    assert names[0] in ManifestSegments(p);
  }

  lemma SealedSignatureValid(c: Primitives, o: Outcomes, req: SealRequest, p: Package, keys: Option<IssuerKeys>)
    requires c.DecodeInvertsEncode() && IsSealed(c, o, req, p) && TrustsSigner(c, o, keys, req.issuer)
    ensures SignatureValid(c, p, keys)
  {
    hide SignedBytes, Holds, CarriesCommitments, REQUIRED_SIGNED_FIELDS;
    var sig := o.sign(SignedBytes(p).value).value;
    assert c.fromBase64Url(c.base64Url(sig)) == Some(sig);
  }

  /** The audience of a sealed package at a position, and the pieces its segment was built from. */
  lemma SegmentPieces(c: Primitives, o: Outcomes, req: SealRequest, p: Package, i: nat)
      returns (dek: Key32, nonce: Nonce, combined: bytes, wrapped: bytes, epk: bytes)
    requires IsSealed(c, o, req, p) && i < |req.audiences|
    ensures var aud := req.audiences[i];
      && aud.name in req.segments && aud.name in ManifestSegments(p) && aud.name in p.segments && aud.name in Entries(p.cnf)
      && var plaintext := req.segments[aud.name];
      && |combined| >= GCM_TAG_SIZE
      && combined == c.gcmSeal(dek, nonce, Contents(plaintext), AAD(p.manifest.aadContext, aud.name, p.specVersion))
      && o.wrapper.wrap(o.ephemeral(aud.name), aud.publicKey, dek) == Ok((wrapped, epk))
      && ManifestSegments(p)[aud.name] == SegmentFor(c, aud, plaintext, combined)
      && p.segments[aud.name] == WireFor(c, combined, nonce, wrapped, epk)
      && o.wrapper.thumbprint(aud.publicKey) == Ok(Entries(p.cnf)[aud.name].jkt)
  {
    hide SignedBytes, CarriesCommitments, Corresponds, IsSigned, AAD, SegmentFor, WireFor;
    var aud := req.audiences[i];
    assert Recorded(c, o, req, o.packageID.value, i, p.manifest.segments.value, p.segments, p.cnf.value);
    dek, nonce := o.dek(aud.name).value, o.nonce(aud.name).value;
    combined := c.gcmSeal(dek, nonce, Contents(req.segments[aud.name]), AAD(p.manifest.aadContext, aud.name, p.specVersion));
    var both := o.wrapper.wrap(o.ephemeral(aud.name), aud.publicKey, dek).value;
    wrapped, epk := both.0, both.1;
  }

  lemma WireDecodes(c: Primitives, combined: bytes, nonce: bytes, wrapped: bytes, epk: bytes)
    requires c.DecodeInvertsEncode() && |combined| >= GCM_TAG_SIZE
    ensures O.Decoded(c, WireFor(c, combined, nonce, wrapped, epk)) == Some(O.Wire(epk, wrapped, nonce, combined))
    ensures Combined(c, WireFor(c, combined, nonce, wrapped, epk)) == Some(combined)
  {
    var n := |combined| - GCM_TAG_SIZE;
    assert combined[..n] + combined[n..] == combined;
  }

  lemma SealedCipherHashesMatch(c: Primitives, o: Outcomes, req: SealRequest, p: Package)
    requires c.DecodeInvertsEncode() && IsSealed(c, o, req, p)
    ensures forall a :: a in Order(p) ==> a in ManifestSegments(p) && a in p.segments && CipherHashMatches(c, ManifestSegments(p)[a], p.segments[a])
  {
    hide SignedBytes, CarriesCommitments, IsSigned, Recorded, Names, WireFor;
    assert Names(req.audiences)[..|req.audiences|] == Names(req.audiences);
    forall a | a in Order(p)
      ensures a in ManifestSegments(p) && a in p.segments && CipherHashMatches(c, ManifestSegments(p)[a], p.segments[a])
    {
      var i := PositionOf(req, a);
      var dek, nonce, combined, wrapped, epk := SegmentPieces(c, o, req, p, i);
      WireDecodes(c, combined, nonce, wrapped, epk);
    }
  }

  lemma ComputedMatches(specs: seq<BindingSpec>, ctx: BindingContext, m: map<string, string>)
    requires Computed(specs, ctx, m)
    ensures forall i :: 0 <= i < |specs| ==> BindingMatches(specs, ctx, m, specs[i].name)
  {
    forall i | 0 <= i < |specs| ensures BindingMatches(specs, ctx, m, specs[i].name) {
      assert LastNamed(specs, specs[i].name) >= i;
    }
  }

  lemma SealedFields(c: Primitives, o: Outcomes, req: SealRequest, p: Package)
    requires IsSealed(c, o, req, p)
    ensures p.specVersion == SUPPORTED_SPEC_VERSION && p.manifest.aadContext.packageID == p.packageID
    ensures forall a :: a in Order(p) ==> a in ManifestSegments(p)
    ensures p.bindings.segmentsRoot == RecomputedRoot(c, p) && Computed(req.bindingSpecs, ContextOf(c, p), Entries(p.bindings.extra))
  {
    hide IsSigned, Holds, Computed, AllCompute, RootBytes, IntentCommitment, SUPPORTED_SPEC_VERSION, SignedBytes, PlainHashes;
  }

  /** Level 1 holds of a sealed package, whatever authority the caller has. */
  lemma SealedLevel1(c: Primitives, o: Outcomes, req: SealRequest, p: Package, opt: VerifyOptions)
    requires c.DecodeInvertsEncode() && IsSealed(c, o, req, p)
    requires TrustsSigner(c, o, opt.issuerKey, req.issuer) && opt.bindingSpecs == req.bindingSpecs
    ensures AcceptedLevel1(c, p, opt)
  {
    hide IsSealed, WellFormed, SignatureValid, CipherHashMatches, BindingMatches, Computed, SUPPORTED_SPEC_VERSION, RecomputedRoot, ContextOf,
         TrustsSigner;
    SealedIsWellFormed(c, o, req, p);
    SealedSignatureValid(c, o, req, p, opt.issuerKey);
    SealedCipherHashesMatch(c, o, req, p);
    SealedFields(c, o, req, p);
    ComputedMatches(req.bindingSpecs, ContextOf(c, p), Entries(p.bindings.extra));
  }

  /** Whatever Seal returns, Verify accepts completely. */
  lemma SealThenVerify(c: Primitives, o: Outcomes, req: SealRequest, p: Package, opt: VerifyOptions)
    requires c.DecodeInvertsEncode() && IsSealed(c, o, req, p)
    requires TrustsSigner(c, o, opt.issuerKey, req.issuer) && SameAuthority(o, req, opt)
    ensures Answer(c, p, opt).OK()
  {
    SealedLevel1(c, o, req, p, opt);
    AnswerIsExact(c, p, opt);
    hide AcceptedLevel1, Answer, Holds, IsSigned, IntentCommitment, AllCompute, Computed;
  }

  // ----- Seal, then Open -----

  /** No other audience has this one's thumbprint. */
  ghost predicate ThumbprintUnique(w: KeyWrapper, req: SealRequest, i: nat)
    requires i < |req.audiences|
  {
    forall j :: 0 <= j < |req.audiences| && j != i ==> w.thumbprint(req.audiences[j].publicKey) != w.thumbprint(req.audiences[i].publicKey)
  }

  /** The holder of audience i's private key is found by its thumbprint, and only it. */
  lemma HolderIsFound(c: Primitives, o: Outcomes, req: SealRequest, p: Package, i: nat, priv: bytes)
    requires IsSealed(c, o, req, p) && i < |req.audiences|
    requires o.wrapper.publicKey(priv) == Ok(req.audiences[i].publicKey) && ThumbprintUnique(o.wrapper, req, i)
    ensures O.HolderOf(Entries(p.cnf), o.wrapper, priv) == Some(req.audiences[i].name)
  {
    hide SignedBytes, CarriesCommitments, IsSigned, Recorded, Names, AAD, SegmentFor, WireFor;
    var cnf, name := Entries(p.cnf), req.audiences[i].name;
    var d, n, b, x, e := SegmentPieces(c, o, req, p, i);
    var jkt := cnf[name].jkt;
    assert Names(req.audiences)[..|req.audiences|] == Names(req.audiences);
    forall a | a in cnf && cnf[a].jkt == jkt ensures a == name {
      var j := PositionOf(req, a);
      var d', n', b', x', e' := SegmentPieces(c, o, req, p, j);
    }
    assert O.OnlyMatch(cnf, jkt, name);
  }

  /** When another audience shares the thumbprint, the key belongs to no one. */
  lemma SharedThumbprintHasNoHolder(c: Primitives, o: Outcomes, req: SealRequest, p: Package, i: nat, priv: bytes)
    requires IsSealed(c, o, req, p) && i < |req.audiences|
    requires o.wrapper.publicKey(priv) == Ok(req.audiences[i].publicKey) && !ThumbprintUnique(o.wrapper, req, i)
    ensures O.HolderOf(Entries(p.cnf), o.wrapper, priv) == None
  {
    hide SignedBytes, CarriesCommitments, IsSigned, IsPrepared, Recorded, Names, AAD, SegmentFor, WireFor;
    var j :| 0 <= j < |req.audiences| && j != i
          && o.wrapper.thumbprint(req.audiences[j].publicKey) == o.wrapper.thumbprint(req.audiences[i].publicKey);
    var d, n, b, x, e := SegmentPieces(c, o, req, p, i);
    var d', n', b', x', e' := SegmentPieces(c, o, req, p, j);
    NamesDiffer(c, o, req, p, i, j);
  }

  lemma NamesDiffer(c: Primitives, o: Outcomes, req: SealRequest, p: Package, i: nat, j: nat)
    requires IsSealed(c, o, req, p) && i < |req.audiences| && j < |req.audiences| && i != j
    ensures req.audiences[i].name != req.audiences[j].name
  {
    hide SignedBytes, CarriesCommitments, IsSigned, Holds;
    var names := Names(req.audiences);
    assert names[i] != names[j];
  }

  /** What GCM gives back for a sealed plaintext: the same bytes, and nil when there are none. */
  function Returned(plaintext: Nilable<bytes>): Nilable<bytes> {
    if Contents(plaintext) == [] then Nil else plaintext
  }

  /** Unwrapping, decrypting and hashing audience i's segment. */
  lemma SegmentRecovers(c: Primitives, o: Outcomes, req: SealRequest, p: Package, i: nat, priv: bytes)
    requires c.Lawful() && o.wrapper.RoundTrips() && IsSealed(c, o, req, p) && i < |req.audiences|
    requires o.wrapper.publicKey(priv) == Ok(req.audiences[i].publicKey)
    ensures var name := req.audiences[i].name;
      && name in req.segments
      && var sealed, returned := req.segments[name], Returned(req.segments[name]);
      O.Recovered(c, o.wrapper, p, name, priv)
        == if c.H(PlainBytes(c, returned)) == c.H(PlainBytes(c, sealed)) then Ok(returned) else Err(HashMismatch)
  {
    var dek, nonce, combined, wrapped, epk := SegmentPieces(c, o, req, p, i);
    WireDecodes(c, combined, nonce, wrapped, epk);
    hide IsSealed, AAD, PlainBytes, WireFor, O.Decoded, Combined, O.Recovered;
    var name := req.audiences[i].name;
    assert o.wrapper.wrap(o.ephemeral(name), o.wrapper.publicKey(priv).value, dek) == Ok((wrapped, epk));
    RecoveredFrom(c, o.wrapper, p, name, priv, O.Wire(epk, wrapped, nonce, combined), dek, req.segments[name]);
  }

  lemma RecoveredFrom(c: Primitives, w: KeyWrapper, p: Package, a: string, priv: bytes, wire: O.Wire, dek: Key32, sealed: Nilable<bytes>)
    requires c.OpenInvertsSeal()
    requires a in ManifestSegments(p) && a in p.segments && O.Decoded(c, p.segments[a]) == Some(wire)
    requires w.unwrap(priv, wire.epk, wire.wrapped) == Ok(dek) && |wire.nonce| == NONCE_SIZE
    requires wire.combined == c.gcmSeal(dek, wire.nonce, Contents(sealed), AAD(p.manifest.aadContext, a, p.specVersion))
    ensures O.Recovered(c, w, p, a, priv)
         == if c.H(PlainBytes(c, Returned(sealed))) == ManifestSegments(p)[a].plainHash then Ok(Returned(sealed)) else Err(HashMismatch)
  {
    hide AAD, PlainBytes, O.Decoded;
    assert c.gcmOpen(dek, wire.nonce, wire.combined, AAD(p.manifest.aadContext, a, p.specVersion)) == Some(Contents(sealed));
  }

  /**
   What Seal sealed for a holder is what that holder's key opens, exactly when no other audience shares the key's
   thumbprint and the plaintext is not the empty slice that is not nil.
   */
  lemma SealThenOpen(c: Primitives, o: Outcomes, req: SealRequest, p: Package, opt: VerifyOptions, i: nat, priv: bytes)
    requires c.Lawful() && o.wrapper.RoundTrips() && IsSealed(c, o, req, p) && i < |req.audiences|
    requires TrustsSigner(c, o, opt.issuerKey, req.issuer) && opt.bindingSpecs == req.bindingSpecs
    requires o.wrapper.publicKey(priv) == Ok(req.audiences[i].publicKey)
    ensures var name := req.audiences[i].name;
      && name in req.segments
      && var result := O.Opened(c, o.wrapper, p, priv, opt);
      && (result == Ok((name, req.segments[name])) <==> ThumbprintUnique(o.wrapper, req, i) && req.segments[name] != Val([]))
      && (!ThumbprintUnique(o.wrapper, req, i) ==> result == Err(DecryptionFailed))
      && (ThumbprintUnique(o.wrapper, req, i) && req.segments[name] == Val([]) ==>
            result == Err(HashMismatch) || c.Collision(PlainBytes(c, Nil), PlainBytes(c, Val([]))))
  {
    hide IsSealed, PlainBytes, Answer, AcceptedLevel1, O.HolderOf, O.Recovered, TrustsSigner;
    var name := req.audiences[i].name;
    SealedLevel1(c, o, req, p, O.Offline(opt));
    AnswerIsExact(c, p, O.Offline(opt));
    SegmentRecovers(c, o, req, p, i, priv);
    if ThumbprintUnique(o.wrapper, req, i) {
      HolderIsFound(c, o, req, p, i, priv);
    } else {
      SharedThumbprintHasNoHolder(c, o, req, p, i, priv);
    }
    if req.segments[name] == Val([]) && c.H(PlainBytes(c, Nil)) == c.H(PlainBytes(c, Val([]))) {
      c.HashBinds(PlainBytes(c, Nil), PlainBytes(c, Val([])));
      NilAndEmptyDiffer(c);
    }
  }

  lemma NilAndEmptyDiffer(c: Primitives)
    requires c.DecodeInvertsEncode()
    ensures PlainBytes(c, Nil) != PlainBytes(c, Val([]))
  {
    if PlainBytes(c, Nil) == PlainBytes(c, Val([])) {
      PlainBytesInjective(c, Nil, Val([]));
    }
  }

  /** The same round trip with the X25519 adapter: agreement, derivation, key wrap, AEAD and base64 compose. */
  lemma X25519RoundTrip(c: Primitives, o: Outcomes, req: SealRequest, p: Package, opt: VerifyOptions, i: nat, priv: bytes)
    requires c.Lawful() && o.wrapper == Wrapper(c) && IsSealed(c, o, req, p) && i < |req.audiences|
    requires TrustsSigner(c, o, opt.issuerKey, req.issuer) && SameAuthority(o, req, opt)
    requires PublicKey(c, priv) == Ok(req.audiences[i].publicKey)
    ensures Answer(c, p, opt).OK()
    ensures var name := req.audiences[i].name;
      && name in req.segments
      && var result := O.Opened(c, Wrapper(c), p, priv, opt);
      (result == Ok((name, req.segments[name])) <==> ThumbprintUnique(Wrapper(c), req, i) && req.segments[name] != Val([]))
  {
    hide IsSealed, Answer, O.Opened, Thumbprint, PublicKey, ThumbprintUnique, TrustsSigner;
    WrapperRoundTrips(c);
    SealThenVerify(c, o, req, p, opt);
    SealThenOpen(c, o, req, p, opt, i, priv);
  }

  /**
   End to end: what is sealed encodes, whoever decodes it has a package that verifies completely, and the holder of audience
   i's key opens it to what was sealed, under the same two conditions as before.
   */
  lemma SealedThenSent(c: Primitives, o: Outcomes, req: SealRequest, p: Package, opt: VerifyOptions, i: nat, priv: bytes)
    requires c.Lawful() && o.wrapper == Wrapper(c) && IsSealed(c, o, req, p) && i < |req.audiences|
    requires TrustsSigner(c, o, opt.issuerKey, req.issuer) && SameAuthority(o, req, opt)
    requires PublicKey(c, priv) == Ok(req.audiences[i].publicKey)
    ensures Codec.Encode(p).Ok? && Codec.Decode(Codec.Encode(p).value).Ok?
    ensures var q := Codec.Decode(Codec.Encode(p).value).value;
      && SignedBytes(q) == SignedBytes(p)
      && Answer(c, q, opt).OK()
      && var name := req.audiences[i].name;
      && name in req.segments
      && (O.Opened(c, Wrapper(c), q, priv, opt) == Ok((name, req.segments[name])) <==>
            ThumbprintUnique(Wrapper(c), req, i) && req.segments[name] != Val([]))
  {
    SealedIsWellFormed(c, o, req, p);
    assert NoCollision(p.bindings) by { hide IsSealed, NamesExactlyRequired, Corresponds; }
    hide IsSealed, Answer, O.Opened, Thumbprint, PublicKey, ThumbprintUnique, TrustsSigner, SameAuthority, Codec.Encode, Codec.Decode,
         SignedBytes, NoCollision;
    Codec.CrossingChangesNothing(c, p, opt, Wrapper(c), priv);
    X25519RoundTrip(c, o, req, p, opt, i, priv);
  }
}
