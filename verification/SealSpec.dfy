/**
 What sealing comes to, on values: the outcome of each audience, the package a request and
 its outcomes determine, the exact error otherwise, and the exact list of effects.
 */
module SealSpec {
  import opened Prelude
  import opened Text
  import opened Primitives
  import opened Package
  import opened Commitments
  import opened SigningView
  import opened X25519
  import opened Verify

  type Nonce = s: bytes | |s| == NONCE_SIZE witness seq(NONCE_SIZE, _ => 0)

  datatype Audience = Audience(name: string, publicKey: bytes, kid: string)

  datatype SealRequest = SealRequest(
    segments: map<string, Nilable<bytes>>,
    segmentOrder: seq<string>,
    audiences: seq<Audience>,
    intentRef: string,
    authority: string,
    issuer: string,
    issuedAt: string,
    tenantID: string,
    environment: string,
    profile: string,
    bindingSpecs: seq<BindingSpec>)

  datatype IntentDecision = IntentDecision(allowed: bool, reason: string)

  /** What each call into the environment would answer during one Seal. Random draws are per audience. */
  datatype Outcomes = Outcomes(
    check: string -> Result<IntentDecision>,
    constraintsHash: string -> Result<string>,
    packageID: Option<bytes>,
    dek: string -> Option<Key32>,
    nonce: string -> Option<Nonce>,
    ephemeral: string -> Option<Key32>,
    wrapper: KeyWrapper,
    kid: Result<string>,
    sign: bytes -> Result<bytes>)

  datatype Effect =
    | Checked(intentRef: string)
    | HashFetched(intentRef: string)
    | PackageIDDrawn
    | DekDrawn(audience: string)
    | Encrypted(audience: string)
    | Wrapped(audience: string)
    | Thumbprinted(audience: string)
    | KidAsked
    | Signed(message: bytes)

  // ----- what one audience's segment is -----

  datatype SealedAudience = SealedAudience(segment: Segment, sealed: SealedSegment, jkt: string)

  function Encrypt(c: Primitives, dek: Key32, nonce: Option<Nonce>, plaintext: bytes, aad: bytes): Result<bytes> {
    if nonce.None? then Err(RandomFailed)
    else
      var combined := c.gcmSeal(dek, nonce.value, plaintext, aad);
      if |combined| < GCM_TAG_SIZE then Err(DecryptionFailed) else Ok(combined)
  }

  function SegmentFor(c: Primitives, aud: Audience, plaintext: Nilable<bytes>, combined: bytes): Segment {
    Segment(aud.name, aud.kid, "AES-256-GCM", "ECDH-ES+A256KW", c.H(PlainBytes(c, plaintext)), c.H(combined))
  }

  function WireFor(c: Primitives, combined: bytes, nonce: bytes, wrapped: bytes, epk: bytes): SealedSegment
    requires |combined| >= GCM_TAG_SIZE
  {
    var n := |combined| - GCM_TAG_SIZE;
    SealedSegment(EPK("OKP", "X25519", c.base64Url(epk)), c.base64Url(wrapped), c.base64Url(nonce),
                  c.base64Url(combined[..n]), c.base64Url(combined[n..]))
  }

  /** sealSegment once a data key is drawn: the manifest entry and the sealed segment. */
  function SegmentOutcome(c: Primitives, o: Outcomes, ctx: AADContext, aud: Audience, plaintext: Nilable<bytes>, dek: Key32):
      Result<(Segment, SealedSegment)>
  {
    var combined :- Encrypt(c, dek, o.nonce(aud.name), Contents(plaintext), AAD(ctx, aud.name, SUPPORTED_SPEC_VERSION));
    var (wrapped, epk) :- o.wrapper.wrap(o.ephemeral(aud.name), aud.publicKey, dek);
    Ok((SegmentFor(c, aud, plaintext, combined), WireFor(c, combined, o.nonce(aud.name).value, wrapped, epk)))
  }

  /** The manifest entry, sealed segment and thumbprint of one audience, or the first failure. */
  function AudienceOutcome(c: Primitives, o: Outcomes, ctx: AADContext, aud: Audience, plaintext: Nilable<bytes>): Result<SealedAudience> {
    if o.dek(aud.name).None? then Err(RandomFailed)
    else
      var (segment, sealed) :- SegmentOutcome(c, o, ctx, aud, plaintext, o.dek(aud.name).value);
      var jkt :- o.wrapper.thumbprint(aud.publicKey);
      Ok(SealedAudience(segment, sealed, jkt))
  }

  // ----- what a sealed package is -----

  function Names(auds: seq<Audience>): (names: seq<string>)
    ensures |names| == |auds|
  {
    seq(|auds|, i requires 0 <= i < |auds| => auds[i].name)
  }

  ghost predicate ValidRequest(req: SealRequest) {
    req.audiences != [] && Distinct(Names(req.audiences)) && forall a :: a in req.audiences ==> a.name in req.segments
  }

  ghost predicate Authorized(o: Outcomes, req: SealRequest) {
    && o.check(req.intentRef).Ok? && o.check(req.intentRef).value.allowed
    && o.constraintsHash(req.intentRef).Ok?
  }

  function ContextFor(req: SealRequest, id: bytes): AADContext {
    AADContext("pkg_" + Hex(id), req.tenantID, req.environment)
  }

  /** The outcome of the audience at position i. */
  function OutcomeAt(c: Primitives, o: Outcomes, req: SealRequest, id: bytes, i: nat): Result<SealedAudience>
    requires i < |req.audiences| && req.audiences[i].name in req.segments
  {
    AudienceOutcome(c, o, ContextFor(req, id), req.audiences[i], req.segments[req.audiences[i].name])
  }

  /** The three maps hold, under its name, what the audience at position i came to. */
  ghost predicate Recorded(c: Primitives, o: Outcomes, req: SealRequest, id: bytes, i: nat,
                           manifest: map<string, Segment>, sealed: map<string, SealedSegment>, cnf: map<string, KeyConfirmation>)
    requires i < |req.audiences| && req.audiences[i].name in req.segments
  {
    var aud, out := req.audiences[i], OutcomeAt(c, o, req, id, i);
    && out.Ok?
    && aud.name in manifest && manifest[aud.name] == out.value.segment
    && aud.name in sealed && sealed[aud.name] == out.value.sealed
    && aud.name in cnf && cnf[aud.name] == KeyConfirmation(aud.kid, out.value.jkt, "jwk-thumbprint")
  }

  /** The three maps hold what the first n audiences came to, and nothing else. */
  ghost predicate Holds(c: Primitives, o: Outcomes, req: SealRequest, id: bytes, n: nat,
                        manifest: map<string, Segment>, sealed: map<string, SealedSegment>, cnf: map<string, KeyConfirmation>)
    requires n <= |req.audiences| && forall a :: a in req.audiences ==> a.name in req.segments
  {
    && manifest.Keys == sealed.Keys == cnf.Keys
    && (forall a :: a in manifest <==> a in Names(req.audiences)[..n])
    && forall i :: 0 <= i < n ==> Recorded(c, o, req, id, i, manifest, sealed, cnf)
  }

  /** Every field of p but the issuer's kid and the signature is what req and the outcomes determine. */
  ghost predicate IsPrepared(c: Primitives, o: Outcomes, req: SealRequest, p: Package) {
    && ValidRequest(req) && Authorized(o, req) && o.packageID.Some?
    && p.specVersion == SUPPORTED_SPEC_VERSION
    && p.profile == req.profile
    && p.packageID == "pkg_" + Hex(o.packageID.value)
    && p.issuedAt == req.issuedAt
    && p.issuer.iss == req.issuer
    && p.intent == Intent(req.intentRef, req.authority, o.constraintsHash(req.intentRef).value)
    && p.manifest == Manifest("chainbind-package/v1", "SHA-256", "RFC8785", Val(req.segmentOrder),
                              ContextFor(req, o.packageID.value), p.manifest.segments, Nil)
    && p.manifest.segments.Val? && p.cnf.Val? && p.sealed.Val?
    && Holds(c, o, req, o.packageID.value, |req.audiences|, p.manifest.segments.value, p.segments, p.cnf.value)
    && Corresponds(req.segmentOrder, ManifestSegments(p))
    && CarriesCommitments(c, req, p)
  }

  /** The signature names the key asked for before, and covers p's own signed bytes. */
  ghost predicate IsSigned(c: Primitives, o: Outcomes, p: Package) {
    && o.kid.Ok? && p.issuer.kid == o.kid.value
    && SignedBytes(p).Ok? && o.sign(SignedBytes(p).value).Ok?
    && p.signature == Signature("EdDSA", o.kid.value, Val(REQUIRED_SIGNED_FIELDS), c.base64Url(o.sign(SignedBytes(p).value).value))
  }

  /** p is what sealing req yields. */
  ghost predicate IsSealed(c: Primitives, o: Outcomes, req: SealRequest, p: Package) {
    IsPrepared(c, o, req, p) && IsSigned(c, o, p)
  }

  ghost predicate CarriesCommitments(c: Primitives, req: SealRequest, p: Package)
    requires forall a :: a in Order(p) ==> a in ManifestSegments(p)
  {
    && p.bindings.segmentsRoot == RecomputedRoot(c, p)
    && p.bindings.intentCommitment == IntentCommitment(c, p.intent.intentRef, p.intent.constraintsHash, p.bindings.segmentsRoot)
    && AllCompute(req.bindingSpecs, ContextOf(c, p))
    && Computed(req.bindingSpecs, ContextOf(c, p), Entries(p.bindings.extra))
    && (p.bindings.extra.Nil? <==> req.bindingSpecs == [])
  }

  // ----- sealing is determined by the request and the outcomes -----

  lemma HoldsUnique(c: Primitives, o: Outcomes, req: SealRequest, id: bytes,
                    m1: map<string, Segment>, s1: map<string, SealedSegment>, c1: map<string, KeyConfirmation>,
                    m2: map<string, Segment>, s2: map<string, SealedSegment>, c2: map<string, KeyConfirmation>)
    requires ValidRequest(req)
    requires Holds(c, o, req, id, |req.audiences|, m1, s1, c1) && Holds(c, o, req, id, |req.audiences|, m2, s2, c2)
    ensures m1 == m2 && s1 == s2 && c1 == c2
  {
    hide OutcomeAt, Names, Recorded, ValidRequest;
    assert Names(req.audiences)[..|req.audiences|] == Names(req.audiences);
    assert m1.Keys == m2.Keys;
    forall a | a in m1 ensures m1[a] == m2[a] && s1[a] == s2[a] && c1[a] == c2[a] {
      var i := PositionOf(req, a);
      RecordedUnique(c, o, req, id, i, m1, s1, c1, m2, s2, c2);
    }
    assert m1 == m2;
    assert s1 == s2;
    assert c1 == c2;
  }

  lemma RecordedUnique(c: Primitives, o: Outcomes, req: SealRequest, id: bytes, i: nat,
                       m1: map<string, Segment>, s1: map<string, SealedSegment>, c1: map<string, KeyConfirmation>,
                       m2: map<string, Segment>, s2: map<string, SealedSegment>, c2: map<string, KeyConfirmation>)
    requires i < |req.audiences| && req.audiences[i].name in req.segments
    requires Recorded(c, o, req, id, i, m1, s1, c1) && Recorded(c, o, req, id, i, m2, s2, c2)
    ensures var a := req.audiences[i].name; m1[a] == m2[a] && s1[a] == s2[a] && c1[a] == c2[a]
  {
    hide OutcomeAt;
  }

  /** The position of a named audience. */
  lemma PositionOf(req: SealRequest, name: string) returns (i: nat)
    requires ValidRequest(req) && name in Names(req.audiences)
    ensures i < |req.audiences| && req.audiences[i].name == name && name in req.segments
  {
    var names := Names(req.audiences);
    i :| i < |names| && names[i] == name;
  }

  /** At most one package is prepared from a request, up to the kid and the signature. */
  lemma PreparedUnique(c: Primitives, o: Outcomes, req: SealRequest, p: Package, q: Package)
    requires IsPrepared(c, o, req, p) && IsPrepared(c, o, req, q)
    ensures p == q.(issuer := p.issuer, signature := p.signature)
  {
    hide Holds, Computed, AllCompute, RootBytes, SUPPORTED_SPEC_VERSION;
    HoldsUnique(c, o, req, o.packageID.value, p.manifest.segments.value, p.segments, p.cnf.value,
                q.manifest.segments.value, q.segments, q.cnf.value);
    assert p.manifest == q.manifest;
    assert PlainHashes(p) == PlainHashes(q) && RecomputedRoot(c, p) == RecomputedRoot(c, q);
    assert ContextOf(c, p) == ContextOf(c, q);
    ComputedUnique(req.bindingSpecs, ContextOf(c, p), Entries(p.bindings.extra), Entries(q.bindings.extra));
  }

  /** The signed bytes depend on neither the signature nor anything a prepared package leaves open but the kid. */
  lemma SignedBytesIgnoreSignature(p: Package, s: Signature)
    ensures SignedBytes(p.(signature := s)) == SignedBytes(p)
  {
    assert SigningFields(p.(signature := s)) == SigningFields(p);
  }

  // ----- when there is a package to sign -----

  /** The checks that come before anything is drawn for an audience. */
  ghost predicate Admitted(o: Outcomes, req: SealRequest) {
    ValidRequest(req) && Authorized(o, req) && o.packageID.Some?
  }

  /** The first n audiences succeed. */
  ghost predicate Succeed(c: Primitives, o: Outcomes, req: SealRequest, id: bytes, n: nat)
    requires ValidRequest(req) && n <= |req.audiences|
  {
    forall i :: 0 <= i < n ==> OutcomeAt(c, o, req, id, i).Ok?
  }

  /** The order names each audience once and nothing else. */
  ghost predicate OrderMatches(req: SealRequest) {
    Distinct(req.segmentOrder) && forall a :: a in req.segmentOrder <==> a in Names(req.audiences)
  }

  /** Each audience's plain_hash: a function of the request alone. */
  ghost function PlainHashesIn(c: Primitives, req: SealRequest): map<string, string> {
    map a | a in req.segments && a in Names(req.audiences) :: c.H(PlainBytes(c, req.segments[a]))
  }

  /** The context the profile's formulas are given. */
  ghost function SealContext(c: Primitives, o: Outcomes, req: SealRequest): BindingContext
    requires Admitted(o, req) && OrderMatches(req)
  {
    OrderIsHashed(c, req);
    BindingContext(PlainHashesIn(c, req), req.intentRef, o.constraintsHash(req.intentRef).value,
                   c.H(RootBytes(req.segmentOrder, PlainHashesIn(c, req))))
  }

  lemma OrderIsHashed(c: Primitives, req: SealRequest)
    requires ValidRequest(req)
    ensures OrderMatches(req) <==> Corresponds(req.segmentOrder, PlainHashesIn(c, req))
  {
    hide PlainBytes, ValidRequest;
    forall a ensures a in Names(req.audiences) <==> a in PlainHashesIn(c, req) {
      if a in Names(req.audiences) {
        var i := PositionOf(req, a);
      }
    }
  }

  /** Everything up to the signature succeeds. */
  ghost predicate Preparable(c: Primitives, o: Outcomes, req: SealRequest) {
    && Admitted(o, req)
    && Succeed(c, o, req, o.packageID.value, |req.audiences|)
    && OrderMatches(req)
    && AllCompute(req.bindingSpecs, SealContext(c, o, req))
  }

  // ----- the package that is signed -----

  /** What the loop over the audiences has collected. */
  datatype Collected = Collected(manifest: map<string, Segment>, sealed: map<string, SealedSegment>, cnf: map<string, KeyConfirmation>)
  {
    function With(aud: Audience, out: SealedAudience): Collected {
      Collected(manifest[aud.name := out.segment], sealed[aud.name := out.sealed],
                cnf[aud.name := KeyConfirmation(aud.kid, out.jkt, "jwk-thumbprint")])
    }
  }

  ghost function CollectedFrom(c: Primitives, o: Outcomes, req: SealRequest, id: bytes, n: nat): Collected
    requires ValidRequest(req) && n <= |req.audiences| && Succeed(c, o, req, id, n)
  {
    if n == 0 then Collected(map[], map[], map[])
    else CollectedFrom(c, o, req, id, n - 1).With(req.audiences[n - 1], OutcomeAt(c, o, req, id, n - 1).value)
  }

  lemma {:induction false} CollectedHolds(c: Primitives, o: Outcomes, req: SealRequest, id: bytes, n: nat)
    requires ValidRequest(req) && n <= |req.audiences| && Succeed(c, o, req, id, n)
    ensures var m := CollectedFrom(c, o, req, id, n); Holds(c, o, req, id, n, m.manifest, m.sealed, m.cnf)
  {
    hide OutcomeAt, Holds, Names;
    if n == 0 {
      HoldsNone(c, o, req, id);
    } else {
      CollectedHolds(c, o, req, id, n - 1);
      var m := CollectedFrom(c, o, req, id, n - 1);
      HoldsStep(c, o, req, id, n - 1, m.manifest, m.sealed, m.cnf);
    }
  }

  lemma HoldsNone(c: Primitives, o: Outcomes, req: SealRequest, id: bytes)
    requires ValidRequest(req)
    ensures Holds(c, o, req, id, 0, map[], map[], map[])
  {}

  lemma HoldsStep(c: Primitives, o: Outcomes, req: SealRequest, id: bytes, i: nat,
                  manifest: map<string, Segment>, sealed: map<string, SealedSegment>, cnf: map<string, KeyConfirmation>)
    requires ValidRequest(req) && i < |req.audiences|
    requires Holds(c, o, req, id, i, manifest, sealed, cnf) && OutcomeAt(c, o, req, id, i).Ok?
    ensures var aud, out := req.audiences[i], OutcomeAt(c, o, req, id, i).value;
            Holds(c, o, req, id, i + 1, manifest[aud.name := out.segment], sealed[aud.name := out.sealed],
                  cnf[aud.name := KeyConfirmation(aud.kid, out.jkt, "jwk-thumbprint")])
  {
    hide OutcomeAt;
    var names := Names(req.audiences);
    assert names[..i + 1] == names[..i] + [names[i]];
    forall k | 0 <= k < i ensures req.audiences[k].name != req.audiences[i].name {
      assert names[k] != names[i];
    }
    var aud, out := req.audiences[i], OutcomeAt(c, o, req, id, i).value;
    var m, s := manifest[aud.name := out.segment], sealed[aud.name := out.sealed];
    var f := cnf[aud.name := KeyConfirmation(aud.kid, out.jkt, "jwk-thumbprint")];
    assert m.Keys == manifest.Keys + {aud.name} && s.Keys == sealed.Keys + {aud.name} && f.Keys == cnf.Keys + {aud.name};
    forall k | 0 <= k < i + 1 ensures Recorded(c, o, req, id, k, m, s, f) {
      if k < i {
        assert Recorded(c, o, req, id, k, manifest, sealed, cnf);
      }
    }
  }

  function PlainHashesOf(manifest: map<string, Segment>): map<string, string> {
    map a | a in manifest :: manifest[a].plainHash
  }

  /** The manifest's plaintext hashes are those of the request. */
  lemma HeldPlainHashes(c: Primitives, o: Outcomes, req: SealRequest, id: bytes,
                        manifest: map<string, Segment>, sealed: map<string, SealedSegment>, cnf: map<string, KeyConfirmation>)
    requires ValidRequest(req) && Holds(c, o, req, id, |req.audiences|, manifest, sealed, cnf)
    ensures PlainHashesOf(manifest) == PlainHashesIn(c, req)
  {
    hide PlainBytes, Names, Recorded;
    assert Names(req.audiences)[..|req.audiences|] == Names(req.audiences);
    forall a | a in Names(req.audiences)
      ensures a in manifest && a in req.segments && manifest[a].plainHash == c.H(PlainBytes(c, req.segments[a]))
    {
      var i := PositionOf(req, a);
      RecordedPlainHash(c, o, req, id, i, manifest, sealed, cnf);
    }
    assert PlainHashesOf(manifest).Keys == PlainHashesIn(c, req).Keys;
  }

  lemma RecordedPlainHash(c: Primitives, o: Outcomes, req: SealRequest, id: bytes, i: nat,
                          manifest: map<string, Segment>, sealed: map<string, SealedSegment>, cnf: map<string, KeyConfirmation>)
    requires i < |req.audiences| && req.audiences[i].name in req.segments && Recorded(c, o, req, id, i, manifest, sealed, cnf)
    ensures var a := req.audiences[i].name; manifest[a].plainHash == c.H(PlainBytes(c, req.segments[a]))
  {
    hide PlainBytes, AAD;
  }

  /** The package literal Seal builds, not yet signed. */
  function Around(c: Primitives, req: SealRequest, constraintsHash: string, id: bytes, m: Collected, bindings: Bindings): Package {
    Package(SUPPORTED_SPEC_VERSION, req.profile, "pkg_" + Hex(id), req.issuedAt,
            Issuer(req.issuer, ""), Intent(req.intentRef, req.authority, constraintsHash), Val(m.cnf), bindings,
            Manifest("chainbind-package/v1", "SHA-256", "RFC8785", Val(req.segmentOrder), ContextFor(req, id), Val(m.manifest), Nil),
            Val(m.sealed), Signature("", "", Nil, ""))
  }

  /** The bindings of a package: the root, the commitment to it, and what each formula computes. */
  ghost function BindingsOf(c: Primitives, specs: seq<BindingSpec>, ctx: BindingContext): Bindings
    requires AllCompute(specs, ctx)
  {
    Bindings(ctx.segmentsRoot, IntentCommitment(c, ctx.intentRef, ctx.constraintsHash, ctx.segmentsRoot),
             if specs == [] then Nil else Val(ComputedValues(specs, ctx)))
  }

  lemma ExtraIsComputed(c: Primitives, specs: seq<BindingSpec>, ctx: BindingContext)
    requires AllCompute(specs, ctx)
    ensures Computed(specs, ctx, Entries(BindingsOf(c, specs, ctx).extra))
    ensures Entries(BindingsOf(c, specs, ctx).extra).Keys == SpecNames(specs)
  {
    hide IntentCommitment;
  }

  /** The package that is handed to the signer. */
  ghost function Unsigned(c: Primitives, o: Outcomes, req: SealRequest): Package
    requires Preparable(c, o, req)
  {
    Around(c, req, o.constraintsHash(req.intentRef).value, o.packageID.value,
           CollectedFrom(c, o, req, o.packageID.value, |req.audiences|),
           BindingsOf(c, req.bindingSpecs, SealContext(c, o, req)))
  }

  /** It is prepared in the declarative sense. */
  lemma UnsignedIsPrepared(c: Primitives, o: Outcomes, req: SealRequest)
    requires Preparable(c, o, req)
    ensures IsPrepared(c, o, req, Unsigned(c, o, req))
  {
    hide Holds, Computed, AllCompute, RootBytes, IntentCommitment, PlainHashesIn, ComputedValues, OrderMatches, Succeed, IsPrepared, Around;
    var id := o.packageID.value;
    var m, ctx := CollectedFrom(c, o, req, id, |req.audiences|), SealContext(c, o, req);
    CollectedHolds(c, o, req, id, |req.audiences|);
    HeldPlainHashes(c, o, req, id, m.manifest, m.sealed, m.cnf);
    OrderIsHashed(c, req);
    ExtraIsComputed(c, req.bindingSpecs, ctx);
    AroundIsPrepared(c, o, req, m, ctx, BindingsOf(c, req.bindingSpecs, ctx));
  }

  lemma AroundIsPrepared(c: Primitives, o: Outcomes, req: SealRequest, m: Collected, ctx: BindingContext, b: Bindings)
    requires Admitted(o, req) && Holds(c, o, req, o.packageID.value, |req.audiences|, m.manifest, m.sealed, m.cnf)
    requires Corresponds(req.segmentOrder, PlainHashesOf(m.manifest))
    requires ctx == BindingContext(PlainHashesOf(m.manifest), req.intentRef, o.constraintsHash(req.intentRef).value,
                                   c.H(RootBytes(req.segmentOrder, PlainHashesOf(m.manifest))))
    requires b.segmentsRoot == ctx.segmentsRoot
    requires b.intentCommitment == IntentCommitment(c, req.intentRef, ctx.constraintsHash, b.segmentsRoot)
    requires AllCompute(req.bindingSpecs, ctx) && Computed(req.bindingSpecs, ctx, Entries(b.extra))
    requires b.extra.Nil? <==> req.bindingSpecs == []
    ensures IsPrepared(c, o, req, Around(c, req, ctx.constraintsHash, o.packageID.value, m, b))
  {
    hide Holds, Computed, AllCompute, RootBytes, IntentCommitment, SUPPORTED_SPEC_VERSION, ContextFor, Hex;
    var p := Around(c, req, ctx.constraintsHash, o.packageID.value, m, b);
    assert PlainHashes(p) == PlainHashesOf(m.manifest);
  }

  lemma PreparedSucceeds(c: Primitives, o: Outcomes, req: SealRequest, p: Package)
    requires IsPrepared(c, o, req, p)
    ensures Succeed(c, o, req, o.packageID.value, |req.audiences|)
  {
    hide OutcomeAt, CarriesCommitments;
    forall i | 0 <= i < |req.audiences| ensures OutcomeAt(c, o, req, o.packageID.value, i).Ok? {
      assert Recorded(c, o, req, o.packageID.value, i, p.manifest.segments.value, p.segments, p.cnf.value);
    }
  }

  /** There is a prepared package exactly when everything up to the signature succeeds. */
  lemma PreparedIff(c: Primitives, o: Outcomes, req: SealRequest)
    ensures (exists p :: IsPrepared(c, o, req, p)) <==> Preparable(c, o, req)
  {
    if Preparable(c, o, req) {
      UnsignedIsPrepared(c, o, req);
    }
    if p :| IsPrepared(c, o, req, p) {
      PreparedMeans(c, o, req, p);
    }
  }

  lemma PreparedMeans(c: Primitives, o: Outcomes, req: SealRequest, p: Package)
    requires IsPrepared(c, o, req, p)
    ensures Preparable(c, o, req)
  {
    hide Holds, Computed, AllCompute, RootBytes, IntentCommitment, SUPPORTED_SPEC_VERSION, ContextFor, Hex, PlainHashesIn,
         OrderMatches, Succeed;
    PreparedSucceeds(c, o, req, p);
    HeldPlainHashes(c, o, req, o.packageID.value, p.manifest.segments.value, p.segments, p.cnf.value);
    OrderIsHashed(c, req);
    assert PlainHashes(p) == PlainHashesOf(p.manifest.segments.value);
    assert ContextOf(c, p) == SealContext(c, o, req);
  }

  lemma PreparedIgnoresSigning(c: Primitives, o: Outcomes, req: SealRequest, p: Package, q: Package)
    requires IsPrepared(c, o, req, p) && q == p.(issuer := q.issuer, signature := q.signature) && q.issuer.iss == p.issuer.iss
    ensures IsPrepared(c, o, req, q)
  {
    hide Holds, Computed, AllCompute, RootBytes, CommitmentBytes;
    assert ContextOf(c, q) == ContextOf(c, p);
  }

  // ----- signing -----

  function WithKid(p: Package, kid: string): Package { p.(issuer := p.issuer.(kid := kid)) }

  function SignatureOver(c: Primitives, kid: string, sig: bytes): Signature {
    Signature("EdDSA", kid, Val(REQUIRED_SIGNED_FIELDS), c.base64Url(sig))
  }

  /** Signing p: the kid is filled in first, since it is one of the signed fields. */
  function SignedPackage(c: Primitives, o: Outcomes, p: Package): Result<Package> {
    var kid :- o.kid;
    var message :- SignedBytes(WithKid(p, kid));
    var sig :- o.sign(message);
    Ok(WithKid(p, kid).(signature := SignatureOver(c, kid, sig)))
  }

  lemma SignedPackageIsSigned(c: Primitives, o: Outcomes, p: Package)
    ensures var res := SignedPackage(c, o, p);
      res.Ok? ==> IsSigned(c, o, res.value) && SignedBytes(res.value) == SignedBytes(WithKid(p, o.kid.value))
  {
    hide SignedBytes, REQUIRED_SIGNED_FIELDS;
    var res := SignedPackage(c, o, p);
    if res.Ok? {
      SignedBytesIgnoreSignature(WithKid(p, o.kid.value), res.value.signature);
    }
  }

  // ----- the exact result -----

  /** The first fault met while walking the audiences from position i. */
  function AudienceFault(req: SealRequest, i: nat): Option<Error>
    requires i <= |req.audiences|
    decreases |req.audiences| - i
  {
    if i == |req.audiences| then None
    else
      var name := req.audiences[i].name;
      if name in Names(req.audiences)[..i] then Some(DuplicateAudience)
      else if name !in req.segments then Some(SegmentMissing)
      else AudienceFault(req, i + 1)
  }

  lemma {:induction false} AudienceFaultNoneIff(req: SealRequest, i: nat)
    requires i <= |req.audiences|
    ensures AudienceFault(req, i).None? <==>
      forall k :: i <= k < |req.audiences| ==> Names(req.audiences)[k] !in Names(req.audiences)[..k] && req.audiences[k].name in req.segments
    decreases |req.audiences| - i
  {
    hide Names;
    if i < |req.audiences| {
      assert Names(req.audiences)[i] == req.audiences[i].name by { NameAt(req.audiences, i); }
      AudienceFaultNoneIff(req, i + 1);
    }
  }

  lemma NameAt(auds: seq<Audience>, i: nat)
    requires i < |auds|
    ensures Names(auds)[i] == auds[i].name
  {}

  /** The audiences have no fault exactly when the request is valid. */
  lemma FaultFreeIffValid(req: SealRequest)
    ensures ValidRequest(req) <==> req.audiences != [] && AudienceFault(req, 0).None?
  {
    AudienceFaultNoneIff(req, 0);
    DistinctIffNoneSeenBefore(Names(req.audiences));
  }

  /** The error of the first audience to fail, from position i on. */
  function FirstError(c: Primitives, o: Outcomes, req: SealRequest, id: bytes, i: nat): Option<Error>
    requires i <= |req.audiences| && forall a :: a in req.audiences ==> a.name in req.segments
    decreases |req.audiences| - i
  {
    if i == |req.audiences| then None
    else if OutcomeAt(c, o, req, id, i).Err? then Some(OutcomeAt(c, o, req, id, i).error)
    else FirstError(c, o, req, id, i + 1)
  }

  /** The audience at position i fails with this error, and none before it fails. */
  ghost predicate FirstFailure(c: Primitives, o: Outcomes, req: SealRequest, id: bytes, i: nat, error: Error)
    requires forall a :: a in req.audiences ==> a.name in req.segments
  {
    && i < |req.audiences| && OutcomeAt(c, o, req, id, i) == Err(error)
    && forall j :: 0 <= j < i ==> OutcomeAt(c, o, req, id, j).Ok?
  }

  lemma {:induction false} FirstErrorFrom(c: Primitives, o: Outcomes, req: SealRequest, id: bytes, i: nat)
    requires ValidRequest(req) && i <= |req.audiences| && Succeed(c, o, req, id, i)
    ensures FirstError(c, o, req, id, i).None? <==> Succeed(c, o, req, id, |req.audiences|)
    ensures FirstError(c, o, req, id, i).Some? ==> exists k :: FirstFailure(c, o, req, id, k, FirstError(c, o, req, id, i).value)
    decreases |req.audiences| - i
  {
    hide OutcomeAt;
    if i < |req.audiences| {
      if OutcomeAt(c, o, req, id, i).Ok? {
        FirstErrorFrom(c, o, req, id, i + 1);
      } else {
        assert FirstFailure(c, o, req, id, i, OutcomeAt(c, o, req, id, i).error);
      }
    }
  }

  /** The loop fails exactly when some audience does, and then with the first one's error. */
  lemma FirstErrorIsFirst(c: Primitives, o: Outcomes, req: SealRequest, id: bytes)
    requires ValidRequest(req)
    ensures FirstError(c, o, req, id, 0).None? <==> Succeed(c, o, req, id, |req.audiences|)
    ensures FirstError(c, o, req, id, 0).Some? ==> exists k :: FirstFailure(c, o, req, id, k, FirstError(c, o, req, id, 0).value)
  {
    FirstErrorFrom(c, o, req, id, 0);
  }

  /** The result once a request is admitted. */
  ghost function SealingAdmitted(c: Primitives, o: Outcomes, req: SealRequest): Result<Package>
    requires Admitted(o, req)
  {
    FirstErrorIsFirst(c, o, req, o.packageID.value);
    var failed := FirstError(c, o, req, o.packageID.value, 0);
    if failed.Some? then Err(failed.value)
    else if !OrderMatches(req) then Err(MalformedPackage)
    else if !AllCompute(req.bindingSpecs, SealContext(c, o, req)) then Err(BindingFailed)
    else SignedPackage(c, o, Unsigned(c, o, req))
  }

  /** The result of sealing: the signed package, or the error of the first check to fail. */
  ghost function Sealing(c: Primitives, o: Outcomes, req: SealRequest): Result<Package> {
    FaultFreeIffValid(req);
    if req.audiences == [] then Err(NoAudiences)
    else if AudienceFault(req, 0).Some? then Err(AudienceFault(req, 0).value)
    else if o.check(req.intentRef).Err? then Err(AuthorityUnreachable)
    else if !o.check(req.intentRef).value.allowed then Err(IntentDenied)
    else if o.constraintsHash(req.intentRef).Err? then Err(AuthorityUnreachable)
    else if o.packageID.None? then Err(RandomFailed)
    else SealingAdmitted(c, o, req)
  }

  /** Sealing ends with a package exactly when that package is sealed in the declarative sense. */
  lemma SealingIsExact(c: Primitives, o: Outcomes, req: SealRequest, p: Package)
    ensures Sealing(c, o, req) == Ok(p) <==> IsSealed(c, o, req, p)
  {
    hide IsPrepared, Unsigned, SignedPackage, AllCompute, OrderMatches, Succeed, AudienceFault, FirstError, SealContext;
    FaultFreeIffValid(req);
    if IsPrepared(c, o, req, p) {
      PreparedMeans(c, o, req, p);
    }
    if Preparable(c, o, req) {
      FirstErrorIsFirst(c, o, req, o.packageID.value);
      SignedIffSealed(c, o, req, p);
    } else if Admitted(o, req) {
      FirstErrorIsFirst(c, o, req, o.packageID.value);
    }
  }

  lemma SignedIffSealed(c: Primitives, o: Outcomes, req: SealRequest, p: Package)
    requires Preparable(c, o, req)
    ensures SignedPackage(c, o, Unsigned(c, o, req)) == Ok(p) <==> IsSealed(c, o, req, p)
  {
    hide SignedBytes, IsPrepared, REQUIRED_SIGNED_FIELDS, Preparable, Unsigned;
    var u := Unsigned(c, o, req);
    UnsignedIsPrepared(c, o, req);
    PreparedIssuer(c, o, req, u);
    if SignedPackage(c, o, u) == Ok(p) {
      SignedPackageIsSigned(c, o, u);
      PreparedIgnoresSigning(c, o, req, u, p);
    }
    if IsSealed(c, o, req, p) {
      PreparedIssuer(c, o, req, p);
      PreparedUnique(c, o, req, u, p);
      assert WithKid(u, o.kid.value) == p.(signature := u.signature);
      SignedBytesIgnoreSignature(p, u.signature);
    }
  }

  lemma PreparedIssuer(c: Primitives, o: Outcomes, req: SealRequest, p: Package)
    requires IsPrepared(c, o, req, p)
    ensures p.issuer.iss == req.issuer
  {}

  // ----- exactly when sealing succeeds -----

  /** What the signer is asked to sign, if the signing view can be built. */
  ghost function Message(c: Primitives, o: Outcomes, req: SealRequest): Result<bytes>
    requires Preparable(c, o, req) && o.kid.Ok?
  {
    SignedBytes(WithKid(Unsigned(c, o, req), o.kid.value))
  }

  lemma MessageDefined(c: Primitives, o: Outcomes, req: SealRequest)
    requires Preparable(c, o, req) && o.kid.Ok?
    ensures Message(c, o, req).Ok? <==> SpecNames(req.bindingSpecs) !! CORE_NAMES
    ensures Message(c, o, req).Err? ==> Message(c, o, req).error == BindingCollision
  {
    hide SignedBytes, CORE_NAMES, CollectedFrom, IntentCommitment, SealContext, AllCompute, OrderMatches, Succeed, ComputedValues;
    var p := WithKid(Unsigned(c, o, req), o.kid.value);
    SignedBytesDefined(p);
    ExtraIsComputed(c, req.bindingSpecs, SealContext(c, o, req));
  }

  /**
   Sealing succeeds exactly when the request is valid, the authority allows it and answers with a hash, every draw, cipher,
   wrap and thumbprint succeeds, the order names the audiences, every formula computes on the request's own hashes, none is
   named after a core binding, and the signer has a kid and signs.
   */
  lemma SealsIff(c: Primitives, o: Outcomes, req: SealRequest)
    ensures Sealing(c, o, req).Ok? <==>
      && Preparable(c, o, req)
      && SpecNames(req.bindingSpecs) !! CORE_NAMES
      && o.kid.Ok? && Message(c, o, req).Ok? && o.sign(Message(c, o, req).value).Ok?
  {
    hide Unsigned, SignedBytes, CORE_NAMES, AudienceFault, FirstError, OrderMatches, Succeed, AllCompute, SealContext, REQUIRED_SIGNED_FIELDS;
    FaultFreeIffValid(req);
    if Admitted(o, req) {
      FirstErrorIsFirst(c, o, req, o.packageID.value);
    }
    if Preparable(c, o, req) && o.kid.Ok? {
      MessageDefined(c, o, req);
    }
  }

  // ----- the exact effects -----

  /** The effects of one audience in full. */
  function AudienceEffects(name: string): seq<Effect> {
    [DekDrawn(name), Encrypted(name), Wrapped(name), Thumbprinted(name)]
  }

  /** The effects of each audience in turn, in full. */
  function EffectsOf(auds: seq<Audience>): seq<Effect> {
    if auds == [] then [] else AudienceEffects(auds[0].name) + EffectsOf(auds[1..])
  }

  /** Everything up to the signature. */
  function Preparation(req: SealRequest): seq<Effect> {
    [Checked(req.intentRef), HashFetched(req.intentRef), PackageIDDrawn] + EffectsOf(req.audiences)
  }

  /** The effects of a complete run that signs message. */
  function CompleteRun(req: SealRequest, message: bytes): seq<Effect> {
    Preparation(req) + [KidAsked, Signed(message)]
  }

  /** run is complete, and what it signs is p's own signed bytes. */
  ghost predicate Completes(req: SealRequest, p: Package, run: seq<Effect>) {
    SignedBytes(p).Ok? && run == CompleteRun(req, SignedBytes(p).value)
  }

  /** sealSegment's effects once a data key is drawn: a failed cipher stops before the wrap. */
  function SegmentRun(c: Primitives, o: Outcomes, ctx: AADContext, aud: Audience, plaintext: Nilable<bytes>, dek: Key32): seq<Effect> {
    var combined := Encrypt(c, dek, o.nonce(aud.name), Contents(plaintext), AAD(ctx, aud.name, SUPPORTED_SPEC_VERSION));
    [Encrypted(aud.name)] + if combined.Err? then [] else [Wrapped(aud.name)]
  }

  /** One audience's effects, ending with the first call that fails. */
  function AudienceRun(c: Primitives, o: Outcomes, ctx: AADContext, aud: Audience, plaintext: Nilable<bytes>): seq<Effect> {
    if o.dek(aud.name).None? then [DekDrawn(aud.name)]
    else
      var dek := o.dek(aud.name).value;
      [DekDrawn(aud.name)] + SegmentRun(c, o, ctx, aud, plaintext, dek)
      + if SegmentOutcome(c, o, ctx, aud, plaintext, dek).Err? then [] else [Thumbprinted(aud.name)]
  }

  function RunAt(c: Primitives, o: Outcomes, req: SealRequest, id: bytes, i: nat): seq<Effect>
    requires i < |req.audiences| && req.audiences[i].name in req.segments
  {
    AudienceRun(c, o, ContextFor(req, id), req.audiences[i], req.segments[req.audiences[i].name])
  }

  /** The effects of the loop from position i on: nothing follows the first audience to fail. */
  function RunFrom(c: Primitives, o: Outcomes, req: SealRequest, id: bytes, i: nat): seq<Effect>
    requires i <= |req.audiences| && forall a :: a in req.audiences ==> a.name in req.segments
    decreases |req.audiences| - i
  {
    if i == |req.audiences| then []
    else RunAt(c, o, req, id, i) + if OutcomeAt(c, o, req, id, i).Err? then [] else RunFrom(c, o, req, id, i + 1)
  }

  /** One turn of the loop: what it comes to, and what is left to do. */
  lemma RunUnfolds(c: Primitives, o: Outcomes, req: SealRequest, id: bytes, i: nat)
    requires i < |req.audiences| && forall a :: a in req.audiences ==> a.name in req.segments
    ensures var aud, ctx := req.audiences[i], ContextFor(req, id);
      && OutcomeAt(c, o, req, id, i) == AudienceOutcome(c, o, ctx, aud, req.segments[aud.name])
      && RunAt(c, o, req, id, i) == AudienceRun(c, o, ctx, aud, req.segments[aud.name])
      && (OutcomeAt(c, o, req, id, i).Err? ==>
            && FirstError(c, o, req, id, i) == Some(OutcomeAt(c, o, req, id, i).error)
            && RunFrom(c, o, req, id, i) == RunAt(c, o, req, id, i))
      && (OutcomeAt(c, o, req, id, i).Ok? ==>
            && FirstError(c, o, req, id, i) == FirstError(c, o, req, id, i + 1)
            && RunFrom(c, o, req, id, i) == RunAt(c, o, req, id, i) + RunFrom(c, o, req, id, i + 1))
  {
    hide AudienceOutcome, AudienceRun;
  }

  lemma NothingLeft(c: Primitives, o: Outcomes, req: SealRequest, id: bytes)
    requires forall a :: a in req.audiences ==> a.name in req.segments
    ensures FirstError(c, o, req, id, |req.audiences|) == None && RunFrom(c, o, req, id, |req.audiences|) == []
  {}

  /** Signing p: without a kid, or without signed bytes, nothing is signed. */
  function SigningEffects(o: Outcomes, p: Package): seq<Effect> {
    [KidAsked]
    + if o.kid.Err? || SignedBytes(WithKid(p, o.kid.value)).Err? then []
      else [Signed(SignedBytes(WithKid(p, o.kid.value)).value)]
  }

  /** The effects once a request is admitted. */
  ghost function EffectsAdmitted(c: Primitives, o: Outcomes, req: SealRequest): seq<Effect>
    requires Admitted(o, req)
  {
    RunFrom(c, o, req, o.packageID.value, 0) + if Preparable(c, o, req) then SigningEffects(o, Unsigned(c, o, req)) else []
  }

  /** The effects of sealing, ending with the call that fails. */
  ghost function Effects(c: Primitives, o: Outcomes, req: SealRequest): seq<Effect> {
    if !ValidRequest(req) then []
    else if o.check(req.intentRef).Err? || !o.check(req.intentRef).value.allowed then [Checked(req.intentRef)]
    else if o.constraintsHash(req.intentRef).Err? then [Checked(req.intentRef), HashFetched(req.intentRef)]
    else
      [Checked(req.intentRef), HashFetched(req.intentRef), PackageIDDrawn]
      + if o.packageID.None? then [] else EffectsAdmitted(c, o, req)
  }

  lemma AudienceRunInOrder(c: Primitives, o: Outcomes, ctx: AADContext, aud: Audience, plaintext: Nilable<bytes>)
    ensures AudienceRun(c, o, ctx, aud, plaintext) <= AudienceEffects(aud.name)
    ensures AudienceOutcome(c, o, ctx, aud, plaintext).Ok? ==> AudienceRun(c, o, ctx, aud, plaintext) == AudienceEffects(aud.name)
  {
    hide AAD, SUPPORTED_SPEC_VERSION, SegmentFor, WireFor, Encrypt;
  }

  lemma {:induction false} RunInOrder(c: Primitives, o: Outcomes, req: SealRequest, id: bytes, i: nat)
    requires ValidRequest(req) && i <= |req.audiences|
    ensures RunFrom(c, o, req, id, i) <= EffectsOf(req.audiences[i..])
    ensures FirstError(c, o, req, id, i).None? ==> RunFrom(c, o, req, id, i) == EffectsOf(req.audiences[i..])
    decreases |req.audiences| - i
  {
    hide Names, AudienceRun, AudienceOutcome, AudienceEffects, ContextFor;
    if i < |req.audiences| {
      assert req.audiences[i] in req.audiences;
      assert req.audiences[i..][1..] == req.audiences[i + 1..];
      AudienceRunInOrder(c, o, ContextFor(req, id), req.audiences[i], req.segments[req.audiences[i].name]);
      RunInOrder(c, o, req, id, i + 1);
    }
  }

  /** The effects are a prefix of one fixed order, and all of it, over the package's own bytes, on success. */
  lemma EffectsInOrder(c: Primitives, o: Outcomes, req: SealRequest)
    ensures exists m :: Effects(c, o, req) <= CompleteRun(req, m)
    ensures Sealing(c, o, req).Ok? ==> Completes(req, Sealing(c, o, req).value, Effects(c, o, req))
    ensures !Authorized(o, req) ==> Effects(c, o, req) <= [Checked(req.intentRef), HashFetched(req.intentRef)]
    ensures ValidRequest(req) && !Preparable(c, o, req) ==> Effects(c, o, req) <= Preparation(req)
  {
    hide Unsigned, SignedBytes, AudienceFault, OrderMatches, AllCompute, SealContext, REQUIRED_SIGNED_FIELDS, RunFrom, EffectsOf,
         FirstError, Succeed;
    var all := CompleteRun(req, []);
    assert all == [Checked(req.intentRef), HashFetched(req.intentRef), PackageIDDrawn] + (EffectsOf(req.audiences) + [KidAsked, Signed([])]);
    FaultFreeIffValid(req);
    if Admitted(o, req) {
      var run := RunFrom(c, o, req, o.packageID.value, 0);
      FirstErrorIsFirst(c, o, req, o.packageID.value);
      RunInOrder(c, o, req, o.packageID.value, 0);
      assert req.audiences[0..] == req.audiences;
      if Preparable(c, o, req) {
        var p := Unsigned(c, o, req);
        SignedPackageIsSigned(c, o, p);
        if o.kid.Ok? && SignedBytes(WithKid(p, o.kid.value)).Ok? {
          assert Effects(c, o, req) == CompleteRun(req, SignedBytes(WithKid(p, o.kid.value)).value);
        } else {
          assert Effects(c, o, req) <= all;
        }
      } else {
        assert Effects(c, o, req) <= Preparation(req);
        assert Effects(c, o, req) <= all;
      }
    } else {
      assert Effects(c, o, req) <= all[..3];
    }
  }

  lemma SuccessCompletes(c: Primitives, o: Outcomes, req: SealRequest)
    ensures Sealing(c, o, req).Ok? ==> Completes(req, Sealing(c, o, req).value, Effects(c, o, req))
  {
    hide Sealing, Effects, Completes;
    EffectsInOrder(c, o, req);
  }

  /** What is signed, if anything: the signed bytes of the one prepared package that names the announced kid. */
  lemma OnlySealedBytesAreSigned(c: Primitives, o: Outcomes, req: SealRequest, m: bytes)
    ensures Signed(m) in Effects(c, o, req) <==> Preparable(c, o, req) && o.kid.Ok? && Message(c, o, req) == Ok(m)
    ensures Signed(m) in Effects(c, o, req) <==>
      exists p :: IsPrepared(c, o, req, p) && o.kid == Ok(p.issuer.kid) && SignedBytes(p) == Ok(m)
  {
    hide Unsigned, SignedBytes, Preparable, RunFrom, IsPrepared;
    if Admitted(o, req) {
      RunSignsNothing(c, o, req, o.packageID.value, 0);
    }
    PreparableIsAdmitted(c, o, req);
    if Preparable(c, o, req) && o.kid.Ok? {
      PreparedMessage(c, o, req, m);
    }
    forall p | IsPrepared(c, o, req, p) ensures Preparable(c, o, req) {
      PreparedMeans(c, o, req, p);
    }
  }

  lemma PreparableIsAdmitted(c: Primitives, o: Outcomes, req: SealRequest)
    ensures Preparable(c, o, req) ==> Admitted(o, req)
  {}

  lemma PreparedMessage(c: Primitives, o: Outcomes, req: SealRequest, m: bytes)
    requires Preparable(c, o, req) && o.kid.Ok?
    ensures Message(c, o, req) == Ok(m) <==>
      exists p :: IsPrepared(c, o, req, p) && o.kid == Ok(p.issuer.kid) && SignedBytes(p) == Ok(m)
  {
    hide SignedBytes, IsPrepared, Preparable, Unsigned;
    var u := Unsigned(c, o, req);
    UnsignedIsPrepared(c, o, req);
    PreparedIssuer(c, o, req, u);
    PreparedIgnoresSigning(c, o, req, u, WithKid(u, o.kid.value));
    forall p | IsPrepared(c, o, req, p) && o.kid == Ok(p.issuer.kid) ensures SignedBytes(p) == Message(c, o, req) {
      PreparedIssuer(c, o, req, p);
      PreparedUnique(c, o, req, u, p);
      assert WithKid(u, o.kid.value) == p.(signature := u.signature);
      SignedBytesIgnoreSignature(p, u.signature);
    }
  }

  lemma AudienceSignsNothing(c: Primitives, o: Outcomes, ctx: AADContext, aud: Audience, plaintext: Nilable<bytes>)
    ensures forall e :: e in AudienceRun(c, o, ctx, aud, plaintext) ==> !e.Signed?
  {
    hide AudienceRun, AudienceOutcome;
    AudienceRunInOrder(c, o, ctx, aud, plaintext);
    var run := AudienceRun(c, o, ctx, aud, plaintext);
    forall e | e in run ensures !e.Signed? {
      assert e in AudienceEffects(aud.name);
    }
  }

  lemma {:induction false} RunSignsNothing(c: Primitives, o: Outcomes, req: SealRequest, id: bytes, i: nat)
    requires ValidRequest(req) && i <= |req.audiences|
    ensures forall e :: e in RunFrom(c, o, req, id, i) ==> !e.Signed?
    decreases |req.audiences| - i
  {
    hide Names, AudienceRun, AudienceOutcome, ContextFor;
    if i < |req.audiences| {
      var aud := req.audiences[i];
      AudienceSignsNothing(c, o, ContextFor(req, id), aud, req.segments[aud.name]);
      RunSignsNothing(c, o, req, id, i + 1);
    }
  }

  lemma {:induction false} RunUntilFailure(c: Primitives, o: Outcomes, req: SealRequest, id: bytes, i: nat, k: nat, error: Error)
    requires ValidRequest(req) && i <= k && FirstFailure(c, o, req, id, k, error)
    ensures RunFrom(c, o, req, id, i) == EffectsOf(req.audiences[i..k]) + RunAt(c, o, req, id, k)
    decreases k - i
  {
    hide Names, AudienceRun, AudienceOutcome, AudienceEffects, ContextFor;
    assert req.audiences[i] in req.audiences;
    if i < k {
      var aud := req.audiences[i];
      assert req.audiences[i..k][1..] == req.audiences[i + 1..k];
      assert OutcomeAt(c, o, req, id, i).Ok?;
      AudienceRunInOrder(c, o, ContextFor(req, id), aud, req.segments[aud.name]);
      RunUntilFailure(c, o, req, id, i + 1, k, error);
    }
  }

  /**
   When an audience fails, the run is the full effects of the audiences before it and its own up to the call that failed:
   nothing for any later audience, no kid, no signature.
   */
  lemma NothingAfterFailure(c: Primitives, o: Outcomes, req: SealRequest, k: nat, error: Error)
    requires Admitted(o, req) && FirstFailure(c, o, req, o.packageID.value, k, error)
    ensures Effects(c, o, req) == [Checked(req.intentRef), HashFetched(req.intentRef), PackageIDDrawn]
                                  + EffectsOf(req.audiences[..k]) + RunAt(c, o, req, o.packageID.value, k)
    ensures RunAt(c, o, req, o.packageID.value, k) <= AudienceEffects(req.audiences[k].name)
    ensures Sealing(c, o, req) == Err(error)
  {
    hide Names, AudienceRun, AudienceEffects, AudienceOutcome, ContextFor, AllCompute, OrderMatches, SealContext, RunFrom, EffectsOf,
         Unsigned, SigningEffects, AudienceFault, SignedPackage;
    var id, aud := o.packageID.value, req.audiences[k];
    assert req.audiences[0..k] == req.audiences[..k];
    RunUntilFailure(c, o, req, id, 0, k, error);
    AudienceRunInOrder(c, o, ContextFor(req, id), aud, req.segments[aud.name]);
    FirstErrorIsFirst(c, o, req, id);
    FaultFreeIffValid(req);
    var j :| FirstFailure(c, o, req, id, j, FirstError(c, o, req, id, 0).value);
    assert j == k;
  }

  /** The last effect of a failing audience is the call that failed. */
  lemma RunEndsAtFailingCall(c: Primitives, o: Outcomes, ctx: AADContext, aud: Audience, plaintext: Nilable<bytes>)
    requires AudienceOutcome(c, o, ctx, aud, plaintext).Err?
    ensures var run := AudienceRun(c, o, ctx, aud, plaintext);
      && (o.dek(aud.name).None? <==> run == [DekDrawn(aud.name)])
      && (o.dek(aud.name).Some? ==>
            var combined := Encrypt(c, o.dek(aud.name).value, o.nonce(aud.name), Contents(plaintext), AAD(ctx, aud.name, SUPPORTED_SPEC_VERSION));
            && (combined.Err? <==> run == [DekDrawn(aud.name), Encrypted(aud.name)])
            && (combined.Ok? ==>
                  var wrapped := o.wrapper.wrap(o.ephemeral(aud.name), aud.publicKey, o.dek(aud.name).value);
                  && (wrapped.Err? <==> run == [DekDrawn(aud.name), Encrypted(aud.name), Wrapped(aud.name)])
                  && (wrapped.Ok? ==> o.wrapper.thumbprint(aud.publicKey).Err? && run == AudienceEffects(aud.name))))
  {
    hide AAD, SUPPORTED_SPEC_VERSION, SegmentFor, WireFor, Encrypt;
  }

  // ----- a sealed package, field by field -----

  /** Every field outside the segments comes from where the caller and the authority put it. */
  lemma SealedFieldsAre(c: Primitives, o: Outcomes, req: SealRequest, p: Package)
    requires Sealing(c, o, req) == Ok(p)
    ensures p.specVersion == "1.0.0" && p.profile == req.profile && p.issuedAt == req.issuedAt
    ensures o.packageID.Some? && p.packageID == "pkg_" + Hex(o.packageID.value)
    ensures p.issuer.iss == req.issuer && Ok(p.issuer.kid) == o.kid
    ensures p.intent.intentRef == req.intentRef && p.intent.authority == req.authority
    ensures o.constraintsHash(req.intentRef) == Ok(p.intent.constraintsHash)
    ensures p.manifest.schema == "chainbind-package/v1" && p.manifest.hashAlg == "SHA-256" && p.manifest.canonicalization == "RFC8785"
    ensures p.manifest.segmentOrder == Val(req.segmentOrder) && p.manifest.disclosures == Nil
    ensures p.manifest.aadContext.packageID == p.packageID
    ensures p.manifest.aadContext.tenantID == req.tenantID && p.manifest.aadContext.environment == req.environment
  {
    SealingIsExact(c, o, req, p);
    hide Sealing, Holds, CarriesCommitments, SignedBytes, REQUIRED_SIGNED_FIELDS;
  }

  /** The signature names the kid and the nine fields, and its value is what the signer made of the package's own signed bytes. */
  lemma SealedSignatureIs(c: Primitives, o: Outcomes, req: SealRequest, p: Package)
    requires Sealing(c, o, req) == Ok(p)
    ensures p.signature.alg == "EdDSA" && p.signature.kid == p.issuer.kid && p.signature.fields == Val(REQUIRED_SIGNED_FIELDS)
    ensures SignedBytes(p).Ok? && o.sign(SignedBytes(p).value).Ok? && p.signature.value == c.base64Url(o.sign(SignedBytes(p).value).value)
  {
    SealingIsExact(c, o, req, p);
    hide Sealing, IsPrepared, SignedBytes, REQUIRED_SIGNED_FIELDS;
  }

  /** The combined ciphertext of an audience: its own key and nonce, its own plaintext, and a context. */
  function CombinedFor(c: Primitives, o: Outcomes, ctx: AADContext, aud: Audience, plaintext: Nilable<bytes>): bytes
    requires o.dek(aud.name).Some? && o.nonce(aud.name).Some?
  {
    c.gcmSeal(o.dek(aud.name).value, o.nonce(aud.name).value, Contents(plaintext), AAD(ctx, aud.name, "1.0.0"))
  }

  ghost predicate DescribesSegment(c: Primitives, aud: Audience, plaintext: Nilable<bytes>, combined: bytes, m: Segment) {
    && m.audience == aud.name && m.kid == aud.kid && m.alg == "AES-256-GCM" && m.wrapAlg == "ECDH-ES+A256KW"
    && m.plainHash == c.H(PlainBytes(c, plaintext)) && m.cipherHash == c.H(combined)
  }

  ghost predicate CarriesSegment(c: Primitives, combined: bytes, nonce: bytes, wrapped: bytes, epk: bytes, s: SealedSegment) {
    && |combined| >= 16
    && s.epk.kty == "OKP" && s.epk.crv == "X25519" && s.epk.x == c.base64Url(epk)
    && s.dekWrapped == c.base64Url(wrapped) && s.nonce == c.base64Url(nonce)
    && s.ciphertext == c.base64Url(combined[..|combined| - 16]) && s.tag == c.base64Url(combined[|combined| - 16..])
  }

  /** What one audience comes to, field by field. */
  lemma AudienceFieldsAre(c: Primitives, o: Outcomes, ctx: AADContext, aud: Audience, plaintext: Nilable<bytes>)
    requires AudienceOutcome(c, o, ctx, aud, plaintext).Ok?
    ensures o.dek(aud.name).Some? && o.nonce(aud.name).Some?
    ensures o.wrapper.wrap(o.ephemeral(aud.name), aud.publicKey, o.dek(aud.name).value).Ok?
    ensures var out, combined := AudienceOutcome(c, o, ctx, aud, plaintext).value, CombinedFor(c, o, ctx, aud, plaintext);
      var (wrapped, epk) := o.wrapper.wrap(o.ephemeral(aud.name), aud.publicKey, o.dek(aud.name).value).value;
      && DescribesSegment(c, aud, plaintext, combined, out.segment)
      && CarriesSegment(c, combined, o.nonce(aud.name).value, wrapped, epk, out.sealed)
      && o.wrapper.thumbprint(aud.publicKey) == Ok(out.jkt)
  {
    hide AAD, PlainBytes;
  }

  /** An audience's manifest entry, sealed segment and key confirmation, under the context the request names. */
  lemma SealedSegmentIs(c: Primitives, o: Outcomes, req: SealRequest, p: Package, i: nat)
    requires Sealing(c, o, req) == Ok(p) && i < |req.audiences|
    ensures var aud := req.audiences[i];
      && aud.name in req.segments && o.dek(aud.name).Some? && o.nonce(aud.name).Some?
      && o.wrapper.wrap(o.ephemeral(aud.name), aud.publicKey, o.dek(aud.name).value).Ok?
      && aud.name in Entries(p.manifest.segments) && aud.name in p.segments && aud.name in Entries(p.cnf)
    ensures var aud := req.audiences[i];
      var combined := CombinedFor(c, o, AADContext(p.packageID, req.tenantID, req.environment), aud, req.segments[aud.name]);
      var (wrapped, epk) := o.wrapper.wrap(o.ephemeral(aud.name), aud.publicKey, o.dek(aud.name).value).value;
      && DescribesSegment(c, aud, req.segments[aud.name], combined, Entries(p.manifest.segments)[aud.name])
      && CarriesSegment(c, combined, o.nonce(aud.name).value, wrapped, epk, p.segments[aud.name])
    ensures var aud := req.audiences[i];
      var k := Entries(p.cnf)[aud.name];
      k.kid == aud.kid && o.wrapper.thumbprint(aud.publicKey) == Ok(k.jkt) && k.confirmation == "jwk-thumbprint"
  {
    hide Sealing, AudienceOutcome, CombinedFor, DescribesSegment, CarriesSegment, Hex;
    var id := SealedRecorded(c, o, req, p, i);
    var aud := req.audiences[i];
    AudienceFieldsAre(c, o, ContextFor(req, id), aud, req.segments[aud.name]);
  }

  lemma SealedRecorded(c: Primitives, o: Outcomes, req: SealRequest, p: Package, i: nat) returns (id: bytes)
    requires Sealing(c, o, req) == Ok(p) && i < |req.audiences|
    ensures o.packageID == Some(id) && p.packageID == "pkg_" + Hex(id) && req.audiences[i].name in req.segments
    ensures p.manifest.segments.Val? && p.cnf.Val?
    ensures Recorded(c, o, req, id, i, p.manifest.segments.value, p.segments, p.cnf.value)
  {
    SealingIsExact(c, o, req, p);
    hide Sealing, CarriesCommitments, IsSigned, Recorded, Hex;
    id := o.packageID.value;
  }
}
