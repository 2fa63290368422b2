/**
 Sealing: authorization first, then one freshly keyed segment per audience, then one
 signature. The environment (authority, randomness, key wrapper, signer) answers from
 fixed outcomes and records every call, so what a run did can be stated exactly.
 */
module Seal {
  import opened Prelude
  import opened Primitives
  import opened Package
  import opened Commitments
  import opened SigningView
  import opened SealSpec

  class Environment {
    const o: Outcomes
    var trace: seq<Effect>
    ghost var deks: set<array<byte>>  // every data key ever drawn

    constructor (o: Outcomes)
      ensures this.o == o && trace == [] && deks == {}
    {
      this.o := o;
      trace := [];
      deks := {};
    }

    method Record(e: Effect)
      modifies this`trace
      ensures trace == old(trace) + [e]
    {
      trace := trace + [e];
    }

    method Check(intentRef: string) returns (decision: Result<IntentDecision>)
      modifies this`trace
      ensures trace == old(trace) + [Checked(intentRef)] && decision == o.check(intentRef)
    {
      Record(Checked(intentRef));
      decision := o.check(intentRef);
    }

    method ConstraintsHash(intentRef: string) returns (hash: Result<string>)
      modifies this`trace
      ensures trace == old(trace) + [HashFetched(intentRef)] && hash == o.constraintsHash(intentRef)
    {
      Record(HashFetched(intentRef));
      hash := o.constraintsHash(intentRef);
    }

    method DrawPackageID() returns (id: Option<bytes>)
      modifies this`trace
      ensures trace == old(trace) + [PackageIDDrawn] && id == o.packageID
    {
      Record(PackageIDDrawn);
      id := o.packageID;
    }

    /** A fresh data key in a buffer of its own. */
    method NewDek(audience: string) returns (dek: Option<array<byte>>)
      modifies this
      ensures trace == old(trace) + [DekDrawn(audience)]
      ensures dek.Some? <==> o.dek(audience).Some?
      ensures dek.Some? ==> fresh(dek.value) && dek.value[..] == o.dek(audience).value && deks == old(deks) + {dek.value}
      ensures dek.None? ==> deks == old(deks)
    {
      Record(DekDrawn(audience));
      var drawn := o.dek(audience);
      if drawn.None? {
        return None;
      }
      var key := drawn.value;
      var buf := new byte[32](i requires 0 <= i < 32 => key[i]);
      deks := deks + {buf};
      dek := Some(buf);
    }

    /** Encrypt of the library: a nonce is drawn, and returned beside the ciphertext with its tag. */
    method EncryptUnder(c: Primitives, audience: string, dek: array<byte>, plaintext: bytes, aad: bytes) returns (res: Result<(bytes, Nonce)>)
      requires dek.Length == 32
      modifies this`trace
      ensures trace == old(trace) + [Encrypted(audience)]
      ensures o.nonce(audience).None? ==> res == Err(RandomFailed)
      ensures o.nonce(audience).Some? ==> res == Ok((c.gcmSeal(dek[..], o.nonce(audience).value, plaintext, aad), o.nonce(audience).value))
    {
      Record(Encrypted(audience));
      var nonce := o.nonce(audience);
      if nonce.None? {
        return Err(RandomFailed);
      }
      res := Ok((c.gcmSeal(dek[..], nonce.value, plaintext, aad), nonce.value));
    }

    method Wrap(audience: string, publicKey: bytes, dek: array<byte>) returns (res: Result<(bytes, bytes)>)
      modifies this`trace
      ensures trace == old(trace) + [Wrapped(audience)] && res == o.wrapper.wrap(o.ephemeral(audience), publicKey, dek[..])
    {
      Record(Wrapped(audience));
      res := o.wrapper.wrap(o.ephemeral(audience), publicKey, dek[..]);
    }

    method Thumbprint(audience: string, publicKey: bytes) returns (jkt: Result<string>)
      modifies this`trace
      ensures trace == old(trace) + [Thumbprinted(audience)] && jkt == o.wrapper.thumbprint(publicKey)
    {
      Record(Thumbprinted(audience));
      jkt := o.wrapper.thumbprint(publicKey);
    }

    method Kid() returns (kid: Result<string>)
      modifies this`trace
      ensures trace == old(trace) + [KidAsked] && kid == o.kid
    {
      Record(KidAsked);
      kid := o.kid;
    }

    method Sign(message: bytes) returns (sig: Result<bytes>)
      modifies this`trace
      ensures trace == old(trace) + [Signed(message)] && sig == o.sign(message)
    {
      Record(Signed(message));
      sig := o.sign(message);
    }
  }

  method Zero(b: array<byte>)
    modifies b
    ensures forall i :: 0 <= i < b.Length ==> b[i] == 0
  {
    for i := 0 to b.Length
      invariant forall k :: 0 <= k < i ==> b[k] == 0
    {
      b[i] := 0;
    }
  }

  ghost predicate Zeroed(b: array<byte>)
    reads b
  {
    forall i :: 0 <= i < b.Length ==> b[i] == 0
  }

  method CheckAudiences(req: SealRequest) returns (fault: Option<Error>)
    ensures fault == AudienceFault(req, 0)
    ensures fault.None? <==> Distinct(Names(req.audiences)) && forall a :: a in req.audiences ==> a.name in req.segments
  {
    var names := Names(req.audiences);
    var seen: set<string> := {};
    for i := 0 to |req.audiences|
      invariant AudienceFault(req, 0) == AudienceFault(req, i)
      invariant forall a :: a in seen <==> a in names[..i]
      invariant Distinct(names[..i])
      invariant forall a :: a in req.audiences[..i] ==> a.name in req.segments
    {
      var aud := req.audiences[i];
      assert aud.name == names[i];
      if aud.name in seen {
        RepeatedNotDistinct(names, i);
        return Some(DuplicateAudience);
      }
      seen := seen + {aud.name};
      if aud.name !in req.segments {
        assert aud in req.audiences;
        return Some(SegmentMissing);
      }
      assert names[..i + 1] == names[..i] + [aud.name];
      assert req.audiences[..i + 1] == req.audiences[..i] + [aud];
    }
    assert names[..|names|] == names && req.audiences[..|req.audiences|] == req.audiences;
    fault := None;
  }

  /** sealSegment after the data key is drawn; the key buffer is only read. */
  method SealUnder(c: Primitives, env: Environment, ctx: AADContext, aud: Audience, plaintext: Nilable<bytes>, dek: array<byte>)
      returns (res: Result<(Segment, SealedSegment)>)
    requires dek.Length == 32
    modifies env`trace
    ensures res == SegmentOutcome(c, env.o, ctx, aud, plaintext, dek[..])
    ensures env.trace == old(env.trace) + SegmentRun(c, env.o, ctx, aud, plaintext, dek[..])
  {
    hide AAD, PlainBytes;
    var aad := AAD(ctx, aud.name, SUPPORTED_SPEC_VERSION);
    var encrypted := env.EncryptUnder(c, aud.name, dek, Contents(plaintext), aad);
    if encrypted.Err? {
      return Err(encrypted.error);
    }
    var (combined, nonce) := encrypted.value;
    if |combined| < GCM_TAG_SIZE {
      return Err(DecryptionFailed);
    }
    var wrapped := env.Wrap(aud.name, aud.publicKey, dek);
    if wrapped.Err? {
      return Err(wrapped.error);
    }
    var seg := SegmentFor(c, aud, plaintext, combined);
    var wire := WireFor(c, combined, nonce, wrapped.value.0, wrapped.value.1);
    res := Ok((seg, wire));
  }

  /** One turn of Seal's loop. The data key's buffer is zero on every way out. */
  method SealAudience(c: Primitives, env: Environment, ctx: AADContext, aud: Audience, plaintext: Nilable<bytes>)
      returns (res: Result<SealedAudience>)
    modifies env
    ensures res == AudienceOutcome(c, env.o, ctx, aud, plaintext)
    ensures env.trace == old(env.trace) + AudienceRun(c, env.o, ctx, aud, plaintext)
    ensures old(env.deks) <= env.deks
    ensures forall d :: d in env.deks - old(env.deks) ==> fresh(d) && Zeroed(d)
  {
    hide SegmentOutcome, SegmentRun;
    var dek := env.NewDek(aud.name);
    if dek.None? {
      return Err(RandomFailed);
    }
    var sealed := SealUnder(c, env, ctx, aud, plaintext, dek.value);
    Zero(dek.value);
    if sealed.Err? {
      return Err(sealed.error);
    }
    var jkt := env.Thumbprint(aud.name, aud.publicKey);
    if jkt.Err? {
      return Err(jkt.error);
    }
    res := Ok(SealedAudience(sealed.value.0, sealed.value.1, jkt.value));
  }

  /** Seal's loop over the audiences: it stops at the first that fails. */
  method SealAudiences(c: Primitives, env: Environment, req: SealRequest, id: bytes) returns (res: Result<Collected>)
    requires ValidRequest(req)
    modifies env
    ensures res.Ok? ==> Succeed(c, env.o, req, id, |req.audiences|) && res.value == CollectedFrom(c, env.o, req, id, |req.audiences|)
    ensures res.Err? ==> FirstError(c, env.o, req, id, 0) == Some(res.error)
    ensures res.Err? ==> exists k :: FirstFailure(c, env.o, req, id, k, res.error)
    ensures env.trace == old(env.trace) + RunFrom(c, env.o, req, id, 0)
    ensures old(env.deks) <= env.deks
    ensures forall d :: d in env.deks - old(env.deks) ==> fresh(d) && Zeroed(d)
  {
    hide AudienceOutcome, AudienceRun, OutcomeAt, RunAt, RunFrom, FirstError, ContextFor, Names, Zeroed;
    var ctx := ContextFor(req, id);
    var done := Collected(map[], map[], map[]);
    FirstErrorIsFirst(c, env.o, req, id);
    NothingLeft(c, env.o, req, id);
    for i := 0 to |req.audiences|
      invariant Succeed(c, env.o, req, id, i) && done == CollectedFrom(c, env.o, req, id, i)
      invariant FirstError(c, env.o, req, id, 0) == FirstError(c, env.o, req, id, i)
      invariant env.trace + RunFrom(c, env.o, req, id, i) == old(env.trace) + RunFrom(c, env.o, req, id, 0)
      invariant old(env.deks) <= env.deks
      invariant forall d :: d in env.deks - old(env.deks) ==> fresh(d) && Zeroed(d)
    {
      var aud := req.audiences[i];
      ghost var drawn := env.deks;
      ghost var before := env.trace;
      RunUnfolds(c, env.o, req, id, i);
      label Before:
      var out := SealAudience(c, env, ctx, aud, req.segments[aud.name]);
      forall d | d in env.deks - old(env.deks) ensures fresh(d) && Zeroed(d) {
        if d in drawn {
          assert d in drawn - old(env.deks) && unchanged@Before(d);
        } else {
          assert d in env.deks - drawn;
        }
      }
      if out.Err? {
        return Err(out.error);
      }
      assert before + RunFrom(c, env.o, req, id, i) == env.trace + RunFrom(c, env.o, req, id, i + 1);
      done := done.With(aud, out.value);
    }
    res := Ok(done);
  }

  /** The bindings Seal computes over the plaintext hashes its loop collected. */
  method Commit(c: Primitives, req: SealRequest, plainHash: map<string, string>, constraintsHash: string) returns (res: Result<Bindings>)
    ensures res.Err? ==> res.error == if Corresponds(req.segmentOrder, plainHash) then BindingFailed else MalformedPackage
    ensures res.Ok? ==> Corresponds(req.segmentOrder, plainHash)
    ensures Corresponds(req.segmentOrder, plainHash) ==>
      var root := c.H(RootBytes(req.segmentOrder, plainHash));
      var ctx := BindingContext(plainHash, req.intentRef, constraintsHash, root);
      && (res.Ok? <==> AllCompute(req.bindingSpecs, ctx))
      && (res.Ok? ==>
            && res.value.segmentsRoot == root
            && res.value.intentCommitment == IntentCommitment(c, req.intentRef, constraintsHash, root)
            && Computed(req.bindingSpecs, ctx, Entries(res.value.extra))
            && (res.value.extra.Nil? <==> req.bindingSpecs == []))
  {
    hide Computed, AllCompute, RootBytes, IntentCommitment;
    var root := SegmentsRoot(c, req.segmentOrder, plainHash);
    if root.Err? {
      return Err(root.error);
    }
    var commitment := IntentCommitment(c, req.intentRef, constraintsHash, root.value);
    var extra := ComputeBindings(req.bindingSpecs, BindingContext(plainHash, req.intentRef, constraintsHash, root.value));
    if extra.Err? {
      return Err(extra.error);
    }
    res := Ok(Bindings(root.value, commitment, extra.value));
  }

  /** Seal between its loop and the signature: the commitments, and the package around them. */
  method Assemble(c: Primitives, ghost o: Outcomes, req: SealRequest, hash: string, id: bytes, done: Collected) returns (res: Result<Package>)
    requires Admitted(o, req) && o.constraintsHash(req.intentRef) == Ok(hash) && o.packageID == Some(id)
    requires Succeed(c, o, req, id, |req.audiences|) && done == CollectedFrom(c, o, req, id, |req.audiences|)
    ensures res.Ok? <==> Preparable(c, o, req)
    ensures res.Ok? ==> res.value == Unsigned(c, o, req) && IsPrepared(c, o, req, res.value)
    ensures res.Err? ==> res.error == if OrderMatches(req) then BindingFailed else MalformedPackage
  {
    hide Holds, Computed, ComputedValues, AllCompute, RootBytes, IntentCommitment, PlainHashesIn, OrderMatches, Succeed, CollectedFrom, IsPrepared;
    CollectedHolds(c, o, req, id, |req.audiences|);
    HeldPlainHashes(c, o, req, id, done.manifest, done.sealed, done.cnf);
    OrderIsHashed(c, req);
    var bindings := Commit(c, req, PlainHashesOf(done.manifest), hash);
    if bindings.Err? {
      return Err(bindings.error);
    }
    ghost var ctx := BindingContext(PlainHashesOf(done.manifest), req.intentRef, hash, bindings.value.segmentsRoot);
    assert ctx == SealContext(c, o, req);
    ExtraIsComputed(c, req.bindingSpecs, ctx);
    ComputedUnique(req.bindingSpecs, ctx, Entries(bindings.value.extra), Entries(BindingsOf(c, req.bindingSpecs, ctx).extra));
    assert bindings.value == BindingsOf(c, req.bindingSpecs, ctx);
    UnsignedIsPrepared(c, o, req);
    res := Ok(Around(c, req, hash, id, done, bindings.value));
  }

  /** signPackage: the kid first, since it is inside the signed bytes; then one signature over them. */
  method SignPackage(c: Primitives, env: Environment, unsigned: Package) returns (res: Result<Package>)
    modifies env`trace
    ensures res == SignedPackage(c, env.o, unsigned)
    ensures res.Ok? ==> IsSigned(c, env.o, res.value) && res.value == WithKid(unsigned, env.o.kid.value).(signature := res.value.signature)
    ensures env.trace == old(env.trace) + SigningEffects(env.o, unsigned)
    ensures res.Ok? ==> env.trace == old(env.trace) + [KidAsked, Signed(SignedBytes(res.value).value)]
  {
    hide SignedBytes, REQUIRED_SIGNED_FIELDS;
    SignedPackageIsSigned(c, env.o, unsigned);
    var kid := env.Kid();
    if kid.Err? {
      return Err(kid.error);
    }
    var p := unsigned.(issuer := unsigned.issuer.(kid := kid.value));
    var view := BuildSigningView(p);
    if view.Err? {
      return Err(view.error);
    }
    var sig := env.Sign(view.value);
    if sig.Err? {
      return Err(sig.error);
    }
    p := p.(signature := Signature("EdDSA", kid.value, Val(REQUIRED_SIGNED_FIELDS), c.base64Url(sig.value)));
    res := Ok(p);
  }

  method Seal(c: Primitives, env: Environment, req: SealRequest) returns (res: Result<Package>)
    modifies env
    // The one package the request and the outcomes determine; when there is none, the error of the first check to fail.
    ensures res.Ok? ==> IsSealed(c, env.o, req, res.value)
    ensures res.Err? ==> forall p :: !IsSealed(c, env.o, req, p)
    ensures res == Sealing(c, env.o, req)
    // Every effect, in order, up to the call that failed; on success, one fixed run with one signature over the package's own bytes.
    ensures env.trace == old(env.trace) + Effects(c, env.o, req)
    ensures res.Ok? ==> Completes(req, res.value, Effects(c, env.o, req))
    // Every data key's buffer is zero on return.
    ensures old(env.deks) <= env.deks
    ensures forall d :: d in env.deks - old(env.deks) ==> fresh(d) && Zeroed(d)
  {
    hide SealingAdmitted, EffectsAdmitted, IsSealed, Completes, Names, AudienceFault, Distinct;
    ghost var o := env.o;
    forall p ensures Sealing(c, o, req) == Ok(p) <==> IsSealed(c, o, req, p) { SealingIsExact(c, o, req, p); }
    SuccessCompletes(c, o, req);
    FaultFreeIffValid(req);
    if |req.audiences| == 0 {
      return Err(NoAudiences);
    }
    var fault := CheckAudiences(req);
    if fault.Some? {
      return Err(fault.value);
    }
    var decision := env.Check(req.intentRef);
    if decision.Err? {
      return Err(AuthorityUnreachable);
    }
    if !decision.value.allowed {
      return Err(IntentDenied);
    }
    var constraintsHash := env.ConstraintsHash(req.intentRef);
    if constraintsHash.Err? {
      return Err(AuthorityUnreachable);
    }
    var id := env.DrawPackageID();
    if id.None? {
      return Err(RandomFailed);
    }
    res := SealAuthorized(c, env, req, constraintsHash.value, id.value);
  }

  /** Once a request is valid, authorized and identified. */
  method SealAuthorized(c: Primitives, env: Environment, req: SealRequest, hash: string, id: bytes) returns (res: Result<Package>)
    requires Admitted(env.o, req) && env.o.constraintsHash(req.intentRef) == Ok(hash) && env.o.packageID == Some(id)
    modifies env
    ensures res == SealingAdmitted(c, env.o, req)
    ensures env.trace == old(env.trace) + EffectsAdmitted(c, env.o, req)
    ensures old(env.deks) <= env.deks
    ensures forall d :: d in env.deks - old(env.deks) ==> fresh(d) && Zeroed(d)
  {
    hide Unsigned, SignedBytes, IsPrepared, IsSigned, OutcomeAt, OrderMatches, AllCompute, SealContext, CollectedFrom, RunFrom,
         SignedPackage, SigningEffects, FirstError, Succeed;
    FirstErrorIsFirst(c, env.o, req, id);
    var done := SealAudiences(c, env, req, id);
    if done.Err? {
      return Err(done.error);
    }
    var unsigned := Assemble(c, env.o, req, hash, id, done.value);
    if unsigned.Err? {
      return Err(unsigned.error);
    }
    res := SignPackage(c, env, unsigned.value);
  }
}
