/**
 Two-level verification of a package, without keys: Level 1 from the package and the
 issuer's public key, Level 2 from the intent authority.
 */
module Verify {
  import opened Prelude
  import opened Primitives
  import opened Package
  import opened Commitments
  import opened SigningView

  /** Why Level 2 did not pass, or that there is nothing to say. */
  datatype Reason = NoReason | NotConfigured | Unreachable | ConstraintsHashDiffers | CommitmentDiffers

  datatype IntentResult = IntentResult(evaluated: bool, valid: bool, reason: Reason)

  /** The single reason Level 1 rejected a package before its signature was checked. */
  datatype StructuralFault =
    | FaultNone
    | FaultEmptySignedFields
    | FaultEmptySegmentOrder
    | FaultSegmentCountMismatch
    | FaultDuplicateAudience
    | FaultManifestSegmentMissing
    | FaultSealedSegmentMissing
    | FaultSignedFieldsInvalid
    | FaultSigningViewUnbuildable
    | FaultSignatureUndecodable

  type IssuerKeys = (string, string) -> Option<bytes>
  type Authority = string -> Result<string>

  /** The resolver and the authority may be nil. Both are functions for the one call Verify makes. */
  datatype VerifyOptions = VerifyOptions(issuerKey: Option<IssuerKeys>, intent: Option<Authority>, bindingSpecs: seq<BindingSpec>)

  /** The fields of a report at one moment. */
  datatype Findings = Findings(
    specVersionSupported: bool,
    structural: StructuralFault,
    signature: bool,
    aadContextConsistent: bool,
    cipherHashes: Nilable<map<string, bool>>,
    segmentsRoot: bool,
    profileBindings: Nilable<map<string, bool>>,
    intent: IntentResult)
  {
    /** Every check that needs no authority passed, and at least one ciphertext was checked. */
    ghost predicate Level1() {
      && structural == FaultNone
      && specVersionSupported && signature && aadContextConsistent && segmentsRoot
      && Entries(cipherHashes) != map[]
      && (forall a :: a in Entries(cipherHashes) ==> Entries(cipherHashes)[a])
      && (forall n :: n in Entries(profileBindings) ==> Entries(profileBindings)[n])
    }

    ghost predicate OK() { Level1() && intent.evaluated && intent.valid }
  }

  const NO_INTENT := IntentResult(false, false, NoReason)

  /** Findings of a run that stopped before the signature was accepted: nothing after that is evaluated. */
  function Stopped(supported: bool, fault: StructuralFault): (f: Findings)
    ensures !f.Level1() && !f.OK()
  {
    Findings(supported, fault, false, false, Nil, false, Nil, NO_INTENT)
  }

  // ----- what the answer is -----

  function Order(p: Package): seq<string> { Elements(p.manifest.segmentOrder) }

  function ManifestSegments(p: Package): map<string, Segment> { Entries(p.manifest.segments) }

  /** The first fault met while walking segment_order from position i. */
  function OrderFault(p: Package, i: nat): StructuralFault
    requires i <= |Order(p)|
    decreases |Order(p)| - i
  {
    if i == |Order(p)| then FaultNone
    else
      var a := Order(p)[i];
      if a in Order(p)[..i] then FaultDuplicateAudience
      else if a !in ManifestSegments(p) then FaultManifestSegmentMissing
      else if a !in p.segments then FaultSealedSegmentMissing
      else OrderFault(p, i + 1)
  }

  /** The fault L1.1 reports: the first of its checks that fails. */
  ghost function FaultOf(c: Primitives, p: Package): StructuralFault {
    if |p.signature.signedFields| == 0 then FaultEmptySignedFields
    else if |Order(p)| == 0 then FaultEmptySegmentOrder
    else if |ManifestSegments(p)| != |Order(p)| then FaultSegmentCountMismatch
    else if OrderFault(p, 0) != FaultNone then OrderFault(p, 0)
    else if !NamesExactlyRequired(p.signature.signedFields) then FaultSignedFieldsInvalid
    else if !NoCollision(p.bindings) then FaultSigningViewUnbuildable
    else if c.fromBase64Url(p.signature.value).None? then FaultSignatureUndecodable
    else FaultNone
  }

  /** A package with one manifest entry and a sealed segment per declared audience, and a readable signature. */
  ghost predicate WellFormed(c: Primitives, p: Package) {
    && Order(p) != []
    && Corresponds(Order(p), ManifestSegments(p))
    && (forall a :: a in Order(p) ==> a in p.segments)
    && NamesExactlyRequired(p.signature.signedFields)
    && NoCollision(p.bindings)
    && c.fromBase64Url(p.signature.value).Some?
  }

  /** verifyEd25519: the length checks come first. */
  predicate VerifyEd25519(c: Primitives, pub: bytes, message: bytes, sig: bytes) {
    |pub| == 32 && |sig| == 64 && c.ed25519Verify(pub, message, sig)
  }

  /** A trusted key of the right size accepts the signature over the signed bytes. */
  ghost predicate SignatureValid(c: Primitives, p: Package, keys: Option<IssuerKeys>) {
    keys.Some? &&
    var key := keys.value(p.issuer.iss, p.issuer.kid);
    var sig := c.fromBase64Url(p.signature.value);
    key.Some? && sig.Some? && SignedBytes(p).Ok? && VerifyEd25519(c, key.value, SignedBytes(p).value, sig.value)
  }

  /** The decoded ciphertext followed by the decoded tag. */
  function Combined(c: Primitives, s: SealedSegment): Option<bytes> {
    var ct, tag := c.fromBase64Url(s.ciphertext), c.fromBase64Url(s.tag);
    if ct.Some? && tag.Some? then Some(ct.value + tag.value) else None
  }

  predicate CipherHashMatches(c: Primitives, seg: Segment, sealed: SealedSegment) {
    Combined(c, sealed).Some? && c.H(Combined(c, sealed).value) == seg.cipherHash
  }

  /** The signed plaintext hash of each audience in segment_order. */
  function PlainHashes(p: Package): map<string, string>
    requires forall a :: a in Order(p) ==> a in ManifestSegments(p)
  {
    map a | a in Order(p) :: ManifestSegments(p)[a].plainHash
  }

  function RecomputedRoot(c: Primitives, p: Package): string
    requires forall a :: a in Order(p) ==> a in ManifestSegments(p)
  {
    c.H(RootBytes(Order(p), PlainHashes(p)))
  }

  function ContextOf(c: Primitives, p: Package): BindingContext
    requires forall a :: a in Order(p) ==> a in ManifestSegments(p)
  {
    BindingContext(PlainHashes(p), p.intent.intentRef, p.intent.constraintsHash, RecomputedRoot(c, p))
  }

  /** The last spec of this name computes the signed value; a missing value counts as "". */
  function BindingMatches(specs: seq<BindingSpec>, ctx: BindingContext, extra: map<string, string>, name: string): bool {
    var i := LastNamed(specs, name);
    i >= 0 && specs[i].compute(ctx) == Ok(Get(extra, name))
  }

  /** Whether each named binding matches the signed value. */
  function BindingFindings(specs: seq<BindingSpec>, ctx: BindingContext, extra: map<string, string>): map<string, bool> {
    map n | n in SpecNames(specs) :: BindingMatches(specs, ctx, extra, n)
  }

  function IntentFinding(c: Primitives, p: Package, authority: Option<Authority>): IntentResult {
    if authority.None? then IntentResult(false, false, NotConfigured)
    else
      var hash := authority.value(p.intent.intentRef);
      if hash.Err? then IntentResult(false, false, Unreachable)
      else if hash.value != p.intent.constraintsHash then
        IntentResult(true, false, ConstraintsHashDiffers)
      else if IntentCommitment(c, p.intent.intentRef, hash.value, p.bindings.segmentsRoot) != p.bindings.intentCommitment then
        IntentResult(true, false, CommitmentDiffers)
      else IntentResult(true, true, NoReason)
  }

  /** Level 1's findings once the signature has been accepted. */
  ghost function AttestedFindings(c: Primitives, p: Package, specs: seq<BindingSpec>): Findings
    requires WellFormed(c, p)
  {
    Findings(true, FaultNone, true,
             p.manifest.aadContext.packageID == p.packageID,
             Val(map a | a in Order(p) :: CipherHashMatches(c, ManifestSegments(p)[a], p.segments[a])),
             RecomputedRoot(c, p) == p.bindings.segmentsRoot,
             if specs == [] then Nil
             else Val(BindingFindings(specs, ContextOf(c, p), Entries(p.bindings.extra))),
             NO_INTENT)
  }

  /** The whole of Verify's answer about p. */
  ghost function Answer(c: Primitives, p: Package, opt: VerifyOptions): Findings {
    if p.specVersion != SUPPORTED_SPEC_VERSION then Stopped(false, FaultNone)
    else if FaultOf(c, p) != FaultNone then Stopped(true, FaultOf(c, p))
    else if !SignatureValid(c, p, opt.issuerKey) then Stopped(true, FaultNone)
    else
      FaultNoneIffWellFormed(c, p);
      var f := AttestedFindings(c, p, opt.bindingSpecs);
      if f.Level1() then f.(intent := IntentFinding(c, p, opt.intent)) else f
  }

  // ----- L1.1 is exact -----

  lemma {:induction false} OrderFaultNoneIff(p: Package, i: nat)
    requires i <= |Order(p)|
    ensures OrderFault(p, i) == FaultNone <==>
      forall k :: i <= k < |Order(p)| ==>
        Order(p)[k] !in Order(p)[..k] && Order(p)[k] in ManifestSegments(p) && Order(p)[k] in p.segments
    decreases |Order(p)| - i
  {
    if i < |Order(p)| {
      OrderFaultNoneIff(p, i + 1);
    }
  }

  lemma DistinctIffNoneSeenBefore<T>(s: seq<T>)
    ensures Distinct(s) <==> forall k :: 0 <= k < |s| ==> s[k] !in s[..k]
  {
    if forall k :: 0 <= k < |s| ==> s[k] !in s[..k] {
      forall i, j | 0 <= i < j < |s| ensures s[i] != s[j] {
        assert s[..j][i] == s[i];
      }
    }
    if Distinct(s) {
      forall k | 0 <= k < |s| ensures s[k] !in s[..k] {}
    }
  }

  /** An order without repeats names all entries of a map exactly when it names only entries and as many. */
  lemma CorrespondsByCount<V>(order: seq<string>, m: map<string, V>)
    requires Distinct(order)
    ensures Corresponds(order, m) <==> |m| == |order| && forall a :: a in order ==> a in m
  {
    if |m| == |order| && forall a :: a in order ==> a in m {
      assert |m.Keys| == |m|;
      Pigeonhole(order, m.Keys);
    }
    if Corresponds(order, m) {
      DistinctCardinality(order);
      assert (set a | a in order) == m.Keys;
    }
  }

  /** L1.1 reports no fault exactly for the well-formed packages. */
  lemma FaultNoneIffWellFormed(c: Primitives, p: Package)
    ensures FaultOf(c, p) == FaultNone <==> WellFormed(c, p)
  {
    hide NamesExactlyRequired, NoCollision, OrderFault;
    NineNames(p.signature.signedFields);
    OrderFaultNoneIff(p, 0);
    DistinctIffNoneSeenBefore(Order(p));
    if Distinct(Order(p)) {
      CorrespondsByCount(Order(p), ManifestSegments(p));
    }
  }

  /** Once L1.1 passes, recomputing the root cannot fail: its error branch is unreachable. */
  lemma RootAlwaysRecomputable(c: Primitives, p: Package)
    requires FaultOf(c, p) == FaultNone
    ensures (forall a :: a in Order(p) ==> a in ManifestSegments(p)) && Corresponds(Order(p), PlainHashes(p))
  {
    FaultNoneIffWellFormed(c, p);
  }

  // ----- the report -----

  class Report {
    var specVersionSupported: bool
    var structural: StructuralFault
    var signature: bool
    var aadContextConsistent: bool
    var cipherHashes: Nilable<map<string, bool>>
    var segmentsRoot: bool
    var profileBindings: Nilable<map<string, bool>>
    var intent: IntentResult

    constructor ()
      ensures Fields() == Stopped(false, FaultNone)
    {
      specVersionSupported := false;
      structural := FaultNone;
      signature := false;
      aadContextConsistent := false;
      cipherHashes := Nil;
      segmentsRoot := false;
      profileBindings := Nil;
      intent := NO_INTENT;
    }

    function Fields(): Findings
      reads this
    {
      Findings(specVersionSupported, structural, signature, aadContextConsistent, cipherHashes, segmentsRoot, profileBindings, intent)
    }

    method Level1Passed() returns (ok: bool)
      ensures ok == Fields().Level1()
    {
      if structural != FaultNone {
        return false;
      }
      if !specVersionSupported || !signature || !aadContextConsistent || !segmentsRoot {
        return false;
      }
      if |Entries(cipherHashes)| == 0 {
        return false;
      }
      ok := AllTrue(Entries(cipherHashes));
      if !ok {
        return false;
      }
      ok := AllTrue(Entries(profileBindings));
    }

    /** A nil report is never at Level 1. */
    static method Level1(r: Report?) returns (ok: bool)
      ensures ok <==> r != null && r.Fields().Level1()
    {
      if r == null {
        return false;
      }
      ok := r.Level1Passed();
    }

    /** A nil report is never OK. */
    static method OK(r: Report?) returns (ok: bool)
      ensures ok <==> r != null && r.Fields().OK()
    {
      if r == null {
        return false;
      }
      ok := r.Level1Passed();
      ok := ok && r.intent.evaluated && r.intent.valid;
    }

    /** Level 2. The hash comes from the authority; the package's own is only compared with it. */
    method VerifyIntent(c: Primitives, p: Package, iv: Option<Authority>)
      requires intent == NO_INTENT
      modifies this`intent
      ensures intent == IntentFinding(c, p, iv)
    {
      if iv.None? {
        intent := IntentResult(false, false, NotConfigured);
        return;
      }
      var authoritativeHash := iv.value(p.intent.intentRef);
      if authoritativeHash.Err? {
        intent := IntentResult(false, false, Unreachable);
        return;
      }
      intent := intent.(evaluated := true);
      if authoritativeHash.value != p.intent.constraintsHash {
        intent := intent.(reason := ConstraintsHashDiffers);
        return;
      }
      var commitment := IntentCommitment(c, p.intent.intentRef, authoritativeHash.value, p.bindings.segmentsRoot);
      if commitment != p.bindings.intentCommitment {
        intent := intent.(reason := CommitmentDiffers);
        return;
      }
      intent := intent.(valid := true);
    }
  }

  /** No entry of m is false, whatever order the map is iterated in. */
  method AllTrue(m: map<string, bool>) returns (ok: bool)
    ensures ok <==> forall k :: k in m ==> m[k]
  {
    var todo := m.Keys;
    while todo != {}
      invariant todo <= m.Keys
      invariant forall k :: k in m && k !in todo ==> m[k]
      decreases |todo|
    {
      var k :| k in todo;
      if !m[k] {
        return false;
      }
      todo := todo - {k};
    }
    ok := true;
  }

  // ----- the procedure -----

  method ParsePackage(c: Primitives, p: Package) returns (view: bytes, sig: bytes, fault: StructuralFault)
    ensures fault == FaultOf(c, p)
    ensures fault == FaultNone ==> SignedBytes(p) == Ok(view) && c.fromBase64Url(p.signature.value) == Some(sig)
  {
    hide SignedBytes, NamesExactlyRequired, NoCollision, OrderFault;
    view, sig := [], [];
    if |p.signature.signedFields| == 0 {
      return view, sig, FaultEmptySignedFields;
    }
    var order := Elements(p.manifest.segmentOrder);
    if |order| == 0 {
      return view, sig, FaultEmptySegmentOrder;
    }
    if |Entries(p.manifest.segments)| != |order| {
      return view, sig, FaultSegmentCountMismatch;
    }
    fault := CheckOrder(p);
    if fault != FaultNone {
      return view, sig, fault;
    }
    var named := CheckSignedFields(p.signature.signedFields);
    if !named {
      return view, sig, FaultSignedFieldsInvalid;
    }
    SignedBytesDefined(p);
    var v := ReconstructSigningView(p);
    if v.Err? {
      return view, sig, FaultSigningViewUnbuildable;
    }
    var s := c.fromBase64Url(p.signature.value);
    if s.None? {
      return view, sig, FaultSignatureUndecodable;
    }
    return v.value, s.value, FaultNone;
  }

  /** The loop of parsePackage over segment_order. */
  method CheckOrder(p: Package) returns (fault: StructuralFault)
    ensures fault == OrderFault(p, 0)
  {
    var order := Order(p);
    var seen: set<string> := {};
    for i := 0 to |order|
      invariant forall a :: a in seen <==> a in order[..i]
      invariant OrderFault(p, 0) == OrderFault(p, i)
    {
      var a := order[i];
      if a in seen {
        return FaultDuplicateAudience;
      }
      seen := seen + {a};
      if a !in Entries(p.manifest.segments) {
        return FaultManifestSegmentMissing;
      }
      if a !in p.segments {
        return FaultSealedSegmentMissing;
      }
      assert order[..i + 1] == order[..i] + [a];
    }
    fault := FaultNone;
  }

  method Verify(c: Primitives, p: Option<Package>, opt: VerifyOptions) returns (res: Result<Report>)
    ensures res.Err? <==> p.None?
    ensures res.Err? ==> res.error == NilPackage
    ensures res.Ok? ==> fresh(res.value) && res.value.Fields() == Answer(c, p.value, opt)
  {
    if p.None? {
      return Err(NilPackage);
    }
    var report := VerifyPackage(c, p.value, opt);
    res := Ok(report);
  }

  method VerifyPackage(c: Primitives, p: Package, opt: VerifyOptions) returns (report: Report)
    ensures fresh(report) && report.Fields() == Answer(c, p, opt)
  {
    hide FaultOf, SignedBytes, IntentFinding, AttestedFindings, WellFormed, SUPPORTED_SPEC_VERSION;
    report := new Report();
    // L1.1
    if p.specVersion != SUPPORTED_SPEC_VERSION {
      return;
    }
    report.specVersionSupported := true;
    var view, sig, fault := ParsePackage(c, p);
    if fault != FaultNone {
      report.structural := fault;
      return;
    }
    // L1.2
    if opt.issuerKey.None? {
      return;
    }
    var pub := opt.issuerKey.value(p.issuer.iss, p.issuer.kid);
    if pub.None? {
      return;
    }
    if !VerifyEd25519(c, pub.value, view, sig) {
      return;
    }
    report.signature := true;
    FaultNoneIffWellFormed(c, p);
    Accumulate(c, p, opt.bindingSpecs, report);
    var passed := report.Level1Passed();
    if !passed {
      return;
    }
    AttestedIntentUnset(c, p, opt.bindingSpecs);
    report.VerifyIntent(c, p, opt.intent);
  }

  lemma OrderOfWellFormed(c: Primitives, p: Package)
    requires WellFormed(c, p)
    ensures forall a :: a in Order(p) ==> a in ManifestSegments(p) && a in p.segments
    ensures Corresponds(Order(p), PlainHashes(p))
  {
    hide NamesExactlyRequired, NoCollision;
  }

  /** L1.3 to L1.6: every divergence is recorded, none stops the rest. */
  method Accumulate(c: Primitives, p: Package, specs: seq<BindingSpec>, report: Report)
    requires WellFormed(c, p)
    requires report.Fields() == Stopped(true, FaultNone).(signature := true)
    modifies report
    ensures report.Fields() == AttestedFindings(c, p, specs)
  {
    hide CipherHashMatches, NamesExactlyRequired, NoCollision, BindingFindings, RootBytes, Corresponds, PlainHashes;
    OrderOfWellFormed(c, p);
    // L1.3
    report.aadContextConsistent := p.manifest.aadContext.packageID == p.packageID;
    // L1.4
    var plainHash, hashes := HashAudiences(c, p);
    report.cipherHashes := Val(hashes);
    // L1.5
    var root := SegmentsRoot(c, Order(p), plainHash);
    assert root == Ok(RecomputedRoot(c, p));
    report.segmentsRoot := root.Ok? && root.value == p.bindings.segmentsRoot;
    // L1.6
    if |specs| > 0 {
      var ctx := BindingContext(plainHash, p.intent.intentRef, p.intent.constraintsHash, root.value);
      assert ctx == ContextOf(c, p);
      var matches := MatchBindings(specs, ctx, Entries(p.bindings.extra));
      report.profileBindings := Val(matches);
    }
  }

  /** The L1.4 loop. */
  method HashAudiences(c: Primitives, p: Package) returns (plainHash: map<string, string>, hashes: map<string, bool>)
    requires forall a :: a in Order(p) ==> a in ManifestSegments(p) && a in p.segments
    ensures plainHash == PlainHashes(p)
    ensures hashes == map a | a in Order(p) :: CipherHashMatches(c, ManifestSegments(p)[a], p.segments[a])
  {
    hide CipherHashMatches;
    var order := Order(p);
    plainHash, hashes := map[], map[];
    for i := 0 to |order|
      invariant forall a :: a in plainHash <==> a in order[..i]
      invariant forall a :: a in hashes <==> a in order[..i]
      invariant forall a :: a in plainHash ==> a in Order(p) && plainHash[a] == ManifestSegments(p)[a].plainHash
      invariant forall a :: a in hashes ==> a in Order(p) && hashes[a] == CipherHashMatches(c, ManifestSegments(p)[a], p.segments[a])
    {
      var a := order[i];
      assert a in Order(p);
      var seg := Entries(p.manifest.segments)[a];
      assert order[..i + 1] == order[..i] + [a];
      plainHash := plainHash[a := seg.plainHash];
      hashes := hashes[a := CipherHashMatches(c, seg, p.segments[a])];
    }
    assert order[..|order|] == order;
  }

  method MatchBindings(specs: seq<BindingSpec>, ctx: BindingContext, extra: map<string, string>) returns (m: map<string, bool>)
    ensures m == BindingFindings(specs, ctx, extra)
  {
    hide BindingFindings;
    m := map[];
    NoFindings(ctx, extra);
    for i := 0 to |specs|
      invariant m == BindingFindings(specs[..i], ctx, extra)
    {
      var spec := specs[i];
      var v := spec.compute(ctx);
      FindingsSnoc(specs[..i], spec, ctx, extra);
      assert specs[..i + 1] == specs[..i] + [spec];
      m := m[spec.name := v.Ok? && v.value == Get(extra, spec.name)];
    }
    assert specs[..|specs|] == specs;
  }

  lemma NoFindings(ctx: BindingContext, extra: map<string, string>)
    ensures BindingFindings([], ctx, extra) == map[]
  {}

  lemma FindingsSnoc(specs: seq<BindingSpec>, s: BindingSpec, ctx: BindingContext, extra: map<string, string>)
    ensures BindingFindings(specs + [s], ctx, extra)
         == BindingFindings(specs, ctx, extra)[s.name := s.compute(ctx) == Ok(Get(extra, s.name))]
  {
    hide Get, SpecNames, LastNamed;
    NamesSnoc(specs, s);
    LastNamedSnoc(specs, s);
  }

  lemma LastNamedSnoc(specs: seq<BindingSpec>, s: BindingSpec)
    ensures forall n :: LastNamed(specs + [s], n) == if n == s.name then |specs| else LastNamed(specs, n)
  {
    assert (specs + [s])[..|specs|] == specs;
  }

  lemma NamesSnoc(specs: seq<BindingSpec>, s: BindingSpec)
    ensures SpecNames(specs + [s]) == SpecNames(specs) + {s.name}
  {
    var all := specs + [s];
    forall n ensures n in SpecNames(all) <==> n in SpecNames(specs) + {s.name} {
      if n in SpecNames(specs) {
        var i :| 0 <= i < |specs| && specs[i].name == n;
        assert all[i].name == n;
      }
      if n == s.name {
        assert all[|specs|].name == n;
      }
    }
  }

  // ----- the answer is exact -----

  /** What a package must satisfy for Verify to answer OK. */
  ghost predicate Accepted(c: Primitives, p: Package, opt: VerifyOptions) {
    && opt.intent.Some?
    && opt.intent.value(p.intent.intentRef) == Ok(p.intent.constraintsHash)
    && p.bindings.intentCommitment == IntentCommitment(c, p.intent.intentRef, p.intent.constraintsHash, p.bindings.segmentsRoot)
    && AcceptedLevel1(c, p, opt)
  }

  ghost predicate AcceptedLevel1(c: Primitives, p: Package, opt: VerifyOptions) {
    && p.specVersion == SUPPORTED_SPEC_VERSION
    && WellFormed(c, p)
    && SignatureValid(c, p, opt.issuerKey)
    && p.manifest.aadContext.packageID == p.packageID
    && (forall a :: a in Order(p) ==> CipherHashMatches(c, ManifestSegments(p)[a], p.segments[a]))
    && p.bindings.segmentsRoot == RecomputedRoot(c, p)
    && (forall i :: 0 <= i < |opt.bindingSpecs| ==>
          BindingMatches(opt.bindingSpecs, ContextOf(c, p), Entries(p.bindings.extra), opt.bindingSpecs[i].name))
  }

  lemma AttestedLevel1Iff(c: Primitives, p: Package, opt: VerifyOptions)
    requires p.specVersion == SUPPORTED_SPEC_VERSION && WellFormed(c, p) && SignatureValid(c, p, opt.issuerKey)
    ensures AttestedFindings(c, p, opt.bindingSpecs).Level1() <==> AcceptedLevel1(c, p, opt)
  {
    hide CipherHashMatches, BindingMatches, BindingFindings, SignatureValid, RecomputedRoot, ContextOf,
         NamesExactlyRequired, NoCollision;
    var f := AttestedFindings(c, p, opt.bindingSpecs);
    assert Order(p)[0] in Entries(f.cipherHashes);
    assert forall a :: a in Entries(f.cipherHashes) <==> a in Order(p);
    assert forall a :: a in Order(p) ==> Entries(f.cipherHashes)[a] == CipherHashMatches(c, ManifestSegments(p)[a], p.segments[a]);
    assert (forall a :: a in Entries(f.cipherHashes) ==> Entries(f.cipherHashes)[a])
      <==> (forall a :: a in Order(p) ==> CipherHashMatches(c, ManifestSegments(p)[a], p.segments[a]));
    assert opt.bindingSpecs != [] ==> Entries(f.profileBindings) == BindingFindings(opt.bindingSpecs, ContextOf(c, p), Entries(p.bindings.extra));
    AllFindingsTrueIff(opt.bindingSpecs, ContextOf(c, p), Entries(p.bindings.extra));
  }

  lemma AllFindingsTrueIff(specs: seq<BindingSpec>, ctx: BindingContext, extra: map<string, string>)
    ensures (forall n :: n in BindingFindings(specs, ctx, extra) ==> BindingFindings(specs, ctx, extra)[n])
       <==> (forall i :: 0 <= i < |specs| ==> BindingMatches(specs, ctx, extra, specs[i].name))
  {
    hide BindingMatches;
    var m := BindingFindings(specs, ctx, extra);
    if forall n :: n in m ==> m[n] {
      forall i | 0 <= i < |specs| ensures BindingMatches(specs, ctx, extra, specs[i].name) {
        assert specs[i].name in SpecNames(specs);
        assert specs[i].name in m;
      }
    }
  }

  /** Level 1 of the answer, and OK, each hold exactly under one declarative condition. */
  lemma AnswerIsExact(c: Primitives, p: Package, opt: VerifyOptions)
    ensures Answer(c, p, opt).Level1() <==> AcceptedLevel1(c, p, opt)
    ensures Answer(c, p, opt).OK() <==> Accepted(c, p, opt)
  {
    hide AttestedFindings, AcceptedLevel1, FaultOf, WellFormed, SignatureValid;
    FaultNoneIffWellFormed(c, p);
    if p.specVersion == SUPPORTED_SPEC_VERSION && WellFormed(c, p) && SignatureValid(c, p, opt.issuerKey) {
      AttestedLevel1Iff(c, p, opt);
      AttestedIntentUnset(c, p, opt.bindingSpecs);
      AcceptedNeeds(c, p, opt);
    } else {
      AcceptedNeeds(c, p, opt);
    }
  }

  lemma AttestedIntentUnset(c: Primitives, p: Package, specs: seq<BindingSpec>)
    requires WellFormed(c, p)
    ensures AttestedFindings(c, p, specs).intent == NO_INTENT
    ensures AttestedFindings(c, p, specs).structural == FaultNone
  {}

  lemma AcceptedNeeds(c: Primitives, p: Package, opt: VerifyOptions)
    ensures AcceptedLevel1(c, p, opt) ==> p.specVersion == SUPPORTED_SPEC_VERSION && WellFormed(c, p) && SignatureValid(c, p, opt.issuerKey)
  {}

  /** An early abort leaves everything after it unevaluated, and each level presupposes the one before. */
  lemma LevelsAreOrdered(c: Primitives, p: Package, opt: VerifyOptions)
    ensures var f := Answer(c, p, opt);
      && (f.structural != FaultNone ==> f == Stopped(true, f.structural))
      && (!f.signature ==> f == Stopped(f.specVersionSupported, f.structural))
      && (f.cipherHashes.Val? <==> f.signature)
      && (f.intent.evaluated ==> f.Level1())
      && (f.intent.valid ==> f.intent.evaluated)
      && (opt.intent.None? ==> !f.OK())
  {
    hide FaultOf, SignatureValid, WellFormed;
    FaultNoneIffWellFormed(c, p);
  }

  // ----- the answer in the primitives' own terms -----

  /** The resolver trusts a 32-byte key that accepts the decoded 64 bytes of the signature over the signed bytes. */
  ghost predicate TrustedKeyAccepts(c: Primitives, p: Package, keys: Option<IssuerKeys>) {
    && keys.Some? && keys.value(p.issuer.iss, p.issuer.kid).Some?
    && SignedBytes(p).Ok? && c.fromBase64Url(p.signature.value).Some?
    && var k, s := keys.value(p.issuer.iss, p.issuer.kid).value, c.fromBase64Url(p.signature.value).value;
    |k| == 32 && |s| == 64 && c.ed25519Verify(k, SignedBytes(p).value, s)
  }

  /** The signature check passes exactly then. */
  lemma SignatureFlagIs(c: Primitives, p: Package, opt: VerifyOptions)
    requires p.specVersion == "1.0.0" && WellFormed(c, p)
    ensures Answer(c, p, opt).signature <==> TrustedKeyAccepts(c, p, opt.issuerKey)
  {
    hide SignedBytes, FaultOf, WellFormed, AttestedFindings, IntentFinding;
    FaultNoneIffWellFormed(c, p);
    AttestedIsSigned(c, p, opt.bindingSpecs);
  }

  lemma AttestedIsSigned(c: Primitives, p: Package, specs: seq<BindingSpec>)
    requires WellFormed(c, p)
    ensures AttestedFindings(c, p, specs).signature
  {}

  /** Nothing passes without that: not the signature check, not Level 1, not OK. */
  lemma NothingPassesUnsigned(c: Primitives, p: Package, opt: VerifyOptions)
    requires Answer(c, p, opt).signature || Answer(c, p, opt).Level1() || Answer(c, p, opt).OK()
    ensures p.specVersion == "1.0.0" && WellFormed(c, p) && TrustedKeyAccepts(c, p, opt.issuerKey)
  {
    SignedIsAttested(c, p, opt);
    SignatureFlagIs(c, p, opt);
    hide Answer, TrustedKeyAccepts, WellFormed;
  }

  /** A signed answer is what L1.3 to L1.6 found, but for the intent level. */
  lemma SignedIsAttested(c: Primitives, p: Package, opt: VerifyOptions)
    requires Answer(c, p, opt).signature || Answer(c, p, opt).Level1() || Answer(c, p, opt).OK()
    ensures p.specVersion == SUPPORTED_SPEC_VERSION && WellFormed(c, p) && Answer(c, p, opt).signature
    ensures Answer(c, p, opt).(intent := NO_INTENT) == AttestedFindings(c, p, opt.bindingSpecs)
  {
    hide FaultOf, WellFormed, SignatureValid, AttestedFindings, IntentFinding;
    FaultNoneIffWellFormed(c, p);
    if p.specVersion == SUPPORTED_SPEC_VERSION && WellFormed(c, p) {
      AttestedIsSigned(c, p, opt.bindingSpecs);
      AttestedIntentUnset(c, p, opt.bindingSpecs);
    }
  }

  /** The ciphertext and tag decode, and their hash is the signed one. */
  ghost predicate CiphertextIsSigned(c: Primitives, s: SealedSegment, cipherHash: string) {
    && c.fromBase64Url(s.ciphertext).Some? && c.fromBase64Url(s.tag).Some?
    && c.H(c.fromBase64Url(s.ciphertext).value + c.fromBase64Url(s.tag).value) == cipherHash
  }

  /** What each later check of a signed package found. */
  lemma FindingsAre(c: Primitives, p: Package, opt: VerifyOptions)
    requires Answer(c, p, opt).signature
    ensures forall a :: a in Order(p) ==> a in ManifestSegments(p) && a in p.segments
    ensures var f := Answer(c, p, opt);
      && (f.aadContextConsistent <==> p.manifest.aadContext.packageID == p.packageID)
      && (f.segmentsRoot <==> p.bindings.segmentsRoot == c.H(RootBytes(Order(p), map a | a in Order(p) :: ManifestSegments(p)[a].plainHash)))
      && (forall a :: a in Entries(f.cipherHashes) <==> a in Order(p))
      && (forall a :: a in Order(p) ==>
            (Entries(f.cipherHashes)[a] <==> CiphertextIsSigned(c, p.segments[a], ManifestSegments(p)[a].cipherHash)))
      && (f.profileBindings.Nil? <==> opt.bindingSpecs == [])
  {
    hide Answer, SUPPORTED_SPEC_VERSION, WellFormed, Corresponds, RootBytes, BindingFindings, CipherHashMatches, CiphertextIsSigned,
         ContextOf, Findings.Level1, Findings.OK;
    SignedIsAttested(c, p, opt);
    OrderOfWellFormed(c, p);
    forall a | a in Order(p)
      ensures CipherHashMatches(c, ManifestSegments(p)[a], p.segments[a])
         <==> CiphertextIsSigned(c, p.segments[a], ManifestSegments(p)[a].cipherHash)
    {
      CipherHashIs(c, ManifestSegments(p)[a], p.segments[a]);
    }
  }

  lemma CipherHashIs(c: Primitives, seg: Segment, sealed: SealedSegment)
    ensures CipherHashMatches(c, seg, sealed) <==> CiphertextIsSigned(c, sealed, seg.cipherHash)
  {}

  /** A profile binding's finding: the last formula of its name computes the signed value, a missing one counting as "". */
  lemma BindingFindingIs(c: Primitives, p: Package, opt: VerifyOptions, i: nat)
    requires Answer(c, p, opt).signature && i < |opt.bindingSpecs|
    requires forall j :: i < j < |opt.bindingSpecs| ==> opt.bindingSpecs[j].name != opt.bindingSpecs[i].name
    ensures forall a :: a in Order(p) ==> a in ManifestSegments(p)
    ensures var name, found := opt.bindingSpecs[i].name, Entries(Answer(c, p, opt).profileBindings);
      var extra, hashes := Entries(p.bindings.extra), map a | a in Order(p) :: ManifestSegments(p)[a].plainHash;
      name in found &&
      (found[name] <==>
        opt.bindingSpecs[i].compute(BindingContext(hashes, p.intent.intentRef, p.intent.constraintsHash, c.H(RootBytes(Order(p), hashes))))
          == Ok(if name in extra then extra[name] else ""))
  {
    hide Answer, SUPPORTED_SPEC_VERSION, WellFormed, Corresponds, RootBytes, CipherHashMatches, BindingMatches, LastNamed,
         Findings.Level1, Findings.OK;
    SignedIsAttested(c, p, opt);
    OrderOfWellFormed(c, p);
    var specs, name := opt.bindingSpecs, opt.bindingSpecs[i].name;
    assert name in SpecNames(specs);
    BindingMatchIs(specs, ContextOf(c, p), Entries(p.bindings.extra), i);
  }

  lemma BindingMatchIs(specs: seq<BindingSpec>, ctx: BindingContext, extra: map<string, string>, i: nat)
    requires i < |specs| && forall j :: i < j < |specs| ==> specs[j].name != specs[i].name
    ensures BindingMatches(specs, ctx, extra, specs[i].name)
       <==> specs[i].compute(ctx) == Ok(if specs[i].name in extra then extra[specs[i].name] else "")
  {
    assert LastNamed(specs, specs[i].name) == i;
  }

  /** The intent level: evaluated when Level 1 passed and the authority answered, valid when its hash and the commitment match. */
  lemma IntentIs(c: Primitives, p: Package, opt: VerifyOptions)
    ensures var f := Answer(c, p, opt);
      && (f.intent.evaluated <==> f.Level1() && opt.intent.Some? && opt.intent.value(p.intent.intentRef).Ok?)
      && (f.intent.valid <==>
            && f.intent.evaluated
            && opt.intent.value(p.intent.intentRef).value == p.intent.constraintsHash
            && p.bindings.intentCommitment
                 == "ctx:" + c.H(CommitmentBytes(p.intent.intentRef, p.intent.constraintsHash, p.bindings.segmentsRoot)))
  {
    hide FaultOf, SignatureValid, WellFormed, AttestedFindings, CommitmentBytes;
    FaultNoneIffWellFormed(c, p);
    if WellFormed(c, p) {
      AttestedIntentUnset(c, p, opt.bindingSpecs);
    }
  }
}
