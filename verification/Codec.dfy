/**
 A whole package as JSON, and back. Every package between two parties crosses this encoding;
 what is signed, verified and opened does not change on the way.
 */
module Codec {
  import opened Prelude
  import opened Json
  import opened Primitives
  import opened Package
  import opened Commitments
  import opened SigningView
  import opened Verify
  import X25519
  import O = Open

  // ----- encoding -----

  function EPKJson(e: EPK): Json {
    StringsJson(map["kty" := e.kty, "crv" := e.crv, "x" := e.x])
  }

  function SealedSegmentJson(s: SealedSegment): Json {
    JObject(map["epk" := EPKJson(s.epk), "dek_wrapped" := JString(s.dekWrapped), "nonce" := JString(s.nonce),
                "ciphertext" := JString(s.ciphertext), "tag" := JString(s.tag)])
  }

  function SealedSegmentsJson(s: Nilable<map<string, SealedSegment>>): Json {
    match s
    case Nil => JNull
    case Val(m) => JObject(map a | a in m :: SealedSegmentJson(m[a]))
  }

  function SignatureJson(s: Signature): Json {
    JObject(map["alg" := JString(s.alg), "kid" := JString(s.kid), "signed_fields" := OrderJson(s.fields), "value" := JString(s.value)])
  }

  function Members(p: Package, bindings: Json): map<string, Json> {
    map["spec_version" := JString(p.specVersion),
        "profile" := JString(p.profile),
        "package_id" := JString(p.packageID),
        "issued_at" := JString(p.issuedAt),
        "issuer" := IssuerJson(p.issuer),
        "intent" := IntentJson(p.intent),
        "cnf" := CnfJson(p.cnf),
        "bindings" := bindings,
        "manifest" := ManifestJson(p.manifest),
        "segments" := SealedSegmentsJson(p.sealed),
        "signature" := SignatureJson(p.signature)]
  }

  /** Encoding fails when the bindings do. */
  function Encode(p: Package): Result<Json> {
    var bindings :- BindingsJson(p.bindings);
    Ok(JObject(Members(p, bindings)))
  }

  // ----- decoding: a missing member and null leave the zero value -----

  function MemberOf(m: map<string, Json>, k: string): Json {
    if k in m then m[k] else JNull
  }

  function DecodeString(j: Json): Result<string> {
    match j
    case JNull => Ok("")
    case JString(s) => Ok(s)
    case _ => Err(MalformedPackage)
  }

  function DecodeMembers(j: Json): Result<map<string, Json>> {
    match j
    case JNull => Ok(map[])
    case JObject(m) => Ok(m)
    case _ => Err(MalformedPackage)
  }

  /** A Go map: null is nil, and every entry must decode. */
  function DecodeMap<T>(j: Json, decode: Json -> Result<T>): Result<Nilable<map<string, T>>> {
    match j
    case JNull => Ok(Nil)
    case JObject(m) =>
      if forall k :: k in m ==> decode(m[k]).Ok? then Ok(Val(map k | k in m && decode(m[k]).Ok? :: decode(m[k]).value))
      else Err(MalformedPackage)
    case _ => Err(MalformedPackage)
  }

  /** A Go slice of strings: null is nil. */
  function DecodeStrings(j: Json): Result<Nilable<seq<string>>> {
    match j
    case JNull => Ok(Nil)
    case JArray(v) =>
      if forall i :: 0 <= i < |v| ==> DecodeString(v[i]).Ok?
      then Ok(Val(seq(|v|, i requires 0 <= i < |v| => if DecodeString(v[i]).Ok? then DecodeString(v[i]).value else "")))
      else Err(MalformedPackage)
    case _ => Err(MalformedPackage)
  }

  function DecodeAnys(j: Json): Result<Nilable<seq<Json>>> {
    match j
    case JNull => Ok(Nil)
    case JArray(v) => Ok(Val(v))
    case _ => Err(MalformedPackage)
  }

  function DecodeIssuer(j: Json): Result<Issuer> {
    var m :- DecodeMembers(j);
    var iss :- DecodeString(MemberOf(m, "iss"));
    var kid :- DecodeString(MemberOf(m, "kid"));
    Ok(Issuer(iss, kid))
  }

  function DecodeIntent(j: Json): Result<Intent> {
    var m :- DecodeMembers(j);
    var intentRef :- DecodeString(MemberOf(m, "intent_ref"));
    var authority :- DecodeString(MemberOf(m, "authority"));
    var constraintsHash :- DecodeString(MemberOf(m, "constraints_hash"));
    Ok(Intent(intentRef, authority, constraintsHash))
  }

  function DecodeKeyConfirmation(j: Json): Result<KeyConfirmation> {
    var m :- DecodeMembers(j);
    var kid :- DecodeString(MemberOf(m, "kid"));
    var jkt :- DecodeString(MemberOf(m, "jkt"));
    var confirmation :- DecodeString(MemberOf(m, "method"));
    Ok(KeyConfirmation(kid, jkt, confirmation))
  }

  function DecodeAADContext(j: Json): Result<AADContext> {
    var m :- DecodeMembers(j);
    var packageID :- DecodeString(MemberOf(m, "package_id"));
    var tenantID :- DecodeString(MemberOf(m, "tenant_id"));
    var environment :- DecodeString(MemberOf(m, "environment"));
    Ok(AADContext(packageID, tenantID, environment))
  }

  function DecodeSegment(j: Json): Result<Segment> {
    var m :- DecodeMembers(j);
    var audience :- DecodeString(MemberOf(m, "audience"));
    var kid :- DecodeString(MemberOf(m, "kid"));
    var alg :- DecodeString(MemberOf(m, "alg"));
    var wrapAlg :- DecodeString(MemberOf(m, "wrap_alg"));
    var plainHash :- DecodeString(MemberOf(m, "plain_hash"));
    var cipherHash :- DecodeString(MemberOf(m, "cipher_hash"));
    Ok(Segment(audience, kid, alg, wrapAlg, plainHash, cipherHash))
  }

  function DecodeManifest(j: Json): Result<Manifest> {
    var m :- DecodeMembers(j);
    var schema :- DecodeString(MemberOf(m, "schema"));
    var hashAlg :- DecodeString(MemberOf(m, "hash_alg"));
    var canonicalization :- DecodeString(MemberOf(m, "canonicalization"));
    var segmentOrder :- DecodeStrings(MemberOf(m, "segment_order"));
    var aadContext :- DecodeAADContext(MemberOf(m, "aad_context"));
    var segments :- DecodeMap(MemberOf(m, "segments"), DecodeSegment);
    var disclosures :- DecodeAnys(MemberOf(m, "disclosures"));
    Ok(Manifest(schema, hashAlg, canonicalization, segmentOrder, aadContext, segments, disclosures))
  }

  function DecodeEPK(j: Json): Result<EPK> {
    var m :- DecodeMembers(j);
    var kty :- DecodeString(MemberOf(m, "kty"));
    var crv :- DecodeString(MemberOf(m, "crv"));
    var x :- DecodeString(MemberOf(m, "x"));
    Ok(EPK(kty, crv, x))
  }

  function DecodeSealedSegment(j: Json): Result<SealedSegment> {
    var m :- DecodeMembers(j);
    var epk :- DecodeEPK(MemberOf(m, "epk"));
    var dekWrapped :- DecodeString(MemberOf(m, "dek_wrapped"));
    var nonce :- DecodeString(MemberOf(m, "nonce"));
    var ciphertext :- DecodeString(MemberOf(m, "ciphertext"));
    var tag :- DecodeString(MemberOf(m, "tag"));
    Ok(SealedSegment(epk, dekWrapped, nonce, ciphertext, tag))
  }

  function DecodeSignature(j: Json): Result<Signature> {
    var m :- DecodeMembers(j);
    var alg :- DecodeString(MemberOf(m, "alg"));
    var kid :- DecodeString(MemberOf(m, "kid"));
    var fields :- DecodeStrings(MemberOf(m, "signed_fields"));
    var value :- DecodeString(MemberOf(m, "value"));
    Ok(Signature(alg, kid, fields, value))
  }

  function DecodeBindings(j: Json): Result<Bindings> {
    var m :- DecodeMap(j, DecodeString);
    Ok(Unflat(Entries(m)))
  }

  function Decode(j: Json): Result<Package> {
    var m :- DecodeMembers(j);
    var specVersion :- DecodeString(MemberOf(m, "spec_version"));
    var profile :- DecodeString(MemberOf(m, "profile"));
    var packageID :- DecodeString(MemberOf(m, "package_id"));
    var issuedAt :- DecodeString(MemberOf(m, "issued_at"));
    var issuer :- DecodeIssuer(MemberOf(m, "issuer"));
    var intent :- DecodeIntent(MemberOf(m, "intent"));
    var cnf :- DecodeMap(MemberOf(m, "cnf"), DecodeKeyConfirmation);
    var bindings :- DecodeBindings(MemberOf(m, "bindings"));
    var manifest :- DecodeManifest(MemberOf(m, "manifest"));
    var segments :- DecodeMap(MemberOf(m, "segments"), DecodeSealedSegment);
    var signature :- DecodeSignature(MemberOf(m, "signature"));
    Ok(Package(specVersion, profile, packageID, issuedAt, issuer, intent, cnf, bindings, manifest, segments, signature))
  }

  // ----- decoding undoes encoding -----

  /** What crossing the encoding makes of a package: an empty Extra is nil, and Disclosures is never nil. */
  function Crossed(p: Package): Package {
    p.(bindings := p.bindings.(extra := if Entries(p.bindings.extra) == map[] then Nil else p.bindings.extra),
       manifest := p.manifest.(disclosures := Val(Elements(p.manifest.disclosures))))
  }

  lemma IssuerCrosses(i: Issuer)
    ensures DecodeIssuer(IssuerJson(i)) == Ok(i)
  {}

  lemma IntentCrosses(i: Intent)
    ensures DecodeIntent(IntentJson(i)) == Ok(i)
  {}

  lemma KeyConfirmationCrosses(k: KeyConfirmation)
    ensures DecodeKeyConfirmation(KeyConfirmationJson(k)) == Ok(k)
  {}

  lemma AADContextCrosses(a: AADContext)
    ensures DecodeAADContext(AADContextJson(a)) == Ok(a)
  {}

  lemma SegmentCrosses(s: Segment)
    ensures DecodeSegment(SegmentJson(s)) == Ok(s)
  {}

  lemma EPKCrosses(e: EPK)
    ensures DecodeEPK(EPKJson(e)) == Ok(e)
  {}

  lemma SealedSegmentCrosses(s: SealedSegment)
    ensures DecodeSealedSegment(SealedSegmentJson(s)) == Ok(s)
  {
    hide EPKJson, DecodeEPK;
    EPKCrosses(s.epk);
  }

  lemma StringsCross(o: Nilable<seq<string>>)
    ensures DecodeStrings(OrderJson(o)) == Ok(o)
  {
    if o.Val? {
      var v := OrderJson(o).items;
      assert forall i :: 0 <= i < |v| ==> DecodeString(v[i]) == Ok(o.value[i]);
      assert DecodeStrings(OrderJson(o)).value.value == o.value;
    }
  }

  lemma SignatureCrosses(s: Signature)
    ensures DecodeSignature(SignatureJson(s)) == Ok(s)
  {
    hide OrderJson, DecodeStrings;
    StringsCross(s.fields);
  }

  /** A map crosses when its entries do. */
  lemma MapCrosses<T>(m: map<string, T>, j: map<string, Json>, decode: Json -> Result<T>)
    requires j.Keys == m.Keys && forall k :: k in m ==> decode(j[k]) == Ok(m[k])
    ensures DecodeMap(JObject(j), decode) == Ok(Val(m))
  {
    assert (map k | k in j && decode(j[k]).Ok? :: decode(j[k]).value) == m;
  }

  lemma CnfCrosses(cnf: Nilable<map<string, KeyConfirmation>>)
    ensures DecodeMap(CnfJson(cnf), DecodeKeyConfirmation) == Ok(cnf)
  {
    hide KeyConfirmationJson, DecodeKeyConfirmation, DecodeMap;
    if cnf.Val? {
      forall a | a in cnf.value ensures DecodeKeyConfirmation(KeyConfirmationJson(cnf.value[a])) == Ok(cnf.value[a]) {
        KeyConfirmationCrosses(cnf.value[a]);
      }
      MapCrosses(cnf.value, CnfJson(cnf).members, DecodeKeyConfirmation);
    } else {
      NilCrosses(DecodeKeyConfirmation);
    }
  }

  lemma NilCrosses<T>(decode: Json -> Result<T>)
    ensures DecodeMap(JNull, decode) == Ok(Nil)
  {}

  lemma SegmentsCross(segments: Nilable<map<string, Segment>>)
    ensures DecodeMap(SegmentsJson(segments), DecodeSegment) == Ok(segments)
  {
    hide SegmentJson, DecodeSegment, DecodeMap;
    if segments.Val? {
      forall a | a in segments.value ensures DecodeSegment(SegmentJson(segments.value[a])) == Ok(segments.value[a]) {
        SegmentCrosses(segments.value[a]);
      }
      MapCrosses(segments.value, SegmentsJson(segments).members, DecodeSegment);
    } else {
      NilCrosses(DecodeSegment);
    }
  }

  lemma SealedSegmentsCross(segments: Nilable<map<string, SealedSegment>>)
    ensures DecodeMap(SealedSegmentsJson(segments), DecodeSealedSegment) == Ok(segments)
  {
    hide SealedSegmentJson, DecodeSealedSegment, DecodeMap;
    if segments.Val? {
      forall a | a in segments.value ensures DecodeSealedSegment(SealedSegmentJson(segments.value[a])) == Ok(segments.value[a]) {
        SealedSegmentCrosses(segments.value[a]);
      }
      MapCrosses(segments.value, SealedSegmentsJson(segments).members, DecodeSealedSegment);
    } else {
      NilCrosses(DecodeSealedSegment);
    }
  }

  lemma ManifestCrosses(m: Manifest)
    ensures DecodeManifest(ManifestJson(m)) == Ok(m.(disclosures := Val(Elements(m.disclosures))))
  {
    hide OrderJson, DecodeStrings, AADContextJson, DecodeAADContext, SegmentsJson, DecodeMap, DecodeSegment;
    StringsCross(m.segmentOrder);
    AADContextCrosses(m.aadContext);
    SegmentsCross(m.segments);
  }

  lemma BindingsCross(b: Bindings)
    requires NoCollision(b)
    ensures DecodeBindings(BindingsJson(b).value) == Ok(b.(extra := if Entries(b.extra) == map[] then Nil else b.extra))
  {
    hide DecodeMap, NoCollision, Flat, Unflat;
    MapCrosses(Flat(b), StringsJson(Flat(b)).members, DecodeString);
    FlatUnflat(b);
  }

  lemma FlatUnflat(b: Bindings)
    requires NoCollision(b)
    ensures Unflat(Flat(b)) == b.(extra := if Entries(b.extra) == map[] then Nil else b.extra)
  {
    CoreNamesDiffer();
    assert Flat(b) - CORE_NAMES == Entries(b.extra);
  }

  lemma MembersCross(p: Package, bindings: Json)
    ensures var m := Members(p, bindings);
      && MemberOf(m, "spec_version") == JString(p.specVersion) && MemberOf(m, "profile") == JString(p.profile)
      && MemberOf(m, "package_id") == JString(p.packageID) && MemberOf(m, "issued_at") == JString(p.issuedAt)
      && MemberOf(m, "issuer") == IssuerJson(p.issuer) && MemberOf(m, "intent") == IntentJson(p.intent)
      && MemberOf(m, "cnf") == CnfJson(p.cnf) && MemberOf(m, "bindings") == bindings
      && MemberOf(m, "manifest") == ManifestJson(p.manifest) && MemberOf(m, "segments") == SealedSegmentsJson(p.sealed)
      && MemberOf(m, "signature") == SignatureJson(p.signature)
  {
    hide IssuerJson, IntentJson, CnfJson, ManifestJson, SealedSegmentsJson, SignatureJson;
  }

  /** A package encodes exactly when no profile binding shadows a core one, and decoding what was encoded gives it back. */
  lemma DecodeUndoesEncode(p: Package)
    ensures Encode(p).Ok? <==> NoCollision(p.bindings)
    ensures Encode(p).Err? ==> Encode(p).error == BindingCollision
    ensures Encode(p).Ok? ==> Decode(Encode(p).value) == Ok(Crossed(p))
  {
    hide Members, MemberOf, IssuerJson, IntentJson, CnfJson, ManifestJson, SealedSegmentsJson, SignatureJson, NoCollision, Flat,
         DecodeIssuer, DecodeIntent, DecodeMap, DecodeBindings, DecodeManifest, DecodeSignature, DecodeKeyConfirmation, DecodeSealedSegment,
         StringsJson;
    if NoCollision(p.bindings) {
      var b := BindingsJson(p.bindings).value;
      MembersCross(p, b);
      IssuerCrosses(p.issuer);
      IntentCrosses(p.intent);
      CnfCrosses(p.cnf);
      BindingsCross(p.bindings);
      ManifestCrosses(p.manifest);
      SealedSegmentsCross(p.sealed);
      SignatureCrosses(p.signature);
    }
  }

  // ----- nothing that matters changes on the way -----

  /** Two packages that differ at most in Extra and Disclosures being nil or empty. */
  predicate SameUpToNil(p: Package, q: Package) {
    && q == p.(bindings := q.bindings, manifest := q.manifest)
    && SameBindings(p.bindings, q.bindings) && SameManifest(p.manifest, q.manifest)
  }

  lemma CrossedIsSame(p: Package)
    ensures SameUpToNil(p, Crossed(p))
  {}

  /** The signed bytes are the same before and after. */
  lemma SameSignedBytes(p: Package, q: Package)
    requires SameUpToNil(p, q)
    ensures SignedBytes(p) == SignedBytes(q)
  {
    hide IssuerJson, IntentJson, CnfJson, BindingsJson, ManifestJson, ViewBytes, Selected, REQUIRED_SIGNED_FIELDS;
    SameFieldJson(p, q);
    assert SigningFields(p) == SigningFields(q);
  }

  lemma SameFieldJson(p: Package, q: Package)
    requires SameUpToNil(p, q)
    ensures BindingsJson(p.bindings) == BindingsJson(q.bindings) && ManifestJson(p.manifest) == ManifestJson(q.manifest)
  {
    hide AADContextJson, SegmentsJson, OrderJson, StringsJson;
    assert Flat(p.bindings) == Flat(q.bindings);
  }

  /** So is every finding of a verification. */
  lemma SameAnswer(c: Primitives, p: Package, q: Package, opt: VerifyOptions)
    requires SameUpToNil(p, q)
    ensures Answer(c, p, opt) == Answer(c, q, opt)
  {
    hide SignedBytes, NamesExactlyRequired, CORE_NAMES, IntentCommitment, AttestedFindings, WellFormed, SUPPORTED_SPEC_VERSION;
    SameSignedBytes(p, q);
    SameOrderFault(p, q, 0);
    FaultNoneIffWellFormed(c, p);
    FaultNoneIffWellFormed(c, q);
    assert FaultOf(c, p) == FaultOf(c, q);
    hide FaultOf;
    if WellFormed(c, p) {
      SameFindings(c, p, q, opt.bindingSpecs);
    }
  }

  lemma SameFindings(c: Primitives, p: Package, q: Package, specs: seq<BindingSpec>)
    requires SameUpToNil(p, q) && WellFormed(c, p) && WellFormed(c, q)
    ensures AttestedFindings(c, p, specs) == AttestedFindings(c, q, specs)
  {
    hide CipherHashMatches, NamesExactlyRequired, NoCollision, RootBytes, BindingFindings;
    assert PlainHashes(p) == PlainHashes(q);
    assert ContextOf(c, p) == ContextOf(c, q);
    assert (map a | a in Order(p) :: CipherHashMatches(c, ManifestSegments(p)[a], p.segments[a]))
        == (map a | a in Order(q) :: CipherHashMatches(c, ManifestSegments(q)[a], q.segments[a]));
  }

  lemma {:induction false} SameOrderFault(p: Package, q: Package, i: nat)
    requires SameUpToNil(p, q) && i <= |Order(p)|
    ensures OrderFault(p, i) == OrderFault(q, i)
    decreases |Order(p)| - i
  {
    if i < |Order(p)| {
      SameOrderFault(p, q, i + 1);
    }
  }

  /** And every opening. */
  lemma SameOpening(c: Primitives, p: Package, q: Package, w: X25519.KeyWrapper, priv: bytes, opt: VerifyOptions)
    requires SameUpToNil(p, q)
    ensures O.Opened(c, w, p, priv, opt) == O.Opened(c, w, q, priv, opt)
  {
    SameAnswer(c, p, q, O.Offline(opt));
    hide Answer, O.HolderOf, O.Recovered;
    var holder := O.HolderOf(Entries(p.cnf), w, priv);
    if holder.Some? {
      SameRecovered(c, p, q, w, holder.value, priv);
    }
  }

  lemma SameRecovered(c: Primitives, p: Package, q: Package, w: X25519.KeyWrapper, a: string, priv: bytes)
    requires SameUpToNil(p, q)
    ensures O.Recovered(c, w, p, a, priv) == O.Recovered(c, w, q, a, priv)
  {
    hide AAD, PlainBytes, O.Decrypt, O.Decoded;
  }

  /** Whoever decodes what was encoded has the same signed bytes, reaches the same findings and opens the same plaintexts. */
  lemma CrossingChangesNothing(c: Primitives, p: Package, opt: VerifyOptions, w: X25519.KeyWrapper, priv: bytes)
    requires NoCollision(p.bindings)
    ensures Encode(p).Ok? && Decode(Encode(p).value).Ok?
    ensures var q := Decode(Encode(p).value).value;
      && SignedBytes(q) == SignedBytes(p)
      && Answer(c, q, opt) == Answer(c, p, opt)
      && O.Opened(c, w, q, priv, opt) == O.Opened(c, w, p, priv, opt)
  {
    DecodeUndoesEncode(p);
    hide Encode, Decode, Answer, O.Opened, SignedBytes, Crossed;
    var q := Crossed(p);
    CrossedIsSame(p);
    SameSignedBytes(p, q);
    SameAnswer(c, p, q, opt);
    SameOpening(c, p, q, w, priv, opt);
  }

  /** A decoded package never collides: it always has signed bytes, and encodes again. */
  lemma DecodedIsEncodable(j: Json)
    requires Decode(j).Ok?
    ensures SignedBytes(Decode(j).value).Ok? && Encode(Decode(j).value).Ok?
  {
    hide DecodeIssuer, DecodeIntent, DecodeManifest, DecodeSignature, DecodeString, DecodeKeyConfirmation, DecodeSealedSegment, SignedBytes,
         Members, MemberOf, NoCollision, Unflat;
    var q := Decode(j).value;
    var m := DecodeMap(MemberOf(DecodeMembers(j).value, "bindings"), DecodeString).value;
    DecodedBindingsReencode(Entries(m));
    SignedBytesDefined(q);
  }

  /** The signed bytes can be computed from the encoded object alone: they are the canonical form of nine of its members. */
  lemma SignedBytesFromWire(p: Package)
    requires Encode(p).Ok?
    ensures forall n :: n in REQUIRED_SIGNED_FIELDS ==> n in Encode(p).value.members
    ensures SignedBytes(p) == Ok(JCS(JObject(map n | n in REQUIRED_SIGNED_FIELDS && n in Encode(p).value.members :: Encode(p).value.members[n])))
  {
    hide JCS, IssuerJson, IntentJson, CnfJson, ManifestJson, SealedSegmentsJson, SignatureJson, StringsJson, NoCollision;
    var view := SignedFieldsOf(p);
    var m := Encode(p).value.members;
    forall n ensures n in REQUIRED_SIGNED_FIELDS <==> n in view { RequiredNames(n); }
    hide REQUIRED_SIGNED_FIELDS;
    forall n | n in view ensures n in m && view[n] == Ok(m[n]) {}
    assert (map n | n in view :: view[n].value) == (map n | n in REQUIRED_SIGNED_FIELDS && n in m :: m[n]);
  }
}
