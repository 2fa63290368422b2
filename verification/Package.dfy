/** The sealed wire format and its JSON encoding. */
module Package {
  import opened Prelude
  import opened Json

  const SUPPORTED_SPEC_VERSION := "1.0.0"

  datatype Issuer = Issuer(iss: string, kid: string)
  datatype Intent = Intent(intentRef: string, authority: string, constraintsHash: string)
  datatype KeyConfirmation = KeyConfirmation(kid: string, jkt: string, confirmation: string)
  datatype AADContext = AADContext(packageID: string, tenantID: string, environment: string)
  datatype Segment = Segment(audience: string, kid: string, alg: string, wrapAlg: string, plainHash: string, cipherHash: string)
  datatype EPK = EPK(kty: string, crv: string, x: string)
  datatype SealedSegment = SealedSegment(epk: EPK, dekWrapped: string, nonce: string, ciphertext: string, tag: string)

  datatype Signature = Signature(alg: string, kid: string, fields: Nilable<seq<string>>, value: string) {
    const signedFields := Elements(fields)
  }

  /** The two core commitments, and the profile's further ones. */
  datatype Bindings = Bindings(segmentsRoot: string, intentCommitment: string, extra: Nilable<map<string, string>>)

  datatype Manifest = Manifest(
    schema: string,
    hashAlg: string,
    canonicalization: string,
    segmentOrder: Nilable<seq<string>>,
    aadContext: AADContext,
    segments: Nilable<map<string, Segment>>,
    disclosures: Nilable<seq<Json>>)

  datatype Package = Package(
    specVersion: string,
    profile: string,
    packageID: string,
    issuedAt: string,
    issuer: Issuer,
    intent: Intent,
    cnf: Nilable<map<string, KeyConfirmation>>,
    bindings: Bindings,
    manifest: Manifest,
    sealed: Nilable<map<string, SealedSegment>>,
    signature: Signature)
  {
    const segments := Entries(sealed)
  }

  /** The entries of a Go map: a nil map reads as an empty one. */
  function Entries<K, V>(m: Nilable<map<K, V>>): map<K, V> {
    match m case Nil => map[] case Val(v) => v
  }

  /** The elements of a Go slice: a nil slice reads as an empty one. */
  function Elements<T>(s: Nilable<seq<T>>): seq<T> {
    match s case Nil => [] case Val(v) => v
  }

  /** Reading a Go map[string]string: a missing key reads as "". */
  function Get(m: map<string, string>, k: string): string {
    if k in m then m[k] else ""
  }

  // ----- bindings on the wire -----

  const SEGMENTS_ROOT := "segments_root"
  const INTENT_COMMITMENT := "intent_commitment"
  const CORE_NAMES: set<string> := {SEGMENTS_ROOT, INTENT_COMMITMENT}

  /** No profile binding shadows a core one. */
  predicate NoCollision(b: Bindings) { Entries(b.extra).Keys !! CORE_NAMES }

  /** The flat object Bindings encodes to. */
  function Flat(b: Bindings): map<string, string> {
    Entries(b.extra)[SEGMENTS_ROOT := b.segmentsRoot][INTENT_COMMITMENT := b.intentCommitment]
  }

  method MarshalBindings(b: Bindings) returns (res: Result<map<string, string>>)
    ensures res == if NoCollision(b) then Ok(Flat(b)) else Err(BindingCollision)
  {
    var extra := Entries(b.extra);
    if SEGMENTS_ROOT in extra {
      return Err(BindingCollision);
    }
    if INTENT_COMMITMENT in extra {
      return Err(BindingCollision);
    }
    var m: map<string, string> := map[];
    var todo := extra.Keys;
    while todo != {}
      invariant todo <= extra.Keys
      invariant m == map k | k in extra.Keys - todo :: extra[k]
      decreases |todo|
    {
      var k :| k in todo;
      m := m[k := extra[k]];
      todo := todo - {k};
    }
    assert m == extra;
    m := m[SEGMENTS_ROOT := b.segmentsRoot];
    m := m[INTENT_COMMITMENT := b.intentCommitment];
    res := Ok(m);
  }

  /** What decoding the flat object leaves in the receiver: every other key lands in Extra. */
  function Unflat(m: map<string, string>): Bindings {
    var rest := m - CORE_NAMES;
    Bindings(Get(m, SEGMENTS_ROOT), Get(m, INTENT_COMMITMENT), if rest == map[] then Nil else Val(rest))
  }

  /** The value UnmarshalJSON writes through. */
  class BindingsReceiver {
    var b: Bindings

    constructor (b: Bindings)
      ensures this.b == b
    {
      this.b := b;
    }

    /** decoded is the data as an object of strings, if it is one; if not, the receiver keeps its value. */
    method UnmarshalJSON(decoded: Option<map<string, string>>) returns (ok: bool)
      modifies this
      ensures ok <==> decoded.Some?
      ensures b == if ok then Unflat(decoded.value) else old(b)
    {
      if decoded.None? {
        return false;
      }
      var m := decoded.value;
      b := b.(segmentsRoot := Get(m, SEGMENTS_ROOT));
      b := b.(intentCommitment := Get(m, INTENT_COMMITMENT));
      RemoveTwo(m, SEGMENTS_ROOT, INTENT_COMMITMENT);
      m := m - {SEGMENTS_ROOT};
      m := m - {INTENT_COMMITMENT};
      if |m| > 0 {
        b := b.(extra := Val(m));
      } else {
        b := b.(extra := Nil);
      }
      ok := true;
    }
  }

  lemma RemoveTwo(m: map<string, string>, a: string, b: string)
    ensures m - {a} - {b} == m - {a, b}
    ensures |m - {a} - {b}| > 0 <==> m - {a, b} != map[]
  {
    assert m - {a} - {b} == m - {a, b};
  }

  /** Two bindings that differ at most in Extra being nil or empty. */
  predicate SameBindings(a: Bindings, b: Bindings) {
    a.segmentsRoot == b.segmentsRoot && a.intentCommitment == b.intentCommitment && Entries(a.extra) == Entries(b.extra)
  }

  /** Encoding then decoding gives the same bindings back. */
  lemma BindingsRoundTrip(b: Bindings)
    requires NoCollision(b)
    ensures SameBindings(Unflat(Flat(b)), b)
  {
    CoreNamesDiffer();
    assert Flat(b) - CORE_NAMES == Entries(b.extra);
  }

  /** Decoding never produces a collision; re-encoding restores the object iff it had both core keys. */
  lemma DecodedBindingsReencode(m: map<string, string>)
    ensures NoCollision(Unflat(m))
    ensures Flat(Unflat(m)) == m <==> SEGMENTS_ROOT in m && INTENT_COMMITMENT in m
  {
    CoreNamesDiffer();
    var f := Flat(Unflat(m));
    assert SEGMENTS_ROOT in f && INTENT_COMMITMENT in f;
    if SEGMENTS_ROOT in m && INTENT_COMMITMENT in m {
      assert f == m;
    }
  }

  lemma CoreNamesDiffer()
    ensures SEGMENTS_ROOT != INTENT_COMMITMENT
  {
    assert |SEGMENTS_ROOT| != |INTENT_COMMITMENT|;
  }

  // ----- JSON -----

  function StringsJson(m: map<string, string>): Json {
    JObject(map k | k in m :: JString(m[k]))
  }

  function IssuerJson(i: Issuer): Json {
    StringsJson(map["iss" := i.iss, "kid" := i.kid])
  }

  function IntentJson(i: Intent): Json {
    StringsJson(map["intent_ref" := i.intentRef, "authority" := i.authority, "constraints_hash" := i.constraintsHash])
  }

  function KeyConfirmationJson(k: KeyConfirmation): Json {
    StringsJson(map["kid" := k.kid, "jkt" := k.jkt, "method" := k.confirmation])
  }

  function AADContextJson(c: AADContext): Json {
    StringsJson(map["package_id" := c.packageID, "tenant_id" := c.tenantID, "environment" := c.environment])
  }

  function SegmentJson(s: Segment): Json {
    StringsJson(map["audience" := s.audience, "kid" := s.kid, "alg" := s.alg,
                    "wrap_alg" := s.wrapAlg, "plain_hash" := s.plainHash, "cipher_hash" := s.cipherHash])
  }

  function CnfJson(c: Nilable<map<string, KeyConfirmation>>): Json {
    match c
    case Nil => JNull
    case Val(m) => JObject(map k | k in m :: KeyConfirmationJson(m[k]))
  }

  function SegmentsJson(s: Nilable<map<string, Segment>>): Json {
    match s
    case Nil => JNull
    case Val(m) => JObject(map k | k in m :: SegmentJson(m[k]))
  }

  function OrderJson(o: Nilable<seq<string>>): Json {
    match o
    case Nil => JNull
    case Val(v) => JArray(seq(|v|, i requires 0 <= i < |v| => JString(v[i])))
  }

  /** Disclosures always encodes as an array, never as null. */
  function ManifestJson(m: Manifest): Json {
    JObject(map[
      "schema" := JString(m.schema),
      "hash_alg" := JString(m.hashAlg),
      "canonicalization" := JString(m.canonicalization),
      "segment_order" := OrderJson(m.segmentOrder),
      "aad_context" := AADContextJson(m.aadContext),
      "segments" := SegmentsJson(m.segments),
      "disclosures" := JArray(Elements(m.disclosures))])
  }

  function BindingsJson(b: Bindings): Result<Json> {
    if NoCollision(b) then Ok(StringsJson(Flat(b))) else Err(BindingCollision)
  }

  /** The object bindings encode to: the two core names, and every profile binding under its own. */
  lemma BindingsMembers(b: Bindings)
    requires NoCollision(b)
    ensures var m := BindingsJson(b).value.members;
      && "segments_root" in m && m["segments_root"] == JString(b.segmentsRoot)
      && "intent_commitment" in m && m["intent_commitment"] == JString(b.intentCommitment)
      && (forall k :: k in Entries(b.extra) ==> k in m && m[k] == JString(Entries(b.extra)[k]))
      && (forall k :: k in m ==> k == "segments_root" || k == "intent_commitment" || k in Entries(b.extra))
  {
    CoreNamesDiffer();
  }

  // ----- the encodings determine the values -----

  lemma StringsJsonInjective(m: map<string, string>, n: map<string, string>)
    requires StringsJson(m) == StringsJson(n)
    ensures m == n
  {
    var a, b := StringsJson(m).members, StringsJson(n).members;
    assert m.Keys == a.Keys == b.Keys == n.Keys;
    forall k | k in m ensures m[k] == n[k] { assert a[k] == b[k]; }
  }

  lemma IssuerJsonInjective(a: Issuer, b: Issuer)
    requires IssuerJson(a) == IssuerJson(b)
    ensures a == b
  {
    var m, n := map["iss" := a.iss, "kid" := a.kid], map["iss" := b.iss, "kid" := b.kid];
    StringsJsonInjective(m, n);
    assert m["iss"] == n["iss"] && m["kid"] == n["kid"];
  }

  lemma IntentJsonInjective(a: Intent, b: Intent)
    requires IntentJson(a) == IntentJson(b)
    ensures a == b
  {
    var m := map["intent_ref" := a.intentRef, "authority" := a.authority, "constraints_hash" := a.constraintsHash];
    var n := map["intent_ref" := b.intentRef, "authority" := b.authority, "constraints_hash" := b.constraintsHash];
    StringsJsonInjective(m, n);
    assert m["intent_ref"] == n["intent_ref"] && m["authority"] == n["authority"] && m["constraints_hash"] == n["constraints_hash"];
  }

  lemma SegmentJsonInjective(a: Segment, b: Segment)
    requires SegmentJson(a) == SegmentJson(b)
    ensures a == b
  {
    var m := map["audience" := a.audience, "kid" := a.kid, "alg" := a.alg,
                 "wrap_alg" := a.wrapAlg, "plain_hash" := a.plainHash, "cipher_hash" := a.cipherHash];
    var n := map["audience" := b.audience, "kid" := b.kid, "alg" := b.alg,
                 "wrap_alg" := b.wrapAlg, "plain_hash" := b.plainHash, "cipher_hash" := b.cipherHash];
    StringsJsonInjective(m, n);
    assert m["audience"] == n["audience"] && m["kid"] == n["kid"] && m["alg"] == n["alg"] && m["wrap_alg"] == n["wrap_alg"]
      && m["plain_hash"] == n["plain_hash"] && m["cipher_hash"] == n["cipher_hash"];
  }

  lemma KeyConfirmationJsonInjective(a: KeyConfirmation, b: KeyConfirmation)
    requires KeyConfirmationJson(a) == KeyConfirmationJson(b)
    ensures a == b
  {
    var m, n := map["kid" := a.kid, "jkt" := a.jkt, "method" := a.confirmation], map["kid" := b.kid, "jkt" := b.jkt, "method" := b.confirmation];
    StringsJsonInjective(m, n);
    assert m["kid"] == n["kid"] && m["jkt"] == n["jkt"] && m["method"] == n["method"];
  }

  lemma AADContextJsonInjective(a: AADContext, b: AADContext)
    requires AADContextJson(a) == AADContextJson(b)
    ensures a == b
  {
    var m := map["package_id" := a.packageID, "tenant_id" := a.tenantID, "environment" := a.environment];
    var n := map["package_id" := b.packageID, "tenant_id" := b.tenantID, "environment" := b.environment];
    StringsJsonInjective(m, n);
    assert m["package_id"] == n["package_id"] && m["tenant_id"] == n["tenant_id"] && m["environment"] == n["environment"];
  }

  lemma CnfJsonInjective(a: Nilable<map<string, KeyConfirmation>>, b: Nilable<map<string, KeyConfirmation>>)
    requires CnfJson(a) == CnfJson(b)
    ensures a == b
  {
    hide KeyConfirmationJson;
    if a.Val? && b.Val? {
      var m, n := a.value, b.value;
      var x, y := CnfJson(a).members, CnfJson(b).members;
      assert m.Keys == x.Keys == y.Keys == n.Keys;
      forall k | k in m ensures m[k] == n[k] {
        assert x[k] == y[k];
        KeyConfirmationJsonInjective(m[k], n[k]);
      }
      assert m == n;
    }
  }

  lemma SegmentsJsonInjective(a: Nilable<map<string, Segment>>, b: Nilable<map<string, Segment>>)
    requires SegmentsJson(a) == SegmentsJson(b)
    ensures a == b
  {
    hide SegmentJson;
    if a.Val? && b.Val? {
      var m, n := a.value, b.value;
      var x, y := SegmentsJson(a).members, SegmentsJson(b).members;
      assert m.Keys == x.Keys == y.Keys == n.Keys;
      forall k | k in m ensures m[k] == n[k] {
        assert x[k] == y[k];
        SegmentJsonInjective(m[k], n[k]);
      }
      assert m == n;
    }
  }

  lemma OrderJsonInjective(a: Nilable<seq<string>>, b: Nilable<seq<string>>)
    requires OrderJson(a) == OrderJson(b)
    ensures a == b
  {
    if a.Val? && b.Val? {
      var x, y := OrderJson(a).items, OrderJson(b).items;
      forall i | 0 <= i < |a.value| ensures a.value[i] == b.value[i] { assert x[i] == y[i]; }
      assert a.value == b.value;
    }
  }

  /** Two manifests that differ at most in Disclosures being nil or empty. */
  predicate SameManifest(a: Manifest, b: Manifest) {
    a.(disclosures := Nil) == b.(disclosures := Nil) && Elements(a.disclosures) == Elements(b.disclosures)
  }

  lemma ManifestJsonDetermines(a: Manifest, b: Manifest)
    requires ManifestJson(a) == ManifestJson(b)
    ensures SameManifest(a, b)
  {
    hide AADContextJson, SegmentsJson, OrderJson;
    var m, n := ManifestJson(a).members, ManifestJson(b).members;
    assert m["schema"] == n["schema"] && m["hash_alg"] == n["hash_alg"] && m["canonicalization"] == n["canonicalization"];
    assert m["segment_order"] == n["segment_order"] && m["aad_context"] == n["aad_context"];
    assert m["segments"] == n["segments"] && m["disclosures"] == n["disclosures"];
    OrderJsonInjective(a.segmentOrder, b.segmentOrder);
    AADContextJsonInjective(a.aadContext, b.aadContext);
    SegmentsJsonInjective(a.segments, b.segments);
  }

  lemma BindingsJsonDetermines(a: Bindings, b: Bindings)
    requires BindingsJson(a).Ok? && BindingsJson(a) == BindingsJson(b)
    ensures SameBindings(a, b)
  {
    StringsJsonInjective(Flat(a), Flat(b));
    BindingsRoundTrip(a);
    BindingsRoundTrip(b);
  }
}
