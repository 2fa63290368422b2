/** The nine signed fields of a package and the canonical bytes the issuer signs. */
module SigningView {
  import opened Prelude
  import opened Json
  import opened Package

  const REQUIRED_SIGNED_FIELDS: seq<string> := [
    "spec_version", "profile", "package_id", "issued_at",
    "issuer", "intent", "cnf", "bindings", "manifest"]

  /** names is the required list in some order. */
  ghost predicate NamesExactlyRequired(names: seq<string>) {
    multiset(names) == multiset(REQUIRED_SIGNED_FIELDS)
  }

  /** Each signed field's name, and its encoding if it has one. Sealed segments are not signed. */
  function SigningFields(p: Package): map<string, Result<Json>> {
    map[
      "spec_version" := Ok(JString(p.specVersion)),
      "profile" := Ok(JString(p.profile)),
      "package_id" := Ok(JString(p.packageID)),
      "issued_at" := Ok(JString(p.issuedAt)),
      "issuer" := Ok(IssuerJson(p.issuer)),
      "intent" := Ok(IntentJson(p.intent)),
      "cnf" := Ok(CnfJson(p.cnf)),
      "bindings" := BindingsJson(p.bindings),
      "manifest" := Ok(ManifestJson(p.manifest))]
  }

  /** The fields that names selects; an unknown name selects null. */
  function Selected(fields: map<string, Result<Json>>, names: seq<string>): map<string, Result<Json>> {
    map n | n in names :: if n in fields then fields[n] else Ok(JNull)
  }

  method SelectFields(fields: map<string, Result<Json>>, names: seq<string>) returns (out: map<string, Result<Json>>)
    ensures out == Selected(fields, names)
  {
    out := map[];
    for i := 0 to |names|
      invariant out == Selected(fields, names[..i])
    {
      var n := names[i];
      assert names[..i + 1] == names[..i] + [n];
      out := out[n := if n in fields then fields[n] else Ok(JNull)];
    }
    assert names[..|names|] == names;
  }

  /** Canonical bytes of a selection, unless one of its fields has no encoding. */
  function ViewBytes(view: map<string, Result<Json>>): Result<bytes> {
    if exists n :: n in view && view[n].Err? then Err(BindingCollision)
    else Ok(JCS(JObject(map n | n in view :: view[n].value)))
  }

  /** What the issuer signs. */
  function SignedBytes(p: Package): Result<bytes> {
    ViewBytes(Selected(SigningFields(p), REQUIRED_SIGNED_FIELDS))
  }

  method BuildSigningView(p: Package) returns (res: Result<bytes>)
    ensures res == SignedBytes(p)
  {
    var view := SelectFields(SigningFields(p), REQUIRED_SIGNED_FIELDS);
    res := ViewBytes(view);
  }

  method ReconstructSigningView(p: Package) returns (res: Result<bytes>)
    ensures res == if NamesExactlyRequired(p.signature.signedFields) then SignedBytes(p) else Err(MalformedPackage)
  {
    var ok := CheckSignedFields(p.signature.signedFields);
    if !ok {
      return Err(MalformedPackage);
    }
    var view := SelectFields(SigningFields(p), p.signature.signedFields);
    SelectionIgnoresOrder(SigningFields(p), p.signature.signedFields);
    res := ViewBytes(view);
  }

  /** Any rearrangement of the required names selects the same fields. */
  lemma SelectionIgnoresOrder(fields: map<string, Result<Json>>, names: seq<string>)
    requires NamesExactlyRequired(names)
    ensures Selected(fields, names) == Selected(fields, REQUIRED_SIGNED_FIELDS)
  {
    hide REQUIRED_SIGNED_FIELDS;
    forall n ensures n in names <==> n in REQUIRED_SIGNED_FIELDS {
      assert n in names <==> n in multiset(names);
      assert n in REQUIRED_SIGNED_FIELDS <==> n in multiset(REQUIRED_SIGNED_FIELDS);
    }
  }

  lemma NineNames(names: seq<string>)
    ensures NamesExactlyRequired(names) ==> |names| == 9
  {
    if NamesExactlyRequired(names) {
      assert |multiset(names)| == |multiset(REQUIRED_SIGNED_FIELDS)|;
    }
  }

  lemma RequiredDistinct()
    ensures Distinct(REQUIRED_SIGNED_FIELDS)
  {}

  method CheckSignedFields(names: seq<string>) returns (ok: bool)
    ensures ok <==> NamesExactlyRequired(names)
  {
    if |names| != |REQUIRED_SIGNED_FIELDS| {
      assert |multiset(names)| != |multiset(REQUIRED_SIGNED_FIELDS)|;
      return false;
    }
    var required: set<string> := {};
    for i := 0 to |REQUIRED_SIGNED_FIELDS|
      invariant forall n :: n in required <==> n in REQUIRED_SIGNED_FIELDS[..i]
    {
      required := required + {REQUIRED_SIGNED_FIELDS[i]};
    }
    ok := NamesEachOnce(names, required);
  }

  /** The second loop of checkSignedFields. */
  method NamesEachOnce(names: seq<string>, required: set<string>) returns (ok: bool)
    requires |names| == |REQUIRED_SIGNED_FIELDS| && forall n :: n in required <==> n in REQUIRED_SIGNED_FIELDS
    ensures ok <==> NamesExactlyRequired(names)
  {
    RequiredDistinct();
    hide REQUIRED_SIGNED_FIELDS;
    PermutationOfDistinct(names, REQUIRED_SIGNED_FIELDS);
    var seen: set<string> := {};
    for i := 0 to |names|
      invariant forall n :: n in seen <==> n in names[..i]
      invariant Distinct(names[..i]) && seen <= required
    {
      var n := names[i];
      if n !in required {
        return false;
      }
      if n in seen {
        RepeatedNotDistinct(names, i);
        return false;
      }
      seen := seen + {n};
      assert names[..i + 1] == names[..i] + [n];
    }
    assert names[..|names|] == names;
    DistinctCardinality(REQUIRED_SIGNED_FIELDS);
    assert required == set n | n in REQUIRED_SIGNED_FIELDS;
    Pigeonhole(names, required);
    ok := true;
  }

  /** Two packages that agree on every signed field, up to nil-or-empty Extra and Disclosures. */
  predicate SameSignedFields(p: Package, q: Package) {
    && p.specVersion == q.specVersion && p.profile == q.profile && p.packageID == q.packageID
    && p.issuedAt == q.issuedAt && p.issuer == q.issuer && p.intent == q.intent && p.cnf == q.cnf
    && SameBindings(p.bindings, q.bindings) && SameManifest(p.manifest, q.manifest)
  }

  /** The signed bytes exist unless a profile binding shadows a core one. */
  lemma SignedBytesDefined(p: Package)
    ensures SignedBytes(p).Ok? <==> NoCollision(p.bindings)
    ensures SignedBytes(p).Err? ==> SignedBytes(p).error == BindingCollision
  {
    var view := SignedFieldsOf(p);
    assert view["bindings"] == BindingsJson(p.bindings);
  }

  /** The selection of the required names, as a map over the nine literals. */
  lemma SignedFieldsOf(p: Package) returns (view: map<string, Result<Json>>)
    ensures view == Selected(SigningFields(p), REQUIRED_SIGNED_FIELDS) == SigningFields(p)
    ensures forall n :: n in view && n != "bindings" ==> view[n].Ok?
  {
    view := SigningFields(p);
    forall n ensures n in REQUIRED_SIGNED_FIELDS <==> n in view {
      RequiredNames(n);
    }
    assert Selected(view, REQUIRED_SIGNED_FIELDS) == view;
  }

  lemma RequiredNames(n: string)
    ensures n in REQUIRED_SIGNED_FIELDS <==>
      n in {"spec_version", "profile", "package_id", "issued_at", "issuer", "intent", "cnf", "bindings", "manifest"}
  {
    var r := REQUIRED_SIGNED_FIELDS;
    assert r[0] == "spec_version" && r[1] == "profile" && r[2] == "package_id" && r[3] == "issued_at" && r[4] == "issuer"
      && r[5] == "intent" && r[6] == "cnf" && r[7] == "bindings" && r[8] == "manifest";
  }

  /** Equal signed bytes mean equal values in all nine signed fields. */
  lemma SignedBytesDetermine(p: Package, q: Package)
    requires SignedBytes(p).Ok? && SignedBytes(p) == SignedBytes(q)
    ensures SameSignedFields(p, q)
  {
    hide JCS, SigningFields;
    var v := SignedFieldsOf(p);
    var w := SignedFieldsOf(q);
    hide REQUIRED_SIGNED_FIELDS;
    var m, n := map k | k in v :: v[k].value, map k | k in w :: w[k].value;
    JCSInjective(JObject(m), JObject(n));
    assert m == n;
    FieldsAgree(p, q, v, w, m);
  }

  lemma FieldValues(p: Package)
    ensures var f := SigningFields(p);
      && "spec_version" in f && f["spec_version"] == Ok(JString(p.specVersion))
      && "profile" in f && f["profile"] == Ok(JString(p.profile))
      && "package_id" in f && f["package_id"] == Ok(JString(p.packageID))
      && "issued_at" in f && f["issued_at"] == Ok(JString(p.issuedAt))
      && "issuer" in f && f["issuer"] == Ok(IssuerJson(p.issuer))
      && "intent" in f && f["intent"] == Ok(IntentJson(p.intent))
      && "cnf" in f && f["cnf"] == Ok(CnfJson(p.cnf))
      && "bindings" in f && f["bindings"] == BindingsJson(p.bindings)
      && "manifest" in f && f["manifest"] == Ok(ManifestJson(p.manifest))
  {
    hide IssuerJson, IntentJson, CnfJson, BindingsJson, ManifestJson;
  }

  lemma FieldsAgree(p: Package, q: Package, v: map<string, Result<Json>>, w: map<string, Result<Json>>, m: map<string, Json>)
    requires v == SigningFields(p) && w == SigningFields(q)
    requires forall k :: k in v ==> k in m && v[k] == Ok(m[k])
    requires forall k :: k in w ==> k in m && w[k] == Ok(m[k])
    ensures SameSignedFields(p, q)
  {
    hide SigningFields, IssuerJson, IntentJson, CnfJson, BindingsJson, ManifestJson;
    FieldValues(p);
    FieldValues(q);
    IssuerJsonInjective(p.issuer, q.issuer);
    IntentJsonInjective(p.intent, q.intent);
    CnfJsonInjective(p.cnf, q.cnf);
    BindingsJsonDetermines(p.bindings, q.bindings);
    ManifestJsonDetermines(p.manifest, q.manifest);
  }
}
