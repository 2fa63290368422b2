/**
 The commitments a package carries: segments_root over the ordered plaintext hashes,
 intent_commitment over the authorization and the root, the profile's own bindings, and
 the additional authenticated data of each segment.
 */
module Commitments {
  import opened Prelude
  import opened Json
  import opened Primitives
  import opened Package

  // ----- segments_root -----

  /** The audiences of order are distinct and are exactly the keys of plainHash. */
  ghost predicate Corresponds<V>(order: seq<string>, plainHash: map<string, V>) {
    Distinct(order) && forall a :: a in order <==> a in plainHash
  }

  function RootEntry(audience: string, plainHash: string): Json {
    StringsJson(map["audience" := audience, "plain_hash" := plainHash])
  }

  /** The bytes segments_root hashes: one entry an audience, in order. */
  function RootBytes(order: seq<string>, plainHash: map<string, string>): bytes
    requires forall a :: a in order ==> a in plainHash
  {
    JCS(JArray(seq(|order|, i requires 0 <= i < |order| => RootEntry(order[i], plainHash[order[i]]))))
  }

  method SegmentsRoot(c: Primitives, order: seq<string>, plainHash: map<string, string>) returns (res: Result<string>)
    ensures res.Ok? <==> Corresponds(order, plainHash)
    ensures res.Ok? ==> res.value == c.H(RootBytes(order, plainHash))
    ensures res.Err? ==> res.error == MalformedPackage
  {
    hide JCS, RootEntry;
    var entries: seq<Json> := [];
    var seen: set<string> := {};
    for i := 0 to |order|
      invariant forall a :: a in seen <==> a in order[..i]
      invariant Distinct(order[..i])
      invariant forall a :: a in order[..i] ==> a in plainHash
      invariant |entries| == i && forall k :: 0 <= k < i ==> entries[k] == RootEntry(order[k], plainHash[order[k]])
    {
      var a := order[i];
      if a in seen {
        RepeatedNotDistinct(order, i);
        return Err(MalformedPackage);
      }
      seen := seen + {a};
      if a !in plainHash {
        return Err(MalformedPackage);
      }
      entries := entries + [RootEntry(a, plainHash[a])];
      assert order[..i + 1] == order[..i] + [a];
    }
    assert order[..|order|] == order;
    var todo := plainHash.Keys;
    while todo != {}
      invariant todo <= plainHash.Keys
      invariant forall a :: a in plainHash && a !in todo ==> a in order
      decreases |todo|
    {
      var a :| a in todo;
      if a !in seen {
        return Err(MalformedPackage);
      }
      todo := todo - {a};
    }
    assert entries == seq(|order|, i requires 0 <= i < |order| => RootEntry(order[i], plainHash[order[i]]));
    res := Ok(c.H(JCS(JArray(entries))));
  }

  lemma RootEntryInjective(a: string, p: string, b: string, q: string)
    requires RootEntry(a, p) == RootEntry(b, q)
    ensures a == b && p == q
  {
    var m, n := map["audience" := a, "plain_hash" := p], map["audience" := b, "plain_hash" := q];
    StringsJsonInjective(m, n);
    assert m["audience"] == n["audience"] && m["plain_hash"] == n["plain_hash"];
  }

  /** The root's input determines the ordered audiences and each one's hash. */
  lemma RootBytesDetermine(o1: seq<string>, h1: map<string, string>, o2: seq<string>, h2: map<string, string>)
    requires forall a :: a in o1 ==> a in h1
    requires forall a :: a in o2 ==> a in h2
    requires RootBytes(o1, h1) == RootBytes(o2, h2)
    ensures o1 == o2 && forall a :: a in o1 ==> h1[a] == h2[a]
  {
    hide RootEntry, JCS;
    var e1 := seq(|o1|, i requires 0 <= i < |o1| => RootEntry(o1[i], h1[o1[i]]));
    var e2 := seq(|o2|, i requires 0 <= i < |o2| => RootEntry(o2[i], h2[o2[i]]));
    JCSInjective(JArray(e1), JArray(e2));
    assert |o1| == |o2|;
    forall i | 0 <= i < |o1| ensures o1[i] == o2[i] && h1[o1[i]] == h2[o2[i]] {
      assert e1[i] == e2[i];
      RootEntryInjective(o1[i], h1[o1[i]], o2[i], h2[o2[i]]);
    }
    assert o1 == o2;
  }

  // ----- intent_commitment -----

  function CommitmentJson(intentRef: string, constraintsHash: string, segmentsRoot: string): Json {
    StringsJson(map["intent_ref" := intentRef, "constraints_hash" := constraintsHash, "segments_root" := segmentsRoot])
  }

  /** The bytes intent_commitment hashes. */
  function CommitmentBytes(intentRef: string, constraintsHash: string, segmentsRoot: string): bytes {
    JCS(CommitmentJson(intentRef, constraintsHash, segmentsRoot))
  }

  function IntentCommitment(c: Primitives, intentRef: string, constraintsHash: string, segmentsRoot: string): string {
    "ctx:" + c.H(CommitmentBytes(intentRef, constraintsHash, segmentsRoot))
  }

  lemma CommitmentBytesDetermine(r1: string, h1: string, s1: string, r2: string, h2: string, s2: string)
    requires CommitmentBytes(r1, h1, s1) == CommitmentBytes(r2, h2, s2)
    ensures r1 == r2 && h1 == h2 && s1 == s2
  {
    hide JCS;
    var m := map["intent_ref" := r1, "constraints_hash" := h1, "segments_root" := s1];
    var n := map["intent_ref" := r2, "constraints_hash" := h2, "segments_root" := s2];
    JCSInjective(StringsJson(m), StringsJson(n));
    StringsJsonInjective(m, n);
    assert m["intent_ref"] == n["intent_ref"] && m["constraints_hash"] == n["constraints_hash"] && m["segments_root"] == n["segments_root"];
  }

  /** Each of the three inputs is bound: equal commitments agree on all three, or name a collision. */
  lemma CommitmentBinds(c: Primitives, r1: string, h1: string, s1: string, r2: string, h2: string, s2: string)
    requires IntentCommitment(c, r1, h1, s1) == IntentCommitment(c, r2, h2, s2)
    ensures (r1 == r2 && h1 == h2 && s1 == s2)
         || c.Collision(CommitmentBytes(r1, h1, s1), CommitmentBytes(r2, h2, s2))
  {
    hide CommitmentBytes;
    var x, y := CommitmentBytes(r1, h1, s1), CommitmentBytes(r2, h2, s2);
    SplitAt("ctx:", c.H(x), "ctx:", c.H(y));
    c.HashBinds(x, y);
    if x == y {
      CommitmentBytesDetermine(r1, h1, s1, r2, h2, s2);
    }
  }

  // ----- profile bindings -----

  datatype BindingContext = BindingContext(plainHash: map<string, string>, intentRef: string, constraintsHash: string, segmentsRoot: string)

  /** One named formula over the context; it may fail. */
  datatype BindingSpec = BindingSpec(name: string, compute: BindingContext -> Result<string>)

  /** The value of the last spec with this name: a repeated name is overwritten. */
  function LastNamed(specs: seq<BindingSpec>, name: string): (i: int)
    ensures i == -1 || (0 <= i < |specs| && specs[i].name == name)
    ensures forall k :: i < k < |specs| ==> specs[k].name != name
  {
    if |specs| == 0 then -1
    else if specs[|specs| - 1].name == name then |specs| - 1
    else LastNamed(specs[..|specs| - 1], name)
  }

  function SpecNames(specs: seq<BindingSpec>): set<string> {
    set i | 0 <= i < |specs| :: specs[i].name
  }

  lemma NamedIffSpecName(specs: seq<BindingSpec>, name: string)
    ensures LastNamed(specs, name) >= 0 <==> name in SpecNames(specs)
  {
    if LastNamed(specs, name) < 0 {
      assert forall k :: 0 <= k < |specs| ==> specs[k].name != name;
    }
  }

  /** Every spec succeeds on ctx. */
  ghost predicate AllCompute(specs: seq<BindingSpec>, ctx: BindingContext) {
    forall i :: 0 <= i < |specs| ==> specs[i].compute(ctx).Ok?
  }

  /** m holds, under each spec's name and no other, what the last spec of that name computes. */
  ghost predicate Computed(specs: seq<BindingSpec>, ctx: BindingContext, m: map<string, string>) {
    && (forall k :: k in m <==> LastNamed(specs, k) >= 0)
    && (forall k :: k in m && LastNamed(specs, k) >= 0 ==> specs[LastNamed(specs, k)].compute(ctx) == Ok(m[k]))
  }

  /** Under each spec's name, what the last spec of that name computes. */
  ghost function ComputedValues(specs: seq<BindingSpec>, ctx: BindingContext): (m: map<string, string>)
    requires AllCompute(specs, ctx)
    ensures Computed(specs, ctx, m) && m.Keys == SpecNames(specs)
  {
    forall n ensures LastNamed(specs, n) >= 0 <==> n in SpecNames(specs) { NamedIffSpecName(specs, n); }
    map n | n in SpecNames(specs) && LastNamed(specs, n) >= 0 :: specs[LastNamed(specs, n)].compute(ctx).value
  }

  lemma ComputedUnique(specs: seq<BindingSpec>, ctx: BindingContext, m: map<string, string>, n: map<string, string>)
    requires Computed(specs, ctx, m) && Computed(specs, ctx, n)
    ensures m == n
  {}

  method ComputeBindings(specs: seq<BindingSpec>, ctx: BindingContext) returns (res: Result<Nilable<map<string, string>>>)
    ensures res.Ok? <==> AllCompute(specs, ctx)
    ensures res.Ok? ==> Computed(specs, ctx, Entries(res.value)) && (res.value.Nil? <==> |specs| == 0)
    ensures res.Err? ==> res.error == BindingFailed
  {
    if |specs| == 0 {
      return Ok(Nil);
    }
    var out: map<string, string> := map[];
    for i := 0 to |specs|
      invariant AllCompute(specs[..i], ctx)
      invariant Computed(specs[..i], ctx, out)
    {
      var v := specs[i].compute(ctx);
      if v.Err? {
        return Err(BindingFailed);
      }
      ComputedSnoc(specs[..i], specs[i], ctx, out);
      assert specs[..i + 1] == specs[..i] + [specs[i]];
      out := out[specs[i].name := v.value];
    }
    assert specs[..|specs|] == specs;
    res := Ok(Val(out));
  }

  lemma ComputedSnoc(specs: seq<BindingSpec>, s: BindingSpec, ctx: BindingContext, m: map<string, string>)
    requires Computed(specs, ctx, m) && s.compute(ctx).Ok?
    ensures Computed(specs + [s], ctx, m[s.name := s.compute(ctx).value])
  {
    var all := specs + [s];
    assert all[..|all| - 1] == specs;
    forall k ensures LastNamed(all, k) == if k == s.name then |specs| else LastNamed(specs, k) {}
  }

  // ----- additional authenticated data -----

  function AADJson(ctx: AADContext, segment: string, specVersion: string): Json {
    StringsJson(map["package_id" := ctx.packageID, "segment" := segment, "spec_version" := specVersion,
                    "tenant_id" := ctx.tenantID, "environment" := ctx.environment])
  }

  function AAD(ctx: AADContext, segment: string, specVersion: string): bytes {
    JCS(AADJson(ctx, segment, specVersion))
  }

  /** Two segments share their additional authenticated data only when all five values coincide. */
  lemma AADInjective(c1: AADContext, s1: string, v1: string, c2: AADContext, s2: string, v2: string)
    ensures AAD(c1, s1, v1) == AAD(c2, s2, v2) <==> c1 == c2 && s1 == s2 && v1 == v2
  {
    hide JCS;
    if AAD(c1, s1, v1) == AAD(c2, s2, v2) {
      var m := map["package_id" := c1.packageID, "segment" := s1, "spec_version" := v1,
                   "tenant_id" := c1.tenantID, "environment" := c1.environment];
      var n := map["package_id" := c2.packageID, "segment" := s2, "spec_version" := v2,
                   "tenant_id" := c2.tenantID, "environment" := c2.environment];
      JCSInjective(StringsJson(m), StringsJson(n));
      StringsJsonInjective(m, n);
      assert m["package_id"] == n["package_id"] && m["segment"] == n["segment"] && m["spec_version"] == n["spec_version"]
        && m["tenant_id"] == n["tenant_id"] && m["environment"] == n["environment"];
    }
  }

  // ----- plain_hash -----

  /** JCS of a Go []byte: null for a nil slice, otherwise a base64 string. */
  function PlainBytes(c: Primitives, plaintext: Nilable<bytes>): bytes {
    match plaintext
    case Nil => JCS(JNull)
    case Val(b) => JCS(JString(c.base64(b)))
  }

  lemma PlainBytesInjective(c: Primitives, a: Nilable<bytes>, b: Nilable<bytes>)
    requires c.DecodeInvertsEncode() && PlainBytes(c, a) == PlainBytes(c, b)
    ensures a == b
  {
    hide JCS;
    var x := match a case Nil => JNull case Val(v) => JString(c.base64(v));
    var y := match b case Nil => JNull case Val(v) => JString(c.base64(v));
    JCSInjective(x, y);
    if a.Val? {
      assert c.fromBase64(c.base64(a.value)) == c.fromBase64(c.base64(b.value));
    }
  }
}
