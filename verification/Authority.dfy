/**
 The in-memory intent authority: immutable documents indexed by intent_ref, and a
 consumption counter that no answer depends on.
 */
module Authority {
  import opened Prelude
  import opened Primitives
  import opened Package
  import opened Verify
  import Commitments

  /** A scalar of a projection or a rule; numbers are reals. */
  datatype Value = Null | Bool(b: bool) | Number(n: real) | Text(s: string)

  datatype Rule = Rule(equals: seq<Value>, max: Option<real>, min: Option<real>)

  datatype Constraints = Constraints(version: int, rules: map<string, Rule>)

  /** One entry of the seed directory. */
  datatype Seed = Skipped | Broken | Doc(ref: string, constraints: Constraints)

  /** The canonical encoding of a document; numbers keep it a parameter here. */
  type Encoding = Constraints -> Option<bytes>

  // ----- what the answers are -----

  predicate WithinBounds(r: Rule, n: real) {
    (r.max.Some? ==> n <= r.max.value) && (r.min.Some? ==> r.min.value <= n)
  }

  /** An allowed set, if there is one, is all that counts; otherwise any bounds apply, to numbers only. */
  predicate Satisfies(r: Rule, v: Value) {
    if r.equals != [] then v in r.equals
    else (r.max.None? && r.min.None?) || (v.Number? && WithinBounds(r, v.n))
  }

  /** Every rule's field is present and satisfied. */
  predicate Permits(doc: Constraints, fields: map<string, Value>) {
    forall f :: f in doc.rules ==> f in fields && Satisfies(doc.rules[f], fields[f])
  }

  /** A check's verdict, or the first of its errors. */
  function Verdict(docs: map<string, Constraints>, done: bool, ref: string, fields: Option<map<string, Value>>): Result<bool> {
    if done then Err(Canceled)
    else if ref !in docs then Err(UnknownIntentRef)
    else if fields.None? then Err(BadProjection)
    else Ok(Permits(docs[ref], fields.value))
  }

  /** constraints_hash as a function of the documents alone. */
  function HashOf(c: Primitives, encode: Encoding, docs: map<string, Constraints>, ref: string): Result<string> {
    if ref !in docs then Err(UnknownIntentRef)
    else if encode(docs[ref]).None? then Err(BadSeed)
    else Ok(c.H(encode(docs[ref]).value))
  }

  /** The authority Verify sees when the documents are docs; done is a context already ended. */
  function Served(c: Primitives, encode: Encoding, docs: map<string, Constraints>, done: bool): Verify.Authority {
    ref => if done then Err(Canceled) else HashOf(c, encode, docs, ref)
  }

  // ----- the stateful object -----

  class Authorization {
    var doc: Constraints
    var consumed: nat

    constructor (doc: Constraints)
      ensures this.doc == doc && consumed == 0
    {
      this.doc := doc;
      consumed := 0;
    }
  }

  class Verifier {
    var auths: map<string, Authorization>

    constructor (auths: map<string, Authorization>)
      ensures this.auths == auths
    {
      this.auths := auths;
    }

    /** No two refs share an authorization object. */
    ghost predicate Valid()
      reads this
    {
      forall r, s :: r in auths && s in auths && r != s ==> auths[r] != auths[s]
    }

    ghost function Docs(): map<string, Constraints>
      reads this, auths.Values
    {
      map r | r in auths :: auths[r].doc
    }

    ghost function Consumed(): map<string, nat>
      reads this, auths.Values
    {
      map r | r in auths :: auths[r].consumed
    }

    method Lookup(ref: string) returns (doc: Result<Constraints>)
      ensures doc == if ref in Docs() then Ok(Docs()[ref]) else Err(UnknownIntentRef)
    {
      if ref !in auths {
        return Err(UnknownIntentRef);
      }
      doc := Ok(auths[ref].doc);
    }

    /** done is a context already ended; fields is the projection once decoded to an object, if it decodes. */
    method Check(done: bool, ref: string, fields: Option<map<string, Value>>) returns (allowed: Result<bool>)
      ensures allowed == Verdict(Docs(), done, ref, fields)
    {
      if done {
        return Err(Canceled);
      }
      var doc := Lookup(ref);
      if doc.Err? {
        return Err(doc.error);
      }
      if fields.None? {
        return Err(BadProjection);
      }
      var ok := CheckRules(doc.value, fields.value);
      allowed := Ok(ok);
    }

    method ConstraintsHash(c: Primitives, encode: Encoding, done: bool, ref: string) returns (hash: Result<string>)
      ensures hash == if done then Err(Canceled) else HashOf(c, encode, Docs(), ref)
    {
      if done {
        return Err(Canceled);
      }
      var doc := Lookup(ref);
      if doc.Err? {
        return Err(doc.error);
      }
      var canon := encode(doc.value);
      if canon.None? {
        return Err(BadSeed);
      }
      hash := Ok(c.H(canon.value));
    }

    method RecordUse(ref: string)
      requires Valid()
      modifies auths.Values
      ensures Docs() == old(Docs())
      ensures Consumed() == if ref in old(Consumed()) then old(Consumed())[ref := old(Consumed())[ref] + 1] else old(Consumed())
    {
      if ref in auths {
        var auth := auths[ref];
        auth.consumed := auth.consumed + 1;
        assert Docs() == old(Docs());
        assert Consumed() == old(Consumed())[ref := old(Consumed())[ref] + 1];
      }
    }
  }

  /** The rules are visited in an arbitrary order; the verdict does not depend on it. */
  method CheckRules(doc: Constraints, fields: map<string, Value>) returns (allowed: bool)
    ensures allowed == Permits(doc, fields)
  {
    var todo := doc.rules.Keys;
    while todo != {}
      invariant todo <= doc.rules.Keys
      invariant forall f :: f in doc.rules && f !in todo ==> f in fields && Satisfies(doc.rules[f], fields[f])
      decreases |todo|
    {
      var field :| field in todo;
      if field !in fields {
        return false;
      }
      var ok := Evaluate(doc.rules[field], fields[field]);
      if !ok {
        return false;
      }
      todo := todo - {field};
    }
    allowed := true;
  }

  method Evaluate(r: Rule, val: Value) returns (ok: bool)
    ensures ok == Satisfies(r, val)
  {
    if |r.equals| > 0 {
      for i := 0 to |r.equals|
        invariant val !in r.equals[..i]
      {
        if r.equals[i] == val {
          return true;
        }
      }
      assert r.equals[..|r.equals|] == r.equals;
      return false;
    }
    if r.max.Some? || r.min.Some? {
      if !val.Number? {
        return false;
      }
      if r.max.Some? && val.n > r.max.value {
        return false;
      }
      if r.min.Some? && val.n < r.min.value {
        return false;
      }
    }
    ok := true;
  }

  // ----- loading -----

  /** The refs the readable documents declare, in directory order. */
  function Refs(seeds: seq<Seed>): seq<string> {
    if seeds == [] then []
    else Refs(seeds[..|seeds| - 1]) + (if seeds[|seeds| - 1].Doc? then [seeds[|seeds| - 1].ref] else [])
  }

  ghost predicate Loadable(seeds: seq<Seed>) {
    (forall s :: s in seeds ==> s != Broken && (s.Doc? ==> s.ref != "")) && Distinct(Refs(seeds))
  }

  /** docs is exactly what the seeds declare. */
  ghost predicate Indexes(seeds: seq<Seed>, docs: map<string, Constraints>) {
    && (forall r :: r in docs <==> r in Refs(seeds))
    && (forall s :: s in seeds && s.Doc? ==> s.ref in docs && docs[s.ref] == s.constraints)
  }

  /** The first fault met while reading the entries from position i. */
  function SeedFault(seeds: seq<Seed>, i: nat): Option<Error>
    requires i <= |seeds|
    decreases |seeds| - i
  {
    if i == |seeds| then None
    else
      match seeds[i]
      case Skipped => SeedFault(seeds, i + 1)
      case Broken => Some(BadSeed)
      case Doc(ref, _) =>
        if ref == "" then Some(UnknownIntentRef)
        else if ref in Refs(seeds[..i]) then Some(DuplicateIntentRef)
        else SeedFault(seeds, i + 1)
  }

  /** dir is the directory's entries, if it can be read. */
  method New(dir: Option<seq<Seed>>) returns (res: Result<Verifier>)
    ensures dir.None? ==> res == Err(SeedDirUnreadable)
    ensures dir.Some? ==> SeedFault(dir.value, 0) == if res.Ok? then None else Some(res.error)
    ensures res.Ok? <==> dir.Some? && Loadable(dir.value)
    ensures res.Ok? ==> fresh(res.value) && res.value.Valid() && Indexes(dir.value, res.value.Docs())
    ensures res.Ok? ==> fresh(res.value.auths.Values) && forall r :: r in res.value.Consumed() ==> res.value.Consumed()[r] == 0
  {
    hide Refs, Distinct;
    if dir.None? {
      return Err(SeedDirUnreadable);
    }
    var seeds := dir.value;
    var auths: map<string, Authorization> := map[];
    NothingLoaded();
    assert seeds[..0] == [];
    for i := 0 to |seeds|
      invariant Loadable(seeds[..i]) && SeedFault(seeds, 0) == SeedFault(seeds, i)
      invariant forall r :: r in auths <==> r in Refs(seeds[..i])
      invariant forall r :: r in auths ==> fresh(auths[r]) && auths[r].consumed == 0
      invariant forall r, s :: r in auths && s in auths && r != s ==> auths[r] != auths[s]
      invariant forall s :: s in seeds[..i] && s.Doc? ==> s.ref in auths && auths[s.ref].doc == s.constraints
    {
      var entry := seeds[i];
      LoadStep(seeds, i);
      if entry.Skipped? {
        continue;
      }
      if entry.Broken? {
        return Err(BadSeed);
      }
      if entry.ref == "" {
        return Err(UnknownIntentRef);
      }
      if entry.ref in auths {
        return Err(DuplicateIntentRef);
      }
      var auth := new Authorization(entry.constraints);
      auths := auths[entry.ref := auth];
    }
    assert seeds[..|seeds|] == seeds;
    var v := new Verifier(auths);
    res := Ok(v);
  }

  lemma NothingLoaded()
    ensures Refs([]) == [] && Loadable([])
  {}

  lemma RefsSnoc(seeds: seq<Seed>, i: nat)
    requires i < |seeds|
    ensures seeds[..i + 1] == seeds[..i] + [seeds[i]]
    ensures Refs(seeds[..i + 1]) == Refs(seeds[..i]) + (if seeds[i].Doc? then [seeds[i].ref] else [])
  {
    assert seeds[..i + 1][..i] == seeds[..i];
  }

  lemma DistinctSnoc(r: seq<string>, x: string)
    requires Distinct(r)
    ensures Distinct(r + [x]) <==> x !in r
  {
    var r' := r + [x];
    if x in r {
      assert r'[..|r|] == r;
      RepeatedNotDistinct(r', |r|);
    } else {
      forall j, k | 0 <= j < k < |r'| ensures r'[j] != r'[k] {
        if k == |r| { assert r[j] == r'[j]; }
      }
    }
  }

  /** One more entry: what it adds to the refs, and when the whole directory stops being loadable. */
  lemma LoadStep(seeds: seq<Seed>, i: nat)
    requires i < |seeds| && Loadable(seeds[..i])
    ensures seeds[..i + 1] == seeds[..i] + [seeds[i]]
    ensures Refs(seeds[..i + 1]) == Refs(seeds[..i]) + (if seeds[i].Doc? then [seeds[i].ref] else [])
    ensures Loadable(seeds[..i + 1]) <==> seeds[i] != Broken && (seeds[i].Doc? ==> seeds[i].ref != "" && seeds[i].ref !in Refs(seeds[..i]))
    ensures !Loadable(seeds[..i + 1]) ==> !Loadable(seeds)
  {
    hide Refs, Distinct;
    RefsSnoc(seeds, i);
    if seeds[i].Doc? {
      DistinctSnoc(Refs(seeds[..i]), seeds[i].ref);
    } else {
      assert Refs(seeds[..i + 1]) == Refs(seeds[..i]);
    }
    if Loadable(seeds) {
      LoadablePrefix(seeds, i + 1);
    }
  }

  lemma LoadablePrefix(seeds: seq<Seed>, n: nat)
    requires n <= |seeds| && Loadable(seeds)
    ensures Loadable(seeds[..n])
  {
    hide Refs;
    RefsOfPrefix(seeds, n);
    forall s | s in seeds[..n] ensures s in seeds {}
  }

  lemma {:induction false} RefsOfPrefix(seeds: seq<Seed>, n: nat)
    requires n <= |seeds|
    ensures Refs(seeds[..n]) <= Refs(seeds)
    decreases |seeds| - n
  {
    if n == |seeds| {
      assert seeds[..n] == seeds;
    } else {
      RefsOfPrefix(seeds, n + 1);
      assert seeds[..n + 1][..n] == seeds[..n];
    }
  }

  /** Two authorities loaded from the same directory answer alike. */
  lemma LoadIsReproducible(seeds: seq<Seed>, d1: map<string, Constraints>, d2: map<string, Constraints>)
    requires Indexes(seeds, d1) && Indexes(seeds, d2)
    ensures d1 == d2
  {
    forall r | r in d1 ensures r in d2 && d1[r] == d2[r] {
      var s := DocOfRef(seeds, r);
    }
    assert d1.Keys == d2.Keys;
  }

  lemma {:induction false} DocOfRef(seeds: seq<Seed>, r: string) returns (s: Seed)
    requires r in Refs(seeds)
    ensures s in seeds && s.Doc? && s.ref == r
  {
    var last := seeds[|seeds| - 1];
    if last.Doc? && last.ref == r {
      s := last;
    } else {
      s := DocOfRef(seeds[..|seeds| - 1], r);
    }
  }

  // ----- runs -----

  datatype Call =
    | CheckCall(done: bool, ref: string, fields: Option<map<string, Value>>)
    | HashCall(done: bool, ref: string)
    | UseCall(ref: string)
    | VerifyCall(done: bool, p: Package, keys: Option<IssuerKeys>, specs: seq<Commitments.BindingSpec>)

  datatype Reply =
    | Checked(verdict: Result<bool>)
    | Hashed(hash: Result<string>)
    | Used
    | Verified(findings: Findings)

  /** How often a ref was used in a run. */
  function Uses(calls: seq<Call>, ref: string): nat {
    if calls == [] then 0
    else Uses(calls[..|calls| - 1], ref) + if calls[|calls| - 1] == UseCall(ref) then 1 else 0
  }

  /** What a stateless authority holding docs would reply to one call. */
  ghost function ReplyTo(c: Primitives, encode: Encoding, docs: map<string, Constraints>, call: Call): Reply {
    match call
    case CheckCall(done, ref, fields) => Checked(Verdict(docs, done, ref, fields))
    case HashCall(done, ref) => Hashed(if done then Err(Canceled) else HashOf(c, encode, docs, ref))
    case UseCall(_) => Used
    case VerifyCall(done, p, keys, specs) => Verified(Answer(c, p, VerifyOptions(keys, Some(Served(c, encode, docs, done)), specs)))
  }

  /** Verification asks the authority about one ref only. */
  lemma AnswerAsksOneRef(c: Primitives, p: Package, keys: Option<IssuerKeys>, a: Verify.Authority, b: Verify.Authority,
                         specs: seq<Commitments.BindingSpec>)
    requires a(p.intent.intentRef) == b(p.intent.intentRef)
    ensures Answer(c, p, VerifyOptions(keys, Some(a), specs)) == Answer(c, p, VerifyOptions(keys, Some(b), specs))
  {
    hide FaultOf, SignatureValid, AttestedFindings, WellFormed, Commitments.IntentCommitment;
  }

  /** Verifying a package with this object as the authority. The hash is a read, so when it is asked for makes no difference. */
  method VerifyWith(c: Primitives, encode: Encoding, v: Verifier, done: bool, p: Package, keys: Option<IssuerKeys>,
                    specs: seq<Commitments.BindingSpec>) returns (findings: Findings)
    ensures findings == Answer(c, p, VerifyOptions(keys, Some(Served(c, encode, v.Docs(), done)), specs))
  {
    hide Answer, HashOf;
    var hash := v.ConstraintsHash(c, encode, done, p.intent.intentRef);
    AnswerAsksOneRef(c, p, keys, (ref: string) => hash, Served(c, encode, v.Docs(), done), specs);
    var report := Verify.VerifyPackage(c, p, VerifyOptions(keys, Some((ref: string) => hash), specs));
    findings := report.Fields();
  }

  /** One call. */
  method Serve(c: Primitives, encode: Encoding, v: Verifier, call: Call) returns (reply: Reply)
    requires v.Valid()
    modifies v.auths.Values
    ensures reply == ReplyTo(c, encode, old(v.Docs()), call)
    ensures v.Valid() && v.Docs() == old(v.Docs())
    ensures v.Consumed().Keys == old(v.Consumed()).Keys
    ensures forall r :: r in v.Consumed() ==> v.Consumed()[r] == old(v.Consumed())[r] + if call == UseCall(r) then 1 else 0
  {
    hide Answer, HashOf, Permits, Served;
    match call
    case CheckCall(done, ref, fields) =>
      var allowed := v.Check(done, ref, fields);
      reply := Checked(allowed);
    case HashCall(done, ref) =>
      var hash := v.ConstraintsHash(c, encode, done, ref);
      reply := Hashed(hash);
    case UseCall(ref) =>
      v.RecordUse(ref);
      reply := Used;
    case VerifyCall(done, p, keys, specs) =>
      var findings := VerifyWith(c, encode, v, done, p, keys, specs);
      reply := Verified(findings);
  }

  /**
   Any run of calls, whatever uses are recorded in between, replies to each call as a stateless authority holding the
   loaded documents would: what a package verified as once, it verifies as ever after. Each counter grows by exactly the
   uses of its ref.
   */
  method Run(c: Primitives, encode: Encoding, v: Verifier, calls: seq<Call>) returns (replies: seq<Reply>)
    requires v.Valid()
    modifies v.auths.Values
    ensures |replies| == |calls| && forall i :: 0 <= i < |calls| ==> replies[i] == ReplyTo(c, encode, old(v.Docs()), calls[i])
    ensures v.Valid() && v.Docs() == old(v.Docs())
    ensures v.Consumed().Keys == old(v.Consumed()).Keys
    ensures forall r :: r in v.Consumed() ==> v.Consumed()[r] == old(v.Consumed())[r] + Uses(calls, r)
  {
    hide ReplyTo, Verifier.Docs, Verifier.Consumed, Verifier.Valid;
    replies := [];
    for i := 0 to |calls|
      invariant |replies| == i && forall k :: 0 <= k < i ==> replies[k] == ReplyTo(c, encode, old(v.Docs()), calls[k])
      invariant v.Valid() && v.Docs() == old(v.Docs())
      invariant v.Consumed().Keys == old(v.Consumed()).Keys
      invariant forall r :: r in v.Consumed() ==> v.Consumed()[r] == old(v.Consumed())[r] + Uses(calls[..i], r)
    {
      assert calls[..i + 1][..i] == calls[..i];
      var reply := Serve(c, encode, v, calls[i]);
      replies := replies + [reply];
    }
    assert calls[..|calls|] == calls;
  }

  /** An amendment mints a new ref: what verified against the old documents verifies against any extension of them. */
  lemma AmendmentKeepsVerdicts(c: Primitives, encode: Encoding, docs: map<string, Constraints>, amended: map<string, Constraints>,
                               done: bool, p: Package, keys: Option<IssuerKeys>, specs: seq<Commitments.BindingSpec>)
    requires forall r :: r in docs ==> r in amended && amended[r] == docs[r]
    requires Answer(c, p, VerifyOptions(keys, Some(Served(c, encode, docs, done)), specs)).OK()
    ensures Answer(c, p, VerifyOptions(keys, Some(Served(c, encode, amended, done)), specs)).OK()
  {
    AnswerIsExact(c, p, VerifyOptions(keys, Some(Served(c, encode, docs, done)), specs));
    AnswerIsExact(c, p, VerifyOptions(keys, Some(Served(c, encode, amended, done)), specs));
    hide Answer, WellFormed, SignatureValid, CipherHashMatches, BindingMatches, RecomputedRoot;
  }

  // ----- a rule, case by case -----

  /** An allowed set is a membership test; bounds include their ends and admit numbers only; a rule with neither admits anything. */
  lemma RuleAdmits(r: Rule, v: Value)
    ensures r.equals != [] ==> (Satisfies(r, v) <==> exists i :: 0 <= i < |r.equals| && r.equals[i] == v)
    ensures r.equals == [] && r.max == None && r.min == None ==> Satisfies(r, v)
    ensures r.equals == [] && (r.max.Some? || r.min.Some?) && !v.Number? ==> !Satisfies(r, v)
    ensures r.equals == [] && v.Number? ==>
      (Satisfies(r, v) <==> !(r.max.Some? && v.n > r.max.value) && !(r.min.Some? && v.n < r.min.value))
  {}
}
