/**
 What a verified package is bound to. Hashes are not assumed collision-free: each result
 says that two values are equal, or that two named inputs, one computed from each
 package, are different with the same SHA-256.
 */
module Binding {
  import opened Prelude
  import opened Primitives
  import opened Package
  import opened Commitments
  import opened SigningView
  import opened X25519
  import opened Verify
  import O = Open

  /** The bytes p's intent_commitment is the hash of. */
  function CommitmentOf(p: Package): bytes {
    CommitmentBytes(p.intent.intentRef, p.intent.constraintsHash, p.bindings.segmentsRoot)
  }

  /** The bytes p's segments_root is the hash of, when every ordered audience has a manifest entry. */
  function RootOf(p: Package): bytes {
    if forall a :: a in Order(p) ==> a in ManifestSegments(p) then RootBytes(Order(p), PlainHashes(p)) else []
  }

  /** Two packages under the same authorization, with the same audiences in the same order and the same plaintext hashes. */
  ghost predicate SameContent(p: Package, q: Package) {
    && p.intent.intentRef == q.intent.intentRef
    && p.intent.constraintsHash == q.intent.constraintsHash
    && Order(p) == Order(q)
    && forall a :: a in Order(p) ==>
         a in ManifestSegments(p) && a in ManifestSegments(q) && ManifestSegments(p)[a].plainHash == ManifestSegments(q)[a].plainHash
  }

  /** The two packages' commitment inputs, or their root inputs, collide. */
  ghost predicate ChainCollides(c: Primitives, p: Package, q: Package) {
    c.Collision(CommitmentOf(p), CommitmentOf(q)) || c.Collision(RootOf(p), RootOf(q))
  }

  lemma AcceptedFacts(c: Primitives, p: Package, opt: VerifyOptions)
    requires AcceptedLevel1(c, p, opt)
    ensures forall a :: a in Order(p) <==> a in ManifestSegments(p)
    ensures forall a :: a in Order(p) ==> a in p.segments && CipherHashMatches(c, ManifestSegments(p)[a], p.segments[a])
    ensures p.bindings.segmentsRoot == c.H(RootOf(p)) && RootOf(p) == RootBytes(Order(p), PlainHashes(p))
    ensures SignedBytes(p).Ok?
  {
    hide CipherHashMatches, BindingMatches, RootBytes, NamesExactlyRequired, SignedBytes;
    assert forall a :: a in Order(p) ==> a in ManifestSegments(p);
  }

  lemma RootBinds(c: Primitives, p: Package, q: Package, opt1: VerifyOptions, opt2: VerifyOptions)
    requires AcceptedLevel1(c, p, opt1) && AcceptedLevel1(c, q, opt2)
    requires p.bindings.segmentsRoot == q.bindings.segmentsRoot
    ensures c.Collision(RootOf(p), RootOf(q)) ||
      (Order(p) == Order(q) && forall a :: a in Order(p) ==>
         a in ManifestSegments(p) && a in ManifestSegments(q) && ManifestSegments(p)[a].plainHash == ManifestSegments(q)[a].plainHash)
  {
    AcceptedFacts(c, p, opt1);
    AcceptedFacts(c, q, opt2);
    hide AcceptedLevel1, CipherHashMatches, RootBytes, RootOf;
    c.HashBinds(RootOf(p), RootOf(q));
    if RootOf(p) == RootOf(q) {
      RootBytesDetermine(Order(p), PlainHashes(p), Order(q), PlainHashes(q));
      forall a | a in Order(p) ensures ManifestSegments(p)[a].plainHash == ManifestSegments(q)[a].plainHash {
        assert PlainHashes(p)[a] == PlainHashes(q)[a];
      }
    }
  }

  /**
   Two packages that verify completely and carry the same intent_commitment have the same content. The issuers, the
   verifiers' keys and the two authorities may all differ.
   */
  lemma CommitmentFixesContent(c: Primitives, p: Package, opt1: VerifyOptions, q: Package, opt2: VerifyOptions)
    requires Answer(c, p, opt1).OK() && Answer(c, q, opt2).OK()
    requires p.bindings.intentCommitment == q.bindings.intentCommitment
    ensures SameContent(p, q) || ChainCollides(c, p, q)
  {
    AnswerIsExact(c, p, opt1);
    AnswerIsExact(c, q, opt2);
    hide AcceptedLevel1, Answer, CommitmentBytes, RootOf;
    CommitmentBinds(c, p.intent.intentRef, p.intent.constraintsHash, p.bindings.segmentsRoot,
                    q.intent.intentRef, q.intent.constraintsHash, q.bindings.segmentsRoot);
    if !ChainCollides(c, p, q) {
      RootBinds(c, p, q, opt1, opt2);
    }
  }

  /** Under one intent_commitment, whoever opens an audience's segment gets the same plaintext. */
  lemma CommitmentFixesPlaintext(c: Primitives, p: Package, opt1: VerifyOptions, w1: KeyWrapper, priv1: bytes,
                                 q: Package, opt2: VerifyOptions, w2: KeyWrapper, priv2: bytes)
    requires c.DecodeInvertsEncode()
    requires Answer(c, p, opt1).OK() && Answer(c, q, opt2).OK()
    requires p.bindings.intentCommitment == q.bindings.intentCommitment
    requires O.Opened(c, w1, p, priv1, opt1).Ok? && O.Opened(c, w2, q, priv2, opt2).Ok?
    ensures var (a, x), (b, y) := O.Opened(c, w1, p, priv1, opt1).value, O.Opened(c, w2, q, priv2, opt2).value;
      a == b ==> x == y || c.Collision(PlainBytes(c, x), PlainBytes(c, y)) || ChainCollides(c, p, q)
  {
    CommitmentFixesContent(c, p, opt1, q, opt2);
    hide Answer, O.Opened, ChainCollides;
    OpeningsAgree(c, p, opt1, w1, priv1, q, opt2, w2, priv2);
  }

  /** Two openings of one audience agree whenever the signed plaintext hashes do. */
  lemma OpeningsAgree(c: Primitives, p: Package, opt1: VerifyOptions, w1: KeyWrapper, priv1: bytes,
                      q: Package, opt2: VerifyOptions, w2: KeyWrapper, priv2: bytes)
    requires c.DecodeInvertsEncode()
    requires O.Opened(c, w1, p, priv1, opt1).Ok? && O.Opened(c, w2, q, priv2, opt2).Ok?
    ensures var (a, x), (b, y) := O.Opened(c, w1, p, priv1, opt1).value, O.Opened(c, w2, q, priv2, opt2).value;
      && a in Order(p) && b in Order(q)
      && (a == b && a in ManifestSegments(p) && a in ManifestSegments(q)
            && ManifestSegments(p)[a].plainHash == ManifestSegments(q)[a].plainHash ==>
          x == y || c.Collision(PlainBytes(c, x), PlainBytes(c, y)))
  {
    var (a, x) := O.Opened(c, w1, p, priv1, opt1).value;
    var (b, y) := O.Opened(c, w2, q, priv2, opt2).value;
    O.OpenedImplies(c, w1, p, priv1, opt1);
    O.OpenedImplies(c, w2, q, priv2, opt2);
    hide O.Opened, PlainBytes, AcceptedLevel1;
    if c.H(PlainBytes(c, x)) == c.H(PlainBytes(c, y)) {
      c.HashBinds(PlainBytes(c, x), PlainBytes(c, y));
      if PlainBytes(c, x) == PlainBytes(c, y) {
        PlainBytesInjective(c, x, y);
      }
    }
  }

  // ----- the signature reaches the unsigned segments -----

  /** The decoded ciphertext and tag of a's segment, empty if there is none. */
  function CiphertextOf(c: Primitives, p: Package, a: string): bytes {
    if a in p.segments && Combined(c, p.segments[a]).Some? then Combined(c, p.segments[a]).value else []
  }

  /** Equal signed bytes mean equal manifests, so equal ciphertexts behind them, though segments itself is not signed. */
  lemma SignedBytesFixCiphertexts(c: Primitives, p: Package, opt1: VerifyOptions, q: Package, opt2: VerifyOptions, a: string)
    requires Answer(c, p, opt1).Level1() && Answer(c, q, opt2).Level1()
    requires SignedBytes(p) == SignedBytes(q) && a in Order(p)
    ensures a in Order(q) && a in p.segments && a in q.segments
    ensures Combined(c, p.segments[a]).Some? && Combined(c, q.segments[a]).Some?
    ensures Combined(c, p.segments[a]) == Combined(c, q.segments[a]) || c.Collision(CiphertextOf(c, p, a), CiphertextOf(c, q, a))
  {
    AnswerIsExact(c, p, opt1);
    AnswerIsExact(c, q, opt2);
    AcceptedFacts(c, p, opt1);
    AcceptedFacts(c, q, opt2);
    hide AcceptedLevel1, Answer, SignedBytes, Combined, RootOf, RootBytes;
    SignedBytesDetermine(p, q);
    assert Order(p) == Order(q) && ManifestSegments(p) == ManifestSegments(q);
    assert CipherHashMatches(c, ManifestSegments(p)[a], p.segments[a]);
    assert CipherHashMatches(c, ManifestSegments(q)[a], q.segments[a]);
    c.HashBinds(CiphertextOf(c, p, a), CiphertextOf(c, q, a));
  }

  /** Two packages with the same signed bytes open to the same plaintext for an audience, whatever their unsigned parts. */
  lemma SignedBytesFixPlaintext(c: Primitives, p: Package, opt1: VerifyOptions, w1: KeyWrapper, priv1: bytes,
                                q: Package, opt2: VerifyOptions, w2: KeyWrapper, priv2: bytes)
    requires c.DecodeInvertsEncode()
    requires O.Opened(c, w1, p, priv1, opt1).Ok? && O.Opened(c, w2, q, priv2, opt2).Ok?
    requires SignedBytes(p) == SignedBytes(q)
    ensures var (a, x), (b, y) := O.Opened(c, w1, p, priv1, opt1).value, O.Opened(c, w2, q, priv2, opt2).value;
      a == b ==> x == y || c.Collision(PlainBytes(c, x), PlainBytes(c, y))
  {
    hide O.Opened, AcceptedLevel1, SignedBytes, PlainBytes, RootOf, RootBytes;
    O.OpenedImplies(c, w1, p, priv1, opt1);
    AcceptedFacts(c, p, O.Offline(opt1));
    OpeningsAgree(c, p, opt1, w1, priv1, q, opt2, w2, priv2);
    SignedBytesDetermine(p, q);
    assert ManifestSegments(p) == ManifestSegments(q);
  }

  // ----- what the verdict does not depend on -----

  /** q differs from p only in its sealed segments, and there not in whether, or with which bytes, an ordered audience has one. */
  ghost predicate SameCiphertexts(c: Primitives, p: Package, q: Package) {
    && q == p.(sealed := q.sealed)
    && forall a :: a in Order(p) ==>
         && (a in p.segments <==> a in q.segments)
         && (a in p.segments && a in q.segments ==> Combined(c, p.segments[a]) == Combined(c, q.segments[a]))
  }

  /**
   Verify's answer depends on the sealed segments only through the ciphertext and tag bytes of the ordered audiences: not on
   the ephemeral keys, the wrapped keys or the nonces, nor on the segments of anyone else.
   */
  lemma AnswerReadsCiphertextsOnly(c: Primitives, p: Package, q: Package, opt: VerifyOptions)
    requires SameCiphertexts(c, p, q)
    ensures Answer(c, p, opt) == Answer(c, q, opt)
  {
    hide Combined, SignedBytes, NamesExactlyRequired, NoCollision, IntentCommitment, AttestedFindings, WellFormed, SUPPORTED_SPEC_VERSION;
    SignedBytesIgnoreSegments(p, q.sealed);
    OrderFaultSame(c, p, q, 0);
    FaultNoneIffWellFormed(c, p);
    FaultNoneIffWellFormed(c, q);
    assert FaultOf(c, p) == FaultOf(c, q);
    hide FaultOf;
    if WellFormed(c, p) {
      SameAttested(c, p, q, opt.bindingSpecs);
    }
  }

  lemma SameAttested(c: Primitives, p: Package, q: Package, specs: seq<BindingSpec>)
    requires SameCiphertexts(c, p, q) && WellFormed(c, p) && WellFormed(c, q)
    ensures AttestedFindings(c, p, specs) == AttestedFindings(c, q, specs)
  {
    hide Combined, NamesExactlyRequired, NoCollision, RootBytes, BindingFindings;
    assert (map a | a in Order(p) :: CipherHashMatches(c, ManifestSegments(p)[a], p.segments[a]))
        == (map a | a in Order(q) :: CipherHashMatches(c, ManifestSegments(q)[a], q.segments[a]));
    assert PlainHashes(p) == PlainHashes(q);
    assert ContextOf(c, p) == ContextOf(c, q);
  }

  lemma SignedBytesIgnoreSegments(p: Package, s: Nilable<map<string, SealedSegment>>)
    ensures SignedBytes(p.(sealed := s)) == SignedBytes(p)
  {
    assert SigningFields(p.(sealed := s)) == SigningFields(p);
  }

  lemma {:induction false} OrderFaultSame(c: Primitives, p: Package, q: Package, i: nat)
    requires SameCiphertexts(c, p, q) && i <= |Order(p)|
    ensures OrderFault(p, i) == OrderFault(q, i)
    decreases |Order(p)| - i
  {
    hide Combined;
    if i < |Order(p)| {
      OrderFaultSame(c, p, q, i + 1);
    }
  }

  /** p with every nonce replaced by the encoding of no bytes. */
  function WithoutNonces(c: Primitives, p: Package): Package {
    p.(sealed := Val(map a | a in p.segments :: p.segments[a].(nonce := c.base64Url([]))))
  }

  /** So an OK package need not open: without its nonces, each package verifies as before and no key opens any of it. */
  lemma OKIsNotOpenable(c: Primitives, p: Package, opt: VerifyOptions, w: KeyWrapper, priv: bytes)
    requires c.DecodeInvertsEncode()
    ensures Answer(c, WithoutNonces(c, p), opt) == Answer(c, p, opt)
    ensures O.Opened(c, w, WithoutNonces(c, p), priv, opt)
         == Err(if Answer(c, p, O.Offline(opt)).Level1() then DecryptionFailed else IntegrityCheckFailed)
  {
    var q := WithoutNonces(c, p);
    assert SameCiphertexts(c, p, q);
    AnswerReadsCiphertextsOnly(c, p, q, opt);
    AnswerReadsCiphertextsOnly(c, p, q, O.Offline(opt));
    hide Answer, O.HolderOf, O.Recovered;
    var holder := O.HolderOf(Entries(q.cnf), w, priv);
    if holder.Some? {
      NothingRecovered(c, p, w, holder.value, priv);
    }
  }

  lemma NothingRecovered(c: Primitives, p: Package, w: KeyWrapper, a: string, priv: bytes)
    requires c.DecodeInvertsEncode()
    ensures O.Recovered(c, w, WithoutNonces(c, p), a, priv) == Err(DecryptionFailed)
  {
    hide Combined, AAD, PlainBytes;
    assert c.fromBase64Url(c.base64Url([])) == Some([]);
  }

  // ----- the boundary between ciphertext and tag carries no meaning -----

  /** The two sealed segments differ at most in where the same bytes are cut into ciphertext and tag. */
  ghost predicate SameBytes(c: Primitives, s: SealedSegment, t: SealedSegment) {
    s.epk == t.epk && s.dekWrapped == t.dekWrapped && s.nonce == t.nonce && Combined(c, s) == Combined(c, t)
  }

  ghost predicate SameButBoundaries(c: Primitives, p: Package, q: Package) {
    && q == p.(sealed := q.sealed)
    && p.segments.Keys == q.segments.Keys
    && forall a :: a in p.segments ==> SameBytes(c, p.segments[a], q.segments[a])
  }

  /** Moving bytes across the boundary changes neither Verify's report nor what any key opens. */
  lemma BoundaryDoesNotMatter(c: Primitives, p: Package, q: Package, opt: VerifyOptions, w: KeyWrapper, priv: bytes)
    requires SameButBoundaries(c, p, q)
    ensures Answer(c, p, opt) == Answer(c, q, opt)
    ensures O.Opened(c, w, p, priv, opt) == O.Opened(c, w, q, priv, opt)
  {
    BoundariesKeepCiphertexts(c, p, q);
    AnswerReadsCiphertextsOnly(c, p, q, opt);
    AnswerReadsCiphertextsOnly(c, p, q, O.Offline(opt));
    hide Answer, O.HolderOf, O.Recovered, SameButBoundaries, SameCiphertexts;
    assert p.cnf == q.cnf by { SameCnf(c, p, q); }
    var holder := O.HolderOf(Entries(p.cnf), w, priv);
    if holder.Some? {
      BoundaryRecovered(c, p, q, w, holder.value, priv);
    }
  }

  lemma SameCnf(c: Primitives, p: Package, q: Package)
    requires SameButBoundaries(c, p, q)
    ensures p.cnf == q.cnf
  {}

  lemma BoundariesKeepCiphertexts(c: Primitives, p: Package, q: Package)
    requires SameButBoundaries(c, p, q)
    ensures SameCiphertexts(c, p, q)
  {
    hide Combined;
    forall a ensures a in p.segments <==> a in q.segments {
      assert a in p.segments.Keys <==> a in q.segments.Keys;
    }
    forall a | a in p.segments ensures Combined(c, p.segments[a]) == Combined(c, q.segments[a]) {
      assert SameBytes(c, p.segments[a], q.segments[a]);
    }
  }

  lemma BoundaryRecovered(c: Primitives, p: Package, q: Package, w: KeyWrapper, a: string, priv: bytes)
    requires SameButBoundaries(c, p, q)
    ensures O.Recovered(c, w, p, a, priv) == O.Recovered(c, w, q, a, priv)
  {
    hide Combined, AAD, PlainBytes, O.Decrypt;
    assert a in p.segments <==> a in q.segments.Keys;
    if a in p.segments {
      assert O.Decoded(c, p.segments[a]) == O.Decoded(c, q.segments[a]);
    }
    hide O.Decoded;
  }
}
