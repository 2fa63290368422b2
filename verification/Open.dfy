/**
 Opening: the holder of one private key recovers one segment. The audience is found by the
 key's thumbprint, never named by the caller.
 */
module Open {
  import opened Prelude
  import opened Primitives
  import opened Package
  import opened Commitments
  import opened X25519
  import opened Verify
  import opened SigningView
  import S = Seal

  /** The wrapper as Open uses it; every Unwrap is counted, and every buffer it returned is kept. */
  class Unwrapper {
    const w: KeyWrapper
    var unwraps: nat
    ghost var deks: set<array<byte>>

    constructor (w: KeyWrapper)
      ensures this.w == w && unwraps == 0 && deks == {}
    {
      this.w := w;
      unwraps := 0;
      deks := {};
    }

    method Unwrap(priv: bytes, epk: bytes, wrapped: bytes) returns (dek: Option<array<byte>>)
      modifies this
      ensures unwraps == old(unwraps) + 1
      ensures dek.Some? <==> w.unwrap(priv, epk, wrapped).Ok?
      ensures dek.Some? ==> fresh(dek.value) && dek.value[..] == w.unwrap(priv, epk, wrapped).value && deks == old(deks) + {dek.value}
      ensures dek.None? ==> deks == old(deks)
    {
      unwraps := unwraps + 1;
      var r := w.unwrap(priv, epk, wrapped);
      if r.Err? {
        return None;
      }
      var key := r.value;
      var buf := new byte[|key|](i requires 0 <= i < |key| => key[i]);
      deks := deks + {buf};
      dek := Some(buf);
    }
  }

  // ----- what Open returns -----

  /** The thumbprint of the public half of priv, if it has one. */
  function ThumbprintOf(w: KeyWrapper, priv: bytes): Option<string> {
    var pub := w.publicKey(priv);
    if pub.Err? then None
    else
      var jkt := w.thumbprint(pub.value);
      if jkt.Err? then None else Some(jkt.value)
  }

  /** a is the one audience in cnf whose thumbprint is jkt. */
  ghost predicate OnlyMatch(cnf: map<string, KeyConfirmation>, jkt: string, a: string) {
    a in cnf && cnf[a].jkt == jkt && forall b :: b in cnf && cnf[b].jkt == jkt ==> b == a
  }

  /** The audience priv belongs to: none when no entry of cnf matches, or several do. */
  ghost function HolderOf(cnf: map<string, KeyConfirmation>, w: KeyWrapper, priv: bytes): Option<string> {
    var jkt := ThumbprintOf(w, priv);
    if jkt.Some? && exists a :: OnlyMatch(cnf, jkt.value, a) then
      var a :| OnlyMatch(cnf, jkt.value, a); Some(a)
    else None
  }

  /** The fields of a sealed segment that opening needs, decoded. */
  datatype Wire = Wire(epk: bytes, wrapped: bytes, nonce: bytes, combined: bytes)

  function Decoded(c: Primitives, s: SealedSegment): Option<Wire> {
    var epk, wrapped, nonce, combined := c.fromBase64Url(s.epk.x), c.fromBase64Url(s.dekWrapped), c.fromBase64Url(s.nonce), Combined(c, s);
    if epk.Some? && wrapped.Some? && nonce.Some? && combined.Some?
    then Some(Wire(epk.value, wrapped.value, nonce.value, combined.value)) else None
  }

  /** Decrypt of the library. Go's GCM returns a nil slice for an empty plaintext. */
  function Decrypt(c: Primitives, dek: bytes, nonce: bytes, combined: bytes, aad: bytes): Option<Nilable<bytes>> {
    if |dek| != 32 || |nonce| != NONCE_SIZE then None
    else
      match c.gcmOpen(dek, nonce, combined, aad)
      case None => None
      case Some(p) => Some(if p == [] then Nil else Val(p))
  }

  /** The plaintext of a's segment under priv, checked against the signed plain_hash. */
  function Recovered(c: Primitives, w: KeyWrapper, p: Package, a: string, priv: bytes): Result<Nilable<bytes>> {
    if a !in ManifestSegments(p) || a !in p.segments || Decoded(c, p.segments[a]).None? then Err(DecryptionFailed)
    else
      var wire := Decoded(c, p.segments[a]).value;
      var dek := w.unwrap(priv, wire.epk, wire.wrapped);
      if dek.Err? then Err(DecryptionFailed)
      else
        var plaintext := Decrypt(c, dek.value, wire.nonce, wire.combined, AAD(p.manifest.aadContext, a, p.specVersion));
        if plaintext.None? then Err(DecryptionFailed)
        else if c.H(PlainBytes(c, plaintext.value)) != ManifestSegments(p)[a].plainHash then Err(HashMismatch)
        else Ok(plaintext.value)
  }

  /** Whatever authority the caller supplies, opening never consults it. */
  function Offline(opt: VerifyOptions): VerifyOptions { VerifyOptions(opt.issuerKey, None, opt.bindingSpecs) }

  ghost function Opened(c: Primitives, w: KeyWrapper, p: Package, priv: bytes, opt: VerifyOptions): Result<(string, Nilable<bytes>)> {
    if !Answer(c, p, Offline(opt)).Level1() then Err(IntegrityCheckFailed)
    else if HolderOf(Entries(p.cnf), w, priv).None? then Err(DecryptionFailed)
    else
      var a := HolderOf(Entries(p.cnf), w, priv).value;
      var plaintext := Recovered(c, w, p, a, priv);
      if plaintext.Err? then Err(plaintext.error) else Ok((a, plaintext.value))
  }

  // ----- the methods -----

  /** The loop visits cnf in an arbitrary order; the match does not depend on it. */
  method MatchingAudience(cnf: map<string, KeyConfirmation>, w: KeyWrapper, priv: bytes) returns (audience: Option<string>)
    ensures audience == HolderOf(cnf, w, priv)
  {
    var pub := w.publicKey(priv);
    if pub.Err? {
      return None;
    }
    var jkt := w.thumbprint(pub.value);
    if jkt.Err? {
      return None;
    }
    audience := FindOnly(cnf, jkt.value);
  }

  method FindOnly(cnf: map<string, KeyConfirmation>, jkt: string) returns (audience: Option<string>)
    ensures audience.Some? ==> OnlyMatch(cnf, jkt, audience.value)
    ensures audience.None? ==> forall a :: !OnlyMatch(cnf, jkt, a)
  {
    var matched := "";
    var found := 0;
    var todo := cnf.Keys;
    ghost var other := "";
    while todo != {}
      invariant todo <= cnf.Keys
      invariant found == 0 ==> forall a :: a in cnf && a !in todo ==> cnf[a].jkt != jkt
      invariant found >= 1 ==> matched in cnf && matched !in todo && cnf[matched].jkt == jkt
      invariant found == 1 ==> forall a :: a in cnf && a !in todo && cnf[a].jkt == jkt ==> a == matched
      invariant found >= 2 ==> other in cnf && other != matched && cnf[other].jkt == jkt
      decreases |todo|
    {
      var name :| name in todo;
      if cnf[name].jkt == jkt {
        other := matched;
        matched := name;
        found := found + 1;
      }
      todo := todo - {name};
    }
    if found != 1 {
      return None;
    }
    audience := Some(matched);
  }

  method DecodeSealedSegment(c: Primitives, sealed: SealedSegment) returns (wire: Option<Wire>)
    ensures wire == Decoded(c, sealed)
  {
    var epk := c.fromBase64Url(sealed.epk.x);
    if epk.None? { return None; }
    var wrapped := c.fromBase64Url(sealed.dekWrapped);
    if wrapped.None? { return None; }
    var nonce := c.fromBase64Url(sealed.nonce);
    if nonce.None? { return None; }
    var ciphertext := c.fromBase64Url(sealed.ciphertext);
    if ciphertext.None? { return None; }
    var tag := c.fromBase64Url(sealed.tag);
    if tag.None? { return None; }
    wire := Some(Wire(epk.value, wrapped.value, nonce.value, ciphertext.value + tag.value));
  }

  method Open(c: Primitives, p: Option<Package>, priv: bytes, port: Unwrapper, opt: VerifyOptions) returns (res: Result<(string, Nilable<bytes>)>)
    modifies port
    ensures res == if p.None? then Err(NilPackage) else Opened(c, port.w, p.value, priv, opt)
    // Nothing is unwrapped before Level 1 has passed and the key has matched exactly one audience, and then at most once.
    ensures port.unwraps <= old(port.unwraps) + 1
    ensures port.unwraps > old(port.unwraps) ==>
      p.Some? && Answer(c, p.value, Offline(opt)).Level1() && HolderOf(Entries(p.value.cnf), port.w, priv).Some?
    ensures old(port.deks) <= port.deks
    ensures forall d :: d in port.deks - old(port.deks) ==> fresh(d) && S.Zeroed(d)
  {
    hide Answer, HolderOf, Recovered;
    var verified := Verify.Verify(c, p, Offline(opt));
    if verified.Err? {
      return Err(verified.error);
    }
    var report := verified.value;
    var passed := Report.Level1(report);
    if !passed {
      return Err(IntegrityCheckFailed);
    }
    var audience := MatchingAudience(Entries(p.value.cnf), port.w, priv);
    if audience.None? {
      return Err(DecryptionFailed);
    }
    var plaintext := Recover(c, p.value, audience.value, priv, port);
    if plaintext.Err? {
      return Err(plaintext.error);
    }
    res := Ok((audience.value, plaintext.value));
  }

  /** Open from the matched audience on. The recovered key's buffer is zero on every way out. */
  method Recover(c: Primitives, p: Package, audience: string, priv: bytes, port: Unwrapper) returns (res: Result<Nilable<bytes>>)
    modifies port
    ensures res == Recovered(c, port.w, p, audience, priv)
    ensures old(port.unwraps) <= port.unwraps <= old(port.unwraps) + 1
    ensures old(port.deks) <= port.deks
    ensures forall d :: d in port.deks - old(port.deks) ==> fresh(d) && S.Zeroed(d)
  {
    hide AAD, PlainBytes, Decoded, Decrypt;
    if audience !in Entries(p.manifest.segments) {
      return Err(DecryptionFailed);
    }
    var seg := Entries(p.manifest.segments)[audience];
    if audience !in p.segments {
      return Err(DecryptionFailed);
    }
    var wire := DecodeSealedSegment(c, p.segments[audience]);
    if wire.None? {
      return Err(DecryptionFailed);
    }
    var dek := port.Unwrap(priv, wire.value.epk, wire.value.wrapped);
    if dek.None? {
      return Err(DecryptionFailed);
    }
    var aad := AAD(p.manifest.aadContext, audience, p.specVersion);
    var plaintext := Decrypt(c, dek.value[..], wire.value.nonce, wire.value.combined, aad);
    S.Zero(dek.value);
    if plaintext.None? {
      return Err(DecryptionFailed);
    }
    if c.H(PlainBytes(c, plaintext.value)) != seg.plainHash {
      return Err(HashMismatch);
    }
    res := Ok(plaintext.value);
  }

  // ----- what a successful opening implies -----

  /** A success names the one matching audience, over a Level 1 package, with the signed plaintext. */
  lemma OpenedImplies(c: Primitives, w: KeyWrapper, p: Package, priv: bytes, opt: VerifyOptions)
    requires Opened(c, w, p, priv, opt).Ok?
    ensures var (a, plaintext) := Opened(c, w, p, priv, opt).value;
      && AcceptedLevel1(c, p, Offline(opt))
      && ThumbprintOf(w, priv).Some? && OnlyMatch(Entries(p.cnf), ThumbprintOf(w, priv).value, a)
      && a in Order(p) && c.H(PlainBytes(c, plaintext)) == ManifestSegments(p)[a].plainHash
  {
    hide Answer, AcceptedLevel1, Decoded, Decrypt, PlainBytes;
    AnswerIsExact(c, p, Offline(opt));
    Level1Order(c, p, Offline(opt));
  }

  lemma Level1Order(c: Primitives, p: Package, opt: VerifyOptions)
    requires AcceptedLevel1(c, p, opt)
    ensures forall a :: a in ManifestSegments(p) <==> a in Order(p)
  {
    hide CipherHashMatches, BindingMatches, SignatureValid, RootBytes, NamesExactlyRequired, NoCollision;
  }

  /** No entry of cnf carries jkt, or two different ones do. */
  ghost predicate NoneOrSeveral(cnf: map<string, KeyConfirmation>, jkt: string) {
    || (forall a :: a in cnf ==> cnf[a].jkt != jkt)
    || (exists a, b :: a in cnf && b in cnf && a != b && cnf[a].jkt == jkt && cnf[b].jkt == jkt)
  }

  /** A key has no holder exactly when it has no thumbprint, or no entry or several entries carry it. */
  lemma NoHolderIff(cnf: map<string, KeyConfirmation>, w: KeyWrapper, priv: bytes)
    ensures HolderOf(cnf, w, priv) == None <==> ThumbprintOf(w, priv).None? || NoneOrSeveral(cnf, ThumbprintOf(w, priv).value)
  {
    var jkt := ThumbprintOf(w, priv);
    if jkt.Some? && !NoneOrSeveral(cnf, jkt.value) {
      var a :| a in cnf && cnf[a].jkt == jkt.value;
      assert OnlyMatch(cnf, jkt.value, a);
    }
  }

  /** No match and several matches fail alike, and with the one error that says nothing more; a bad package fails first. */
  lemma NoOrManyMatchesFail(c: Primitives, w: KeyWrapper, p: Package, priv: bytes, opt: VerifyOptions)
    requires ThumbprintOf(w, priv).Some? ==> NoneOrSeveral(Entries(p.cnf), ThumbprintOf(w, priv).value)
    ensures Opened(c, w, p, priv, opt) == Err(if Answer(c, p, Offline(opt)).Level1() then DecryptionFailed else IntegrityCheckFailed)
  {
    hide Answer, HolderOf, NoneOrSeveral;
    NoHolderIff(Entries(p.cnf), w, priv);
  }

  // ----- the opening in the primitives' own terms -----

  /** What opening a's segment yields before the hash check: the dek, and what GCM authenticates under it. */
  ghost predicate Authenticates(c: Primitives, w: KeyWrapper, p: Package, priv: bytes, a: string, plaintext: bytes) {
    && a in p.segments
    && var s := p.segments[a];
    && c.fromBase64Url(s.epk.x).Some? && c.fromBase64Url(s.dekWrapped).Some? && c.fromBase64Url(s.nonce).Some?
    && c.fromBase64Url(s.ciphertext).Some? && c.fromBase64Url(s.tag).Some?
    && var dek := w.unwrap(priv, c.fromBase64Url(s.epk.x).value, c.fromBase64Url(s.dekWrapped).value);
    && dek.Ok? && |dek.value| == 32 && |c.fromBase64Url(s.nonce).value| == 12
    && c.gcmOpen(dek.value, c.fromBase64Url(s.nonce).value, c.fromBase64Url(s.ciphertext).value + c.fromBase64Url(s.tag).value,
                 AAD(p.manifest.aadContext, a, p.specVersion)) == Some(plaintext)
  }

  /** Exactly what opens: an authenticated plaintext of the key's one audience, over a Level 1 package, with the signed hash. */
  lemma OpensExactly(c: Primitives, w: KeyWrapper, p: Package, priv: bytes, opt: VerifyOptions, a: string, x: Nilable<bytes>)
    ensures Opened(c, w, p, priv, opt) == Ok((a, x)) <==>
      && AcceptedLevel1(c, p, opt)
      && ThumbprintOf(w, priv).Some? && OnlyMatch(Entries(p.cnf), ThumbprintOf(w, priv).value, a)
      && Authenticates(c, w, p, priv, a, Contents(x)) && x != Val([])
      && a in ManifestSegments(p) && c.H(PlainBytes(c, x)) == ManifestSegments(p)[a].plainHash
  {
    hide Answer, AcceptedLevel1, Recovered, Authenticates, PlainBytes;
    AnswerIsExact(c, p, Offline(opt));
    Level1IsOffline(c, p, opt);
    RecoversExactly(c, w, p, a, priv, x);
  }

  /** The verification an opening makes asks no authority, and otherwise is the caller's. */
  lemma OpeningAsksNoAuthority(c: Primitives, p: Package, opt: VerifyOptions)
    ensures Offline(opt).intent == None && !Answer(c, p, Offline(opt)).intent.evaluated
    ensures Answer(c, p, Offline(opt)).Level1() <==> Answer(c, p, opt).Level1()
  {
    AnswerIsExact(c, p, opt);
    AnswerIsExact(c, p, Offline(opt));
    Level1IsOffline(c, p, opt);
    IntentIs(c, p, Offline(opt));
    hide Answer, AcceptedLevel1;
  }

  lemma Level1IsOffline(c: Primitives, p: Package, opt: VerifyOptions)
    ensures AcceptedLevel1(c, p, Offline(opt)) <==> AcceptedLevel1(c, p, opt)
  {
    hide WellFormed, SignatureValid, CipherHashMatches, BindingMatches, RecomputedRoot;
  }

  lemma RecoversExactly(c: Primitives, w: KeyWrapper, p: Package, a: string, priv: bytes, x: Nilable<bytes>)
    ensures Recovered(c, w, p, a, priv) == Ok(x) <==>
      && Authenticates(c, w, p, priv, a, Contents(x)) && x != Val([])
      && a in ManifestSegments(p) && c.H(PlainBytes(c, x)) == ManifestSegments(p)[a].plainHash
  {
    hide AAD, PlainBytes;
  }

  /** A segment of the key's audience that GCM does not authenticate fails to open, and never with a hash mismatch. */
  lemma UnauthenticatedFails(c: Primitives, w: KeyWrapper, p: Package, priv: bytes, opt: VerifyOptions, a: string)
    requires AcceptedLevel1(c, p, opt)
    requires ThumbprintOf(w, priv).Some? && OnlyMatch(Entries(p.cnf), ThumbprintOf(w, priv).value, a)
    ensures Opened(c, w, p, priv, opt) == Err(DecryptionFailed) <==>
      a !in ManifestSegments(p) || forall x :: !Authenticates(c, w, p, priv, a, x)
    ensures Opened(c, w, p, priv, opt) == Err(HashMismatch) <==>
      && a in ManifestSegments(p)
      && exists x :: Authenticates(c, w, p, priv, a, x)
                  && c.H(PlainBytes(c, if x == [] then Nil else Val(x))) != ManifestSegments(p)[a].plainHash
  {
    hide Answer, AcceptedLevel1, Recovered, Authenticates, PlainBytes;
    AnswerIsExact(c, p, Offline(opt));
    Level1IsOffline(c, p, opt);
    RecoveryFailsExactly(c, w, p, a, priv);
  }

  lemma RecoveryFailsExactly(c: Primitives, w: KeyWrapper, p: Package, a: string, priv: bytes)
    ensures Recovered(c, w, p, a, priv) == Err(DecryptionFailed) <==>
      a !in ManifestSegments(p) || forall x :: !Authenticates(c, w, p, priv, a, x)
    ensures Recovered(c, w, p, a, priv) == Err(HashMismatch) <==>
      && a in ManifestSegments(p)
      && exists x :: Authenticates(c, w, p, priv, a, x)
                  && c.H(PlainBytes(c, if x == [] then Nil else Val(x))) != ManifestSegments(p)[a].plainHash
    ensures Recovered(c, w, p, a, priv).Err? ==> Recovered(c, w, p, a, priv).error in {DecryptionFailed, HashMismatch}
  {
    hide AAD, PlainBytes;
    if a in ManifestSegments(p) && a in p.segments && Decoded(c, p.segments[a]).Some? {
      var wire := Decoded(c, p.segments[a]).value;
      var dek := w.unwrap(priv, wire.epk, wire.wrapped);
      if dek.Ok? && |dek.value| == 32 && |wire.nonce| == 12 {
        var x := c.gcmOpen(dek.value, wire.nonce, wire.combined, AAD(p.manifest.aadContext, a, p.specVersion));
        if x.Some? {
          assert Authenticates(c, w, p, priv, a, x.value);
        }
      }
    }
  }
}
