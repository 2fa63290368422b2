/**
 The key wrapper port, and the adapter that implements it: X25519 key agreement, the
 Concat KDF, AES Key Wrap, and the JWK thumbprint of RFC 7638.
 */
module X25519 {
  import opened Prelude
  import opened Text
  import opened Json
  import opened Primitives
  import KeyWrap
  import ConcatKdf

  /** What Seal and Open call. A wrap also takes the fresh ephemeral key it draws, if drawing succeeds. */
  datatype KeyWrapper = KeyWrapper(
    wrap: (Option<Key32>, bytes, bytes) -> Result<(bytes, bytes)>,  // ephemeral, recipient, dek: wrapped and epk
    unwrap: (bytes, bytes, bytes) -> Result<bytes>,                 // priv, epk, wrapped
    thumbprint: bytes -> Result<string>,
    publicKey: bytes -> Result<bytes>)
  {
    /** Whatever was wrapped to the public half of priv unwraps with priv. */
    ghost predicate RoundTrips() {
      forall e: Option<Key32>, priv: bytes, dek: bytes {:trigger wrap(e, publicKey(priv).value, dek)} ::
        publicKey(priv).Ok? && wrap(e, publicKey(priv).value, dek).Ok? ==>
          var (wrapped, epk) := wrap(e, publicKey(priv).value, dek).value;
          unwrap(priv, epk, wrapped) == Ok(dek)
    }
  }

  const ALGORITHM_ID := "ECDH-ES+A256KW"
  const KEK_LEN_BITS := 256

  function DeriveKek(c: Primitives, shared: bytes): bytes {
    ConcatKdf.Derive(c.sha256, shared, ConcatKdf.OtherInfo(Utf8(ALGORITHM_ID), KEK_LEN_BITS), KEK_LEN_BITS / 8)
  }

  function WrapTo(c: Primitives, ephemeral: Option<Key32>, recipientPub: bytes, dek: bytes): Result<(bytes, bytes)> {
    if |recipientPub| != 32 then Err(KeyAgreementFailed)
    else if ephemeral.None? then Err(RandomFailed)
    else
      var shared := c.x25519Shared(ephemeral.value, recipientPub);
      if shared.None? then Err(KeyAgreementFailed)
      else
        var wrapped :- KeyWrap.Wrap(c.aes, DeriveKek(c, shared.value), dek);
        Ok((wrapped, c.x25519Public(ephemeral.value)))
  }

  /** Every failure is the same error. */
  function UnwrapWith(c: Primitives, priv: bytes, epk: bytes, wrapped: bytes): Result<bytes> {
    if |priv| != 32 || |epk| != 32 then Err(UnwrapFailed)
    else
      var shared := c.x25519Shared(priv, epk);
      if shared.None? then Err(UnwrapFailed)
      else
        var dek := KeyWrap.Unwrap(c.aes, DeriveKek(c, shared.value), wrapped);
        if dek.Err? then Err(UnwrapFailed) else dek
  }

  // ----- the key-encryption key, byte for byte -----

  /** The characters of an ASCII string as bytes. */
  function Ascii(s: string): (b: bytes)
    requires forall i :: 0 <= i < |s| ==> s[i] as int < 0x80
    ensures |b| == |s|
  {
    seq(|s|, i requires 0 <= i < |s| => var n: byte := s[i] as int; n)
  }

  lemma {:induction false} AsciiUtf8(s: string)
    requires forall i :: 0 <= i < |s| ==> s[i] as int < 0x80
    ensures Utf8(s) == Ascii(s)
  {
    if s != "" {
      AsciiUtf8(s[1..]);
      assert Utf8(s) == [s[0] as int] + Utf8(s[1..]);
    }
  }

  lemma AlgorithmIsAscii()
    ensures |ALGORITHM_ID| == 14 && forall i :: 0 <= i < 14 ==> ALGORITHM_ID[i] as int < 0x80
  {}

  /** OtherInfo of A256KW: the algorithm behind its length, two empty parties, and 256 bits. */
  function OtherInfoOfA256KW(): bytes {
    AlgorithmIsAscii();
    [0, 0, 0, 14] + Ascii("ECDH-ES+A256KW") + [0, 0, 0, 0] + [0, 0, 0, 0] + [0, 0, 1, 0]
  }

  lemma FourBytes()
    ensures BigEndian(0, 4) == [0, 0, 0, 0] && BigEndian(1, 4) == [0, 0, 0, 1] && BigEndian(14, 4) == [0, 0, 0, 14]
    ensures BigEndian(256, 4) == [0, 0, 1, 0]
  {
    SmallBigEndian(0, 4);
    SmallBigEndian(1, 4);
    SmallBigEndian(14, 4);
    BigEndianSnoc(256, 4);
    SmallBigEndian(1, 3);
    hide BigEndian;
  }

  lemma OtherInfoBytes()
    ensures ConcatKdf.OtherInfo(Utf8(ALGORITHM_ID), KEK_LEN_BITS) == OtherInfoOfA256KW()
  {
    AlgorithmIsAscii();
    AsciiUtf8(ALGORITHM_ID);
    FourBytes();
    hide Utf8, BigEndian, ALGORITHM_ID;
    var id := Ascii("ECDH-ES+A256KW");
    assert ConcatKdf.LengthPrefixed(id) == [0, 0, 0, 14] + id;
    assert ConcatKdf.LengthPrefixed([]) == [0, 0, 0, 0];
  }

  /** The key-encryption key is one digest: round number 1, the shared secret, and OtherInfo. */
  lemma KekIsOneDigest(c: Primitives, shared: bytes)
    ensures DeriveKek(c, shared) == c.sha256([0, 0, 0, 1] + shared + OtherInfoOfA256KW())
  {
    OtherInfoBytes();
    FourBytes();
    hide OtherInfoOfA256KW, ConcatKdf.OtherInfo, ConcatKdf.Derive, Utf8, BigEndian, ALGORITHM_ID;
    var kek, digest := DeriveKek(c, shared), c.sha256([0, 0, 0, 1] + shared + OtherInfoOfA256KW());
    assert kek == ConcatKdf.Derive(c.sha256, shared, OtherInfoOfA256KW(), 32);
    hide DeriveKek;
    forall k | 0 <= k < 32 ensures kek[k] == digest[k] {
      ConcatKdf.DeriveByte(c.sha256, shared, OtherInfoOfA256KW(), 32, k);
    }
  }

  /** A wrap succeeds exactly so, and wraps under that key with the ephemeral public key beside it. */
  lemma WrapComputes(c: Primitives, ephemeral: Option<Key32>, pub: bytes, dek: bytes, wrapped: bytes, epk: bytes)
    ensures WrapTo(c, ephemeral, pub, dek) == Ok((wrapped, epk)) <==>
      && |pub| == 32 && ephemeral.Some? && c.x25519Shared(ephemeral.value, pub).Some?
      && epk == c.x25519Public(ephemeral.value)
      && KeyWrap.Wrap(c.aes, c.sha256([0, 0, 0, 1] + c.x25519Shared(ephemeral.value, pub).value + OtherInfoOfA256KW()), dek) == Ok(wrapped)
  {
    hide KeyWrap.Wrap, DeriveKek, OtherInfoOfA256KW;
    if |pub| == 32 && ephemeral.Some? && c.x25519Shared(ephemeral.value, pub).Some? {
      KekIsOneDigest(c, c.x25519Shared(ephemeral.value, pub).value);
    }
  }

  method Wrap(c: Primitives, ephemeral: Option<Key32>, recipientPub: bytes, dek: bytes) returns (res: Result<(bytes, bytes)>)
    ensures res == WrapTo(c, ephemeral, recipientPub, dek)
  {
    hide KeyWrap.Wrap, ConcatKdf.Derive;
    if |recipientPub| != 32 {
      return Err(KeyAgreementFailed);
    }
    if ephemeral.None? {
      return Err(RandomFailed);
    }
    var shared := c.x25519Shared(ephemeral.value, recipientPub);
    if shared.None? {
      return Err(KeyAgreementFailed);
    }
    var kek := ConcatKdf.ConcatKDF(c.sha256, shared.value, ConcatKdf.OtherInfo(Utf8(ALGORITHM_ID), KEK_LEN_BITS), KEK_LEN_BITS);
    var wrapped := KeyWrap.AesKeyWrap(c.aes, kek, dek);
    if wrapped.Err? {
      return Err(wrapped.error);
    }
    res := Ok((wrapped.value, c.x25519Public(ephemeral.value)));
  }

  method Unwrap(c: Primitives, priv: bytes, epk: bytes, wrapped: bytes) returns (res: Result<bytes>)
    ensures res == UnwrapWith(c, priv, epk, wrapped)
  {
    hide KeyWrap.Unwrap, ConcatKdf.Derive;
    if |priv| != 32 {
      return Err(UnwrapFailed);
    }
    if |epk| != 32 {
      return Err(UnwrapFailed);
    }
    var shared := c.x25519Shared(priv, epk);
    if shared.None? {
      return Err(UnwrapFailed);
    }
    var kek := ConcatKdf.ConcatKDF(c.sha256, shared.value, ConcatKdf.OtherInfo(Utf8(ALGORITHM_ID), KEK_LEN_BITS), KEK_LEN_BITS);
    var dek := KeyWrap.AesKeyUnwrap(c.aes, kek, wrapped);
    if dek.Err? {
      return Err(UnwrapFailed);
    }
    res := Ok(dek.value);
  }

  function PublicKey(c: Primitives, priv: bytes): Result<bytes> {
    if |priv| != 32 then Err(UnwrapFailed) else Ok(c.x25519Public(priv))
  }

  /** The canonical JWK of an X25519 public key. */
  function JwkBytes(c: Primitives, pub: bytes): bytes {
    Utf8("{\"crv\":\"X25519\",\"kty\":\"OKP\",\"x\":\"" + c.base64Url(pub) + "\"}")
  }

  function Thumbprint(c: Primitives, pub: bytes): Result<string> {
    if |pub| != 32 then Err(KeyAgreementFailed) else Ok(c.base64Url(c.sha256(JwkBytes(c, pub))))
  }

  function Wrapper(c: Primitives): KeyWrapper {
    KeyWrapper(
      (e: Option<Key32>, pub: bytes, dek: bytes) => WrapTo(c, e, pub, dek),
      (priv: bytes, epk: bytes, wrapped: bytes) => UnwrapWith(c, priv, epk, wrapped),
      (pub: bytes) => Thumbprint(c, pub),
      (priv: bytes) => PublicKey(c, priv))
  }

  /** Agreement, derivation and wrapping compose: the recipient's private key recovers the wrapped key. */
  lemma UnwrapsWhatWasWrapped(c: Primitives, ephemeral: Option<Key32>, priv: bytes, dek: bytes)
    requires c.aes.Permutes() && c.AgreementCommutes()
    requires PublicKey(c, priv).Ok? && WrapTo(c, ephemeral, PublicKey(c, priv).value, dek).Ok?
    ensures var (wrapped, epk) := WrapTo(c, ephemeral, PublicKey(c, priv).value, dek).value;
            UnwrapWith(c, priv, epk, wrapped) == Ok(dek)
  {
    hide KeyWrap.Wrap, KeyWrap.Unwrap, DeriveKek;
    var e := ephemeral.value;
    assert c.x25519Shared(e, c.x25519Public(priv)) == c.x25519Shared(priv, c.x25519Public(e));
    var shared := c.x25519Shared(e, c.x25519Public(priv)).value;
    KeyWrap.UnwrapOfWrap(c.aes, DeriveKek(c, shared), dek);
  }

  /** A private key that is no key fails with the one error every failed unwrap has; a public one fails as a failed agreement. */
  lemma AdapterErrors(c: Primitives, priv: bytes, epk: bytes, wrapped: bytes, pub: bytes)
    ensures UnwrapWith(c, priv, epk, wrapped).Err? ==> UnwrapWith(c, priv, epk, wrapped).error == UnwrapFailed
    ensures PublicKey(c, priv).Ok? <==> |priv| == 32
    ensures PublicKey(c, priv).Err? ==> PublicKey(c, priv).error == UnwrapFailed
    ensures Thumbprint(c, pub).Ok? <==> |pub| == 32
    ensures Thumbprint(c, pub).Err? ==> Thumbprint(c, pub).error == KeyAgreementFailed
  {
    hide KeyWrap.Unwrap, DeriveKek, JwkBytes;
  }

  lemma WrapperRoundTrips(c: Primitives)
    requires c.aes.Permutes() && c.AgreementCommutes()
    ensures Wrapper(c).RoundTrips()
  {
    hide WrapTo, UnwrapWith, PublicKey;
    var w := Wrapper(c);
    forall e: Option<Key32>, priv: bytes, dek: bytes
      ensures w.publicKey(priv).Ok? && w.wrap(e, w.publicKey(priv).value, dek).Ok? ==>
          var (wrapped, epk) := w.wrap(e, w.publicKey(priv).value, dek).value;
          w.unwrap(priv, epk, wrapped) == Ok(dek)
    {
      if PublicKey(c, priv).Ok? && WrapTo(c, e, PublicKey(c, priv).value, dek).Ok? {
        UnwrapsWhatWasWrapped(c, e, priv, dek);
      }
    }
  }

  /** Equal thumbprints belong to one key, or the two canonical JWKs collide. */
  lemma ThumbprintBinds(c: Primitives, p: bytes, q: bytes)
    requires c.DecodeInvertsEncode()
    requires Thumbprint(c, p).Ok? && Thumbprint(c, p) == Thumbprint(c, q)
    ensures p == q || c.Collision(JwkBytes(c, p), JwkBytes(c, q))
  {
    var x, y := JwkBytes(c, p), JwkBytes(c, q);
    assert c.fromBase64Url(c.base64Url(c.sha256(x))) == c.fromBase64Url(c.base64Url(c.sha256(y)));
    if x == y {
      var pre, post := "{\"crv\":\"X25519\",\"kty\":\"OKP\",\"x\":\"", "\"}";
      Utf8Injective(pre + c.base64Url(p) + post, pre + c.base64Url(q) + post);
      SplitAt(pre + c.base64Url(p), post, pre + c.base64Url(q), post);
      SplitAt(pre, c.base64Url(p), pre, c.base64Url(q));
      assert c.fromBase64Url(c.base64Url(p)) == c.fromBase64Url(c.base64Url(q));
    }
  }

  // ----- the hand-written JWK is canonical -----

  /** The JWK of RFC 8037 as a value: its members are those RFC 7638 requires. */
  function Jwk(c: Primitives, pub: bytes): Json {
    JObject(map["crv" := JString("X25519"), "kty" := JString("OKP"), "x" := JString(c.base64Url(pub))])
  }

  lemma PlainFirst(s: string)
    requires UrlSafe(s) && s != ""
    ensures EscapeChar(s[0]) == [s[0]] && UrlSafe(s[1..])
  {
    assert s[0] in s;
    assert forall c :: c in s[1..] ==> c in s;
  }

  lemma {:induction false} PlainQuoteRest(s: string)
    requires UrlSafe(s)
    ensures QuoteRest(s) == s + "\""
  {
    hide UrlSafe, EscapeChar;
    if s != "" {
      PlainFirst(s);
      PlainQuoteRest(s[1..]);
      assert s == [s[0]] + s[1..];
    }
  }

  /** A string without characters to escape is printed as it is. */
  lemma PlainQuote(s: string)
    requires UrlSafe(s)
    ensures Quote(s) == "\"" + s + "\""
  {
    hide QuoteRest, UrlSafe;
    PlainQuoteRest(s);
    assert "\"" + (s + "\"") == "\"" + s + "\"";
  }

  /** A key whose first character is ASCII and below every other key's is listed first. */
  lemma FirstKey(k: string, s: set<string>)
    requires k in s && forall t :: t in s ==> t != "" && t[0] as int < 0x80
    requires forall t :: t in s && t != k ==> k[0] < t[0]
    ensures SortedKeys(s) == [k] + SortedKeys(s - {k})
  {
    forall t | t in s && t != k ensures Before(k, t) {
      assert Utf16(k)[0] == k[0] as int && Utf16(t)[0] == t[0] as int;
    }
    hide Before;
    assert IsFirst(k, s);
    FirstUnique(s);
  }

  lemma ThreeKeys(k: string, l: string, m: string)
    requires k != "" && l != "" && m != "" && k[0] < l[0] < m[0] && m[0] as int < 0x80
    ensures SortedKeys({k, l, m}) == [k, l, m]
  {
    hide Utf16, Before, UnitsLess, SortedKeys, IsFirst;
    NoKeys();
    FirstKey(k, {k, l, m});
    assert {k, l, m} - {k} == {l, m};
    FirstKey(l, {l, m});
    assert {l, m} - {l} == {m};
    FirstKey(m, {m});
    assert {m} - {m} == {};
  }

  lemma NoKeys()
    ensures SortedKeys({}) == []
  {}

  /** The canonical text of an object with three string members. */
  lemma ThreeMembers(j: Json, k: string, l: string, m: string, u: string, v: string, w: string)
    requires k != "" && l != "" && m != "" && k[0] < l[0] < m[0] && m[0] as int < 0x80
    requires j == JObject(map[k := JString(u), l := JString(v), m := JString(w)])
    ensures Print(j) == "{" + (Quote(k) + ":" + Quote(u) + ("," + Quote(l) + ":" + Quote(v) + ("," + Quote(m) + ":" + Quote(w) + "}")))
  {
    hide Quote, SortedKeys;
    ThreeKeys(k, l, m);
    assert j.members.Keys == {k, l, m};
    var ks := [k, l, m];
    assert ks[1..] == [l, m] && [l, m][1..] == [m] && [m][1..] == [];
    assert PrintMembers(j, [], false) == "}";
    assert PrintMembers(j, [m], false) == "," + Quote(m) + ":" + Quote(w) + "}";
    assert PrintMembers(j, [l, m], false) == "," + Quote(l) + ":" + Quote(v) + PrintMembers(j, [m], false);
    assert PrintMembers(j, ks, true) == "" + Quote(k) + ":" + Quote(u) + PrintMembers(j, [l, m], false);
    assert "" + Quote(k) == Quote(k);
  }

  /** The formatted string Thumbprint hashes is the canonical form of the JWK: sorted members, nothing to escape. */
  lemma JwkBytesAreCanonical(c: Primitives, pub: bytes)
    requires c.EncodesUrlSafely()
    ensures JwkBytes(c, pub) == JCS(Jwk(c, pub))
  {
    hide Quote, Print, Utf8;
    var x := c.base64Url(pub);
    assert UrlSafe("crv") && UrlSafe("kty") && UrlSafe("x") && UrlSafe("X25519") && UrlSafe("OKP");
    hide UrlSafe;
    PlainQuote("crv");
    PlainQuote("kty");
    PlainQuote("x");
    PlainQuote("X25519");
    PlainQuote("OKP");
    PlainQuote(x);
    ThreeMembers(Jwk(c, pub), "crv", "kty", "x", "X25519", "OKP", x);
    JwkLiteral(x);
  }

  lemma JwkLiteral(x: string)
    ensures "{" + ("\"" + "crv" + "\"" + ":" + ("\"" + "X25519" + "\"")
                 + ("," + ("\"" + "kty" + "\"") + ":" + ("\"" + "OKP" + "\"")
                 + ("," + ("\"" + "x" + "\"") + ":" + ("\"" + x + "\"") + "}")))
         == "{\"crv\":\"X25519\",\"kty\":\"OKP\",\"x\":\"" + x + "\"}"
  {}
}
