/**
 The cryptographic and encoding primitives the library calls, as functions with only their
 functional laws. Nothing here says that a hash has no collisions or that a signature
 cannot be forged.
 */
module Primitives {
  import opened Prelude
  import opened Text
  import opened KeyWrap
  import opened ConcatKdf

  predicate UrlSafe(s: string) {
    forall c :: c in s ==> 'A' <= c <= 'Z' || 'a' <= c <= 'z' || '0' <= c <= '9' || c == '-' || c == '_'
  }

  /** An X25519 key or an AES-256 key. */
  type Key32 = s: bytes | |s| == 32 witness seq(32, _ => 0)

  const GCM_TAG_SIZE := 16
  const NONCE_SIZE := 12

  datatype Primitives = Primitives(
    sha256: Hash,
    aes: BlockCipher,
    x25519Public: Key32 -> Key32,
    x25519Shared: (Key32, Key32) -> Option<bytes>,
    gcmSeal: (Key32, bytes, bytes, bytes) -> bytes,          // key, nonce, plaintext, aad
    gcmOpen: (Key32, bytes, bytes, bytes) -> Option<bytes>,  // key, nonce, ciphertext with tag, aad
    ed25519Verify: (bytes, bytes, bytes) -> bool,            // public key, message, signature
    base64Url: bytes -> string,
    fromBase64Url: string -> Option<bytes>,
    base64: bytes -> string,
    fromBase64: string -> bytes
  ) {
    /** Both sides of an X25519 agreement compute the same secret. */
    ghost predicate AgreementCommutes() {
      forall a: Key32, b: Key32 :: x25519Shared(a, x25519Public(b)) == x25519Shared(b, x25519Public(a))
    }

    /** Opening a sealed plaintext under the same key, nonce and aad returns it; the tag is 16 bytes. */
    ghost predicate OpenInvertsSeal() {
      forall k: Key32, n: bytes, p: bytes, a: bytes {:trigger gcmSeal(k, n, p, a)} :: |n| == NONCE_SIZE ==>
        gcmOpen(k, n, gcmSeal(k, n, p, a), a) == Some(p) && |gcmSeal(k, n, p, a)| == |p| + GCM_TAG_SIZE
    }

    /** Decoding undoes encoding. The converse is not assumed: Go's decoder is not strict. */
    ghost predicate DecodeInvertsEncode() {
      && (forall b: bytes {:trigger base64Url(b)} :: fromBase64Url(base64Url(b)) == Some(b))
      && (forall b: bytes {:trigger base64(b)} :: fromBase64(base64(b)) == b)
    }

    /** base64url uses only its own alphabet. */
    ghost predicate EncodesUrlSafely() {
      forall b: bytes {:trigger base64Url(b)} :: UrlSafe(base64Url(b))
    }

    ghost predicate Lawful() {
      aes.Permutes() && AgreementCommutes() && OpenInvertsSeal() && DecodeInvertsEncode() && EncodesUrlSafely()
    }

    /** H of the library: "sha256:" and the digest in lowercase hex. */
    function H(b: bytes): string { "sha256:" + Hex(sha256(b)) }

    /** A hash is the tag of its algorithm and the 32 bytes of the digest in lower-case hexadecimal. */
    lemma HashText(b: bytes)
      ensures |H(b)| == 71 && H(b)[..7] == "sha256:" && FromHex(H(b)[7..]) == sha256(b)
      ensures forall d :: d in H(b)[7..] ==> '0' <= d <= '9' || 'a' <= d <= 'f'
    {
      var tag, hex := "sha256:", Hex(sha256(b));
      assert (tag + hex)[..7] == tag && (tag + hex)[7..] == hex;
      FromHexUndoesHex(sha256(b));
      HexIsLowerCase(sha256(b));
    }

    /** x and y are two different inputs with the same SHA-256. */
    ghost predicate Collision(x: bytes, y: bytes) { x != y && sha256(x) == sha256(y) }

    /** Two equal hashes come from equal inputs, or those two inputs are a collision. */
    lemma HashBinds(x: bytes, y: bytes)
      requires H(x) == H(y)
      ensures x == y || Collision(x, y)
    {
      SplitAt("sha256:", Hex(sha256(x)), "sha256:", Hex(sha256(y)));
      HexInjective(sha256(x), sha256(y));
    }
  }

  /** The laws are consistent: here are primitives that satisfy all of them, agree on every pair and accept every signature. */
  lemma LawsAreConsistent() returns (c: Primitives)
    ensures c.Lawful()
    ensures forall a: Key32, b: Key32 {:trigger c.x25519Shared(a, b)} :: c.x25519Shared(a, b).Some?
    ensures forall k: bytes, m: bytes, s: bytes {:trigger c.ed25519Verify(k, m, s)} :: c.ed25519Verify(k, m, s)
  {
    var tag: bytes := seq(16, _ => 0);
    c := Primitives(
      (b: bytes) => seq(32, _ => 0),
      BlockCipher((k: bytes, b: Block) => b, (k: bytes, b: Block) => b),
      (k: Key32) => k,
      (a: Key32, b: Key32) => Some([]),
      (k: Key32, n: bytes, p: bytes, a: bytes) => p + tag,
      (k: Key32, n: bytes, p: bytes, a: bytes) => if |p| < 16 then None else Some(p[..|p| - 16]),
      (k: bytes, m: bytes, s: bytes) => true,
      (b: bytes) => Hex(b),
      (s: string) => Some(FromHex(s)),
      (b: bytes) => Hex(b),
      (s: string) => FromHex(s));
    forall b: bytes ensures FromHex(Hex(b)) == b && UrlSafe(Hex(b)) {
      FromHexUndoesHex(b);
      HexIsUrlSafe(b);
    }
    forall p: bytes ensures (p + tag)[..|p + tag| - 16] == p {}
  }

  lemma {:induction false} HexIsUrlSafe(b: bytes)
    ensures UrlSafe(Hex(b))
  {
    if |b| > 0 {
      HexIsUrlSafe(b[1..]);
    }
  }
}
