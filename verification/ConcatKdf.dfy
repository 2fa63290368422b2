/**
 The Concat KDF of section 4.6.2 of RFC 7518 (one-step key derivation of NIST SP 800-56A)
 and its OtherInfo encoding, over an arbitrary 32-byte hash.
 */
module ConcatKdf {
  import opened Prelude

  type Digest = s: bytes | |s| == 32 witness seq(32, _ => 0)
  type Hash = bytes -> Digest

  /** What round `counter` hashes: the counter as a uint32, then Z, then OtherInfo. */
  function RoundInput(z: bytes, otherInfo: bytes, counter: nat): bytes {
    BigEndian(counter % TWO_32, 4) + z + otherInfo
  }

  /** The outputs of rounds 1..rounds, in order. */
  function Stream(hash: Hash, z: bytes, otherInfo: bytes, rounds: nat): (s: bytes)
    ensures |s| == 32 * rounds
  {
    if rounds == 0 then []
    else Stream(hash, z, otherInfo, rounds - 1) + hash(RoundInput(z, otherInfo, rounds))
  }

  /** The number of rounds that yield at least n bytes: ceil(n / 32). */
  function Rounds(n: nat): nat { (n + 31) / 32 }

  /** The first n bytes of the stream. */
  function Derive(hash: Hash, z: bytes, otherInfo: bytes, n: nat): (key: bytes)
    ensures |key| == n
  {
    Stream(hash, z, otherInfo, Rounds(n))[..n]
  }

  method ConcatKDF(hash: Hash, z: bytes, otherInfo: bytes, keyDataLenBits: nat) returns (key: bytes)
    ensures key == Derive(hash, z, otherInfo, keyDataLenBits / 8)
  {
    hide BigEndian, Rounds;
    var keyDataLen := keyDataLenBits / 8;
    var out: bytes := [];
    var counter := 1;
    ghost var rounds := 0;
    while |out| < keyDataLen
      invariant out == Stream(hash, z, otherInfo, rounds)
      invariant counter == (rounds + 1) % TWO_32
      invariant rounds > 0 ==> 32 * (rounds - 1) < keyDataLen
      decreases keyDataLen - |out|
    {
      var digest := hash(BigEndian(counter, 4) + z + otherInfo);
      assert digest == hash(RoundInput(z, otherInfo, rounds + 1));
      out := out + digest;
      CounterSteps(rounds + 1);
      counter := (counter + 1) % TWO_32;
      rounds := rounds + 1;
    }
    RoundsReached(keyDataLen, rounds);
    key := out[..keyDataLen];
  }

  lemma CounterSteps(n: nat)
    ensures (n % TWO_32 + 1) % TWO_32 == (n + 1) % TWO_32
  {}

  lemma RoundsReached(n: nat, rounds: nat)
    requires 32 * rounds >= n && (rounds > 0 ==> 32 * (rounds - 1) < n)
    ensures rounds == Rounds(n)
  {}

  /** Byte k of the key is byte k mod 32 of round k/32 + 1: no byte is skipped, repeated or reordered. */
  lemma {:induction false} StreamByte(hash: Hash, z: bytes, otherInfo: bytes, rounds: nat, k: nat)
    requires k < 32 * rounds
    ensures Stream(hash, z, otherInfo, rounds)[k] == hash(RoundInput(z, otherInfo, k / 32 + 1))[k % 32]
  {
    if k < 32 * (rounds - 1) {
      StreamByte(hash, z, otherInfo, rounds - 1, k);
    } else {
      assert k / 32 + 1 == rounds && k % 32 == k - 32 * (rounds - 1);
    }
  }

  /** Round r hashes its number as a uint32, then Z, then OtherInfo. */
  lemma DeriveByte(hash: Hash, z: bytes, otherInfo: bytes, n: nat, k: nat)
    requires k < n
    ensures Derive(hash, z, otherInfo, n)[k] == hash(BigEndian((k / 32 + 1) % TWO_32, 4) + z + otherInfo)[k % 32]
  {
    StreamByte(hash, z, otherInfo, Rounds(n), k);
  }

  /** A shorter request is a prefix of a longer one. */
  lemma ShorterIsPrefix(hash: Hash, z: bytes, otherInfo: bytes, m: nat, n: nat)
    requires m <= n
    ensures Derive(hash, z, otherInfo, m) <= Derive(hash, z, otherInfo, n)
  {
    hide Derive;
    forall k | 0 <= k < m ensures Derive(hash, z, otherInfo, m)[k] == Derive(hash, z, otherInfo, n)[k] {
      DeriveByte(hash, z, otherInfo, m, k);
      DeriveByte(hash, z, otherInfo, n, k);
    }
  }

  ghost predicate RoundsAllDistinct(z: bytes, otherInfo: bytes, n: nat) {
    forall i, j :: 1 <= i < j <= n ==> RoundInput(z, otherInfo, i) != RoundInput(z, otherInfo, j)
  }

  /** The counter wraps at 2^32, so no two rounds hash the same input exactly up to 2^32 rounds. */
  lemma RoundsDistinctIffNoWrap(z: bytes, otherInfo: bytes, n: nat)
    ensures RoundsAllDistinct(z, otherInfo, n) <==> n <= TWO_32
  {
    if n <= TWO_32 {
      forall i, j | 1 <= i < j <= n ensures RoundInput(z, otherInfo, i) != RoundInput(z, otherInfo, j) {
        var a, b := BigEndian(i % TWO_32, 4), BigEndian(j % TWO_32, 4);
        if RoundInput(z, otherInfo, i) == RoundInput(z, otherInfo, j) {
          assert a + z + otherInfo == a + (z + otherInfo) && b + z + otherInfo == b + (z + otherInfo);
          SplitAt(a, z + otherInfo, b, z + otherInfo);
          BigEndian32Injective(i % TWO_32, j % TWO_32);
          assert false;
        }
      }
    } else {
      assert (TWO_32 + 1) % TWO_32 == 1;
      assert RoundInput(z, otherInfo, 1) == RoundInput(z, otherInfo, TWO_32 + 1);
    }
  }

  // ----- OtherInfo -----

  /** An int as uint32; anything out of range becomes 0 instead of wrapping. */
  function SafeUint32(n: int): nat
  {
    if n < 0 || n >= TWO_32 then 0 else n
  }

  function LengthPrefixed(v: bytes): bytes {
    BigEndian(SafeUint32(|v|), 4) + v
  }

  /** AlgorithmID, empty PartyUInfo, empty PartyVInfo, SuppPubInfo (the key length in bits). */
  function OtherInfo(algID: bytes, keyDataLenBits: int): bytes {
    LengthPrefixed(algID) + LengthPrefixed([]) + LengthPrefixed([]) + BigEndian(SafeUint32(keyDataLenBits), 4)
  }

  /** Length-prefixed values are self-delimiting as long as their lengths fit in 32 bits. */
  lemma LengthPrefixedUniquelyDecodable(v: bytes, x: bytes, w: bytes, y: bytes)
    requires |v| < TWO_32 && |w| < TWO_32
    requires LengthPrefixed(v) + x == LengthPrefixed(w) + y
    ensures v == w && x == y
  {
    var a, b := BigEndian(|v|, 4), BigEndian(|w|, 4);
    assert LengthPrefixed(v) + x == a + (v + x) && LengthPrefixed(w) + y == b + (w + y);
    SplitAt(a, v + x, b, w + y);
    BigEndian32Injective(|v|, |w|);
    SplitAt(v, x, w, y);
  }

  /** 2^32 bytes behind a length prefix read as zero bytes followed by data. */
  lemma OutOfRangeLengthIsAmbiguous(v: bytes)
    requires |v| >= TWO_32
    ensures LengthPrefixed(v) + [] == LengthPrefixed([]) + v
  {}

  /** OtherInfo determines the algorithm identifier, and the key length up to the uint32 guard. */
  lemma OtherInfoDetermines(a: bytes, m: int, b: bytes, n: int)
    ensures OtherInfo(a, m) == OtherInfo(b, n) <==> a == b && SafeUint32(m) == SafeUint32(n)
  {
    if OtherInfo(a, m) == OtherInfo(b, n) {
      assert |OtherInfo(a, m)| == |a| + 16 && |OtherInfo(b, n)| == |b| + 16;
      var e := LengthPrefixed([]);
      SplitAt(LengthPrefixed(a) + e + e, BigEndian(SafeUint32(m), 4), LengthPrefixed(b) + e + e, BigEndian(SafeUint32(n), 4));
      SplitAt(LengthPrefixed(a) + e, e, LengthPrefixed(b) + e, e);
      SplitAt(LengthPrefixed(a), e, LengthPrefixed(b), e);
      SplitAt(BigEndian(SafeUint32(|a|), 4), a, BigEndian(SafeUint32(|b|), 4), b);
      BigEndian32Injective(SafeUint32(m), SafeUint32(n));
    }
  }
}
