/**
 RFC 3394 AES Key Wrap and its inverse.

 The two methods are the in-place, array-indexed loops of the adapter. They are proved
 against the shift-register definitions of sections 2.2.1 and 2.2.2 of RFC 3394, which
 never index the register: they only take from one end and put back at the other.
 */
module KeyWrap {
  import opened Prelude

  /** One 64-bit half of a cipher block: [8]byte. */
  type Word = s: bytes | |s| == 8 witness seq(8, _ => 0)

  /** One 128-bit cipher block: [16]byte. */
  type Block = s: bytes | |s| == 16 witness seq(16, _ => 0)

  /** AES under a key, as a keyed pair of functions on 16-byte blocks. */
  datatype BlockCipher = BlockCipher(encrypt: (bytes, Block) -> Block, decrypt: (bytes, Block) -> Block) {
    /** For each key, decrypt and encrypt are inverse permutations of the 16-byte blocks. */
    ghost predicate Permutes() {
      && (forall k: bytes, b: Block {:trigger encrypt(k, b)} :: decrypt(k, encrypt(k, b)) == b)
      && (forall k: bytes, b: Block {:trigger decrypt(k, b)} :: encrypt(k, decrypt(k, b)) == b)
    }
  }

  const IV: Word := [0xA6, 0xA6, 0xA6, 0xA6, 0xA6, 0xA6, 0xA6, 0xA6]

  /** The key lengths aes.NewCipher accepts. */
  predicate ValidAesKey(kek: bytes) { |kek| == 16 || |kek| == 24 || |kek| == 32 }

  // ----- RFC 3394: the shift register -----

  /** A and R[1..n]. */
  datatype Register = Register(a: Word, r: seq<Word>)

  /** Step t of section 2.2.1: encrypt A | R[1], shift R left, put the low half in R[n]. */
  function WrapStep(c: BlockCipher, kek: bytes, s: Register, t: nat): (s': Register)
    requires |s.r| > 0
    ensures |s'.r| == |s.r|
  {
    var b := c.encrypt(kek, s.a + s.r[0]);
    Register(Xor(b[..8], BigEndian(t, 8)), s.r[1..] + [b[8..]])
  }

  /** Step t of section 2.2.2: decrypt (A ^ t) | R[n], shift R right, put the low half in R[1]. */
  function UnwrapStep(c: BlockCipher, kek: bytes, s: Register, t: nat): (s': Register)
    requires |s.r| > 0
    ensures |s'.r| == |s.r|
  {
    var b := c.decrypt(kek, Xor(s.a, BigEndian(t, 8)) + s.r[|s.r| - 1]);
    Register(b[..8], [b[8..]] + s.r[..|s.r| - 1])
  }

  /** Steps 1, 2, ..., t. */
  function WrapSteps(c: BlockCipher, kek: bytes, s: Register, t: nat): (s': Register)
    requires |s.r| > 0
    ensures |s'.r| == |s.r|
  {
    if t == 0 then s else WrapStep(c, kek, WrapSteps(c, kek, s, t - 1), t)
  }

  /** Steps t, t-1, ..., 1. */
  function UnwrapSteps(c: BlockCipher, kek: bytes, s: Register, t: nat): (s': Register)
    requires |s.r| > 0
    ensures |s'.r| == |s.r|
    decreases t
  {
    if t == 0 then s else UnwrapSteps(c, kek, UnwrapStep(c, kek, s, t), t - 1)
  }

  function Words(b: bytes): (w: seq<Word>)
    requires |b| % 8 == 0
    ensures |w| == |b| / 8
  {
    seq(|b| / 8, i requires 0 <= i < |b| / 8 => b[8 * i .. 8 * i + 8])
  }

  function Flatten(w: seq<Word>): (b: bytes)
    ensures |b| == 8 * |w|
  {
    if |w| == 0 then [] else w[0] + Flatten(w[1..])
  }

  /** The whole of section 2.2.1, with the length and key checks of the adapter. */
  function Wrap(c: BlockCipher, kek: bytes, keyData: bytes): Result<bytes>
  {
    if |keyData| == 0 || |keyData| % 8 != 0 || !ValidAesKey(kek) then Err(WrapFailed)
    else
      var s := WrapSteps(c, kek, Register(IV, Words(keyData)), 6 * (|keyData| / 8));
      Ok(s.a + Flatten(s.r))
  }

  /** The whole of section 2.2.2, including the integrity check of section 2.2.3. */
  function Unwrap(c: BlockCipher, kek: bytes, wrapped: bytes): Result<bytes>
  {
    if |wrapped| < 16 || |wrapped| % 8 != 0 || !ValidAesKey(kek) then Err(WrapFailed)
    else
      var s := UnwrapSteps(c, kek, Register(wrapped[..8], Words(wrapped[8..])), 6 * (|wrapped| / 8 - 1));
      if s.a != IV then Err(UnwrapFailed) else Ok(Flatten(s.r))
  }

  // ----- wrap and unwrap are inverse -----

  lemma StepsCancel(c: BlockCipher, kek: bytes, s: Register, t: nat)
    requires |s.r| > 0 && c.Permutes()
    ensures UnwrapStep(c, kek, WrapStep(c, kek, s, t), t) == s
    ensures WrapStep(c, kek, UnwrapStep(c, kek, s, t), t) == s
  {
    var n := |s.r|;
    var b := c.encrypt(kek, s.a + s.r[0]);
    XorCancels(b[..8], BigEndian(t, 8));
    assert b[..8] + b[8..] == b;
    assert (s.a + s.r[0])[..8] == s.a && (s.a + s.r[0])[8..] == s.r[0];
    assert (s.r[1..] + [b[8..]])[..n - 1] == s.r[1..];
    assert [s.r[0]] + s.r[1..] == s.r;

    var x := Xor(s.a, BigEndian(t, 8));
    var d := c.decrypt(kek, x + s.r[n - 1]);
    XorCancels(s.a, BigEndian(t, 8));
    assert d[..8] + d[8..] == d;
    assert (x + s.r[n - 1])[..8] == x && (x + s.r[n - 1])[8..] == s.r[n - 1];
    assert ([d[8..]] + s.r[..n - 1])[1..] == s.r[..n - 1];
    assert s.r[..n - 1] + [s.r[n - 1]] == s.r;
  }

  lemma {:induction false} UnwrapUndoesWrapSteps(c: BlockCipher, kek: bytes, s: Register, t: nat)
    requires |s.r| > 0 && c.Permutes()
    ensures UnwrapSteps(c, kek, WrapSteps(c, kek, s, t), t) == s
  {
    hide WrapStep, UnwrapStep;
    if t > 0 {
      StepsCancel(c, kek, WrapSteps(c, kek, s, t - 1), t);
      UnwrapUndoesWrapSteps(c, kek, s, t - 1);
    }
  }

  lemma {:induction false} WrapUndoesUnwrapSteps(c: BlockCipher, kek: bytes, s: Register, t: nat)
    requires |s.r| > 0 && c.Permutes()
    ensures WrapSteps(c, kek, UnwrapSteps(c, kek, s, t), t) == s
    decreases t
  {
    hide WrapStep, UnwrapStep;
    if t > 0 {
      WrapUndoesUnwrapSteps(c, kek, UnwrapStep(c, kek, s, t), t - 1);
      StepsCancel(c, kek, s, t);
    }
  }

  lemma WordAt(b: bytes, i: nat, lo: nat)
    requires |b| % 8 == 0 && i < |b| / 8 && lo == 8 * i
    ensures lo + 8 <= |b| && Words(b)[i] == b[lo .. lo + 8]
  {}

  lemma SliceOfTail(b: bytes, lo: nat)
    requires lo + 16 <= |b|
    ensures b[lo + 8 .. lo + 16] == b[8..][lo .. lo + 8]
  {
    var s, t := b[lo + 8 .. lo + 16], b[8..][lo .. lo + 8];
    assert |s| == |t|;
    forall k | 0 <= k < 8 ensures s[k] == t[k] {
      assert s[k] == b[lo + 8 + k];
      assert b[8..][lo + k] == b[8 + (lo + k)];
    }
  }

  lemma WordOfTail(b: bytes, i: nat)
    requires |b| > 0 && |b| % 8 == 0 && i + 1 < |b| / 8
    ensures |b[8..]| % 8 == 0 && i < |b[8..]| / 8 && Words(b)[i + 1] == Words(b[8..])[i]
  {
    hide Words;
    var lo := 8 * i;
    WordAt(b, i + 1, lo + 8);
    WordAt(b[8..], i, lo);
    SliceOfTail(b, lo);
  }

  /** The words of b are its first eight bytes and the words of the rest. */
  lemma WordsTail(b: bytes)
    requires |b| > 0 && |b| % 8 == 0
    ensures Words(b)[0] == b[..8] && Words(b)[1..] == Words(b[8..])
  {
    hide Words;
    WordAt(b, 0, 0);
    assert |Words(b)[1..]| == |Words(b[8..])|;
    forall i: nat | i + 1 < |Words(b)| ensures Words(b)[1..][i] == Words(b[8..])[i] {
      WordOfTail(b, i);
    }
  }

  lemma {:induction false} FlattenWords(b: bytes)
    requires |b| % 8 == 0
    ensures Flatten(Words(b)) == b
  {
    if |b| > 0 {
      WordsTail(b);
      FlattenWords(b[8..]);
      hide Words;
      assert b[..8] + b[8..] == b;
    }
  }

  lemma {:induction false} WordsFlatten(w: seq<Word>)
    ensures Words(Flatten(w)) == w
  {
    if |w| > 0 {
      var b := Flatten(w);
      assert b[8..] == Flatten(w[1..]) && b[..8] == w[0];
      WordsFlatten(w[1..]);
      WordsTail(b);
      hide Words, Flatten;
      assert Words(b) == [Words(b)[0]] + Words(b)[1..];
    }
  }

  /** What is refused, and how: no key data, a ragged length, or a key AES has no schedule for; and on the way back, a bad register. */
  lemma RefusesExactly(c: BlockCipher, kek: bytes, keyData: bytes, wrapped: bytes)
    ensures Wrap(c, kek, keyData).Ok? <==> |keyData| > 0 && |keyData| % 8 == 0 && |kek| in {16, 24, 32}
    ensures Wrap(c, kek, keyData).Err? ==> Wrap(c, kek, keyData).error == WrapFailed
    ensures Unwrap(c, kek, wrapped) == Err(WrapFailed) <==> |wrapped| < 16 || |wrapped| % 8 != 0 || |kek| !in {16, 24, 32}
    ensures Unwrap(c, kek, wrapped).Err? ==> Unwrap(c, kek, wrapped).error in {WrapFailed, UnwrapFailed}
  {
    hide WrapSteps, UnwrapSteps, Flatten, Words;
  }

  /** Unwrapping a wrapped key returns the key data, for every length the adapter accepts. */
  lemma UnwrapOfWrap(c: BlockCipher, kek: bytes, keyData: bytes)
    requires c.Permutes()
    requires Wrap(c, kek, keyData).Ok?
    ensures Unwrap(c, kek, Wrap(c, kek, keyData).value) == Ok(keyData)
    ensures |Wrap(c, kek, keyData).value| == |keyData| + 8
  {
    hide WrapSteps, UnwrapSteps;
    var n := |keyData| / 8;
    var s0 := Register(IV, Words(keyData));
    var s := WrapSteps(c, kek, s0, 6 * n);
    var out := s.a + Flatten(s.r);
    assert out[..8] == s.a && out[8..] == Flatten(s.r);
    WordsFlatten(s.r);
    UnwrapUndoesWrapSteps(c, kek, s0, 6 * n);
    FlattenWords(keyData);
  }

  /** Wrap of a register's contents runs 6n steps from that register. */
  lemma WrapOfSteps(c: BlockCipher, kek: bytes, s: Register, steps: nat)
    requires ValidAesKey(kek)
    requires s.a == IV && |s.r| > 0 && steps == 6 * |s.r|
    ensures var s' := WrapSteps(c, kek, s, steps); Wrap(c, kek, Flatten(s.r)) == Ok(s'.a + Flatten(s'.r))
  {
    hide WrapSteps, UnwrapSteps;
    WordsFlatten(s.r);
    assert |Flatten(s.r)| / 8 == |s.r|;
    assert Register(IV, Words(Flatten(s.r))) == s;
  }

  /** A successful Unwrap ran 6n steps from the input's register to one whose A is the initial value. */
  lemma UnwrapRan(c: BlockCipher, kek: bytes, wrapped: bytes) returns (s0: Register, s: Register)
    requires Unwrap(c, kek, wrapped).Ok?
    ensures ValidAesKey(kek) && |s0.r| > 0 && |s.r| == |s0.r|
    ensures s == UnwrapSteps(c, kek, s0, 6 * |s0.r|)
    ensures s.a == IV && Unwrap(c, kek, wrapped) == Ok(Flatten(s.r))
    ensures wrapped == s0.a + Flatten(s0.r)
  {
    hide WrapSteps, UnwrapSteps;
    s0 := Register(wrapped[..8], Words(wrapped[8..]));
    s := UnwrapSteps(c, kek, s0, 6 * |s0.r|);
    FlattenWords(wrapped[8..]);
    assert wrapped[..8] + wrapped[8..] == wrapped;
  }

  /** Whatever unwraps re-wraps to exactly itself: no second encoding of a key is accepted. */
  lemma WrapOfUnwrap(c: BlockCipher, kek: bytes, wrapped: bytes)
    requires c.Permutes()
    requires Unwrap(c, kek, wrapped).Ok?
    ensures Wrap(c, kek, Unwrap(c, kek, wrapped).value) == Ok(wrapped)
  {
    hide WrapSteps, UnwrapSteps, Wrap, Unwrap;
    var s0, s := UnwrapRan(c, kek, wrapped);
    WrapOfSteps(c, kek, s, 6 * |s.r|);
    WrapUndoesUnwrapSteps(c, kek, s0, 6 * |s.r|);
  }

  /** Unwrap accepts exactly the range of Wrap, and is injective there. */
  lemma UnwrapAcceptsExactlyTheRangeOfWrap(c: BlockCipher, kek: bytes, wrapped: bytes, other: bytes)
    requires c.Permutes()
    ensures Unwrap(c, kek, wrapped).Ok? <==> exists p :: Wrap(c, kek, p) == Ok(wrapped)
    ensures Unwrap(c, kek, wrapped).Ok? && Unwrap(c, kek, wrapped) == Unwrap(c, kek, other) ==> wrapped == other
  {
    hide Wrap, Unwrap;
    if Unwrap(c, kek, wrapped).Ok? {
      WrapOfUnwrap(c, kek, wrapped);
    }
    if Unwrap(c, kek, other).Ok? {
      WrapOfUnwrap(c, kek, other);
    }
    forall p | Wrap(c, kek, p) == Ok(wrapped) ensures Unwrap(c, kek, wrapped).Ok? {
      UnwrapOfWrap(c, kek, p);
    }
  }

  // ----- the adapter's loops -----

  /** A non-negative int as uint64; a negative one becomes 0. */
  function SafeUint64(n: int): nat { if n < 0 then 0 else n }

  /** The counter of the nested loops: outer index j, inner index i, n words. */
  function Counter(n: nat, j: nat, i: nat): nat { n * j + i }

  /** The counter stays between 1 and 6n, which is below the input's length in bytes. */
  lemma CounterInRange(n: nat, j: nat, i: nat)
    requires 1 <= i <= n && j <= 5
    ensures 1 <= Counter(n, j, i) <= 6 * n < 8 * n
  {
    assert n * j <= n * 5;
  }

  /** The counter value of the loop indices follows that of the indices before. */
  lemma CounterStep(n: nat, j: nat, i: nat)
    requires 1 <= i <= n && j <= 5
    ensures n * j + i == Counter(n, j, i) == Counter(n, j, i - 1) + 1 <= 8 * n
  {
    CounterInRange(n, j, i);
  }

  lemma ScaleMonotone(n: nat, x: nat, y: nat)
    ensures x <= y ==> n * x <= n * y
  {}

  /** Distinct loop indices give distinct counters. */
  lemma CounterInjective(n: nat, j: nat, i: nat, j': nat, i': nat)
    requires 1 <= i <= n && 1 <= i' <= n && Counter(n, j, i) == Counter(n, j', i')
    ensures j == j' && i == i'
  {
    ScaleMonotone(n, j' + 1, j);
    ScaleMonotone(n, j + 1, j');
  }

  /** Every value 1..6n is the counter of some pair of loop indices. */
  lemma {:induction false} CounterReaches(n: nat, t: nat) returns (j: nat, i: nat)
    requires n > 0 && 1 <= t <= 6 * n
    ensures j <= 5 && 1 <= i <= n && Counter(n, j, i) == t
  {
    if t <= n {
      j, i := 0, t;
    } else {
      j, i := CounterReaches(n, t - n);
      j := j + 1;
      ScaleMonotone(n, 6, j);
    }
  }

  /** copy(dst[off:off+len(src)], src) */
  method Copy(dst: array<byte>, off: nat, src: bytes)
    requires off + |src| <= dst.Length
    modifies dst
    ensures dst[..] == old(dst[..off]) + src + old(dst[off + |src|..])
  {
    forall i | 0 <= i < |src| {
      dst[off + i] := src[i];
    }
  }

  /** block.Encrypt or block.Decrypt with the buffer as both source and destination. */
  method ApplyInPlace(f: (bytes, Block) -> Block, kek: bytes, block: array<byte>)
    requires block.Length == 16
    modifies block
    ensures block[..] == f(kek, old(block[..]))
  {
    var out := f(kek, block[..]);
    Copy(block, 0, out);
  }

  method XorCounter(a: array<byte>, t: nat)
    requires a.Length == 8
    modifies a
    ensures a[..] == Xor(old(a[..]), BigEndian(t, 8))
    ensures forall i, k :: 0 <= i < 8 && 0 <= k < 8 ==> Bit(a[i], k) == (Bit(old(a[i]), k) + Bit(BigEndian(t, 8)[i], k)) % 2
  {
    hide XorByte, Bit;
    var tb := BigEndian(t, 8);
    for i := 0 to a.Length
      invariant forall k :: 0 <= k < i ==> a[k] == XorByte(old(a[k]), tb[k])
      invariant forall k :: i <= k < 8 ==> a[k] == old(a[k])
    {
      a[i] := XorByte(a[i], tb[i]);
    }
    forall i, k | 0 <= i < 8 && 0 <= k < 8 ensures Bit(a[i], k) == (Bit(old(a[i]), k) + Bit(tb[i], k)) % 2 {
      XorByteBit(old(a[i]), tb[i], k);
    }
  }

  /** The register as the shift-register definition sees an array on which i words have been updated. */
  ghost function Rotated(r: seq<Word>, i: nat): (s: seq<Word>)
    requires i <= |r|
    ensures |s| == |r|
  {
    r[i..] + r[..i]
  }

  lemma RotationStep(r: seq<Word>, i: nat, w: Word)
    requires i < |r|
    ensures Rotated(r, i)[0] == r[i]
    ensures Rotated(r[i := w], i + 1) == Rotated(r, i)[1..] + [w]
    ensures Rotated(r, i + 1)[|r| - 1] == r[i]
    ensures Rotated(r[i := w], i) == [w] + Rotated(r, i + 1)[..|r| - 1]
  {}

  lemma FullRotation(r: seq<Word>)
    ensures Rotated(r, |r|) == Rotated(r, 0) == r
  {}

  /** block16 = hi || lo, by two copies. */
  method LoadBlock(block16: array<byte>, hi: Word, lo: Word)
    requires block16.Length == 16
    modifies block16
    ensures block16[..] == hi + lo
  {
    Copy(block16, 0, hi);
    assert block16[..8] == hi;
    Copy(block16, 8, lo);
  }

  /** The body of aesKeyWrap's inner loop. */
  method WrapInPlace(c: BlockCipher, kek: bytes, a: array<byte>, r: array<Word>, block16: array<byte>, i: nat, t: nat)
    requires a.Length == 8 && block16.Length == 16 && a != block16 && 1 <= i <= r.Length
    requires r as object != a && r as object != block16
    modifies a, r, block16
    ensures Register(a[..], Rotated(r[..], i)) == WrapStep(c, kek, old(Register(a[..], Rotated(r[..], i - 1))), t)
  {
    hide Rotated, Xor, BigEndian;
    ghost var before, words := Register(a[..], Rotated(r[..], i - 1)), r[..];
    RotationStep(words, i - 1, words[i - 1]);
    LoadBlock(block16, a[..], r[i - 1]);
    assert block16[..] == before.a + before.r[0];
    ApplyInPlace(c.encrypt, kek, block16);
    ghost var b := block16[..];

    Copy(a, 0, block16[..8]);
    assert a[..] == b[..8];
    XorCounter(a, t);
    r[i - 1] := block16[8..];
    assert r[..] == words[i - 1 := b[8..]];
    RotationStep(words, i - 1, b[8..]);
  }

  /** The body of aesKeyUnwrap's inner loop. */
  method UnwrapInPlace(c: BlockCipher, kek: bytes, a: array<byte>, r: array<Word>, block16: array<byte>, i: nat, t: nat)
    requires a.Length == 8 && block16.Length == 16 && a != block16 && 1 <= i <= r.Length
    requires r as object != a && r as object != block16
    modifies a, r, block16
    ensures Register(a[..], Rotated(r[..], i - 1)) == UnwrapStep(c, kek, old(Register(a[..], Rotated(r[..], i))), t)
  {
    hide Rotated, Xor, BigEndian;
    ghost var before, words := Register(a[..], Rotated(r[..], i)), r[..];
    RotationStep(words, i - 1, words[i - 1]);
    XorCounter(a, t);
    LoadBlock(block16, a[..], r[i - 1]);
    assert block16[..] == Xor(before.a, BigEndian(t, 8)) + before.r[|before.r| - 1];
    ApplyInPlace(c.decrypt, kek, block16);
    ghost var b := block16[..];

    Copy(a, 0, block16[..8]);
    assert a[..] == b[..8];
    r[i - 1] := block16[8..];
    assert r[..] == words[i - 1 := b[8..]];
    RotationStep(words, i - 1, b[8..]);
  }

  /** One inner loop of aesKeyWrap: steps n*j+1 .. n*j+n. */
  method WrapPass(c: BlockCipher, kek: bytes, a: array<byte>, r: array<Word>, block16: array<byte>, j: nat, ghost s0: Register)
    requires a.Length == 8 && block16.Length == 16 && a != block16 && r.Length > 0 && j <= 5
    requires r as object != a && r as object != block16 && |s0.r| == r.Length
    requires Register(a[..], r[..]) == WrapSteps(c, kek, s0, Counter(r.Length, j, 0))
    modifies a, r, block16
    ensures Register(a[..], r[..]) == WrapSteps(c, kek, s0, Counter(r.Length, j + 1, 0))
  {
    hide WrapStep, Counter, Rotated;
    var n := r.Length;
    FullRotation(r[..]);
    for i := 1 to n + 1
      invariant Register(a[..], Rotated(r[..], i - 1)) == WrapSteps(c, kek, s0, Counter(n, j, i - 1))
    {
      var t := SafeUint64(n * j + i);
      CounterStep(n, j, i);
      WrapInPlace(c, kek, a, r, block16, i, t);
    }
    FullRotation(r[..]);
    CounterCarries(n, j);
  }

  lemma CounterCarries(n: nat, j: nat)
    ensures Counter(n, j, n) == Counter(n, j + 1, 0)
  {}

  /** The nested loops of aesKeyWrap. */
  method WrapLoops(c: BlockCipher, kek: bytes, a: array<byte>, r: array<Word>)
    requires a.Length == 8 && r.Length > 0 && r as object != a
    modifies a, r
    ensures Register(a[..], r[..]) == WrapSteps(c, kek, old(Register(a[..], r[..])), 6 * r.Length)
  {
    hide WrapStep, UnwrapStep;
    ghost var s0 := Register(a[..], r[..]);
    var block16 := new byte[16];
    for j := 0 to 6
      invariant Register(a[..], r[..]) == WrapSteps(c, kek, s0, Counter(r.Length, j, 0))
    {
      WrapPass(c, kek, a, r, block16, j, s0);
    }
  }

  /** One inner loop of aesKeyUnwrap: steps n*j+n down to n*j+1. */
  method UnwrapPass(c: BlockCipher, kek: bytes, a: array<byte>, r: array<Word>, block16: array<byte>, j: nat)
    requires a.Length == 8 && block16.Length == 16 && a != block16 && r.Length > 0 && j <= 5
    requires r as object != a && r as object != block16
    modifies a, r, block16
    ensures UnwrapSteps(c, kek, Register(a[..], r[..]), Counter(r.Length, j, 0))
         == UnwrapSteps(c, kek, old(Register(a[..], r[..])), Counter(r.Length, j + 1, 0))
  {
    hide UnwrapStep, Counter, Rotated;
    var n := r.Length;
    ghost var end := UnwrapSteps(c, kek, Register(a[..], r[..]), Counter(n, j, n));
    CounterCarries(n, j);
    FullRotation(r[..]);
    for i := n downto 0
      invariant UnwrapSteps(c, kek, Register(a[..], Rotated(r[..], i)), Counter(n, j, i)) == end
    {
      var t := SafeUint64(n * j + (i + 1));
      CounterStep(n, j, i + 1);
      UnwrapInPlace(c, kek, a, r, block16, i + 1, t);
    }
    FullRotation(r[..]);
  }

  /** The nested loops of aesKeyUnwrap. */
  method UnwrapLoops(c: BlockCipher, kek: bytes, a: array<byte>, r: array<Word>)
    requires a.Length == 8 && r.Length > 0 && r as object != a
    modifies a, r
    ensures Register(a[..], r[..]) == UnwrapSteps(c, kek, old(Register(a[..], r[..])), 6 * r.Length)
  {
    hide WrapStep, UnwrapStep;
    ghost var end := UnwrapSteps(c, kek, Register(a[..], r[..]), Counter(r.Length, 6, 0));
    var block16 := new byte[16];
    for j := 6 downto 0
      invariant UnwrapSteps(c, kek, Register(a[..], r[..]), Counter(r.Length, j, 0)) == end
    {
      UnwrapPass(c, kek, a, r, block16, j);
    }
  }

  method AesKeyWrap(c: BlockCipher, kek: bytes, keyData: bytes) returns (res: Result<bytes>)
    ensures res == Wrap(c, kek, keyData)
  {
    hide WrapSteps;
    if |keyData| == 0 || |keyData| % 8 != 0 {
      return Err(WrapFailed);
    }
    if !ValidAesKey(kek) {
      return Err(WrapFailed);
    }
    var r := LoadWords(keyData);
    var a := new byte[8];
    Copy(a, 0, IV);
    assert a[..] == IV;
    WrapLoops(c, kek, a, r);
    var out := StoreWords(a[..], r);
    res := Ok(out);
  }

  method AesKeyUnwrap(c: BlockCipher, kek: bytes, wrapped: bytes) returns (res: Result<bytes>)
    ensures res == Unwrap(c, kek, wrapped)
  {
    hide UnwrapSteps;
    if |wrapped| < 16 || |wrapped| % 8 != 0 {
      return Err(WrapFailed);
    }
    if !ValidAesKey(kek) {
      return Err(WrapFailed);
    }
    var a := new byte[8];
    Copy(a, 0, wrapped[..8]);
    assert a[..] == wrapped[..8];
    var r := LoadWords(wrapped[8..]);
    UnwrapLoops(c, kek, a, r);
    if a[..] != IV {
      return Err(UnwrapFailed);
    }
    var out := StoreWords([], r);
    assert [] + Flatten(r[..]) == Flatten(r[..]);
    res := Ok(out);
  }

  /** r[i] = b[8*i : 8*(i+1)], a fresh array of words. */
  method LoadWords(b: bytes) returns (r: array<Word>)
    requires |b| % 8 == 0
    ensures fresh(r) && r[..] == Words(b)
  {
    r := new Word[|b| / 8];
    for i := 0 to |b| / 8
      invariant forall k :: 0 <= k < i ==> r[k] == Words(b)[k]
    {
      r[i] := b[8 * i .. 8 * i + 8];
    }
  }

  /** head followed by every word of r. */
  /** The buffer's first bytes, one copy further. */
  method Append(buf: array<byte>, off: nat, src: bytes)
    requires off + |src| <= buf.Length
    modifies buf
    ensures buf[..off + |src|] == old(buf[..off]) + src
  {
    ghost var done, left := buf[..off], buf[off + |src|..];
    Copy(buf, off, src);
    TakeHead(done + src, left);
  }

  method StoreWords(head: bytes, r: array<Word>) returns (out: bytes)
    ensures out == head + Flatten(r[..])
  {
    hide Flatten;
    var buf := new byte[|head| + 8 * r.Length];
    Append(buf, 0, head);
    FlattenNone();
    assert buf[..0] == [] && r[..0] == [] && head + [] == head;
    for i := 0 to r.Length
      invariant buf[..|head| + 8 * i] == head + Flatten(r[..i])
    {
      Append(buf, |head| + 8 * i, r[i]);
      StoredNext(head, r[..i], r[i]);
      assert r[..i + 1] == r[..i] + [r[i]];
    }
    assert r[..r.Length] == r[..] && buf[..buf.Length] == buf[..];
    out := buf[..];
  }

  lemma StoredNext(head: bytes, w: seq<Word>, x: Word)
    ensures head + Flatten(w) + x == head + Flatten(w + [x])
  {
    FlattenSnoc(w, x);
    hide Flatten;
  }

  lemma TakeHead(a: bytes, b: bytes)
    ensures (a + b)[..|a|] == a
  {}

  lemma FlattenNone()
    ensures Flatten([]) == []
  {}

  lemma {:induction false} FlattenSnoc(w: seq<Word>, x: Word)
    ensures Flatten(w + [x]) == Flatten(w) + x
  {
    if |w| == 0 {
      assert ([x] + w)[1..] == w && w + [x] == [x];
      assert Flatten([x]) == x + Flatten([]);
    } else {
      assert (w + [x])[1..] == w[1..] + [x];
      FlattenSnoc(w[1..], x);
    }
  }

  // ----- a known answer -----

  const IDENTITY := BlockCipher((k: bytes, b: Block) => b, (k: bytes, b: Block) => b)

  lemma IdentityStep(kek: bytes, a: Word, d: Word, t: nat)
    ensures WrapStep(IDENTITY, kek, Register(a, [d]), t) == Register(Xor(a, BigEndian(t, 8)), [d])
  {
    var b := a + d;
    assert b[..8] == a && b[8..] == d && [d][1..] == [];
  }

  function Ending(x: byte): Word { [0xA6, 0xA6, 0xA6, 0xA6, 0xA6, 0xA6, 0xA6, x] }

  lemma {:induction false} XorZero(x: nat, w: nat)
    requires x < Pow2(w)
    ensures XorBits(x, 0, w) == x
    decreases w
  {
    if w > 0 { XorZero(x / 2, w - 1); }
  }

  /** A value below 8 changes the low three bits only. */
  lemma XorSmall(x: byte, y: byte)
    requires y < 8
    ensures XorByte(x, y) == 8 * (x / 8) + 4 * ((x / 4 + y / 4) % 2) + 2 * ((x / 2 + y / 2) % 2) + (x + y) % 2
  {
    assert Pow2(1) == 2 && Pow2(2) == 4 && Pow2(3) == 8 && Pow2(4) == 16 && Pow2(5) == 32;
    XorZero(x / 8, 5);
    XorBitsHalves(x, y, 8);
    XorBitsHalves(x / 2, y / 2, 7);
    XorBitsHalves(x / 4, y / 4, 6);
    hide XorBits, Pow2;
    assert x / 2 / 2 == x / 4 && x / 4 / 2 == x / 8 && y / 4 / 2 == 0 && y / 2 / 2 == y / 4;
  }

  lemma EndingXor(a: Word, x: byte, b: Word, t: byte)
    requires a == Ending(x) && b == [0, 0, 0, 0, 0, 0, 0, t]
    ensures Xor(a, b) == Ending(XorByte(x, t))
  {
    hide XorByte;
    forall i | 0 <= i < 7 ensures XorByte(a[i], b[i]) == 0xA6 { XorSmall(a[i], b[i]); }
  }

  /** One step, number t, from a register whose A is known but for its last byte. */
  lemma EndingStep(kek: bytes, s: Register, x: byte, d: Word, t: byte)
    requires t > 0 && |s.r| == 1 && WrapSteps(IDENTITY, kek, s, t - 1) == Register(Ending(x), [d])
    ensures WrapSteps(IDENTITY, kek, s, t) == Register(Ending(XorByte(x, t)), [d])
  {
    IdentityStep(kek, Ending(x), d, t);
    SmallBigEndian(t, 8);
    EndingXor(Ending(x), x, BigEndian(t, 8), t);
    hide WrapStep, XorByte, Xor, BigEndian;
  }

  lemma OneWord(d: Word)
    ensures Words(d) == [d] && Flatten([d]) == d
  {
    WordAt(d, 0, 0);
    FlattenNone();
    assert [d][1..] == [] && d + [] == d;
  }

  /** Under a cipher that changes nothing, A is the initial value with all six counters mixed in, and the word is untouched. */
  lemma WrapKnownAnswer(kek: bytes, d: Word)
    requires ValidAesKey(kek)
    ensures Wrap(IDENTITY, kek, d) == Ok([0xA6, 0xA6, 0xA6, 0xA6, 0xA6, 0xA6, 0xA6, 0xA1] + d)
  {
    hide WrapStep, XorByte, IDENTITY, Words, Flatten;
    OneWord(d);
    var s := Register(IV, [d]);
    XorSmall(0xA6, 1);
    XorSmall(0xA7, 2);
    XorSmall(0xA5, 3);
    XorSmall(0xA6, 4);
    XorSmall(0xA2, 5);
    XorSmall(0xA7, 6);
    EndingStep(kek, s, 0xA6, d, 1);
    EndingStep(kek, s, 0xA7, d, 2);
    EndingStep(kek, s, 0xA5, d, 3);
    EndingStep(kek, s, 0xA6, d, 4);
    EndingStep(kek, s, 0xA2, d, 5);
    EndingStep(kek, s, 0xA7, d, 6);
  }
}
