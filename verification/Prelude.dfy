/** Bytes, big-endian counters, and the result types every other module shares. */
module Prelude {
  type byte = b: nat | b < 256
  type bytes = seq<byte>

  datatype Option<+T> = None | Some(value: T)

  /** The sentinel errors the library returns; wrapping text is not modelled. */
  datatype Error =
    | WrapFailed | UnwrapFailed | KeyAgreementFailed | RandomFailed
    | NoAudiences | DuplicateAudience | SegmentMissing
    | AuthorityUnreachable | IntentDenied | UnknownIntentRef | DuplicateIntentRef
    | MalformedPackage | BindingCollision | BindingFailed
    | NilPackage | IntegrityCheckFailed | DecryptionFailed | HashMismatch
    | Canceled | BadProjection | BadSeed | SeedDirUnreadable

  datatype Result<+T> = Ok(value: T) | Err(error: Error) {
    predicate IsFailure() { Err? }
    function PropagateFailure<U>(): Result<U> requires Err? { Err(error) }
    function Extract(): T requires Ok? { value }
  }

  /** A Go slice or map: the nil value is distinct from an empty one. */
  datatype Nilable<+T> = Nil | Val(value: T)

  /** The contents of a byte slice, whichever way it is empty. */
  function Contents(b: Nilable<bytes>): bytes {
    match b case Nil => [] case Val(v) => v
  }

  // ----- big-endian integers -----

  /** The byte of n that has k less significant bytes below it. */
  function ByteAt(n: nat, k: nat): byte
    decreases k
  {
    if k == 0 then n % 256 else ByteAt(n / 256, k - 1)
  }

  /** The low `width` bytes of n, most significant first. */
  function BigEndian(n: nat, width: nat): (b: bytes)
    ensures |b| == width
  {
    seq(width, i requires 0 <= i < width => ByteAt(n, width - 1 - i))
  }

  function Pow256(w: nat): (p: nat)
    ensures p > 0
  {
    if w == 0 then 1 else 256 * Pow256(w - 1)
  }

  const TWO_32: nat := 0x1_0000_0000

  lemma {:induction false} BigEndianInjective(m: nat, n: nat, w: nat)
    requires BigEndian(m, w) == BigEndian(n, w)
    requires m < Pow256(w) && n < Pow256(w)
    ensures m == n
  {
    if w > 0 {
      BigEndianSnoc(m, w);
      BigEndianSnoc(n, w);
      LastOf(BigEndian(m / 256, w - 1), m % 256);
      LastOf(BigEndian(n / 256, w - 1), n % 256);
      BigEndianInjective(m / 256, n / 256, w - 1);
    }
  }

  lemma BigEndianSnoc(n: nat, w: nat)
    requires w > 0
    ensures BigEndian(n, w) == BigEndian(n / 256, w - 1) + [n % 256]
  {
    forall i | 0 <= i < w ensures BigEndian(n, w)[i] == (BigEndian(n / 256, w - 1) + [n % 256])[i] {
      assert BigEndian(n, w)[i] == ByteAt(n, w - 1 - i);
    }
  }

  lemma {:induction false} ZeroBigEndian(w: nat)
    ensures BigEndian(0, w) == seq(w, _ => 0)
  {
    if w > 0 {
      BigEndianSnoc(0, w);
      ZeroBigEndian(w - 1);
    }
  }

  /** A single byte, behind zeros. */
  lemma SmallBigEndian(n: byte, w: nat)
    requires w > 0
    ensures BigEndian(n, w) == seq(w - 1, _ => 0) + [n]
  {
    BigEndianSnoc(n, w);
    ZeroBigEndian(w - 1);
  }

  lemma BigEndian32Injective(m: nat, n: nat)
    requires m < TWO_32 && n < TWO_32 && BigEndian(m, 4) == BigEndian(n, 4)
    ensures m == n
  {
    assert Pow256(4) == TWO_32 by {
      assert Pow256(1) == 256 && Pow256(2) == 0x1_0000 && Pow256(3) == 0x100_0000;
    }
    BigEndianInjective(m, n, 4);
  }

  lemma LastOf<T>(s: seq<T>, x: T)
    ensures (s + [x])[..|s|] == s && (s + [x])[|s|] == x
  {}

  // ----- exclusive or -----

  /** Exclusive or of the low k bits of x and y, one bit at a time. */
  function XorBits(x: nat, y: nat, k: nat): nat
    decreases k
  {
    if k == 0 then 0 else 2 * XorBits(x / 2, y / 2, k - 1) + (x + y) % 2
  }

  function Pow2(k: nat): (p: nat)
    ensures p > 0
  {
    if k == 0 then 1 else 2 * Pow2(k - 1)
  }

  lemma {:induction false} XorBitsBelow(x: nat, y: nat, k: nat)
    ensures XorBits(x, y, k) < Pow2(k)
    decreases k
  {
    if k > 0 { XorBitsBelow(x / 2, y / 2, k - 1); }
  }

  lemma {:induction false} XorBitsCancels(x: nat, y: nat, k: nat)
    requires x < Pow2(k)
    ensures XorBits(XorBits(x, y, k), y, k) == x
    decreases k
  {
    if k > 0 {
      var h := XorBits(x / 2, y / 2, k - 1);
      XorBitsCancels(x / 2, y / 2, k - 1);
      BitCancels(h, x, y);
      assert XorBits(2 * h + (x + y) % 2, y, k) == 2 * XorBits(h, y / 2, k - 1) + x % 2;
    }
  }

  /** Bit k of n. */
  function Bit(n: nat, k: nat): nat { (n / Pow2(k)) % 2 }

  lemma ScaleBounds(e: int, d: nat)
    requires d > 0
    ensures e >= 1 ==> e * d >= d
    ensures e <= -1 ==> e * d + d <= 0
  {}

  lemma QuotientIs(a: nat, d: nat, q: int, r: int)
    requires d > 0 && a == q * d + r && 0 <= r < d
    ensures a / d == q
  {
    var e := a / d - q;
    assert a == (a / d) * d + a % d;
    assert e * d == r - a % d;
    ScaleBounds(e, d);
  }

  lemma HalveFirst(n: nat, p: nat)
    requires p > 0
    ensures n / (2 * p) == (n / 2) / p
  {
    var h := n / 2;
    var q, r := h / p, h % p;
    assert h == q * p + r && 0 <= r < p;
    assert n == q * (2 * p) + (2 * r + n % 2);
    QuotientIs(n, 2 * p, q, 2 * r + n % 2);
  }

  /** A bit above the lowest is a bit of the half. */
  lemma BitOfHalf(n: nat, k: nat)
    requires k > 0
    ensures Bit(n, k) == Bit(n / 2, k - 1)
  {
    HalveFirst(n, Pow2(k - 1));
  }

  lemma {:induction false} XorBitsAt(x: nat, y: nat, w: nat, k: nat)
    requires k < w
    ensures Bit(XorBits(x, y, w), k) == (Bit(x, k) + Bit(y, k)) % 2
    decreases w
  {
    XorBitsHalves(x, y, w);
    hide XorBits;
    if k == 0 {
      SumParity(x, y);
    } else {
      BitOfHalf(XorBits(x, y, w), k);
      BitOfHalf(x, k);
      BitOfHalf(y, k);
      hide Bit;
      XorBitsAt(x / 2, y / 2, w - 1, k - 1);
    }
  }

  lemma XorBitsHalves(x: nat, y: nat, w: nat)
    requires w > 0
    ensures XorBits(x, y, w) / 2 == XorBits(x / 2, y / 2, w - 1) && XorBits(x, y, w) % 2 == (x + y) % 2
  {}

  lemma BitCancels(h: nat, x: nat, y: nat)
    ensures (2 * h + (x + y) % 2) / 2 == h
    ensures (2 * h + (x + y) % 2 + y) % 2 == x % 2
  {}

  function XorByte(x: byte, y: byte): byte {
    XorBitsBelow(x, y, 8);
    assert Pow2(8) == 256;
    XorBits(x, y, 8)
  }

  /** Each bit of the exclusive or is set exactly when one of the two bits is and not both. */
  lemma XorByteBit(x: byte, y: byte, k: nat)
    requires k < 8
    ensures (XorByte(x, y) / Pow2(k)) % 2 == (x / Pow2(k) + y / Pow2(k)) % 2
    ensures Bit(XorByte(x, y), k) == (Bit(x, k) + Bit(y, k)) % 2
  {
    hide XorBits, Pow2;
    XorBitsAt(x, y, 8, k);
    SumParity(x / Pow2(k), y / Pow2(k));
  }

  lemma SumParity(a: nat, b: nat)
    ensures (a + b) % 2 == (a % 2 + b % 2) % 2
  {}

  lemma XorByteCancels(x: byte, y: byte)
    ensures XorByte(XorByte(x, y), y) == x
  {
    assert Pow2(8) == 256;
    XorBitsCancels(x, y, 8);
  }

  function Xor(a: bytes, b: bytes): (c: bytes)
    requires |a| == |b|
    ensures |c| == |a|
  {
    seq(|a|, i requires 0 <= i < |a| => XorByte(a[i], b[i]))
  }

  /** The same for byte strings, byte by byte. */
  lemma XorBit(a: bytes, b: bytes, i: nat, k: nat)
    requires |a| == |b| && i < |a| && k < 8
    ensures Bit(Xor(a, b)[i], k) == (Bit(a[i], k) + Bit(b[i], k)) % 2
  {
    hide XorByte, Bit;
    XorByteBit(a[i], b[i], k);
  }

  lemma XorCancels(a: bytes, b: bytes)
    requires |a| == |b|
    ensures Xor(Xor(a, b), b) == a
  {
    hide XorByte;
    forall i | 0 <= i < |a| ensures XorByte(XorByte(a[i], b[i]), b[i]) == a[i] {
      XorByteCancels(a[i], b[i]);
    }
  }

  // ----- concatenations -----

  /** Two equal concatenations whose first parts have equal length split alike. */
  lemma SplitAt<T>(a: seq<T>, x: seq<T>, b: seq<T>, y: seq<T>)
    requires a + x == b + y && |a| == |b|
    ensures a == b && x == y
  {
    assert a == (a + x)[..|a|] && b == (b + y)[..|b|];
    assert x == (a + x)[|a|..] && y == (b + y)[|b|..];
  }

  // ----- sequences without repeats -----

  ghost predicate Distinct<T>(s: seq<T>) {
    forall i, j :: 0 <= i < j < |s| ==> s[i] != s[j]
  }

  lemma RepeatedNotDistinct<T>(s: seq<T>, i: nat)
    requires i < |s| && s[i] in s[..i]
    ensures !Distinct(s)
  {
    var k :| 0 <= k < i && s[..i][k] == s[i];
    assert s[k] == s[i];
  }

  lemma {:induction false} DistinctCardinality<T>(s: seq<T>)
    requires Distinct(s)
    ensures |set x | x in s| == |s|
  {
    if |s| > 0 {
      var t := s[..|s| - 1];
      DistinctCardinality(t);
      assert s == t + [s[|s| - 1]];
      assert (set x | x in s) == (set x | x in t) + {s[|s| - 1]};
    }
  }

  lemma {:induction false} SubsetOfSameSize<T>(a: set<T>, b: set<T>)
    requires a <= b && |a| == |b|
    ensures a == b
  {
    if a != b {
      var x :| x in b && x !in a;
      SubsetCardinality(a, b - {x});
    }
  }

  lemma {:induction false} SubsetCardinality<T>(a: set<T>, b: set<T>)
    requires a <= b
    ensures |a| <= |b|
  {
    if a != {} {
      var x :| x in a;
      SubsetCardinality(a - {x}, b - {x});
    }
  }

  /** Distinct elements, as many as b has and all of them in b, are all of b. */
  lemma Pigeonhole<T>(s: seq<T>, b: set<T>)
    requires Distinct(s) && |s| == |b| && forall x :: x in s ==> x in b
    ensures forall x :: x in s <==> x in b
  {
    DistinctCardinality(s);
    SubsetOfSameSize((set x | x in s), b);
    forall x ensures x in s <==> x in b {
      assert x in (set y | y in s) <==> x in b;
    }
  }

  lemma {:induction false} DistinctMultiplicity<T>(s: seq<T>, x: T)
    requires Distinct(s)
    ensures multiset(s)[x] == if x in s then 1 else 0
  {
    if |s| > 0 {
      var t := s[..|s| - 1];
      DistinctMultiplicity(t, x);
      assert s == t + [s[|s| - 1]];
    }
  }

  /** A sequence is a rearrangement of a distinct one exactly when it is distinct with the same elements. */
  lemma PermutationOfDistinct<T>(s: seq<T>, r: seq<T>)
    requires Distinct(r)
    ensures multiset(s) == multiset(r) <==> Distinct(s) && forall x :: x in s <==> x in r
  {
    if multiset(s) == multiset(r) {
      forall i, j | 0 <= i < j < |s| ensures s[i] != s[j] {
        if s[i] == s[j] {
          DistinctMultiplicity(r, s[i]);
          TwoOccurrences(s, i, j);
          assert false;
        }
      }
      forall x ensures x in s <==> x in r {
        assert x in s <==> x in multiset(s);
        assert x in r <==> x in multiset(r);
      }
    }
    if Distinct(s) && forall x :: x in s <==> x in r {
      forall x ensures multiset(s)[x] == multiset(r)[x] {
        DistinctMultiplicity(s, x);
        DistinctMultiplicity(r, x);
      }
      assert multiset(s) == multiset(r);
    }
  }

  lemma TwoOccurrences<T>(s: seq<T>, i: nat, j: nat)
    requires i < j < |s| && s[i] == s[j]
    ensures multiset(s)[s[i]] >= 2
  {
    assert s == s[..j] + [s[j]] + s[j + 1..];
    assert s[i] in s[..j];
    assert s[i] in multiset(s[..j]);
  }
}
