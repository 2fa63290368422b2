/**
 Unicode encodings of text. A Dafny char is a Unicode scalar value, so a string here is
 always valid Unicode.
 */
module Text {
  import opened Prelude

  // ----- hexadecimal -----

  function HexDigit(n: nat): char
    requires n < 16
  {
    if n < 10 then ('0' as int + n) as char else ('a' as int + n - 10) as char
  }

  function Hex(b: bytes): (s: string)
    ensures |s| == 2 * |b|
  {
    if |b| == 0 then "" else [HexDigit(b[0] / 16), HexDigit(b[0] % 16)] + Hex(b[1..])
  }

  function HexValue(c: char): int {
    if '0' <= c <= '9' then c as int - '0' as int else c as int - 'a' as int + 10
  }

  function FromHex(s: string): bytes {
    if |s| < 2 then [] else [(HexValue(s[0]) * 16 + HexValue(s[1])) % 256] + FromHex(s[2..])
  }

  lemma DigitsOfByte(x: byte)
    ensures (HexValue(HexDigit(x / 16)) * 16 + HexValue(HexDigit(x % 16))) % 256 == x
  {
    assert HexValue(HexDigit(x / 16)) == x / 16 && HexValue(HexDigit(x % 16)) == x % 16;
  }

  lemma HexUnfolds(b: bytes)
    requires |b| > 0
    ensures var s := Hex(b); s[0] == HexDigit(b[0] / 16) && s[1] == HexDigit(b[0] % 16) && s[2..] == Hex(b[1..])
  {
    hide HexDigit;
  }

  /** The digits are lower case. */
  lemma {:induction false} HexIsLowerCase(b: bytes)
    ensures forall d :: d in Hex(b) ==> '0' <= d <= '9' || 'a' <= d <= 'f'
  {
    if |b| > 0 {
      HexIsLowerCase(b[1..]);
    }
  }

  lemma {:induction false} FromHexUndoesHex(b: bytes)
    ensures FromHex(Hex(b)) == b
  {
    if |b| > 0 {
      hide HexDigit, HexValue, Hex;
      HexUnfolds(b);
      DigitsOfByte(b[0]);
      FromHexUndoesHex(b[1..]);
      assert [b[0]] + b[1..] == b;
    }
  }

  lemma HexInjective(b: bytes, c: bytes)
    requires Hex(b) == Hex(c)
    ensures b == c
  {
    FromHexUndoesHex(b);
    FromHexUndoesHex(c);
  }

  // ----- UTF-8 -----

  function Utf8Char(c: char): (b: bytes)
    ensures |b| > 0
  {
    var n := c as int;
    if n < 0x80 then [n]
    else if n < 0x800 then [0xC0 + n / 64, 0x80 + n % 64]
    else if n < 0x1_0000 then [0xE0 + n / 64 / 64, 0x80 + n / 64 % 64, 0x80 + n % 64]
    else [0xF0 + n / 64 / 64 / 64, 0x80 + n / 64 / 64 % 64, 0x80 + n / 64 % 64, 0x80 + n % 64]
  }

  function Utf8(s: string): bytes {
    if |s| == 0 then [] else Utf8Char(s[0]) + Utf8(s[1..])
  }

  /**
   The shortest of the forms of section 3 of RFC 3629: a leading byte of the form's range, continuation bytes, and the
   scalar value in the bits that are left.
   */
  lemma Utf8Form(c: char)
    ensures var b, n := Utf8Char(c), c as int;
      && |b| == (if n < 0x80 then 1 else if n < 0x800 then 2 else if n < 0x1_0000 then 3 else 4)
      && (|b| == 1 ==> b[0] < 0x80) && (|b| == 2 ==> 0xC2 <= b[0] < 0xE0) && (|b| == 3 ==> 0xE0 <= b[0] < 0xF0)
      && (|b| == 4 ==> 0xF0 <= b[0] < 0xF5)
      && (forall i :: 1 <= i < |b| ==> 0x80 <= b[i] < 0xC0)
      && ScalarOf(b) == n
  {}

  /** The first byte of a UTF-8 sequence tells its length. */
  lemma Utf8Length(c: char)
    ensures var b := Utf8Char(c);
            |b| == if b[0] < 0x80 then 1 else if b[0] < 0xE0 then 2 else if b[0] < 0xF0 then 3 else 4
  {}

  lemma Utf8CharSelfDelimiting(c: char, x: bytes, d: char, y: bytes)
    requires Utf8Char(c) + x == Utf8Char(d) + y
    ensures c == d && x == y
  {
    hide Utf8Char;
    var a, b := Utf8Char(c), Utf8Char(d);
    assert a[0] == (a + x)[0] == (b + y)[0] == b[0];
    Utf8Length(c);
    Utf8Length(d);
    SplitAt(a, x, b, y);
    Utf8CharInjective(c, d);
  }

  /** The scalar value a well-formed UTF-8 sequence stands for. */
  function ScalarOf(b: bytes): int {
    if |b| == 1 then b[0]
    else if |b| == 2 then (b[0] as int - 0xC0) * 64 + (b[1] as int - 0x80)
    else if |b| == 3 then ((b[0] as int - 0xE0) * 64 + (b[1] as int - 0x80)) * 64 + (b[2] as int - 0x80)
    else if |b| == 4 then (((b[0] as int - 0xF0) * 64 + (b[1] as int - 0x80)) * 64 + (b[2] as int - 0x80)) * 64 + (b[3] as int - 0x80)
    else 0
  }

  lemma Utf8CharInjective(c: char, d: char)
    requires Utf8Char(c) == Utf8Char(d)
    ensures c == d
  {
    assert ScalarOf(Utf8Char(c)) == c as int;
    assert ScalarOf(Utf8Char(d)) == d as int;
  }

  lemma {:induction false} Utf8Injective(s: string, t: string)
    requires Utf8(s) == Utf8(t)
    ensures s == t
  {
    if s == "" || t == "" {
    } else {
      Utf8CharSelfDelimiting(s[0], Utf8(s[1..]), t[0], Utf8(t[1..]));
      Utf8Injective(s[1..], t[1..]);
      assert s == [s[0]] + s[1..] && t == [t[0]] + t[1..];
    }
  }

  // ----- UTF-16 code units, and the order section 3.2.3 of RFC 8785 sorts keys by -----

  function Utf16Char(c: char): (u: seq<int>)
    ensures |u| > 0
  {
    var n := c as int;
    if n < 0x1_0000 then [n]
    else [0xD800 + (n - 0x1_0000) / 0x400, 0xDC00 + (n - 0x1_0000) % 0x400]
  }

  function Utf16(s: string): seq<int> {
    if |s| == 0 then [] else Utf16Char(s[0]) + Utf16(s[1..])
  }

  /** A character of the basic plane is its own unit; any other is a high and a low surrogate, ten bits each (RFC 2781). */
  lemma Utf16Form(c: char)
    ensures var u, n := Utf16Char(c), c as int;
      && (n < 0x1_0000 ==> u == [n])
      && (n >= 0x1_0000 ==> |u| == 2 && 0xD800 <= u[0] < 0xDC00 && 0xDC00 <= u[1] < 0xE000
                            && (u[0] - 0xD800) * 0x400 + (u[1] - 0xDC00) == n - 0x1_0000)
  {}

  lemma Utf16CharSelfDelimiting(c: char, x: seq<int>, d: char, y: seq<int>)
    requires Utf16Char(c) + x == Utf16Char(d) + y
    ensures c == d && x == y
  {
    var a, b := Utf16Char(c), Utf16Char(d);
    assert a[0] == (a + x)[0] == (b + y)[0] == b[0];
    SplitAt(a, x, b, y);
    if |a| == 2 {
      assert a[1] == b[1];
    }
  }

  lemma {:induction false} Utf16Injective(s: string, t: string)
    requires Utf16(s) == Utf16(t)
    ensures s == t
  {
    if s == "" || t == "" {
    } else {
      Utf16CharSelfDelimiting(s[0], Utf16(s[1..]), t[0], Utf16(t[1..]));
      Utf16Injective(s[1..], t[1..]);
      assert s == [s[0]] + s[1..] && t == [t[0]] + t[1..];
    }
  }

  /** Lexicographic order on code units. */
  predicate UnitsLess(a: seq<int>, b: seq<int>) {
    if b == [] then false
    else if a == [] then true
    else a[0] < b[0] || (a[0] == b[0] && UnitsLess(a[1..], b[1..]))
  }

  /** The two agree up to some position, where the first ends or has the smaller unit. */
  lemma {:induction false} UnitsLessIff(a: seq<int>, b: seq<int>)
    ensures UnitsLess(a, b) <==> exists i :: 0 <= i <= |a| && i < |b| && a[..i] == b[..i] && (i == |a| || a[i] < b[i])
  {
    if a != [] && b != [] {
      UnitsLessIff(a[1..], b[1..]);
      if UnitsLess(a, b) {
        if a[0] < b[0] {
          assert a[..0] == b[..0];
        } else {
          var j :| 0 <= j <= |a[1..]| && j < |b[1..]| && a[1..][..j] == b[1..][..j] && (j == |a[1..]| || a[1..][j] < b[1..][j]);
          assert a[..j + 1] == [a[0]] + a[1..][..j] && b[..j + 1] == [b[0]] + b[1..][..j];
        }
      }
      if i :| 0 <= i <= |a| && i < |b| && a[..i] == b[..i] && (i == |a| || a[i] < b[i]) {
        if i > 0 {
          assert a[0] == a[..i][0] == b[..i][0] == b[0];
          assert a[1..][..i - 1] == a[..i][1..] && b[1..][..i - 1] == b[..i][1..];
        }
      }
    } else {
      assert a[..0] == b[..0];
    }
  }

  lemma {:induction false} UnitsLessTotal(a: seq<int>, b: seq<int>)
    ensures !(UnitsLess(a, b) && UnitsLess(b, a))
    ensures UnitsLess(a, b) || UnitsLess(b, a) || a == b
  {
    if a != [] && b != [] && a[0] == b[0] {
      UnitsLessTotal(a[1..], b[1..]);
      assert a == [a[0]] + a[1..] && b == [b[0]] + b[1..];
    }
  }

  lemma {:induction false} UnitsLessTransitive(a: seq<int>, b: seq<int>, c: seq<int>)
    requires UnitsLess(a, b) && UnitsLess(b, c)
    ensures UnitsLess(a, c)
  {
    if a != [] && a[0] == b[0] == c[0] {
      UnitsLessTransitive(a[1..], b[1..], c[1..]);
    }
  }

  predicate Before(s: string, t: string) { UnitsLess(Utf16(s), Utf16(t)) }

  lemma BeforeTotal(s: string, t: string)
    ensures !(Before(s, t) && Before(t, s))
    ensures Before(s, t) || Before(t, s) || s == t
  {
    UnitsLessTotal(Utf16(s), Utf16(t));
    if Utf16(s) == Utf16(t) {
      Utf16Injective(s, t);
    }
  }

  predicate IsFirst(x: string, s: set<string>) {
    x in s && forall y :: y in s && y != x ==> Before(x, y)
  }

  lemma {:induction false} FirstExists(s: set<string>)
    requires s != {}
    ensures exists x :: IsFirst(x, s)
  {
    hide Before;
    var x :| x in s;
    if s == {x} {
      assert IsFirst(x, s);
    } else {
      FirstExists(s - {x});
      var m :| IsFirst(m, s - {x});
      BeforeTotal(x, m);
      if Before(m, x) {
        assert IsFirst(m, s);
      } else {
        forall y | y in s && y != x ensures Before(x, y) {
          if y != m { Transitive(x, m, y); }
        }
        assert IsFirst(x, s);
      }
    }
  }

  lemma Transitive(s: string, t: string, u: string)
    requires Before(s, t) && Before(t, u)
    ensures Before(s, u)
  {
    UnitsLessTransitive(Utf16(s), Utf16(t), Utf16(u));
  }

  lemma FirstUnique(s: set<string>)
    ensures forall x, y :: IsFirst(x, s) && IsFirst(y, s) ==> x == y
  {
    hide Before;
    forall x, y | IsFirst(x, s) && IsFirst(y, s) ensures x == y {
      BeforeTotal(x, y);
    }
  }

  /** The elements of s, each once, in ascending order of their UTF-16 code units. */
  function SortedKeys(s: set<string>): (keys: seq<string>)
    ensures forall k :: k in keys <==> k in s
    ensures forall i, j :: 0 <= i < j < |keys| ==> Before(keys[i], keys[j])
    decreases s
  {
    if s == {} then []
    else
      FirstExists(s);
      FirstUnique(s);
      var x :| IsFirst(x, s);
      [x] + SortedKeys(s - {x})
  }

  /** Two ascending lists of the same keys are one list. */
  lemma {:induction false} SortedUnique(a: seq<string>, b: seq<string>)
    requires forall k :: k in a <==> k in b
    requires forall i, j :: 0 <= i < j < |a| ==> Before(a[i], a[j])
    requires forall i, j :: 0 <= i < j < |b| ==> Before(b[i], b[j])
    ensures a == b
  {
    hide Before;
    assert (a != [] ==> a[0] in b) && (b != [] ==> b[0] in a);
    if a != [] && b != [] {
      HeadIsFirst(a, b);
      HeadIsFirst(b, a);
      BeforeTotal(a[0], b[0]);
      forall k ensures k in a[1..] <==> k in b[1..] {
        TailKeys(a, k);
        TailKeys(b, k);
      }
      SortedUnique(a[1..], b[1..]);
      assert a == [a[0]] + a[1..] && b == [b[0]] + b[1..];
    }
  }

  /** The head of an ascending list is not after any element of a list with the same keys. */
  lemma HeadIsFirst(a: seq<string>, b: seq<string>)
    requires a != [] && b != [] && forall k :: k in a <==> k in b
    requires forall i, j :: 0 <= i < j < |a| ==> Before(a[i], a[j])
    ensures a[0] == b[0] || Before(a[0], b[0])
  {
    hide Before;
    assert b[0] in a;
    var i :| 0 <= i < |a| && a[i] == b[0];
  }

  lemma TailKeys(a: seq<string>, k: string)
    requires a != [] && forall i, j :: 0 <= i < j < |a| ==> Before(a[i], a[j])
    ensures k in a[1..] <==> k in a && k != a[0]
  {
    hide Before;
    if k in a[1..] {
      var i :| 0 <= i < |a| - 1 && a[1..][i] == k;
      assert a[i + 1] == k;
      BeforeTotal(a[0], k);
    }
    if k in a && k != a[0] {
      var i :| 0 <= i < |a| && a[i] == k;
      assert a[1..][i - 1] == k;
    }
  }
}
