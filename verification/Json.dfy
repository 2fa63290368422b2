/**
 The canonical JSON of RFC 8785, for the values the library canonicalizes: null, strings,
 arrays and objects. The canonical bytes determine the value.
 */
module Json {
  import opened Prelude
  import opened Text

  /** An object is a map, so it has no member order; a value built from a struct or a Go map is one. */
  datatype Json =
    | JNull
    | JString(text: string)
    | JArray(items: seq<Json>)
    | JObject(members: map<string, Json>)

  // ----- section 3.2.2.2: strings -----

  function EscapeChar(c: char): (e: string)
    ensures |e| > 0 && e[0] != '"'
  {
    match c
    case '\"' => "\\\""
    case '\\' => "\\\\"
    case '\n' => "\\n"
    case '\r' => "\\r"
    case '\t' => "\\t"
    case _ =>
      if c as int == 8 then "\\b"
      else if c as int == 12 then "\\f"
      else if c as int < 0x20 then "\\u00" + [HexDigit(c as int / 16), HexDigit(c as int % 16)]
      else [c]
  }

  /** The rest of a quoted string, up to and including the closing quote. */
  function QuoteRest(s: string): (q: string)
    ensures |q| > 0
  {
    if s == "" then "\"" else EscapeChar(s[0]) + QuoteRest(s[1..])
  }

  function Quote(s: string): string { "\"" + QuoteRest(s) }

  // ----- sections 3.2.1 and 3.2.3: no whitespace, members sorted by key -----

  function Print(j: Json): (p: string)
    ensures |p| > 0 && p[0] != ']' && p[0] != '}' && p[0] != ','
    decreases j
  {
    match j
    case JNull => "null"
    case JString(s) => Quote(s)
    case JArray(_) => "[" + PrintItems(j, 0)
    case JObject(m) => "{" + PrintMembers(j, SortedKeys(m.Keys), true)
  }

  /** Items i, i+1, ... and the closing bracket. */
  function PrintItems(j: Json, i: nat): (p: string)
    requires j.JArray? && i <= |j.items|
    ensures |p| > 0
    decreases j, |j.items| - i
  {
    if i == |j.items| then "]"
    else (if i == 0 then "" else ",") + Print(j.items[i]) + PrintItems(j, i + 1)
  }

  /** The members named by keys, in that order, and the closing brace. */
  function PrintMembers(j: Json, keys: seq<string>, first: bool): (p: string)
    requires j.JObject? && forall k :: k in keys ==> k in j.members
    ensures |p| > 0
    decreases j, |keys|
  {
    if |keys| == 0 then "}"
    else
      var k := keys[0];
      (if first then "" else ",") + Quote(k) + ":" + Print(j.members[k]) + PrintMembers(j, keys[1..], false)
  }

  /** JCS of the library: the canonical text as UTF-8. */
  function JCS(j: Json): bytes { Utf8(Print(j)) }

  // ----- what is printed, on strings alone -----

  /** The parts with sep between neighbours. */
  function Join(parts: seq<string>, sep: string): string {
    if |parts| == 0 then "" else if |parts| == 1 then parts[0] else parts[0] + sep + Join(parts[1..], sep)
  }

  /** The printed form of each value. */
  function Texts(vs: seq<Json>): (t: seq<string>)
    ensures |t| == |vs| && forall i :: 0 <= i < |vs| ==> t[i] == Print(vs[i])
  {
    seq(|vs|, i requires 0 <= i < |vs| => Print(vs[i]))
  }

  lemma {:induction false} ItemsJoined(j: Json, i: nat)
    requires j.JArray? && i < |j.items|
    ensures PrintItems(j, i) == (if i == 0 then "" else ",") + Join(Texts(j.items[i..]), ",") + "]"
    decreases |j.items| - i
  {
    hide Print, Texts;
    var parts, rest := Texts(j.items[i..]), Texts(j.items[i + 1..]);
    var p := Print(j.items[i]);
    var sep := if i == 0 then "" else ",";
    assert PrintItems(j, i) == sep + p + PrintItems(j, i + 1);
    if i + 1 == |j.items| {
      assert parts == [p];
    } else {
      ItemsJoined(j, i + 1);
      assert parts[1..] == rest;
      hide PrintItems;
      assert sep + p + ("," + Join(rest, ",") + "]") == sep + (p + "," + Join(rest, ",")) + "]";
    }
  }

  /** An array is its printed items, with commas between them, in brackets. */
  lemma ArrayText(vs: seq<Json>)
    ensures Print(JArray(vs)) == "[" + Join(Texts(vs), ",") + "]"
  {
    hide Texts;
    if |vs| > 0 {
      var j := JArray(vs);
      ItemsJoined(j, 0);
      assert j.items[0..] == vs;
    }
  }

  /** One member of an object. */
  function Member(k: string, v: Json): string { Quote(k) + ":" + Print(v) }

  /** The members named by ks, in that order. */
  function MemberTexts(m: map<string, Json>, ks: seq<string>): (t: seq<string>)
    requires forall k :: k in ks ==> k in m
    ensures |t| == |ks| && forall i :: 0 <= i < |ks| ==> t[i] == Member(ks[i], m[ks[i]])
  {
    seq(|ks|, i requires 0 <= i < |ks| => Member(ks[i], m[ks[i]]))
  }

  lemma {:induction false} MembersJoined(j: Json, ks: seq<string>, first: bool)
    requires j.JObject? && |ks| > 0 && forall k :: k in ks ==> k in j.members
    ensures PrintMembers(j, ks, first) == (if first then "" else ",") + Join(MemberTexts(j.members, ks), ",") + "}"
    decreases |ks|
  {
    hide Print, Quote, MemberTexts;
    var parts, rest := MemberTexts(j.members, ks), MemberTexts(j.members, ks[1..]);
    var sep := if first then "" else ",";
    MemberFirst(j, ks, first);
    if |ks| == 1 {
      assert parts == [Member(ks[0], j.members[ks[0]])];
    } else {
      MembersJoined(j, ks[1..], false);
      assert parts[1..] == rest;
      hide PrintMembers, Member;
      assert sep + parts[0] + ("," + Join(rest, ",") + "}") == sep + (parts[0] + "," + Join(rest, ",")) + "}";
    }
  }

  lemma MemberFirst(j: Json, ks: seq<string>, first: bool)
    requires j.JObject? && |ks| > 0 && forall k :: k in ks ==> k in j.members
    ensures PrintMembers(j, ks, first)
         == (if first then "" else ",") + Member(ks[0], j.members[ks[0]]) + PrintMembers(j, ks[1..], false)
    ensures |ks| == 1 ==> PrintMembers(j, ks[1..], false) == "}"
  {
    hide Print, Quote;
  }

  /** ks is the keys of m, each once, in ascending order of their UTF-16 code units. */
  ghost predicate InOrder(ks: seq<string>, m: map<string, Json>) {
    (forall k :: k in ks <==> k in m) && forall i, j :: 0 <= i < j < |ks| ==> Before(ks[i], ks[j])
  }

  /** An object is its members in key order, with commas between them, in braces. */
  lemma ObjectText(m: map<string, Json>, ks: seq<string>)
    requires InOrder(ks, m)
    ensures Print(JObject(m)) == "{" + Join(MemberTexts(m, ks), ",") + "}"
  {
    hide Quote, SortedKeys, Before, MemberTexts;
    SortedUnique(ks, SortedKeys(m.Keys));
    if |ks| > 0 {
      MembersJoined(JObject(m), ks, true);
    }
  }

  // ----- each character, as section 3.2.2.2 of RFC 8785 has it -----

  /** The spellings of one character that the grammar of RFC 8259 allows, without surrogate pairs. */
  predicate Spells(e: string, c: char) {
    || (e == [c] && c as int >= 0x20 && c != '"' && c != '\\')
    || (|e| == 2 && e[0] == '\\' && ShortEscape(e[1]) == Some(c))
    || (|e| == 6 && e[..2] == "\\u" && HexFour(e[2..]) == Some(c as int))
  }

  /** What a two-character escape stands for. */
  function ShortEscape(e: char): Option<char> {
    match e
    case '\"' => Some('\"')
    case '\\' => Some('\\')
    case '/' => Some('/')
    case 'b' => Some(8 as char)
    case 'f' => Some(12 as char)
    case 'n' => Some('\n')
    case 'r' => Some('\r')
    case 't' => Some('\t')
    case _ => None
  }

  function HexDigitValue(c: char): Option<nat> {
    if '0' <= c <= '9' then Some(c as int - '0' as int)
    else if 'a' <= c <= 'f' then Some(c as int - 'a' as int + 10)
    else if 'A' <= c <= 'F' then Some(c as int - 'A' as int + 10)
    else None
  }

  function HexFour(h: string): Option<nat>
    requires |h| == 4
  {
    var a, b, c, d := HexDigitValue(h[0]), HexDigitValue(h[1]), HexDigitValue(h[2]), HexDigitValue(h[3]);
    if a.Some? && b.Some? && c.Some? && d.Some? then Some(((a.value * 16 + b.value) * 16 + c.value) * 16 + d.value) else None
  }

  /** A character is printed in its shortest spelling, and the digits of a long one are lower case. */
  lemma EscapeIsShortest(c: char, e: string)
    ensures Spells(EscapeChar(c), c)
    ensures Spells(e, c) ==> |EscapeChar(c)| <= |e|
    ensures forall d :: d in EscapeChar(c) && |EscapeChar(c)| == 6 ==> !('A' <= d <= 'F')
  {
    EscapeForms(c);
    assert Spells(e, c) && |e| == 2 ==> ShortEscape(e[1]) == Some(c);
  }

  lemma EscapeForms(c: char)
    ensures Spells(EscapeChar(c), c)
    ensures |EscapeChar(c)| == 6 ==> c as int < 0x20 && c as int != 8 && c as int != 12 && c != '\n' && c != '\r' && c != '\t'
    ensures |EscapeChar(c)| == 6 ==> forall d :: d in EscapeChar(c) ==> !('A' <= d <= 'F')
    ensures |EscapeChar(c)| in {1, 2, 6} && (|EscapeChar(c)| == 2 ==> c as int < 0x20 || c == '"' || c == '\\')
  {
    if c as int < 0x20 {
      HexDigits(c as int);
    }
  }

  lemma HexDigits(n: nat)
    requires n < 0x20
    ensures HexDigitValue(HexDigit(n / 16)) == Some(n / 16) && HexDigitValue(HexDigit(n % 16)) == Some(n % 16)
    ensures !('A' <= HexDigit(n / 16) <= 'F') && !('A' <= HexDigit(n % 16) <= 'F')
  {}

  // ----- a parser, from the grammar of RFC 8259 less whitespace, numbers and booleans -----

  /** The characters of a string up to its closing quote, and what follows it. */
  function ParseString(s: string): (r: Option<(string, string)>)
    ensures r.Some? ==> |r.value.1| < |s|
  {
    if s == "" then None
    else if s[0] == '"' then Some(("", s[1..]))
    else if s[0] != '\\' then
      if s[0] as int < 0x20 then None else Prepend(s[0], ParseString(s[1..]))
    else if |s| >= 2 && ShortEscape(s[1]).Some? then Prepend(ShortEscape(s[1]).value, ParseString(s[2..]))
    else if |s| >= 6 && s[1] == 'u' && HexFour(s[2..6]).Some? && Scalar(HexFour(s[2..6]).value) then
      Prepend(HexFour(s[2..6]).value as char, ParseString(s[6..]))
    else None
  }

  /** Half of a surrogate pair is no character. */
  predicate Scalar(n: nat) { n < 0xD800 || 0xE000 <= n < 0x1_0000 }

  function Prepend(c: char, r: Option<(string, string)>): (r': Option<(string, string)>)
    ensures r'.Some? <==> r.Some?
    ensures r.Some? ==> r'.value.1 == r.value.1
  {
    match r
    case None => None
    case Some((text, rest)) => Some(([c] + text, rest))
  }

  /** A value at the head of s, and what follows it. */
  function ParseValue(s: string): (r: Option<(Json, string)>)
    ensures r.Some? ==> |r.value.1| < |s|
    decreases |s|, 0
  {
    if s == "" then None
    else if s[0] == 'n' then if "null" <= s then Some((JNull, s[4..])) else None
    else if s[0] == '"' then
      match ParseString(s[1..])
      case None => None
      case Some((text, rest)) => Some((JString(text), rest))
    else if s[0] == '[' then
      if "[]" <= s then Some((JArray([]), s[2..])) else ParseItems(s[1..], [])
    else if s[0] == '{' then
      if "{}" <= s then Some((JObject(map[]), s[2..])) else ParseMembers(s[1..], map[])
    else None
  }

  /** The items from here on, after those already read. */
  function ParseItems(s: string, read: seq<Json>): (r: Option<(Json, string)>)
    ensures r.Some? ==> |r.value.1| < |s|
    decreases |s|, 1
  {
    match ParseValue(s)
    case None => None
    case Some((v, rest)) =>
      if rest == "" then None
      else if rest[0] == ',' then ParseItems(rest[1..], read + [v])
      else if rest[0] == ']' then Some((JArray(read + [v]), rest[1..]))
      else None
  }

  /** The members from here on; a name may occur once. */
  function ParseMembers(s: string, read: map<string, Json>): (r: Option<(Json, string)>)
    ensures r.Some? ==> |r.value.1| < |s|
    decreases |s|, 1
  {
    if s == "" || s[0] != '"' then None
    else
      match ParseString(s[1..])
      case None => None
      case Some((k, colon)) =>
        if colon == "" || colon[0] != ':' || k in read then None
        else
          match ParseValue(colon[1..])
          case None => None
          case Some((v, rest)) =>
            if rest == "" then None
            else if rest[0] == ',' then ParseMembers(rest[1..], read[k := v])
            else if rest[0] == '}' then Some((JObject(read[k := v]), rest[1..]))
            else None
  }

  // ----- the parser recovers what was printed -----

  lemma Regroup(a: string, b: string, x: string)
    ensures (a + b) + x == a + (b + x)
  {}

  lemma ParseEscape(c: char, x: string)
    ensures ParseString(EscapeChar(c) + x) == Prepend(c, ParseString(x))
  {
    var e, s := EscapeChar(c), EscapeChar(c) + x;
    EscapeForms(c);
    hide EscapeChar;
    assert s[0] == e[0] && s[|e|..] == x;
    if |e| >= 2 { assert s[1] == e[1]; }
    if |e| == 6 { assert s[2..6] == e[2..]; }
  }

  lemma {:induction false} ParseQuoted(t: string, x: string)
    ensures ParseString(QuoteRest(t) + x) == Some((t, x))
  {
    hide EscapeChar;
    if t == "" {
      assert ("\"" + x)[1..] == x;
    } else {
      ParseQuoted(t[1..], x);
      ParseEscape(t[0], QuoteRest(t[1..]) + x);
      Regroup(EscapeChar(t[0]), QuoteRest(t[1..]), x);
      assert [t[0]] + t[1..] == t;
    }
  }

  /** Parsing a printed value followed by anything gives the value and what follows it. */
  lemma {:induction false} ParseUndoesPrint(v: Json, x: string)
    ensures ParseValue(Print(v) + x) == Some((v, x))
    decreases v, 3
  {
    hide ParseItems, ParseMembers, PrintItems, PrintMembers, SortedKeys, QuoteRest, ParseString;
    match v
    case JNull =>
      assert ("null" + x)[..4] == "null" && ("null" + x)[4..] == x;
    case JString(t) =>
      ParseQuoted(t, x);
      assert (Quote(t) + x)[1..] == QuoteRest(t) + x;
    case JArray(_) =>
      ParseUndoesArray(v, x);
    case JObject(_) =>
      ParseUndoesObject(v, x);
  }

  lemma {:induction false} ParseUndoesArray(v: Json, x: string)
    requires v.JArray?
    ensures ParseValue(Print(v) + x) == Some((v, x))
    decreases v, 2
  {
    if v.items == [] {
      assert v == JArray([]);
      assert ("[]" + x)[..2] == "[]" && ("[]" + x)[2..] == x;
    } else {
      ParseUndoesItems(v, 0, x);
      FirstItem(v, x);
      ItemStart(v, x);
      assert v.items[..0] == [];
      Regroup("[", PrintItems(v, 0), x);
      OpensAs(Print(v) + x, '[', PrintItems(v, 0) + x);
      hide PrintItems, ParseItems;
    }
  }

  lemma {:induction false} ParseUndoesObject(v: Json, x: string)
    requires v.JObject?
    ensures ParseValue(Print(v) + x) == Some((v, x))
    decreases v, 2
  {
    hide SortedKeys;
    var ks := SortedKeys(v.members.Keys);
    if ks == [] {
      NoMembers(v.members);
      assert v == JObject(map[]);
      assert ("{}" + x)[..2] == "{}" && ("{}" + x)[2..] == x;
    } else {
      KeysDistinct(ks);
      ParseUndoesMembers(v, ks, map[], x);
      ObjectOpens(v, ks, x);
      AllMembers(v.members);
      hide Print, ParseMembers, MembersText;
    }
  }

  lemma ObjectOpens(v: Json, ks: seq<string>, x: string)
    requires v.JObject? && ks == SortedKeys(v.members.Keys) && ks != []
    ensures ParseValue(Print(v) + x) == ParseMembers(MembersText(v, ks, x), map[])
  {
    hide SortedKeys, PrintMembers, ParseMembers, Quote;
    var s, t := Print(v) + x, MembersText(v, ks, x);
    MembersSeparated(v, ks, true, x);
    assert "" + t == t;
    Regroup("{", PrintMembers(v, ks, true), x);
    OpensAs(s, '{', t);
    QuoteStarts(ks[0]);
    assert t[0] == '"';
    assert s[1] == t[0];
  }

  lemma QuoteStarts(k: string)
    ensures Quote(k) != "" && Quote(k)[0] == '"'
  {}

  lemma NoMembers(m: map<string, Json>)
    requires SortedKeys(m.Keys) == []
    ensures m == map[]
  {
    hide SortedKeys;
    assert forall k :: k in m ==> k in SortedKeys(m.Keys);
  }

  lemma AllMembers(m: map<string, Json>)
    ensures map[] + (map k | k in SortedKeys(m.Keys) :: m[k]) == m
  {
    hide SortedKeys;
  }

  lemma OpensAs(s: string, c: char, t: string)
    requires s == [c] + t
    ensures s[0] == c && s[1..] == t
  {}

  lemma FirstChar(v: Json)
    ensures Print(v)[0] == match v case JNull => 'n' case JString(_) => '"' case JArray(_) => '[' case JObject(_) => '{'
  {}

  lemma ItemStart(v: Json, x: string)
    requires v.JArray? && v.items != []
    ensures !("[]" <= "[" + PrintItems(v, 0) + x)
  {
    var p := Print(v.items[0]);
    assert PrintItems(v, 0)[0] == p[0];
    assert ("[" + PrintItems(v, 0) + x)[1] == p[0];
  }

  lemma KeysDistinct(ks: seq<string>)
    requires forall i, j :: 0 <= i < j < |ks| ==> Before(ks[i], ks[j])
    ensures Distinct(ks)
  {
    hide Before;
    forall i, j | 0 <= i < j < |ks| ensures ks[i] != ks[j] {
      BeforeTotal(ks[i], ks[j]);
    }
  }

  /** What follows an item: a comma and the items after it, or the closing bracket. */
  lemma ItemTail(v: Json, i: nat, x: string)
    requires v.JArray? && 0 < i <= |v.items|
    ensures var t := PrintItems(v, i) + x;
      && t != "" && (i == |v.items| ==> t[0] == ']' && t[1..] == x)
      && (i < |v.items| ==> t[0] == ',' && t[1..] == Print(v.items[i]) + (PrintItems(v, i + 1) + x))
  {
    hide Print;
    var t := PrintItems(v, i) + x;
    if i < |v.items| {
      var p, r := Print(v.items[i]), PrintItems(v, i + 1);
      assert PrintItems(v, i) == "," + p + r;
      ItemText(",", p, r, x);
      OpensAs(t, ',', p + (r + x));
    } else {
      OpensAs(t, ']', x);
    }
  }

  lemma {:induction false} ParseUndoesItems(v: Json, i: nat, x: string)
    requires v.JArray? && i < |v.items|
    ensures ParseItems(Print(v.items[i]) + (PrintItems(v, i + 1) + x), v.items[..i]) == Some((v, x))
    decreases v, 1, |v.items| - i
  {
    var rest := PrintItems(v, i + 1) + x;
    ParseUndoesPrint(v.items[i], rest);
    ItemTail(v, i + 1, x);
    assert v.items[..i + 1] == v.items[..i] + [v.items[i]];
    if i + 1 < |v.items| {
      ParseUndoesItems(v, i + 1, x);
    } else {
      assert v.items[..i + 1] == v.items;
    }
  }

  lemma FirstItem(v: Json, x: string)
    requires v.JArray? && v.items != []
    ensures PrintItems(v, 0) + x == Print(v.items[0]) + (PrintItems(v, 1) + x)
  {
    hide Print;
    var p, r := Print(v.items[0]), PrintItems(v, 1);
    assert PrintItems(v, 0) == "" + p + r;
    ItemText("", p, r, x);
    assert "" + (p + (r + x)) == p + (r + x);
  }

  lemma ItemText(sep: string, p: string, r: string, x: string)
    ensures (sep + p + r) + x == sep + (p + (r + x))
  {}

  lemma MemberText(sep: string, key: string, p: string, r: string, x: string)
    ensures (sep + key + ":" + p + r) + x == sep + (key + (":" + (p + (r + x))))
  {}

  /** The text of the members named by ks, without what separates them from those before. */
  function MembersText(v: Json, ks: seq<string>, x: string): string
    requires v.JObject? && ks != [] && forall k :: k in ks ==> k in v.members
  {
    Quote(ks[0]) + (":" + (Print(v.members[ks[0]]) + (PrintMembers(v, ks[1..], false) + x)))
  }

  lemma MembersSeparated(v: Json, ks: seq<string>, first: bool, x: string)
    requires v.JObject? && ks != [] && forall k :: k in ks ==> k in v.members
    ensures PrintMembers(v, ks, first) + x == (if first then "" else ",") + MembersText(v, ks, x)
  {
    hide Quote, Print;
    MemberText(if first then "" else ",", Quote(ks[0]), Print(v.members[ks[0]]), PrintMembers(v, ks[1..], false), x);
  }

  lemma {:induction false} ParseUndoesMembers(v: Json, ks: seq<string>, read: map<string, Json>, x: string)
    requires v.JObject? && ks != [] && Distinct(ks) && forall k :: k in ks ==> k in v.members && k !in read
    ensures ParseMembers(MembersText(v, ks, x), read) == Some((JObject(read + (map k | k in ks :: v.members[k])), x))
    decreases v, 1, |ks|
  {
    var k := ks[0];
    var value := v.members[k];
    var after := PrintMembers(v, ks[1..], false) + x;
    ParseUndoesPrint(value, after);
    MembersTail(v, ks[1..], x);
    RestDistinct(ks);
    ReadMembers(v.members, ks, read);
    hide Print, ParseValue, Distinct, Quote, PrintMembers, ParseMembers;
    MemberRead(k, value, after, read);
    if ks[1..] != [] {
      ParseUndoesMembers(v, ks[1..], read[k := value], x);
    }
  }

  /** What follows a member: a comma and the members after it, or the closing brace. */
  lemma MembersTail(v: Json, ks: seq<string>, x: string)
    requires v.JObject? && forall k :: k in ks ==> k in v.members
    ensures var t := PrintMembers(v, ks, false) + x;
      && t != "" && (ks == [] ==> t[0] == '}' && t[1..] == x)
      && (ks != [] ==> t[0] == ',' && t[1..] == MembersText(v, ks, x))
  {
    if ks != [] {
      MembersSeparated(v, ks, false, x);
    }
  }

  lemma ReadMembers(m: map<string, Json>, ks: seq<string>, read: map<string, Json>)
    requires ks != [] && forall k :: k in ks ==> k in m
    ensures ks[1..] == [] ==> read + (map k | k in ks :: m[k]) == read[ks[0] := m[ks[0]]]
    ensures read + (map k | k in ks :: m[k]) == read[ks[0] := m[ks[0]]] + (map k | k in ks[1..] :: m[k])
  {
    assert forall a :: a in ks <==> a == ks[0] || a in ks[1..];
  }

  lemma RestDistinct(ks: seq<string>)
    requires Distinct(ks) && ks != []
    ensures Distinct(ks[1..]) && ks[0] !in ks[1..]
  {}

  /** Reading one member. */
  lemma MemberRead(k: string, v: Json, after: string, read: map<string, Json>)
    requires ParseValue(Print(v) + after) == Some((v, after)) && k !in read && after != ""
    ensures var s := Quote(k) + (":" + (Print(v) + after));
      && (after[0] == ',' ==> ParseMembers(s, read) == ParseMembers(after[1..], read[k := v]))
      && (after[0] == '}' ==> ParseMembers(s, read) == Some((JObject(read[k := v]), after[1..])))
  {
    hide Print, ParseValue, QuoteRest;
    var colon := ":" + (Print(v) + after);
    ParseQuoted(k, colon);
    Regroup("\"", QuoteRest(k), colon);
    OpensAs(Quote(k) + colon, '"', QuoteRest(k) + colon);
    OpensAs(colon, ':', Print(v) + after);
  }

  // ----- so the text determines the value -----

  /** Values followed by anything: the text determines where the value ends and what it is. */
  lemma PrintSelfDelimiting(v: Json, x: string, w: Json, y: string)
    requires Print(v) + x == Print(w) + y
    ensures v == w && x == y
  {
    hide Print, ParseValue;
    ParseUndoesPrint(v, x);
    ParseUndoesPrint(w, y);
  }

  /** The canonical bytes determine the value. */
  lemma JCSInjective(v: Json, w: Json)
    requires JCS(v) == JCS(w)
    ensures v == w
  {
    Utf8Injective(Print(v), Print(w));
    PrintSelfDelimiting(v, "", w, "");
  }
}
