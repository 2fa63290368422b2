/**
 The canonical texts the library hashes and signs, spelled out: what another implementation
 has to produce, character by character.
 */
module WireText {
  import opened Prelude
  import opened Text
  import opened Json
  import opened Primitives
  import opened Package
  import opened Commitments
  import opened SigningView
  import X25519

  // ----- the order of keys -----

  /** The first differing character decides, when the characters up to it are ASCII. */
  lemma FirstDecides(k: string, l: string)
    requires k != "" && l != "" && k[0] < l[0] && l[0] as int < 0x80
    ensures Before(k, l)
  {
    hide Utf16Char;
    Utf16Form(k[0]);
    Utf16Form(l[0]);
  }

  lemma SecondDecides(k: string, l: string)
    requires |k| >= 2 && |l| >= 2 && k[0] == l[0] && k[1] < l[1] && l[0] as int < 0x80 && l[1] as int < 0x80
    ensures Before(k, l)
  {
    FirstDecides(k[1..], l[1..]);
    hide Utf16Char;
    Utf16Form(k[0]);
    assert Utf16(k) == [k[0] as int] + Utf16(k[1..]) && Utf16(l) == [l[0] as int] + Utf16(l[1..]);
  }

  /** Neighbours in order are enough. */
  lemma {:induction false} NeighboursInOrder(ks: seq<string>, i: nat, j: nat)
    requires i < j < |ks| && forall n :: 0 <= n < |ks| - 1 ==> Before(ks[n], ks[n + 1])
    ensures Before(ks[i], ks[j])
    decreases j - i
  {
    hide Before;
    if i + 1 < j {
      NeighboursInOrder(ks, i, j - 1);
      Transitive(ks[i], ks[j - 1], ks[j]);
    }
  }

  lemma StringsInOrder(m: map<string, string>, ks: seq<string>)
    requires (forall k :: k in ks <==> k in m) && forall n :: 0 <= n < |ks| - 1 ==> Before(ks[n], ks[n + 1])
    ensures InOrder(ks, StringsJson(m).members)
  {
    hide Before;
    forall i, j | 0 <= i < j < |ks| ensures Before(ks[i], ks[j]) { NeighboursInOrder(ks, i, j); }
  }

  // ----- objects with string members -----

  /** One member with a plain name. */
  function Pair(k: string, v: string): string { "\"" + k + "\":" + Quote(v) }

  function PairsOf(m: map<string, string>, ks: seq<string>): (pairs: seq<string>)
    requires forall k :: k in ks ==> k in m
    ensures |pairs| == |ks| && forall i :: 0 <= i < |ks| ==> pairs[i] == Pair(ks[i], m[ks[i]])
  {
    seq(|ks|, i requires 0 <= i < |ks| => Pair(ks[i], m[ks[i]]))
  }

  /** None of the names needs an escape. */
  predicate PlainKeys(ks: seq<string>) { forall k :: k in ks ==> UrlSafe(k) }

  /** An object of strings with plain names in order. */
  lemma StringsText(m: map<string, string>, ks: seq<string>)
    requires PlainKeys(ks) && InOrder(ks, StringsJson(m).members)
    ensures (forall k :: k in ks ==> k in m) && Print(StringsJson(m)) == "{" + Join(PairsOf(m, ks), ",") + "}"
  {
    hide Before, PairsOf, MemberTexts, Quote, UrlSafe;
    var members := StringsJson(m).members;
    assert forall k :: k in ks ==> k in members && k in m && members[k] == JString(m[k]);
    ObjectText(members, ks);
    forall i | 0 <= i < |ks| ensures MemberTexts(members, ks)[i] == PairsOf(m, ks)[i] {
      X25519.PlainQuote(ks[i]);
      PairText(ks[i], m[ks[i]]);
    }
    assert MemberTexts(members, ks) == PairsOf(m, ks);
  }

  lemma PairText(k: string, v: string)
    requires Quote(k) == "\"" + k + "\""
    ensures Member(k, JString(v)) == Pair(k, v)
  {
    assert "\"" + k + "\"" + ":" == "\"" + k + "\":";
  }

  lemma TwoKeys(m: map<string, string>, h: string, i: string)
    requires m.Keys == {h, i} && UrlSafe(h) && UrlSafe(i)
    requires Before(h, i)
    ensures PlainKeys([h, i]) && InOrder([h, i], StringsJson(m).members)
  {
    hide Before, UrlSafe, StringsJson, InOrder;
    StringsInOrder(m, [h, i]);
  }

  lemma TwoStrings(m: map<string, string>, h: string, i: string)
    requires m.Keys == {h, i} && UrlSafe(h) && UrlSafe(i)
    requires Before(h, i)
    ensures Print(StringsJson(m)) == "{" + Join([Pair(h, m[h]), Pair(i, m[i])], ",") + "}"
  {
    TwoKeys(m, h, i);
    hide Before, UrlSafe, InOrder, PlainKeys, StringsJson, Pair, Join, Print;
    StringsText(m, [h, i]);
    assert PairsOf(m, [h, i]) == [Pair(h, m[h]), Pair(i, m[i])];
  }

  lemma ThreeKeys(m: map<string, string>, h: string, i: string, j: string)
    requires m.Keys == {h, i, j} && UrlSafe(h) && UrlSafe(i) && UrlSafe(j)
    requires Before(h, i) && Before(i, j)
    ensures PlainKeys([h, i, j]) && InOrder([h, i, j], StringsJson(m).members)
  {
    hide Before, UrlSafe, StringsJson, InOrder;
    StringsInOrder(m, [h, i, j]);
  }

  lemma ThreeStrings(m: map<string, string>, h: string, i: string, j: string)
    requires m.Keys == {h, i, j} && UrlSafe(h) && UrlSafe(i) && UrlSafe(j)
    requires Before(h, i) && Before(i, j)
    ensures Print(StringsJson(m)) == "{" + Join([Pair(h, m[h]), Pair(i, m[i]), Pair(j, m[j])], ",") + "}"
  {
    ThreeKeys(m, h, i, j);
    hide Before, UrlSafe, InOrder, PlainKeys, StringsJson, Pair, Join, Print;
    StringsText(m, [h, i, j]);
    assert PairsOf(m, [h, i, j]) == [Pair(h, m[h]), Pair(i, m[i]), Pair(j, m[j])];
  }

  lemma FiveKeys(m: map<string, string>, h: string, i: string, j: string, k: string, l: string)
    requires m.Keys == {h, i, j, k, l} && UrlSafe(h) && UrlSafe(i) && UrlSafe(j) && UrlSafe(k) && UrlSafe(l)
    requires Before(h, i) && Before(i, j) && Before(j, k) && Before(k, l)
    ensures PlainKeys([h, i, j, k, l]) && InOrder([h, i, j, k, l], StringsJson(m).members)
  {
    hide Before, UrlSafe, StringsJson, InOrder;
    StringsInOrder(m, [h, i, j, k, l]);
  }

  lemma FiveStrings(m: map<string, string>, h: string, i: string, j: string, k: string, l: string)
    requires m.Keys == {h, i, j, k, l} && UrlSafe(h) && UrlSafe(i) && UrlSafe(j) && UrlSafe(k) && UrlSafe(l)
    requires Before(h, i) && Before(i, j) && Before(j, k) && Before(k, l)
    ensures Print(StringsJson(m)) == "{" + Join([Pair(h, m[h]), Pair(i, m[i]), Pair(j, m[j]), Pair(k, m[k]), Pair(l, m[l])], ",") + "}"
  {
    FiveKeys(m, h, i, j, k, l);
    hide Before, UrlSafe, InOrder, PlainKeys, StringsJson, Pair, Join, Print;
    StringsText(m, [h, i, j, k, l]);
    assert PairsOf(m, [h, i, j, k, l]) == [Pair(h, m[h]), Pair(i, m[i]), Pair(j, m[j]), Pair(k, m[k]), Pair(l, m[l])];
  }

  // ----- what is hashed -----

  /** One entry of what segments_root hashes. */
  lemma RootEntryText(audience: string, plainHash: string)
    ensures Print(RootEntry(audience, plainHash)) == "{" + Join([Pair("audience", audience), Pair("plain_hash", plainHash)], ",") + "}"
  {
    hide Print, Pair, Join;
    var m := map["audience" := audience, "plain_hash" := plainHash];
    RootEntryNames(m, audience, plainHash);
    hide UrlSafe, Before;
    TwoStrings(m, "audience", "plain_hash");
  }

  lemma RootEntryNames(m: map<string, string>, audience: string, plainHash: string)
    requires m == map["audience" := audience, "plain_hash" := plainHash]
    ensures m.Keys == {"audience", "plain_hash"} && m["audience"] == audience && m["plain_hash"] == plainHash
    ensures UrlSafe("audience") && UrlSafe("plain_hash") && Before("audience", "plain_hash")
  {
    hide Before;
    FirstDecides("audience", "plain_hash");
  }

  function RootEntryTexts(order: seq<string>, plainHash: map<string, string>): (t: seq<string>)
    requires forall a :: a in order ==> a in plainHash
    ensures |t| == |order|
    ensures forall i :: 0 <= i < |order| ==>
      t[i] == "{" + Join([Pair("audience", order[i]), Pair("plain_hash", plainHash[order[i]])], ",") + "}"
  {
    seq(|order|, i requires 0 <= i < |order| =>
      "{" + Join([Pair("audience", order[i]), Pair("plain_hash", plainHash[order[i]])], ",") + "}")
  }

  /** What segments_root hashes: the entries in the given order, with commas between them, in brackets. */
  lemma RootText(order: seq<string>, plainHash: map<string, string>)
    requires forall a :: a in order ==> a in plainHash
    ensures RootBytes(order, plainHash) == Utf8("[" + Join(RootEntryTexts(order, plainHash), ",") + "]")
  {
    hide RootEntry, Print, Join, RootEntryTexts, Pair, Utf8;
    var entries := seq(|order|, i requires 0 <= i < |order| => RootEntry(order[i], plainHash[order[i]]));
    ArrayText(entries);
    forall i | 0 <= i < |order| ensures Texts(entries)[i] == RootEntryTexts(order, plainHash)[i] {
      RootEntryText(order[i], plainHash[order[i]]);
    }
    assert Texts(entries) == RootEntryTexts(order, plainHash);
  }

  /** What intent_commitment hashes. */
  lemma CommitmentText(intentRef: string, constraintsHash: string, segmentsRoot: string)
    ensures CommitmentBytes(intentRef, constraintsHash, segmentsRoot)
         == Utf8("{" + Join([Pair("constraints_hash", constraintsHash), Pair("intent_ref", intentRef),
                             Pair("segments_root", segmentsRoot)], ",") + "}")
  {
    hide Print, Pair, Utf8, Join;
    var m := map["intent_ref" := intentRef, "constraints_hash" := constraintsHash, "segments_root" := segmentsRoot];
    CommitmentNames();
    CommitmentValues(m, intentRef, constraintsHash, segmentsRoot);
    hide UrlSafe, Before;
    ThreeStrings(m, "constraints_hash", "intent_ref", "segments_root");
  }

  lemma CommitmentValues(m: map<string, string>, intentRef: string, constraintsHash: string, segmentsRoot: string)
    requires m == map["intent_ref" := intentRef, "constraints_hash" := constraintsHash, "segments_root" := segmentsRoot]
    ensures m.Keys == {"constraints_hash", "intent_ref", "segments_root"}
    ensures m["constraints_hash"] == constraintsHash && m["intent_ref"] == intentRef && m["segments_root"] == segmentsRoot
  {}

  lemma CommitmentNames()
    ensures UrlSafe("constraints_hash") && UrlSafe("intent_ref") && UrlSafe("segments_root")
    ensures Before("constraints_hash", "intent_ref") && Before("intent_ref", "segments_root")
  {
    hide Before;
    FirstDecides("constraints_hash", "intent_ref");
    FirstDecides("intent_ref", "segments_root");
  }

  /** The additional authenticated data of a segment. */
  lemma AADText(ctx: AADContext, segment: string, version: string)
    ensures AAD(ctx, segment, version)
         == Utf8("{" + Join([Pair("environment", ctx.environment), Pair("package_id", ctx.packageID), Pair("segment", segment),
                             Pair("spec_version", version), Pair("tenant_id", ctx.tenantID)], ",") + "}")
  {
    hide Print, Pair, Utf8, Join;
    var m := map["package_id" := ctx.packageID, "segment" := segment, "spec_version" := version,
                 "tenant_id" := ctx.tenantID, "environment" := ctx.environment];
    AADNames();
    AADOrder();
    AADValues(m, ctx, segment, version);
    hide UrlSafe, Before;
    FiveStrings(m, "environment", "package_id", "segment", "spec_version", "tenant_id");
  }

  lemma AADValues(m: map<string, string>, ctx: AADContext, segment: string, version: string)
    requires m == map["package_id" := ctx.packageID, "segment" := segment, "spec_version" := version,
                      "tenant_id" := ctx.tenantID, "environment" := ctx.environment]
    ensures m.Keys == {"environment", "package_id", "segment", "spec_version", "tenant_id"}
    ensures m["environment"] == ctx.environment && m["package_id"] == ctx.packageID && m["segment"] == segment
    ensures m["spec_version"] == version && m["tenant_id"] == ctx.tenantID
  {}

  lemma AADNames()
    ensures UrlSafe("environment") && UrlSafe("package_id") && UrlSafe("segment") && UrlSafe("spec_version") && UrlSafe("tenant_id")
  {}

  lemma AADOrder()
    ensures Before("environment", "package_id") && Before("package_id", "segment")
    ensures Before("segment", "spec_version") && Before("spec_version", "tenant_id")
  {
    hide Before;
    FirstDecides("environment", "package_id");
    FirstDecides("package_id", "segment");
    SecondDecides("segment", "spec_version");
    FirstDecides("spec_version", "tenant_id");
  }

  /** What plain_hash hashes: null for a nil slice, otherwise the quoted base64. */
  lemma PlainText(c: Primitives, b: bytes)
    ensures PlainBytes(c, Nil) == Utf8("null") && PlainBytes(c, Val(b)) == Utf8(Quote(c.base64(b)))
  {}
}
