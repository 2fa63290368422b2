# chainbind, verified in Dafny

chainbind seals one payload into per-audience encrypted segments, verifies the result without keys, and opens one
segment with one private key. This project models that library, its X25519 key wrapper, its in-memory intent authority
and its log handler, and proves what they promise.

| file | what it models |
|---|---|
| `Prelude.dfy` | bytes, big-endian counters, XOR, results, sequences without repeats |
| `KeyWrap.dfy` | RFC 3394 key wrap: the in-place loops against the shift-register definitions, and their inverse |
| `ConcatKdf.dfy` | the Concat KDF of section 4.6.2 of RFC 7518 and its OtherInfo encoding |
| `Text.dfy`, `Json.dfy` | UTF-8, UTF-16 key order, the canonical JSON of RFC 8785 for null, strings, arrays and objects, and a parser for it |
| `Primitives.dfy` | the primitives as functions with functional laws only, and a witness that the laws are consistent |
| `X25519.dfy` | ECDH-ES + A256KW wrap and unwrap, and the JWK thumbprint |
| `Package.dfy` | the wire format, its JSON encoding, and the flattening of bindings |
| `Commitments.dfy` | `segments_root`, `intent_commitment`, profile bindings, AAD, `plain_hash` |
| `WireText.dfy` | the canonical texts that are hashed, character by character |
| `SigningView.dfy` | the nine signed fields and the bytes that are signed |
| `Verify.dfy` | the two-level procedure filling a `Report`, and exactly when it answers OK |
| `Codec.dfy` | a whole package as JSON and back, and what that crossing keeps |
| `SealSpec.dfy` | what sealing comes to on values: the package or the exact error, and the exact effects |
| `Seal.dfy` | sealing step by step over an environment that may fail at any call, and records each |
| `Open.dfy` | opening, gated by Level 1, with the audience found by thumbprint |
| `RoundTrip.dfy` | Seal, then Verify and Open |
| `Witnesses.dfy` | packages that are sealed, and the two that do not open |
| `Binding.dfy` | the commitment chain, and what the signature reaches |
| `Authority.dfy` | the stateful authority and its runs |
| `Logger.dfy` | the log handler's replay chain, and trees of derived handlers |

## How to read it

- **Methods and functions.** Code that works step by step is a method with the source's loops and branches, proved equal to
  a function or predicate; the theorems are lemmas about those. `Report`, `BindingsReceiver`, `Environment`, `Unwrapper`, `Verifier`,
  `Authorization`, `Handler` and `Base` are classes, since the source updates or shares those objects. Loops over Go maps
  pick keys in an arbitrary order.
- **Primitives.** SHA-256, AES, X25519, AES-GCM, Ed25519 and base64 are function parameters. The only laws used are that
  agreement commutes, that decryption undoes encryption, that both cipher directions are inverse permutations, that
  base64url keeps to its alphabet, and that decoding undoes encoding (never the converse). `Primitives.LawsAreConsistent`
  exhibits primitives that satisfy them all, and `Witnesses.RoundTripHappens` a package sealed with them that meets every
  hypothesis of the round trip.
- **Collisions.** A hash into 32 bytes always has collisions, so "or some collision exists" would be true of anything. Every
  binding result therefore names the two inputs, each computed from one of the two packages, that would be different with
  the same SHA-256.
- **Collaborators.** The signer, the authority, the key wrapper and every random draw are outcomes fixed for one call, any of
  which may be a failure.

## Where the code and what is said of it part

- `RoundTrip.SealThenOpen`: an empty plaintext that is not a nil slice is sealed but never opens (`""` is hashed at Seal,
  `null` at Open, because Go's GCM returns a nil slice for no bytes), and a key whose thumbprint another audience shares
  opens nothing, although Seal accepts both. These are the only two exceptions; `Witnesses.EmptyPlaintextIsLost` and
  `Witnesses.SharedKeyOpensNothing` exhibit a request of each kind.
- `Logger.IDRenderedOnceIff`: a caller's attribute does reach the top level as `correlation_id` when it sits in a group
  without a key, which handlers inline. It is the only way among values already resolved.
- `Binding.OKIsNotOpenable`: OK does not promise that a holder can open, since ephemeral keys, wrapped keys and nonces are under
  no hash; `Binding.SignedBytesFixPlaintext` says that whatever does open is what was signed.
- `ConcatKdf.OutOfRangeLengthIsAmbiguous`: the guard that turns a length of 2^32 or more into 0 makes that prefix ambiguous;
  below it the encoding is uniquely decodable.
- `KeyWrap`: section 2 of RFC 3394 asks for at least two blocks; the code accepts one, and everything is proved from one up.

## Model

| member | source | states |
|---|---|---|
| KeyWrap.AesKeyWrap | internal/adapters/keywrap/x25519/wrapper.go:246-284 | the nested in-place loops compute the 6n shift-register steps of section 2.2.1 of RFC 3394, for every n from 1, with the code's length and key errors |
| KeyWrap.AesKeyUnwrap | internal/adapters/keywrap/x25519/wrapper.go:291-334 | likewise section 2.2.2, with the integrity check |
| KeyWrap.XorCounter | internal/adapters/keywrap/x25519/wrapper.go:339-345 | each bit of the buffer flips exactly where the 64-bit big-endian counter has a one, in place |
| Prelude.XorByteBit | internal/adapters/keywrap/x25519/wrapper.go:339-345 | each bit of an exclusive or is the sum of the two bits modulo 2, read off by division |
| KeyWrap.CounterInRange | internal/adapters/keywrap/x25519/wrapper.go:228-276 | the counter n*j+i lies in 1..6n and below the input's length in bytes |
| KeyWrap.CounterInjective | internal/adapters/keywrap/x25519/wrapper.go:265-273 | no two pairs of loop indices share a counter value |
| KeyWrap.CounterReaches | internal/adapters/keywrap/x25519/wrapper.go:265-273 | every value 1..6n is the counter of some pair of loop indices |
| KeyWrap.UnwrapOfWrap | internal/adapters/keywrap/x25519/wrapper.go:246-334 | unwrapping a wrapped key returns the key data, which is 8 bytes shorter |
| KeyWrap.WrapOfUnwrap | internal/adapters/keywrap/x25519/wrapper.go:246-334 | whatever unwraps re-wraps to exactly itself |
| KeyWrap.UnwrapAcceptsExactlyTheRangeOfWrap | internal/adapters/keywrap/x25519/wrapper.go:246-334 | Unwrap succeeds exactly on the range of Wrap and is injective there |
| KeyWrap.WrapKnownAnswer | internal/adapters/keywrap/x25519/wrapper.go:246-284 | with a cipher that changes nothing, any one-word key wraps to A6A6A6A6A6A6A6A1 and itself: the initial value with counters 1 to 6 mixed in |
| KeyWrap.RefusesExactly | internal/adapters/keywrap/x25519/wrapper.go:246-334 | exactly which lengths and keys each direction refuses, and the error of each |
| ConcatKdf.ConcatKDF | internal/adapters/keywrap/x25519/wrapper.go:171-186 | the loop, with its uint32 counter, returns the first bytes of the round stream after ceil(n/32) rounds |
| ConcatKdf.DeriveByte | internal/adapters/keywrap/x25519/wrapper.go:171-186 | byte k of the key is byte k mod 32 of the hash of the number k/32+1 as a uint32, then Z, then OtherInfo |
| ConcatKdf.ShorterIsPrefix | internal/adapters/keywrap/x25519/wrapper.go:171-186 | a shorter request is a prefix of a longer one |
| ConcatKdf.RoundsDistinctIffNoWrap | internal/adapters/keywrap/x25519/wrapper.go:175-183 | no two rounds hash the same input, exactly up to 2^32 rounds |
| ConcatKdf.LengthPrefixedUniquelyDecodable | internal/adapters/keywrap/x25519/wrapper.go:208-223 | length-prefixed values below 2^32 bytes are self-delimiting |
| ConcatKdf.OutOfRangeLengthIsAmbiguous | internal/adapters/keywrap/x25519/wrapper.go:208-223 | from 2^32 bytes on, a prefixed value reads as an empty one followed by data |
| ConcatKdf.OtherInfoDetermines | internal/adapters/keywrap/x25519/wrapper.go:195-206 | two OtherInfo encodings are equal exactly when the algorithm ids are and the guarded key lengths are |
| X25519.Wrap | internal/adapters/keywrap/x25519/wrapper.go:55-81 | agreement, derivation and key wrap in the code's order, with each failure |
| X25519.Unwrap | internal/adapters/keywrap/x25519/wrapper.go:87-113 | the reverse, with every failure the same error |
| X25519.KekIsOneDigest | internal/adapters/keywrap/x25519/wrapper.go:171-206 | the key-encryption key is the digest of 00000001, the shared secret, and the exact OtherInfo bytes of A256KW |
| X25519.WrapComputes | internal/adapters/keywrap/x25519/wrapper.go:55-81 | a wrap succeeds exactly when agreement and key wrap do, under that key, with the ephemeral public key beside it |
| X25519.AdapterErrors | internal/adapters/keywrap/x25519/wrapper.go:83-163 | a bad private key has the error of a failed unwrap, a bad public one of a failed agreement, and exactly the 32-byte ones are good |
| X25519.UnwrapsWhatWasWrapped | internal/adapters/keywrap/x25519/wrapper.go:55-113 | what was wrapped to a public key unwraps with its private key |
| X25519.WrapperRoundTrips | internal/adapters/keywrap/x25519/wrapper.go:47-131 | the adapter satisfies the law Seal and Open rely on |
| X25519.ThumbprintBinds | internal/adapters/keywrap/x25519/wrapper.go:138-157 | equal thumbprints mean equal keys, or the two canonical JWKs collide |
| X25519.JwkBytesAreCanonical | internal/adapters/keywrap/x25519/wrapper.go:133-147 | the formatted JWK is the RFC 8785 form of its three members: sorted, with nothing to escape |
| Text.SortedKeys | pkg/chainbind/canonical.go:16-29 | members are taken once each, in ascending order of UTF-16 code units (section 3.2.3 of RFC 8785) |
| Text.UnitsLessIff | pkg/chainbind/canonical.go:16-29 | the order of keys is lexicographic: the two agree up to where one ends or has the smaller code unit |
| Text.Utf8Injective | pkg/chainbind/canonical.go:16-29 | the UTF-8 bytes determine the text |
| Text.Utf8Form | pkg/chainbind/canonical.go:16-29 | each character is the shortest well-formed sequence of section 3 of RFC 3629 for its scalar value |
| Text.Utf16Form | pkg/chainbind/canonical.go:16-29 | each character is its own unit or a surrogate pair that stands for it |
| Json.EscapeIsShortest | pkg/chainbind/canonical.go:16-29 | each character is printed in the shortest spelling RFC 8259 allows, with lower-case digits, as section 3.2.2.2 of RFC 8785 asks |
| Json.ArrayText | pkg/chainbind/canonical.go:16-29 | an array is its printed items joined by commas in brackets, the join defined on strings |
| Json.ObjectText | pkg/chainbind/canonical.go:16-29 | an object is its members in UTF-16 key order joined by commas in braces, for any number of members |
| Json.ParseUndoesPrint | pkg/chainbind/canonical.go:16-29 | a parser written from the grammar of RFC 8259 recovers every printed value, and where it ends |
| Json.PrintSelfDelimiting | pkg/chainbind/canonical.go:16-29 | canonical text followed by anything determines the value and where it ends |
| Json.JCSInjective | pkg/chainbind/canonical.go:16-29 | the canonical bytes determine the value; objects carry no member order |
| Primitives.Primitives.HashBinds | pkg/chainbind/canonical.go:31-35 | equal H means equal inputs, or those inputs have the same SHA-256 |
| Primitives.Primitives.HashText | pkg/chainbind/canonical.go:31-35 | H is "sha256:" and the digest in 64 lower-case hex digits |
| Package.MarshalBindings | pkg/chainbind/package.go:86-106 | fails exactly when Extra uses a core name; otherwise flattens both into one object |
| Package.BindingsMembers | pkg/chainbind/package.go:86-106 | the encoded object holds segments_root, intent_commitment and every profile binding under its own name, and nothing else |
| Package.BindingsReceiver.UnmarshalJSON | pkg/chainbind/package.go:110-127 | writes the core names and every other key through the receiver, which a failed decode leaves as it was |
| Package.BindingsRoundTrip | pkg/chainbind/package.go:86-127 | decoding an encoded value gives it back, nil and empty Extra identified |
| Package.DecodedBindingsReencode | pkg/chainbind/package.go:86-127 | a decoded value never collides, and re-encodes to the same object exactly when both core keys were there |
| Package.ManifestJsonDetermines | pkg/chainbind/package.go:148-178 | the encoding determines the manifest, nil and empty disclosures identified |
| Commitments.SegmentsRoot | pkg/chainbind/bindings.go:32-60 | succeeds exactly when the order names each hashed audience once and no other, with the hash of the ordered entries |
| WireText.RootText | pkg/chainbind/bindings.go:10-60 | the text hashed for segments_root: the ordered entries with audience and plain_hash, comma-separated, in brackets |
| Commitments.RootBytesDetermine | pkg/chainbind/bindings.go:10-60 | the hashed bytes determine the order and every audience's hash |
| Commitments.CommitmentBinds | pkg/chainbind/bindings.go:71-87 | equal commitments agree on all three inputs, or the two inputs collide |
| WireText.CommitmentText | pkg/chainbind/bindings.go:71-87 | the text hashed for intent_commitment, its three members in order |
| Commitments.ComputeBindings | pkg/chainbind/bindings.go:112-126 | fails exactly when some formula fails; a repeated name keeps its last value |
| Commitments.AADInjective | pkg/chainbind/aad.go:26-38 | two AADs are equal exactly when package id, segment, version, tenant and environment all are |
| WireText.AADText | pkg/chainbind/aad.go:26-38 | the text of the AAD, its five members in order |
| Commitments.PlainBytesInjective | pkg/chainbind/seal.go:291-295 | the bytes plain_hash hashes determine the plaintext, nil and empty told apart |
| WireText.PlainText | pkg/chainbind/seal.go:291-295 | the text hashed for plain_hash: null, or the quoted base64 |
| SigningView.CheckSignedFields | pkg/chainbind/signview.go:77-98 | accepts a list exactly when it is a permutation of the nine names |
| SigningView.SelectFields | pkg/chainbind/signview.go:106-112 | the loop selects the named fields |
| SigningView.SelectionIgnoresOrder | pkg/chainbind/signview.go:100-112 | every accepted list selects the same fields |
| SigningView.BuildSigningView | pkg/chainbind/signview.go:46-53 | builds the signed bytes |
| SigningView.ReconstructSigningView | pkg/chainbind/signview.go:62-72 | returns what BuildSigningView returns for every accepted list, and an error for every other |
| SigningView.SignedBytesDefined | pkg/chainbind/signview.go:28-53 | the signed bytes exist exactly when no profile binding shadows a core one |
| SigningView.SignedBytesDetermine | pkg/chainbind/signview.go:28-53 | equal signed bytes mean equal values in all nine fields |
| Verify.ParsePackage | pkg/chainbind/verify.go:368-414 | returns the first fault in the order of the checks, or the signed bytes and decoded signature |
| Verify.FaultNoneIffWellFormed | pkg/chainbind/verify.go:357-414 | no fault exactly for a declaratively well-formed package (by counting) |
| Verify.RootAlwaysRecomputable | pkg/chainbind/verify.go:310-323 | once L1.1 passes, SegmentsRoot's error branch is unreachable |
| Verify.Report.Level1Passed | pkg/chainbind/verify.go:192-220 | the loops over the maps decide Level 1, a never-filled report failing |
| Verify.Report.Level1 | pkg/chainbind/verify.go:181-186 | Level 1 of a report; a nil one never has it |
| Verify.Report.OK | pkg/chainbind/verify.go:168-173 | Level 1, evaluated and valid, and nothing else; a nil report is never OK |
| Verify.Report.VerifyIntent | pkg/chainbind/verify.go:469-498 | Level 2 against the authority's hash, not the package's |
| Verify.Accumulate | pkg/chainbind/verify.go:293-339 | L1.3 to L1.6 fill the report, none stopping the others |
| Verify.Verify | pkg/chainbind/verify.go:255-347 | an error only for a nil package; otherwise a fresh report equal to the specified answer |
| Verify.AnswerIsExact | pkg/chainbind/verify.go:168-347 | Level 1 and OK each hold exactly under one declarative predicate over package, key, bindings and authority |
| Verify.SignatureFlagIs | pkg/chainbind/verify.go:277-289 | for a supported, well-formed package the signature passes exactly when the resolved 32-byte key accepts the decoded 64 bytes over the signed bytes |
| Verify.NothingPassesUnsigned | pkg/chainbind/verify.go:168-289 | the signature check, Level 1 and OK each need that acceptance by the primitive |
| Verify.FindingsAre | pkg/chainbind/verify.go:293-325 | AAD consistency, the root and each ciphertext hash, in terms of the decoded bytes and the hash |
| Verify.BindingFindingIs | pkg/chainbind/verify.go:326-339 | a binding matches exactly when the last formula of its name gives the signed value, a missing one being "" |
| Verify.IntentIs | pkg/chainbind/verify.go:469-498 | evaluated and valid, in terms of the authority's answer and the hashed commitment |
| Verify.LevelsAreOrdered | pkg/chainbind/verify.go:135-160 | an early abort leaves every later field unevaluated; Evaluated needs Level 1, Valid needs Evaluated, no authority is never OK |
| Codec.DecodeUndoesEncode | pkg/chainbind/package.go:27-204 | a package encodes exactly when no profile binding shadows a core one; decoding gives it back, with an empty Extra nil and Disclosures never nil |
| Codec.CrossingChangesNothing | pkg/chainbind/package.go:27-204 | whoever decodes the encoded package has the same signed bytes, the same findings and the same openings |
| Codec.SignedBytesFromWire | pkg/chainbind/signview.go:22-72 | the signed bytes are the canonical form of nine members of the encoded object |
| Codec.DecodedIsEncodable | pkg/chainbind/package.go:86-127 | a decoded package always has signed bytes and encodes again |
| Seal.CheckAudiences | pkg/chainbind/seal.go:248-261 | accepts exactly distinct names that all have a plaintext; otherwise the first fault |
| Seal.Zero | pkg/chainbind/seal.go:369-373 | every byte is zero |
| Seal.SealAudiences | pkg/chainbind/seal.go:169-189 | the loop collects every audience under its name, or stops at the first that fails with its error; the effects are exactly those up to the failing call, and every key is zeroed |
| Seal.SealAudience | pkg/chainbind/seal.go:174-189 | one audience's outcome, exactly its effects up to the call that fails, and its key buffer zero on every way out |
| Seal.SignPackage | pkg/chainbind/seal.go:329-353 | the kid is asked first; without it, or without signed bytes, nothing is signed; otherwise one signature over the package's own signed bytes, with each error |
| Seal.Seal | pkg/chainbind/seal.go:131-243 | returns the sealed package if there is one, and otherwise the error of the first check to fail, late ones included; the effects are exactly those up to the failing call, and every key buffer is zero |
| SealSpec.SealingIsExact | pkg/chainbind/seal.go:131-243 | sealing ends with a package exactly when that package is the declaratively sealed one |
| SealSpec.SealsIff | pkg/chainbind/seal.go:131-243 | sealing succeeds exactly when the request is valid and authorized, every draw, cipher, wrap and thumbprint succeeds, the order matches, every formula computes on the request's own hashes, none has a core name, and the signer signs |
| SealSpec.PreparedIff | pkg/chainbind/seal.go:169-236 | there is a package to sign exactly when everything before the signature succeeds |
| SealSpec.EffectsInOrder | pkg/chainbind/seal.go:131-243 | every run is a prefix of one fixed order and complete on success; an unauthorized one asks the authority and no more; one with nothing to sign never reaches the signer |
| SealSpec.OnlySealedBytesAreSigned | pkg/chainbind/seal.go:324-353 | on every run, failing or not, what is signed is exactly the signed bytes of the one prepared package naming the announced kid |
| SealSpec.NothingAfterFailure | pkg/chainbind/seal.go:174-189 | when an audience fails, the run is the full effects of those before it and its own up to the failure: nothing for later audiences, no kid, no signature |
| SealSpec.RunEndsAtFailingCall | pkg/chainbind/seal.go:265-322 | the last effect of a failing audience is the draw, cipher, wrap or thumbprint that failed |
| SealSpec.PreparedUnique | pkg/chainbind/seal.go:169-236 | request and outcomes determine the package up to kid and signature |
| SealSpec.SealedFieldsAre | pkg/chainbind/seal.go:158-236 | every field outside the segments, the AAD context included, is the named field of the request, the authority's hash, the drawn id or the fixed text |
| SealSpec.SealedSegmentIs | pkg/chainbind/seal.go:265-322 | each audience's entry, segment and confirmation, over GCM under its own key, nonce and the request's context |
| SealSpec.SealedSignatureIs | pkg/chainbind/seal.go:329-353 | the signature names the kid and the nine fields and encodes what the signer made of the signed bytes |
| Open.MatchingAudience | pkg/chainbind/open.go:112-134 | finds the one audience with the key's thumbprint, whatever the map order; none or several give nothing |
| Open.Open | pkg/chainbind/open.go:35-103 | equals the specified result; nothing is unwrapped before Level 1 and a unique match, at most once; the key buffer is zero |
| Open.OpeningAsksNoAuthority | pkg/chainbind/open.go:12-45 | the verification inside an opening has no authority, evaluates no intent, and passes Level 1 exactly when the caller's would |
| Open.DecodeSealedSegment | pkg/chainbind/open.go:149-171 | decodes all five fields or fails |
| Open.OpenedImplies | pkg/chainbind/open.go:35-103 | a success means Level 1, the only matching audience, and a plaintext with the signed hash |
| Open.OpensExactly | pkg/chainbind/open.go:35-103 | what opens is exactly what GCM authenticates for the key's one audience under the unwrapped 32-byte key, a 12-byte nonce and the AAD, with the signed hash, over a Level 1 package |
| Open.UnauthenticatedFails | pkg/chainbind/open.go:71-100 | over a Level 1 package the holder gets the decryption error exactly when nothing authenticates, and the hash mismatch exactly when something authenticates with another hash |
| Open.NoHolderIff | pkg/chainbind/open.go:112-134 | a key has no audience exactly when it has no thumbprint, or no entry, or two different entries, carry it |
| Open.NoOrManyMatchesFail | pkg/chainbind/open.go:35-134 | no match and several matches give the same decryption error, and only the integrity error of a failed Level 1 comes before it |
| RoundTrip.SealThenVerify | pkg/chainbind/seal.go:131-322 | whatever Seal returns, Verify answers OK under the matching key, authority and formulas |
| RoundTrip.SealThenOpen | pkg/chainbind/open.go:35-103 | the holder's key opens exactly what was sealed for it, exactly when its thumbprint is unique and the plaintext is not empty-but-not-nil; otherwise the named error |
| RoundTrip.SegmentRecovers | pkg/chainbind/open.go:55-103 | unwrap, decrypt and hash check undo what sealing an audience did |
| RoundTrip.X25519RoundTrip | pkg/chainbind/seal.go:131-322 | the same with the X25519 adapter, all inverses composed |
| RoundTrip.SealedThenSent | pkg/chainbind/seal.go:131-322 | end to end: what is sealed encodes, and whoever decodes it has the same signed bytes, an OK answer and the same openings under the same two conditions |
| Witnesses.WillingSeals | pkg/chainbind/seal.go:131-243 | with the X25519 adapter, nothing failing and keys that agree, every valid request whose order matches is sealed |
| Witnesses.EmptyPlaintextIsLost | pkg/chainbind/seal.go:291-295 | a request with an empty plaintext that is not nil: sealed, verified, and its holder gets a hash mismatch |
| Witnesses.SharedKeyOpensNothing | pkg/chainbind/open.go:112-134 | a request with two audiences under one key: sealed, verified, and the key opens neither |
| Binding.CommitmentFixesContent | pkg/chainbind/verify.go:469-498 | two OK packages with one intent_commitment agree on ref, constraints hash, ordered audiences and every plain_hash, or named inputs collide |
| Binding.CommitmentFixesPlaintext | pkg/chainbind/open.go:91-100 | and any two openings for one audience give the same plaintext, or named inputs collide |
| Binding.SignedBytesFixCiphertexts | pkg/chainbind/signview.go:22-72 | equal signed bytes at Level 1 mean equal ciphertext and tag bytes per audience, though segments is unsigned, or those bytes collide |
| Binding.SignedBytesFixPlaintext | pkg/chainbind/open.go:35-103 | equal signed bytes mean equal openings per audience, or the two plaintext encodings collide |
| Binding.AnswerReadsCiphertextsOnly | pkg/chainbind/verify.go:255-347 | the answer depends on the sealed segments only through the ciphertext and tag bytes of the ordered audiences |
| Binding.OKIsNotOpenable | pkg/chainbind/verify.go:444-458 | no hash covers a nonce: without them any package verifies as before, and every key fails to open it, with the exact error |
| Binding.BoundaryDoesNotMatter | pkg/chainbind/verify.go:444-458 | moving bytes between ciphertext and tag changes neither the report nor any opening |
| Authority.New | internal/adapters/intent/mock/verifier.go:98-131 | loads exactly the readable directories with readable documents and distinct non-empty refs, indexing each; otherwise the error of the first fault |
| Authority.LoadIsReproducible | internal/adapters/intent/mock/verifier.go:94-131 | two loads of one directory hold the same documents |
| Authority.Verifier.Check | internal/adapters/intent/mock/verifier.go:136-165 | the verdict, and each error |
| Authority.CheckRules | internal/adapters/intent/mock/verifier.go:151-164 | allowed exactly when every rule's field is present and satisfied, in any iteration order |
| Authority.Evaluate | internal/adapters/intent/mock/verifier.go:245-269 | an allowed set overrides bounds; bounds apply to numbers only |
| Authority.RuleAdmits | internal/adapters/intent/mock/verifier.go:245-269 | an allowed set is membership; bounds include their ends and admit numbers only; no constraint admits anything |
| Authority.Verifier.ConstraintsHash | internal/adapters/intent/mock/verifier.go:172-182 | a function of the documents and the ref alone |
| Authority.Verifier.RecordUse | internal/adapters/intent/mock/verifier.go:206-213 | adds one to the ref's counter and changes no document |
| Authority.Run | internal/adapters/intent/mock/verifier.go:136-213 | in any run every check, hash and package verification is answered as a stateless authority over the loaded documents would; the documents stay and each counter grows by exactly its uses |
| Authority.AmendmentKeepsVerdicts | internal/adapters/intent/mock/verifier.go:167-182 | adding documents under new refs keeps every OK package OK |
| Logger.Handler.WithGoa | internal/platform/logger/logger.go:114-120 | a fresh handler over a fresh array holding the old chain and the new link |
| Logger.Handler.ReplayBackwards | internal/platform/logger/logger.go:136-158 | the backwards loop computes the nested replay in storage of its own |
| Logger.DeleteShadowing | internal/platform/logger/logger.go:172-174 | compaction in place keeps exactly the other keys, in order |
| Logger.Handler.Handle | internal/platform/logger/logger.go:136-181 | one record reaches the base handler, and only the base handler changes |
| Logger.ReplayIsWalk | internal/platform/logger/logger.go:143-158 | every attribute lands under exactly the groups opened before it, in order |
| Logger.EmittedFields | internal/platform/logger/logger.go:136-181 | the emitted fields are the chain read forwards, less a caller's top-level correlation_id, with the context's id last |
| Logger.OneCorrelationID | internal/platform/logger/logger.go:161-178 | exactly one top-level attribute is the correlation id: the last, with the context's value |
| Logger.IDRenderedOnceIff | internal/platform/logger/logger.go:161-178 | it is rendered once exactly when no keyless group brings another to the top level |
| Logger.IDRenderedTwice | internal/platform/logger/logger.go:161-178 | a record for which it is not |
| Logger.NoEmptyGroupEmitted | internal/platform/logger/logger.go:143-158 | no group in the emitted record is empty, at any depth |
| Logger.RunProgram | internal/platform/logger/logger.go:111-181 | any program over any tree of derived handlers behaves as if each handler were its chain by value |

## Left out

- HTTP shell, CLI, configuration, probes and scripts: I/O and status mapping.
- Vault signer, HTTP intent adapter, mock-authority server and Keycloak provider: network clients of the same ports.
- Internals of SHA-256, AES, GCM, X25519 and Ed25519, secrecy, unforgeability and randomness quality.
- The agentic-checkout profile: `BindingSpecs` are arbitrary functions of the binding context instead.
- Text of errors, reasons and structural faults, and the JSON form of a report.
- JSON numbers and booleans in canonical form, so the encoding of an authority's document is a parameter; bounds in rules are reals, and values that are not scalars are not modelled.
- Strings that are not valid Unicode: Go replaces their bad bytes when it encodes them.
- `issued_at` is an opaque string; a time outside the years RFC 3339 can write, which fails to encode, is not modelled.
- Goroutines: the authority's lock makes each call a single step, and calls are taken one after another.
- Aliasing between a group value and the slice it was built from, since a group is a value here; and of a package's maps with the caller's.
- Logger.IDRenderedOnceIff: attribute values are already resolved; slog resolves a LogValuer only when it renders, so an attribute without a key whose value resolves to a group is a second way to the top level.
- Codec.DecodeUndoesEncode: member names match exactly; Go also accepts other letter case, duplicate members and unknown ones in text it did not write.
- Seal.SignPackage: returns the signed package instead of writing it through a pointer.
- log/slog, encoding/json and base64 are not part of this model beyond the behaviour stated: records and group values drop empty groups, handlers inline groups without a key, and a `[]byte` encodes as a base64 string or null.
