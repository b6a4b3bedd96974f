# MCP-S, modelled and proved in Dafny

MCP-S signs MCP (Model Context Protocol) messages: a request carries an envelope in `params._meta`, the
verifier canonicalizes the message, checks an Ed25519 signature over it, and refuses replays. This project
models the protocol core and the client state machines of the repository and proves what they guarantee.

`dafny verify dfyconfig.toml` checks the whole project.

## What is modelled

- **Canonicalizer** (`Utf16`, `Decimal`, `Jcs`, `Grammar`, `Recognizer`, `Lexical`, `JcsParser`, `MemberOrder`,
  `Printer`, `Spelling`, `Canonical`). `Grammar` states the language by syntax trees, without reference to any parser. `Recognizer` is
  the parser as functions on the remaining text; `JcsParser.Parser` is the source's cursor object with its
  `pos` and `depth`, and `Printer.Writer` its output buffer. Texts are sequences of Unicode scalars.
- **Signing preimage** (`Message`, `Signing`, `Domain`). Messages are JSON trees whose numbers are integers or not.
- **Calendar and freshness** (`Calendar`, `Timestamp`). Truncating division and saturating i64 arithmetic are explicit.
- **Verification** (`Envelope`, `Extraction`, `Replay`, `Pipeline`, `Verification`, `ResponseVerification`, `Binding`,
  `AtMostOnce`). Each verifier is a function from the cache before to the result and the cache after, and a method on the cache object that
  computes it. Text decoding, the hash and the signature check are functions of a `World`; the trust resolver
  is a function, because its answer is data to the verifier.
- **Request builder** (`Serialized`, `Request`, `RequestContent`, `RequestDomain`, `RequestAcceptance`, `Buildable`).
- **Client state machines** (`Correlation`, `CorrelationRuns`, `SessionRuns`, `SessionPending`, `Session`, `Enforcement`,
  `Positional`, `Proxy`), with the clock as a parameter of each step.
- **Injective keys** (`Audience`, `TrustResolver`, with `Text`).

Each main operation is stated twice: as the code computes it, and by members, literal texts or the steps of a run.
The lemmas named `...Exactly` prove that the two agree.

## Where the code and its documentation part

The model follows the code.

- `mcps-client-core/src/request.rs:173-175` says a built request is one the verifier accepts. The preimage leaves
  out the trace keys, and the verifier canonicalizes the whole text, so a trace value outside the canonical
  domain builds and is refused: `RequestAcceptance.BuiltButRefused`. `RequestAcceptance.BuiltAcceptedExactly` gives the exact condition.
- `mcps-core/src/replay.rs:205-211` says a pruned nonce can no longer pass the freshness window. `AtMostOnce.TwiceExactly`
  gives the exact condition: some run accepts a genuine unseen text twice if and only if the cache's saturated
  retain-until falls before the last instant at which a verifier takes it. A cache skew of at least the verifiers'
  rules that out (`AtMostOnce.RetainedSkewSuffices`); a smaller one does not, unless the retain-until saturates
  (`AtMostOnce.SkewNeeded`).
- `mcps-client-core/src/correlation.rs:164-167` presents sweeping as cleanup. It changes later verdicts when an id
  it freed is reused: `Correlation.LapsedIdReused`, with the exact condition in `Correlation.SweepsAreTransparent`.
- `mcps-client-core/src/enforcement.rs:107-114` says that only a literally absent envelope is treated as absence. A
  signature block written as an array reads as a record, because derived deserialization takes a record's fields
  in order from an array; the preimage then does not find it and reports a missing envelope:
  `Positional.ArrayBlockCountsAsAbsent`, with the exact condition in `Enforcement.MissingEnvelopeExactly`.
- `mcps-core/src/pipeline.rs:717-720` says an absent `on_behalf_of` is reported as a canonicalization failure. That is
  so for draft-02 (`Envelope.Draft02PrincipalMissing`); draft-01 reports it as missing, exactly when
  `Envelope.PrincipalMissingExactly` says.
- Negative zero parses to zero, so a text with `-0` is accepted and its canonical form has `0`.

## Model

| member | source | states |
|---|---|---|
| Recognizer.ParseDecidesGrammar | mcps-core/src/canonical.rs:77-89 | `parse` returns v on a text if and only if the text derives v in the declarative grammar (RFC 8259 without fraction and exponent, paired surrogates only, unique names, nesting at most 128, integers within ±(2^53−1)); soundness and completeness for every text |
| Recognizer.ParsedInDomain | mcps-core/src/canonical.rs:77-89 | every parsed value has unique keys, nesting at most 128 and safe integers only |
| Recognizer.ParseTree | mcps-core/src/canonical.rs:342-576 | the text of every valid syntax tree, with any surrounding whitespace, parses to that tree's value |
| Recognizer.ValueComplete | mcps-core/src/canonical.rs:360-383 | parsing a derivation at any depth yields its value and leaves exactly the text after it |
| Recognizer.ValueSound | mcps-core/src/canonical.rs:360-383 | whatever is parsed at any depth has a valid derivation whose text was consumed |
| Recognizer.StringComplete | mcps-core/src/canonical.rs:467-505 | every spelling of a string (escapes, surrogate pairs, raw characters) reads as the characters it denotes |
| Recognizer.StringSound | mcps-core/src/canonical.rs:467-505 | every string accepted is one of the grammar's spellings of its value |
| Recognizer.UnicodeSound | mcps-core/src/canonical.rs:507-530 | an escape is accepted only as a scalar, or as a high surrogate paired with a low one |
| Recognizer.NumberComplete | mcps-core/src/canonical.rs:544-576 | every integer spelling the grammar allows within the safe range is accepted with its value |
| Recognizer.NumberSound | mcps-core/src/canonical.rs:544-576 | accepted numbers are grammar integers within the safe range; no fraction, exponent or leading zero |
| JcsParser.Parser.SkipWs | mcps-core/src/canonical.rs:342-351 | the cursor loop stops exactly after the JSON whitespace |
| JcsParser.Parser.ParseString | mcps-core/src/canonical.rs:467-505 | the character loop yields the recognizer's result and cursor |
| JcsParser.Parser.ParseUnicodeEscape | mcps-core/src/canonical.rs:507-530 | the surrogate logic on the cursor yields the recognizer's result |
| JcsParser.Parser.ReadHex4 | mcps-core/src/canonical.rs:532-542 | the four-digit loop reads the hexadecimal number and moves the cursor by four |
| JcsParser.Parser.ParseNumber | mcps-core/src/canonical.rs:544-576 | the digit loops and the i64 reading yield the recognizer's result |
| JcsParser.Parser.ParseArray | mcps-core/src/canonical.rs:445-465 | the depth counter is restored, and items, cursor and failure are the recognizer's |
| JcsParser.Parser.ParseObject | mcps-core/src/canonical.rs:411-443 | the same for objects, with duplicate names rejected as they are met |
| JcsParser.Parser.ParseValue | mcps-core/src/canonical.rs:360-383 | the mutually recursive cursor parser computes the recognizer, and terminates on the text that is left |
| JcsParser.Parse | mcps-core/src/canonical.rs:77-89 | the imperative parser, trailing whitespace and end check included, equals the recognizer on every text |
| Lexical.WhiteSpaceExactly | mcps-core/src/canonical.rs:342-351 | exactly space, tab, line feed and carriage return are skipped |
| Lexical.PlainCharacterExactly | mcps-core/src/canonical.rs:467-505 | a character stands for itself in a string exactly from U+0020 on, quote and backslash excepted |
| Lexical.ShortEscapeExactly | mcps-core/src/canonical.rs:467-505 | each of the eight one-letter escapes stands for its own character; every other letter is refused |
| Lexical.UnicodeEscapeExactly | mcps-core/src/canonical.rs:507-542 | a lone four-digit escape is its character, and refused exactly for surrogates |
| Lexical.OtherEscapesRefused | mcps-core/src/canonical.rs:532-542 | four characters that spell no hexadecimal number are no escape |
| Lexical.SurrogatePairReads | mcps-core/src/canonical.rs:507-530 | a character beyond U+FFFF reads from its two code units, high one first |
| Lexical.IntegerExactly | mcps-core/src/canonical.rs:544-576 | a digit string, with or without a minus sign, is accepted exactly in shortest form and up to 9007199254740991 |
| Lexical.NestingExactly | mcps-core/src/canonical.rs:360-383 | nested arrays are accepted exactly up to 128 levels |
| Utf16.CmpUtf16 | mcps-core/src/canonical.rs:284-298 | the code-unit loop computes the lexicographic order of UTF-16 encodings, which `Utf16.BelowExactly` gives on the names themselves |
| Utf16.BelowExactly | mcps-core/src/canonical.rs:284-298 | the order on names themselves: at the first difference the characters decide, those from U+E000 to U+FFFF above the ones beyond U+FFFF; a proper prefix comes first |
| Utf16.EncodeInjective | mcps-core/src/canonical.rs:284-298 | UTF-16 encoding is injective on scalars, so equal order means equal keys |
| Utf16.BelowTotal | mcps-core/src/canonical.rs:284-298 | of two distinct keys one is below the other, and not both |
| Utf16.BelowTransitive | mcps-core/src/canonical.rs:284-298 | the member order is transitive |
| MemberOrder.SortStrict | mcps-core/src/canonical.rs:219-247 | members end up in strict UTF-16 order when keys are unique |
| MemberOrder.SortElements | mcps-core/src/canonical.rs:219-247 | sorting keeps exactly the members it was given |
| MemberOrder.SortedOnce | mcps-core/src/canonical.rs:219-247 | a set of members has one strictly sorted arrangement only |
| MemberOrder.SortByName | mcps-core/src/canonical.rs:219-247 | sorting by the code-unit comparison yields the sorted members |
| MemberOrder.NormalFormsAgree | mcps-core/src/canonical.rs:219-247 | two trees have one normal form if and only if they are equal up to member order, at every level |
| Printer.DuplicateScan | mcps-core/src/canonical.rs:219-247 | comparing sorted neighbours finds a duplicate key if and only if there is one |
| Printer.Writer.WriteString | mcps-core/src/canonical.rs:262-282 | the escape loop appends the one canonical spelling of the string |
| Printer.Writer.WriteValue | mcps-core/src/canonical.rs:199-250 | the writer appends the canonical text and succeeds exactly when keys are unique and nesting is at most 128, at every level |
| Printer.Writer.WriteObject | mcps-core/src/canonical.rs:219-247 | sorting, the duplicate check and the member loop append the canonical object text |
| Printer.Writer.WriteItems | mcps-core/src/canonical.rs:206-218 | the item loop appends the comma-separated canonical items |
| Printer.CanonValid | mcps-core/src/canonical.rs:199-282 | the canonical syntax tree of a printable safe value is a valid derivation |
| Spelling.PrintedString | mcps-core/src/canonical.rs:262-282 | a printed string is its characters one by one between quotes: seven short escapes, four lower-case hexadecimal digits for other controls, everything else as it is |
| Spelling.PrintedScalars | mcps-core/src/canonical.rs:199-259 | literals by name, integers in shortest decimal |
| Spelling.PrintedArray | mcps-core/src/canonical.rs:206-218 | an array is its items' texts with commas between them and nothing else |
| Spelling.PrintedObject | mcps-core/src/canonical.rs:219-247 | an object is its sorted members, name, colon and text, with commas between them and nothing else |
| Canonical.EmitValue | mcps-core/src/canonical.rs:101-105 | `canonicalize_value` through the writer: the canonical text, or failure outside the printable values |
| Canonical.EmitText | mcps-core/src/canonical.rs:69-72 | `canonicalize` is parse, then print |
| Canonical.RoundTrip | mcps-core/src/canonical.rs:69-105 | for every value with unique keys and bounded nesting, parsing the printed text gives the value with every object sorted, or fails if an integer is not safe |
| Canonical.PrintDerives | mcps-core/src/canonical.rs:199-282 | a canonical text derives the normal form in the grammar |
| Canonical.CanonicalizeTotal | mcps-core/src/canonical.rs:69-72 | `canonicalize` succeeds exactly when `parse` does |
| Canonical.PrintInjective | mcps-core/src/canonical.rs:199-298 | canonical texts are equal if and only if the values are equal up to member order |
| Canonical.CanonicalizeInjective | mcps-core/src/canonical.rs:69-105 | `canonicalize(a) = canonicalize(b)` if and only if the parsed trees are equal up to member order |
| Canonical.CanonicalizeIdempotent | mcps-core/src/canonical.rs:69-72 | canonicalizing a canonical text changes nothing |
| Message.FromSerdeValue | mcps-core/src/canonical.rs:133-176 | the loops over arrays and maps compute the conversion, with its number and depth rejections |
| Message.ToJcsSafe | mcps-core/src/canonical.rs:133-176 | a converted tree has safe integers only |
| Domain.ConvertsExactly | mcps-core/src/canonical.rs:133-176 | a message converts to a value if and only if it is that value, its integers are safe and its nesting is at most 128 |
| Domain.PrintsExactly | mcps-core/src/canonical.rs:199-250 | a value prints if and only if its nesting is at most 128 and its keys are unique throughout |
| Signing.BuildPreimage | mcps-core/src/signing.rs:97-105 | the preimage method takes the code's steps in order and yields the specified preimage or error |
| Signing.StripTraceKeys | mcps-core/src/signing.rs:208-218 | the removal loop over the three trace keys |
| Signing.PreimageExclusionPaths | mcps-core/src/signing.rs:131-148 | the pushing loop yields exactly the four excluded paths |
| Signing.StripIsDeletion | mcps-core/src/signing.rs:160-183 | stripping the signature value deletes one path, or reports a missing envelope |
| Signing.PreimageDeletesPaths | mcps-core/src/signing.rs:97-148 | the preimage is the canonical form of the message with the four enumerated paths deleted |
| Domain.PreimageExactly | mcps-core/src/signing.rs:97-105 | a message has a preimage if and only if it has a signature block and is, without the four excluded members, in the canonical domain |
| Signing.ExclusionPathsAre | mcps-core/src/signing.rs:131-148 | the excluded paths are these four of the request and these four of the response, written out |
| Message.DeletedIsGone | mcps-core/src/signing.rs:160-218 | a deleted path is no longer there |
| Signing.PreimagesAgree | mcps-core/src/signing.rs:97-105 | two messages have equal preimages if and only if they are equal up to member order after the four deletions, also when one is signed as a request and one as a response |
| Signing.EveryOtherPathIsBound | mcps-core/src/signing.rs:97-148 | messages with equal preimages agree on every path apart from the four, nested trace keys included |
| Message.DeletesLeaveOthers | mcps-core/src/signing.rs:160-218 | deletions touch no path apart from them |
| Calendar.DaysAreCounted | mcps-core/src/time.rs:65-74 | the era arithmetic equals the plain count of days by leap years and month lengths |
| Calendar.CivilOfDays | mcps-core/src/time.rs:202-213 | `civil_from_days` undoes `days_from_civil` on every valid date |
| Calendar.DaysOfCivil | mcps-core/src/time.rs:202-213 | `days_from_civil` undoes `civil_from_days` on every day number, and the date is valid |
| Timestamp.ParseFixedDigits | mcps-core/src/time.rs:45-57 | the digit loop reads the number, and fails on a non-digit or a short text |
| Timestamp.ParseRfc3339Utc | mcps-core/src/time.rs:86-157 | the strict parser equals its specification, field by field and check by check; `Timestamp.ParseExactly` says which texts that accepts |
| Timestamp.ParseExactly | mcps-core/src/time.rs:86-157 | a text reads as an instant if and only if the instant is in range and the text is its stamp, with or without a dot and digits before the Z |
| Timestamp.FormatThenParse | mcps-core/src/time.rs:86-227 | parsing the formatted form of u gives u exactly when u is in −62167219200..253402300799, and is rejected otherwise |
| Timestamp.ParseThenFormat | mcps-core/src/time.rs:86-227 | formatting what was parsed gives the text back with its fraction removed, and the instant is in range |
| Timestamp.TextOrderIsTimeOrder | mcps-core/src/time.rs:86-157 | for accepted texts without fractions, text order is time order |
| Timestamp.ParseInjective | mcps-core/src/time.rs:86-157 | two accepted texts without fractions denote one instant only if they are equal |
| Timestamp.FreshnessWindow | mcps-core/src/time.rs:177-198 | with saturating i64 arithmetic the freshness verdict is that of unbounded arithmetic, for every clock and skew |
| Envelope.ShapeExactly | mcps-core/src/constraints.rs:209-226 | an envelope deserializes exactly when its members are the declared fields, all of them, nothing else, each of its kind |
| Envelope.EntriesExactly | mcps-core/src/constraints.rs:209-226 | the reported problem is that of the first member that is not a field of its kind |
| Envelope.ExtractedRequest | mcps-core/src/constraints.rs:111-119 | an extracted draft-01 envelope is the located object, well shaped, of that version, read field by field with its authorization hash |
| Envelope.ExtractedDraft02Request | mcps-core/src/constraints.rs:247-255 | an extracted draft-02 envelope is the located object: its selectors pass, it is well shaped, and fields, canonicalization id and binding are those in it; `Extraction.Draft02RequestExactly` is the converse as well, told by members |
| Extraction.RequestExactly | mcps-core/src/constraints.rs:111-119 | draft-01 extracts an envelope if and only if it is an object with exactly its named members, of their kinds, and version "draft-01" |
| Extraction.RequestVerdicts | mcps-core/src/constraints.rs:111-156 | draft-01 reports an unknown member first, then an absent authorization hash, an absent principal, any other misshape, and a wrong version |
| Extraction.Draft02RequestExactly | mcps-core/src/constraints.rs:247-255 | draft-02 extracts an envelope if and only if it is an object with exactly its named members, version "draft-02", the one canonicalization id and a proper binding; a bad selector decides the verdict |
| Extraction.SelectorsExactly | mcps-core/src/constraints.rs:247-255 | version, canonicalization id and binding are judged member by member, in that order, each absence and each unknown value with its own verdict |
| Extraction.SchemeExactly | mcps-core/src/constraints.rs:372-404 | an absent canonicalization id is missing, any but the one admitted is unknown |
| Extraction.BindingVerdictExactly | mcps-core/src/constraints.rs:287-338 | the binding check gives the verdict of the first of untyped, unsupported, ambiguous and malformed that applies |
| Extraction.BindingCheckExactly | mcps-core/src/constraints.rs:287-338 | the binding check passes if and only if the binding is one of the two forms with every member it needs, non-empty, and digest algorithm sha256 |
| Extraction.ResponseExactly | mcps-core/src/constraints.rs:167-173 | a draft-01 response envelope is extracted if and only if it has exactly its named members, and is read as them |
| Extraction.Draft02ResponseExactly | mcps-core/src/constraints.rs:348-366 | a draft-02 response envelope is extracted if and only if it has exactly its named members with that version and canonicalization id; each failing selector has its verdict |
| Envelope.PrincipalMissingExactly | mcps-core/src/constraints.rs:139-156 | draft-01 reports an absent `on_behalf_of` as missing exactly when the envelope is an object with an authorization hash whose first problem is no unknown member |
| Envelope.Draft02PrincipalMissing | mcps-core/src/constraints.rs:263-273 | behind passing selectors draft-02 reports an absent `on_behalf_of` as the generic failure, or as an unknown member where one comes first |
| Envelope.ExtractedVersions | mcps-core/src/constraints.rs:111-119 | an extracted envelope states its own profile's version |
| RequestAcceptance.BindingRoundTrip | mcps-core/src/constraints.rs:287-338 | an authorization binding reads back as itself, and passes the structural check exactly when its fields are non-empty and the digest algorithm is sha256 |
| Replay.InMemoryReplayCache.CheckAndInsert | mcps-core/src/replay.rs:218-236 | a cached key is a replay and changes nothing; a new one is recorded with the saturated retain-until |
| Replay.InMemoryReplayCache.Prune | mcps-core/src/replay.rs:212-214 | the eviction loop keeps exactly the entries whose retain-until has not passed |
| Pipeline.VerifyRequest | mcps-core/src/pipeline.rs:238-330 | both profile verifiers against the cache object, in the order of their steps |
| Pipeline.VerifyRequestDispatch | mcps-core/src/pipeline.rs:653-689 | the dual verifier against the cache object |
| Verification.AuthenticateExactly | mcps-core/src/pipeline.rs:265-299 | audience, freshness, key resolution and signature all pass exactly when the declarative conditions hold |
| Verification.AuthenticUnderExactly | mcps-core/src/pipeline.rs:238-299 | steps 1 to 11 succeed exactly on genuine requests, under either profile |
| Verification.ClaimsExactly | mcps-core/src/pipeline.rs:261-264 | a profile claims a message if and only if its envelope is one of the profile's own, and reads every member by its name |
| Verification.UnclaimedWithoutEnvelope | mcps-core/src/pipeline.rs:261-264 | a message without an envelope in its place is claimed by no profile |
| Verification.EnvelopeVerdicts | mcps-core/src/pipeline.rs:265-281 | an extracted request without a sha256 hash, then without a principal, then without an Ed25519 signature value gets that verdict, before audience and window |
| Verification.AcceptedExactly | mcps-core/src/pipeline.rs:238-330 | a request is accepted if and only if it is genuine and its (signer, audience, nonce) is not cached; a rejection leaves the cache unchanged, an acceptance adds that one key with retain-until expiry plus skew |
| Verification.StructuralRejects | mcps-core/src/pipeline.rs:251-260 | a batch is reported as such, then a missing or null id, before anything else about the message |
| Verification.FirstFailureDecides | mcps-core/src/pipeline.rs:265-299 | a well-formed request gets the verdict of the first of audience, window, key and signature that fails, in that order |
| Verification.AcceptedRecord | mcps-core/src/pipeline.rs:313-330 | the returned record is what the envelope states, with the hash of the message's preimage |
| Verification.ProfilesExclude | mcps-core/src/pipeline.rs:653-689 | no message is claimed by both profiles |
| Verification.DispatchExactly | mcps-core/src/pipeline.rs:653-689 | dispatch accepts if and only if a profile the policy offers accepts, with the same result and cache; what only the withheld profile accepts is refused as a downgrade |
| Verification.SelectionVerdicts | mcps-core/src/pipeline.rs:653-705 | the version member alone decides the profile: draft-02 always, draft-01 unless the policy forbids the downgrade, nothing else |
| Binding.AcceptedWasSigned | mcps-core/src/pipeline.rs:282-330 | under ideal signatures, every accepted request agrees on every bound path with an object the resolved key signed; that object states every returned field, the authorization, key id and canonicalization id included, and has the preimage of the returned hash, even if it was signed as a response |
| Binding.EnvelopeBound | mcps-core/src/signing.rs:97-148 | everything in the envelope but the signature value is bound by the preimage |
| Binding.EnvelopeBoundAcross | mcps-core/src/signing.rs:97-148 | an envelope is bound by a signature over the other location as well |
| Binding.OutsideMetaBound | mcps-core/src/signing.rs:123-148 | every path outside the container's `_meta` is bound, trace keys nested in it included |
| Binding.AcceptedResponseWasSigned | mcps-core/src/pipeline.rs:340-400 | an accepted draft-01 response was signed: the signed object states the expected request hash, the returned server signer, algorithm and key id; `ResponseVerification.ResponseAcceptedExactly` says which are accepted |
| Binding.AcceptedDraft02ResponseWasSigned | mcps-core/src/pipeline.rs:520-574 | the same for draft-02, with the request's canonicalization id as well; `ResponseVerification.Draft02ResponseAcceptedExactly` says which are accepted |
| ResponseVerification.ResponseAcceptedExactly | mcps-core/src/pipeline.rs:340-400 | a draft-01 response is accepted if and only if its text is canonical, its envelope well formed, its signature valid under the resolved key and its request hash the expected one; what is returned is what it states |
| ResponseVerification.ResponseVerdicts | mcps-core/src/pipeline.rs:340-400 | a well-formed response gets the verdict of the first of signature block, key, preimage, signature and request hash that fails |
| ResponseVerification.Draft02ResponseAcceptedExactly | mcps-core/src/pipeline.rs:520-574 | the same for draft-02, with version and the expected canonicalization id |
| ResponseVerification.Draft02ResponseVerdicts | mcps-core/src/pipeline.rs:520-574 | the same for draft-02: signature, then canonicalization id, then request hash |
| ResponseVerification.SignatureExactly | mcps-core/src/pipeline.rs:340-400 | the signature checks pass if and only if algorithm, value, key resolution and signature are in order; the first that fails decides |
| ResponseVerification.ResponseRefusals | mcps-core/src/pipeline.rs:340-400 | a batch, a reply without an id, a text outside the canonical domain and a reply without an envelope are refused |
| Binding.ResponseAnswersOneRequest | mcps-core/src/signing.rs:152-155 | without hash collisions, requests with the hash a response carries have the same signed content |
| AtMostOnce.SecondAcceptanceIsLate | mcps-core/src/replay.rs:196-236 | in every run of verifications and prunings with a clock that never runs back, a nonce is accepted again only strictly after the earlier request's expiry plus the cache's skew |
| AtMostOnce.NeverTwice | mcps-core/src/pipeline.rs:238-330 | a text accepted twice in a run, whichever profiles and policies the verifiers use, is one the cache lets go while a verifier still takes it |
| AtMostOnce.RetainedSkewSuffices | mcps-core/src/replay.rs:196-236 | so no text is accepted twice in a run whose verifiers tolerate no more skew than the cache retains |
| AtMostOnce.TwiceExactly | mcps-core/src/replay.rs:205-236 | a genuine unseen text is accepted twice in some run if and only if its saturated retain-until falls before the last i64 instant at which such a verifier takes it |
| AtMostOnce.SkewNeeded | mcps-core/src/replay.rs:218-236 | where the retain-until does not saturate, that condition is a cache skew below the verifier's |
| AtMostOnce.AcceptedAgain | mcps-core/src/replay.rs:205-214 | a genuine request is accepted again at any instant past its retain-until and inside its window, once pruned |
| AtMostOnce.NonceHeld | mcps-core/src/replay.rs:212-236 | an accepted nonce stays cached until its retain-until has passed, through any steps |
| Request.BuildSignedRequest | mcps-client-core/src/request.rs:198-260 | the builder with its in-place edits equals its specification: request, hash and wire text, whose contents `RequestContent.BuiltSays` tells member by member |
| Request.GraftKeepsPreimage | mcps-client-core/src/request.rs:244-252 | grafting a signature value leaves every preimage as it was |
| Request.BuiltExactly | mcps-client-core/src/request.rs:198-260 | a build succeeds exactly when the scheme is allowed, the preimage exists and the signer signs it; the result is the authored request with that signature, its serialized text, and the hash of that preimage |
| RequestContent.BuiltSays | mcps-client-core/src/request.rs:198-260 | a built request has the caller's id, method and every param, and the caller's `_meta` beside the envelope; the envelope states every input by name and the signature over the request's own preimage |
| RequestContent.BuildVerdicts | mcps-client-core/src/request.rs:147-156 | an empty canonicalization id is missing and any but the one admitted is not allowed, before anything is signed |
| RequestAcceptance.AuthoredClaims | mcps-client-core/src/request.rs:205-241 | the verifier's reading of an authored request is the inputs it was authored from |
| RequestAcceptance.BuiltAcceptedExactly | mcps-client-core/src/request.rs:158-260 | the draft-02 verifier accepts a built request if and only if the id is not null, the trace values are in the canonical domain, principal and binding are non-empty with sha256, audience, window and key agree and the nonce is unseen; it then returns the inputs under the builder's hash |
| RequestAcceptance.BuiltButRefused | mcps-client-core/src/request.rs:173-175 | a successful build need not be acceptable: with a fraction under `traceparent` any build succeeds with the same hash and is refused |
| Buildable.PreimageExists | mcps-client-core/src/request.rs:198-246 | a preimage exists whenever id and params are in the canonical domain with unique names, trace values not looked at |
| Serialized.CompactMeans | mcps-client-core/src/request.rs:254-259 | the compact text of a message in the domain is a text of the grammar that means exactly it |
| Serialized.CompactInjective | mcps-host/src/session.rs:259-261 | distinct messages in the domain have distinct compact texts |
| Buildable.FineRequestsAreAccepted | mcps-client-core/src/request.rs:158-260 | every request with such content builds to a wire text that means it; a verifier that decodes it to the request, holds the agreeing key and has not seen its nonce accepts it, with the inputs and the builder's hash |
| Buildable.AcceptanceHappens | mcps-client-core/src/request.rs:173-175 | such a verifier exists for every such request |
| RequestDomain.TracesDecide | mcps-client-core/src/request.rs:211-241 | a built request is in the canonical domain exactly when its trace values are |
| RequestDomain.TraceKeepsPreimage | mcps-core/src/signing.rs:208-218 | a caller's trace value changes no preimage of an authored request |
| Correlation.CorrelationStore.Register | mcps-client-core/src/correlation.rs:112-129 | duplicate id, then nonce window, then both maps are written; a refusal changes nothing |
| Correlation.CorrelationStore.TakeForResponse | mcps-client-core/src/correlation.rs:139-156 | the entry is removed whether it is returned or has expired |
| Correlation.CorrelationStore.Cancel | mcps-client-core/src/correlation.rs:160-162 | the entry is removed and returned, its nonce stays in the window |
| Correlation.CorrelationStore.SweepExpired | mcps-client-core/src/correlation.rs:168-175 | exactly the lapsed entries and closed windows go, and the count is that of the entries |
| Correlation.NonceExclusive | mcps-client-core/src/correlation.rs:112-175 | in every run with a clock that never runs back, a nonce is registered again no earlier than its earlier deadline |
| Correlation.StepTransparent | mcps-client-core/src/correlation.rs:112-175 | one step on a swept and an unswept store: same verdict up to lapsed entries, or the registration of a stale id |
| Correlation.SweepsAreTransparent | mcps-client-core/src/correlation.rs:112-175 | with and without sweeps a run gives the same verdicts, up to lapsed entries being gone, if and only if no registration reuses an id that sweeps freed and the unswept run holds |
| Correlation.LapsedIdsSuffice | mcps-client-core/src/correlation.rs:112-175 | no id is stale when none is held by a lapsed entry of the unswept run |
| Correlation.LapsedIdReused | mcps-client-core/src/correlation.rs:112-129 | the condition is needed: reusing the id of any swept entry is accepted after the sweep and refused without it |
| CorrelationRuns.RegisterExactly | mcps-client-core/src/correlation.rs:112-129 | in every clocked run a registration is a duplicate while an entry under its id is live, then a reuse while an earlier registration of its nonce has its deadline to come, and accepted otherwise |
| CorrelationRuns.TakeExactly | mcps-client-core/src/correlation.rs:139-156 | in every run a response gets the live entry under its id up to and including the deadline, is expired after it, and uncorrelatable when none is live |
| CorrelationRuns.CancelExactly | mcps-client-core/src/correlation.rs:160-162 | a cancellation returns the live entry under its id, if there is one |
| CorrelationRuns.PendingExactly | mcps-client-core/src/correlation.rs:112-175 | an entry is pending exactly from its accepted registration until a response, a cancellation or a sweep takes it |
| Session.HostSession.SignRequest | mcps-host/src/session.rs:90-142 | an id in flight is refused before a nonce is drawn; otherwise one nonce is drawn, and the hash and expiry are stored on success |
| Session.HostSession.VerifyAndEvict | mcps-host/src/session.rs:171-187 | verification is against the stored hash, and the entry goes only on success |
| Session.HostSession.CancelRequest | mcps-host/src/session.rs:231-233 | the entry under the id is dropped, and whether it was there is returned |
| Session.HostSession.ExpirePending | mcps-host/src/session.rs:241-246 | exactly the entries whose expiry has come are dropped and counted |
| SessionRuns.Conservation | mcps-host/src/session.rs:90-246 | in every run, signed requests equal pending plus verified plus cancelled plus expired ones |
| SessionRuns.ResponseConsumesSign | mcps-host/src/session.rs:171-187 | each verified response consumes an earlier sign under the map key of its id, and carries the hash that sign stored |
| SessionRuns.SignConsumedOnce | mcps-host/src/session.rs:171-187 | no sign is consumed by two responses |
| Session.ResponseAnswersRequest | mcps-host/src/session.rs:90-187 | the consumed sign's text hashes to the hash the response carries, and was signed under the response's own id if that id is in the canonical domain |
| Session.KeysAreIds | mcps-host/src/session.rs:259-261 | ids in the canonical domain share a map key only if they are the same id |
| SessionPending.PendingExactly | mcps-host/src/session.rs:90-246 | in every run an entry is pending exactly from the sign that stored its hash and expiry until its verified response, its cancellation, or an expiry step at or after its instant |
| SessionPending.SurvivesExactly | mcps-host/src/session.rs:241-246 | left alone, a signed request survives every expiry step before its expiry instant and none from that instant on |
| SessionPending.AcceptedExactly | mcps-host/src/session.rs:171-187 | in every run a response is accepted if and only if a live entry under its id has a hash it verifies against |
| SessionPending.SignedExactly | mcps-host/src/session.rs:90-142 | in every run a request is signed if and only if no entry under its id is live and the signer signs it |
| SessionPending.NonceDrawnOnce | mcps-host/src/session.rs:90-142 | no two signed requests draw the same nonce |
| Session.SignedInstants | mcps-host/src/session.rs:90-142 | a request is signed with the next nonce, at its instant and until its instant plus the lifetime, which is also when its entry expires |
| Session.StampsReadBack | mcps-host/src/session.rs:90-142 | the issued and expiry stamps of a signed request read back as the two instants |
| Session.PendingForLifetime | mcps-host/src/session.rs:90-246 | left alone, a signed request stays pending exactly until an expiry step at its instant plus the lifetime |
| Enforcement.MissingEnvelopeExactly | mcps-client-core/src/response.rs:84-111 | response verification reports a missing envelope exactly when the reply has none, or has one with a positional signature block of a resolvable signer |
| Enforcement.FallBackExactly | mcps-client-core/src/enforcement.rs:115-163 | falling back takes migration mode, an allowlisted route and absent evidence, and these suffice |
| Positional.ArrayBlockCountsAsAbsent | mcps-client-core/src/enforcement.rs:107-121 | for every choice of texts, a reply of a resolvable signer whose signature block is an array has an envelope and a wire text, is reported as having none, and is passed through on an allowlisted migration route |
| Proxy.ClientProxy.Call | mcps-client-proxy/src/proxy.rs:108-243 | one `handle` call on the correlation store object, path by path |
| Proxy.HandleRestores | mcps-client-proxy/src/proxy.rs:108-243 | on every path a call leaves the outstanding requests as they were, and uses its nonce exactly when it sends |
| Proxy.NothingOutstanding | mcps-client-proxy/src/proxy.rs:108-243 | between the calls of every run nothing is outstanding |
| Proxy.NonceSentOnce | mcps-client-proxy/src/proxy.rs:167-185 | no nonce goes on the wire again before the deadline of the call that used it |
| Proxy.LegacyExactly | mcps-client-proxy/src/proxy.rs:228-238 | legacy pass-through happens exactly when the call was sent and answered in time, in migration mode, on an allowlisted route, with no evidence in the reply |
| Proxy.VerifiedWasSigned | mcps-client-proxy/src/proxy.rs:205-227 | under ideal signatures a verified answer was signed; the signed object states the hash of the request sent, the route's expected signer and the canonicalization id |
| Proxy.VerifiedExactly | mcps-client-proxy/src/proxy.rs:108-243 | a call is answered as verified if and only if it was prepared and answered, the reply is a genuine draft-02 response to its hash from the route's signer, and its result unwraps; the answer is that payload under the caller's id |
| Proxy.PreparedExactly | mcps-client-proxy/src/proxy.rs:108-165 | route, method, binding, signer authorization and construction are tried in that order; the first to fail decides the error, and otherwise the call is prepared |
| Proxy.EntrySays | mcps-client-proxy/src/proxy.rs:168-186 | the outstanding request records id, hash, nonce, deadline, route, audience, expected signer, version, canonicalization id and authorization digest of the call it stands for |
| Proxy.SentSays | mcps-client-proxy/src/proxy.rs:108-165 | what is sent has the caller's id, method, params and `_meta`, and an envelope for the route's audience with the call's principal, nonce and stamps and the binding the provider gave |
| Proxy.CallVerdicts | mcps-client-proxy/src/proxy.rs:108-243 | a call fails as its preparation did, then for an id or nonce in use, then without a reply (a transport error on an allowlisted migration route, a refused downgrade elsewhere), then past its deadline; only then is the evidence judged |
| Proxy.BadEvidenceRefused | mcps-client-proxy/src/proxy.rs:204-243 | a reply with bad evidence fails closed with its own verdict on every route |
| Proxy.OtherSignerRefused | mcps-client-proxy/src/proxy.rs:204-243 | a genuine response from another signer than the route's fails closed as a failed actor binding |
| Proxy.PlainReplyRefused | mcps-client-proxy/src/proxy.rs:204-243 | a reply without evidence fails closed as a missing envelope wherever legacy is not allowed |
| Audience.EscapeIsCharwise | mcps-client-core/src/audience.rs:41-46 | the three replacement passes escape each character by itself |
| Audience.UnescapeEscape | mcps-client-core/src/audience.rs:41-46 | escaping is undone by reading the escapes back |
| Audience.AudienceInjective | mcps-client-core/src/audience.rs:93-103 | audience strings are equal if and only if the tuples are |
| Audience.AudienceReadsBack | mcps-client-core/src/audience.rs:93-103 | cut at its semicolons, the audience string gives every field back under its own label |
| TrustResolver.ComposeInjective | mcps-core/src/resolver.rs:155-157 | composed keys are equal if and only if signer and key id are, whatever they contain |
| TrustResolver.InMemoryTrustResolver.Insert | mcps-core/src/resolver.rs:163-166 | insertion acts as on a map keyed by pairs |
| TrustResolver.InMemoryTrustResolver.Revoke | mcps-core/src/resolver.rs:173-176 | revocation acts as on a map keyed by pairs |
| TrustResolver.InMemoryTrustResolver.Resolve | mcps-core/src/resolver.rs:180-186 | resolution answers as a map keyed by pairs would |

## Left out

- Ed25519, SHA-256 and base64url are not modelled: signatures are a relation over key, preimage and text, the hash is a function, and each theorem that needs unforgeability or absence of collisions states it as a hypothesis.
- serde_json's own parsing of text is a function `decode`; `RequestAcceptance.Carries` states what is assumed of a wire text. Its serializer is `Serialized.Compact` on the canonical domain and a function outside it.
- Envelope.ShapeExactly: does not model a whole envelope written as an array, which derived deserialization also reads. Model and code both reject such a message; for draft-01 the error reported can differ.
- UTF-8 decoding of raw bytes: texts are sequences of scalars. Timestamps are read by character; every accepted character is an ASCII one, so this agrees with reading bytes.
- Printer.Writer.WriteValue: does not say what the buffer holds after a failure, because the source discards it then.
- Updates in place of a message tree (`strip_signature_value`, grafting) are modelled on values; no tree is shared, so nothing is lost but the mutation itself.
- A replay cache that can be unavailable, and the durable and shared caches: the in-memory cache never fails.
- The draft-01 request signer of `mcps-host`: a parameter of `Session`; its construction parallels the draft-02 builder, which is modelled.
- `unwrap.rs`, the payload of a verified `result`: a parameter of `Proxy`.
- Signer custody policy and authorization-binding providers: their verdicts are parameters of `Proxy`.
- Audience resolution from policy and transport identity, discovery, probing, audit records and wire codes: table lookups.
- `mcps-policy`, the server-side proxy, key sources, transports, command lines, demos and the conformance runner: I/O or scaffolding.
