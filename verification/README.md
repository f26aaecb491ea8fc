# Signed command envelopes, the executor gate and two small algorithms

This project models the parts of ForgeOps that decide which commands an agent carries out, and
states and proves in Dafny what those parts promise.

**The envelope.** A command travels as a JSON envelope with a signature over a domain prefix, a zero
byte and the canonical text of the envelope (JCS, RFC 8785). The project has the canonical printer as
a writer that appends to a builder (`Jcs`), a reader for canonical text that is its exact inverse
(`CanonicalReader`), the two key orders the code uses (`KeyOrder`, `KeySort`), the number rules
(`Numbers`, `Json`), the envelope and its canonical bytes (`Envelope`), domain separation and signing
(`Domain`), the text and the signing input spelled out (`EnvelopeText`), the signature text
(`Base64Url`), and `KnownAnswers`, which pins the encodings to fixed values from their standards.

**Verification.** `Parse` decodes a document into an envelope, `ReplayGuard` is the guard with its
nonce list, index and marks, and `Verify` runs the six checks over it. `ReplayHistory` relates the
bounded nonce list to everything ever recorded. `VerifyRuns` is about whole runs: arrivals at any
times, changes of keys and bundles, restarts. `SignThenVerify` puts the producer and the verifier
together. `FreshnessLimits` compares how long an envelope can be accepted with how long the guard
remembers its nonce.

**The executor.** `Operations` is the closed catalogue, `Secrets` and `Registry` the in-memory state,
`Dispatcher` the guards and bodies of one command, `Commands` what a command does in terms of its wire
name and argument members, and `ExecutorRuns` what holds after any sequence of commands. `AgentRuns` joins the two halves: whole runs of an agent in which only what the verifier
accepted reaches the executor, and a restart forgets the state of both.

**Two algorithms.** `GateReachability` is the worklist that finds which gate scripts run;
`SseReader` is the incremental reader of an event stream.

Where the source changes state step by step, the model does too: the builder, the guard, the verifier,
the secret environment, the registry and the dispatcher are classes, key sorting works in place on an
array, and the loops are loops. Each such method is tied by its contract to a function on values, and
the properties are proved about that function.

The rules of one step are also stated without the model's own names for them: with the literal
member names, wire names, bounds, codes and characters of the source, for every input.

How the model reads the source:

- A string is a sequence of Unicode scalar values; a decoded JSON number keeps its text, which is
  always a number of the JSON grammar. An object is a map, so nothing depends on member order.
- The raw `args` bytes are absent, undecodable, or a decoded tree.
- HMAC-SHA256 and SHA-256 are arbitrary functions (`Domain.Crypto`); of the MAC only its length of 32
  bytes is used. Where two MACs must differ, the lemma says so as a hypothesis.
- One `Verify` call reads the clock up to three times, so a call carries three readings.
- A command carries the answer its policy evaluator would give and the result of the parts of its body
  that are not modelled, so the properties hold for every evaluator and every such result.

Places where a reader of the source's comments would expect something else; the model follows the
code:

- `agent/internal/envelope/order.go:41-46` says no failure path changes state. A nonce refused as a
  replay has already moved its device's mark. `Verify.RejectionEffect` says exactly when a rejection
  changes the state, and `SignThenVerify.RefusedDuplicateMovesTheMark` gives the failing call.
- `agent/internal/executor/dispatcher.go:285-291` says the advertised capability is what this
  dispatcher can run. The two forge operations are advertised without a git client and then refused
  (`ExecutorRuns.UnwiredForgeIsAdvertisedAndRefused`). `ExecutorRuns.AdvertisedIsRunnableIff` gives
  the exact condition.
- Canonical text is meant to be a function of the value, but number texts are written verbatim, so
  `{"n":-0}` and `{"n":0}` are both accepted, mean the same and have different canonical bytes
  (`Domain.MinusZeroKeepsItsSpelling`). The canonical text of an envelope is that of its plainly
  written value exactly when `args` holds no `-0` (`Domain.MinusZeroChangesTheBytesIff`), and a value
  has a single canonical text exactly when it holds no zero (`CanonicalReader.OneTextIff`).
- `agent/internal/envelope/replay.go:45-48` says a nonce must not be forgotten while its envelope is
  fresh. An envelope is fresh for `maxAge + 2 * clockSkew`, so that holds exactly when the guard's age
  is greater (`FreshnessLimits.NoncesOutliveTheirEnvelopesIff`). The agent gives the guard `maxAge`
  itself, which at the default values forgets after 300 of 420 seconds
  (`FreshnessLimits.DeployedGuardForgets`). A repeat still needs a higher number to be accepted.
- `agent/internal/app/session_wiring.go:172-178` bounds what a restart exposes by the 300 seconds of
  `maxAge`. The bound is `maxAge + 2 * clockSkew` (`VerifyRuns.RestartBound`), and it is attained
  (`FreshnessLimits.RestartBoundIsTight`).
- `agent/internal/envelope/verify.go:201-203` refuses trailing content after the envelope. Content that
  begins with a closing bracket is not refused but ignored (`Parse.RestMattersIff`).

## Model

| member | source | states |
|---|---|---|
| CanonicalReader.ReaderInvertsWriter | agent/internal/envelope/envelope.go:304-371 | a reader accepts a text exactly when the writer produces it, and returns the tree that was written: print and read are inverse in both directions |
| CanonicalReader.CanonicalInjective | agent/internal/envelope/envelope.go:312-318 | two trees with the same canonical text are the same tree |
| CanonicalReader.CanonicalTextIsMeaning | agent/internal/envelope/envelope.go:88-98 | two trees without `-0` have the same canonical text exactly when they mean the same, numbers read as integers |
| CanonicalReader.TextIsPlainIff | agent/internal/envelope/envelope.go:332-337 | a tree has the canonical text of its meaning, every number rewritten in decimal, exactly when it holds no `-0` |
| CanonicalReader.OneTextIff | agent/internal/envelope/envelope.go:332-337 | all trees of one meaning share their canonical text exactly when that meaning holds no zero |
| Domain.MinusZeroChangesTheBytesIff | agent/internal/envelope/envelope.go:224-302 | rewriting the numbers of `args` in decimal keeps an envelope acceptable and its value the same, and keeps its canonical bytes exactly when `args` holds no `-0` |
| Domain.MinusZeroKeepsItsSpelling | agent/internal/envelope/envelope.go:262-276 | in any acceptable envelope the `args` objects `{"n":0}` and `{"n":-0}` are both accepted, mean the same and give different canonical bytes |
| CanonicalReader.QuoteReads | agent/internal/envelope/envelope.go:396-430 | string escaping is self-delimiting and undone by unescaping, whatever follows |
| CanonicalReader.NoNulPrint | agent/internal/envelope/envelope.go:403-430 | canonical text never contains a NUL, whatever the strings in the tree contain |
| Jcs.WriteJCS | agent/internal/envelope/envelope.go:320-371 | the writer appends the canonical text and nothing else, for any iteration order of the maps, and refuses exactly the trees that hold a float |
| Jcs.WriteJCSString | agent/internal/envelope/envelope.go:403-430 | the string loop appends the quoted, minimally escaped string |
| Jcs.Serialise | agent/internal/envelope/envelope.go:312-318 | the result is the canonical text or the float refusal |
| Jcs.ObjectIsText | agent/internal/envelope/envelope.go:338-355 | an object of any size is its members, name and value joined by a colon, in UTF-16 order, separated by commas, between braces |
| Jcs.ArrayIsText | agent/internal/envelope/envelope.go:356-366 | an array is its items in order, separated by commas, between brackets |
| Jcs.EscapeForm | agent/internal/envelope/envelope.go:403-430 | which characters are escaped and how: two by a backslash, five by a letter, the other controls by two hexadecimal digits, and no others |
| KeySort.LessUTF16 | agent/internal/envelope/envelope.go:386-394 | the unit-by-unit loop decides the lexicographic order of the UTF-16 encodings |
| KeySort.SortKeys | agent/internal/envelope/envelope.go:380-384 | sorting in place gives a sorted rearrangement of the keys |
| KeySort.KeysInOrder | agent/internal/envelope/envelope.go:339-343 | the sorted key list depends on the key set alone |
| KeyOrder.StrictTotalOrder | agent/internal/envelope/envelope.go:386-394 | the UTF-16 order (and the byte order) is a strict total order on all strings |
| KeyOrder.SortedUnique | agent/internal/envelope/envelope.go:373-384 | a set of keys has only one strictly sorted list |
| KeyOrder.OrdersDisagreeIff | agent/internal/envelope/envelope.go:373-379 | UTF-16 order and byte order disagree on exactly the pairs whose first difference is a supplementary character against one in U+E000..U+FFFF |
| KeyOrder.ByteOrderIsCodePointOrder | agent/internal/envelope/envelope.go:375-379 | comparing the UTF-8 bytes of two strings compares their code points |
| KeyOrder.AgreeOnBmp | agent/internal/envelope/envelope.go:375-379 | without supplementary characters the canonical order is code-point order |
| Utf16.DecodeInverts | agent/internal/envelope/envelope.go:386-394 | UTF-16 encoding is undone by decoding |
| Utf16.EncodedForm | agent/internal/envelope/envelope.go:386-394 | one unit below U+10000, and otherwise a pair of surrogates with ten bits each |
| Utf8.EncodedForm | agent/internal/envelope/envelope.go:312-318 | the four forms of UTF-8, the shortest that holds the character |
| Utf8.Injective | agent/internal/envelope/envelope.go:312-318 | the bytes of a text determine the text |
| Numbers.IntegerIffNoFloatChar | agent/internal/envelope/envelope.go:262-268 | among the numbers a JSON decoder can deliver, those without `.`, `e` or `E` are exactly the integer literals |
| Numbers.DecimalReads | agent/internal/envelope/envelope.go:205-206 | the decimal text of a counter is an integer literal that reads back as the counter |
| Numbers.ParseInt64Iff | agent/internal/envelope/envelope.go:269-276 | of the numbers a decoder delivers, exactly the integer literals in the int64 range are read as counters, each as its value |
| Numbers.LiteralIsDecimal | agent/internal/envelope/envelope.go:269-276 | every integer literal but `-0` is the decimal text of its value |
| Envelope.WalkNoFloat | agent/internal/envelope/envelope.go:260-302 | the recursive walk with its loops reports the first fault in byte order of the keys |
| Envelope.WalkAcceptsExactIntegers | agent/internal/envelope/envelope.go:224-302 | the walk accepts a tree exactly when every number at every depth is an integer literal between -9007199254740991 and 9007199254740991 |
| Envelope.NumberFaultKind | agent/internal/envelope/envelope.go:262-276 | a number with a fraction or an exponent is a float, and an integer outside those bounds a domain error |
| Envelope.ObjectFaultIsFirst | agent/internal/envelope/envelope.go:283-296 | the fault of an object is that of the first member at fault in byte order |
| Envelope.ArrayFaultIsFirst | agent/internal/envelope/envelope.go:296-301 | the fault of an array is that of the first item at fault |
| Envelope.FaultIsReal | agent/internal/envelope/envelope.go:246-258 | the kind of fault reported is one the tree really has |
| Envelope.CanonicalBody | agent/internal/envelope/envelope.go:154-222 | the body has the ten members of the list, so its two closing checks never fail; errors come in the source's order |
| Envelope.SerialiserIsTotal | agent/internal/envelope/envelope.go:133-139 | on every accepted body the serialiser's error branches are unreachable |
| EnvelopeText.CanonicalTextIff | agent/internal/envelope/envelope.go:156-222 | an envelope has canonical bytes exactly when `args` is an object or absent and every number in it and both counters lie between -9007199254740991 and 9007199254740991; the bytes are those of the text with the ten named members in order, absent `args` as an empty object |
| EnvelopeText.CanonicalOutcome | agent/internal/envelope/envelope.go:127-139 | for every envelope the canonical bytes or the error, in the order of the checks |
| Envelope.CanonicalBytes | agent/internal/envelope/envelope.go:133-139 | computes those bytes |
| Domain.SigningInput | agent/internal/envelope/domain.go:29-44 | the prefix, one zero byte, the canonical bytes |
| EnvelopeText.SigningInputText | agent/internal/envelope/domain.go:18-44 | the input is the UTF-8 of `forgeops-envelope-v1` (or `forgeops-approval-v1`), a NUL and the canonical text |
| Domain.SigningInputIff | agent/internal/envelope/domain.go:29-44 | under prefixes without a zero byte, equal inputs mean equal prefixes and equal logical envelopes, and conversely |
| Domain.CanonicalBytesIff | agent/internal/envelope/envelope.go:127-139 | canonical bytes determine every signed member and `args` as an object, absent read as empty, and nothing else |
| Domain.DomainsAreSeparate | agent/internal/envelope/domain.go:18-27 | no envelope input is ever an approval input |
| Domain.FirstZeroEndsThePrefix | agent/internal/envelope/domain.go:34-44 | the separator is the only zero byte of a signing input |
| Domain.SignatureIsNotCovered | agent/internal/envelope/envelope.go:83-86 | the signing input, the signature and the digest do not depend on the signature member |
| Domain.Sign | agent/internal/envelope/sign.go:22-32 | the signature is the text of the MAC over the input of the unsigned envelope |
| EnvelopeText.SignatureText | agent/internal/envelope/sign.go:22-32 | decoding the signature gives the MAC of that input |
| Domain.Digest | agent/internal/envelope/envelope.go:141-152 | the digest is the hex hash of the input under the envelope prefix |
| EnvelopeText.DigestText | agent/internal/envelope/envelope.go:141-152 | the digest, read as hexadecimal, is the hash of that input |
| Domain.HexDenotes | agent/internal/envelope/envelope.go:151 | each byte is written as two lower-case hexadecimal digits, the high one first |
| Domain.HexRoundTrip | agent/internal/envelope/envelope.go:151 | reading the hexadecimal text gives the bytes back |
| Base64Url.DecodeAcceptsExactlyEncodings | agent/internal/envelope/envelope.go:441-467 | a non-empty text decodes to `b` exactly when, without trailing `=`, it is the encoding of `b` |
| Base64Url.OneSpelling | agent/internal/envelope/envelope.go:432-439 | a MAC has one spelling up to trailing `=` |
| Base64Url.FourSpellingsWithoutTheCheck | agent/internal/envelope/envelope.go:446-452 | without the re-encoding check a 32-byte MAC has exactly four 43-character spellings |
| Base64Url.RawRoundTrip | agent/internal/envelope/envelope.go:437-439 | decoding undoes encoding for all byte strings |
| Base64Url.GroupsHoldTheBits | agent/internal/envelope/envelope.go:437-439 | every group of the encoding holds the bits of its bytes, the last one followed by zero bits |
| Base64Url.Alphabet | agent/internal/envelope/envelope.go:437-439 | the alphabet: letters, digits, `-` and `_`, in order |
| Base64Url.BreaksAreSkipped | agent/internal/envelope/envelope.go:453-467 | line breaks inside the text make no difference to the raw decoder |
| ReplayGuard.MemoryReplayGuard.SeenNonce | agent/internal/envelope/replay.go:75-105 | list and index stay in bijection within the capacity; the answer and the new list are those of the value-level step; argument errors change nothing |
| ReplayGuard.MemoryReplayGuard.AdvanceSeq | agent/internal/envelope/replay.go:107-127 | a number is stored exactly when it is positive and above the device's mark |
| ReplayGuard.MemoryReplayGuard.EvictExpiredLocked | agent/internal/envelope/replay.go:144-158 | drops the expired entries at the front and no other |
| ReplayGuard.MemoryReplayGuard.NonceCount | agent/internal/envelope/replay.go:136-142 | list and index have the same size |
| ReplayGuard.NewMemoryReplayGuard | agent/internal/envelope/replay.go:42-65 | a non-positive age or capacity is a construction error |
| ReplayHistory.ListIsSuffixOfHistory | agent/internal/envelope/replay.go:26-40 | under any clock the list is a suffix of the record history, within capacity, with distinct keys |
| ReplayHistory.GuardRefinesHistory | agent/internal/envelope/replay.go:75-105 | under a clock that never goes back the list is the newest min(capacity, unexpired) records, and an answer is true exactly when the key is among those retained then |
| ReplayHistory.NoEarlyRepeat | agent/internal/envelope/replay.go:42-49 | if no window of the age holds more records than the capacity, no unexpired nonce is forgotten and no key is recorded twice within the age |
| ReplayHistory.OverflowForgets | agent/internal/app/session_wiring.go:63-66 | the bound is tight: one record more, and a fresh nonce is accepted again, for every capacity |
| ReplayHistory.NonceKeyCollidesIff | agent/internal/envelope/replay.go:91 | two device/nonce pairs share a key exactly when one device id continues the other past a NUL and the nonces make up the difference |
| Parse.Parse | agent/internal/envelope/verify.go:186-245 | the checks of `parse`, in order |
| Parse.ParseIff | agent/internal/envelope/verify.go:193-245 | for every document: it parses to an envelope exactly when it is an object whose members, under their names, say that envelope, with a missing or null text empty, integer counters, no other member, the required ones present, version `1`, positive counters, and exact integers in `args` |
| Parse.ParseErrorIs | agent/internal/envelope/verify.go:193-245 | every other document is malformed, unless only the numbers in `args` are at fault |
| Parse.ParseInvertsDocument | agent/internal/envelope/verify.go:193-245 | the document of an envelope parses, and parses back to that envelope, exactly when the envelope is complete |
| Parse.ParsedIsComplete | agent/internal/envelope/verify.go:204-243 | whatever is parsed has its required members, positive counters and safe numbers |
| Parse.UnknownMemberIsRefused | agent/internal/envelope/verify.go:188-196 | a member that matches none of the closed set, letter case aside, makes the document malformed |
| Parse.UnknownPolicyMemberIsRefused | agent/internal/envelope/verify.go:193-200 | the same inside `policy_context` |
| Parse.RestMattersIff | agent/internal/envelope/verify.go:201-203 | text after the document makes it malformed exactly when, past white space, it does not begin with a closing bracket |
| Verify.Verifier.Verify | agent/internal/envelope/order.go:48-71 | the imperative six checks compute the value-level step, and the guard's argument errors are unreachable |
| Verify.AcceptsIff | agent/internal/envelope/order.go:13-31 | `Verify` succeeds exactly when the document parses, the window holds, the signature is the one `Sign` makes, the bundle matches, the number is above the mark and the nonce is not retained |
| Verify.FirstFailureIsReported | agent/internal/envelope/order.go:15-24 | the error is that of the first failing check in the documented order, each check made on its own against the prior state |
| Verify.RejectionEffect | agent/internal/envelope/order.go:41-69 | a rejection leaves the state alone exactly when it comes before uniqueness; a uniqueness rejection moves that device's mark, drops expired nonces and does nothing else |
| Verify.CodeNamesTheCheck | agent/internal/envelope/verify.go:344-363 | the code of a rejection names the check that failed first, and no rejection is left unnamed |
| Verify.SignatureAcceptedIff | agent/internal/envelope/verify.go:265-298 | a signature passes exactly when the device has a non-empty key and the text is, up to `=`, what `Sign` produces |
| Verify.SignatureCheckIs | agent/internal/envelope/verify.go:265-298 | the outcome of the signature check for every envelope, in the order of its steps |
| Verify.SignedPasses | agent/internal/envelope/sign.go:22-32 | what `Sign` produces under the verifier's prefix passes the signature check |
| Verify.AcceptedIsWhatWasSigned | agent/internal/envelope/domain.go:18-23 | barring a MAC collision on the two inputs, an accepted signature was made under the verifier's prefix for the same logical envelope |
| Verify.AcceptedDigest | agent/internal/envelope/verify.go:296-297 | the digest returned is `Digest` of the envelope |
| Verify.FreshnessIsTheWindow | agent/internal/envelope/verify.go:247-263 | with wrapping and saturating time arithmetic written out, freshness is the window around `not_after` for safe counters |
| Verify.FreshnessFaultIs | agent/internal/envelope/verify.go:247-263 | past the window an envelope is expired, before it too far in the future |
| Verify.TimeInFigures | agent/internal/envelope/verify.go:247-263 | where Unix instants wrap, differences saturate and durations wrap, in figures |
| Verify.NewVerifier | agent/internal/envelope/verify.go:146-184 | every collaborator and a positive age are required |
| SignThenVerify.SignedIsAcceptedIff | agent/internal/envelope/verify.go:193-342 | a signed envelope is accepted exactly when its members, window, bundle, number and nonce are in order |
| SignThenVerify.RefusedDuplicateMovesTheMark | agent/internal/envelope/order.go:64-69 | the same nonce under a higher number is refused while fresh, and yet moves the mark |
| VerifyRuns.ErasingRejectedInput | agent/internal/envelope/order.go:26-47 | erasing any envelopes rejected before uniqueness changes no other verdict of a run, nor its final state |
| VerifyRuns.AcceptedNumbersIncrease | agent/internal/envelope/replay.go:107-127 | between restarts the accepted numbers of a device strictly increase, for any interleaving, clock, key and bundle changes |
| VerifyRuns.MarksGrow | agent/internal/envelope/replay.go:112-127 | marks only grow, and a device's mark is untouched by the others |
| VerifyRuns.RestartBound | agent/internal/app/session_wiring.go:174-182 | over any restarts, the acceptances of one envelope lie within maxAge + 2*skew of each other, with a restart between any two |
| VerifyRuns.AcceptedWithinWindow | agent/internal/envelope/verify.go:247-263 | every acceptance lies in the window around `not_after` |
| VerifyRuns.GuardSeesTheRun | agent/internal/envelope/verify.go:312-322 | the guard's list after a run is that of its queries, and its history is the record of the accepted envelopes |
| VerifyRuns.NoncesAreUniqueWithinTheAge | agent/internal/app/session_wiring.go:54-66 | if the capacity fits the traffic and the guard's clock never goes back, no device has a nonce accepted twice within the age |
| VerifyRuns.RecordsIdentifyThePair | agent/internal/envelope/replay.go:91 | for device ids without NUL a record identifies its device and nonce |
| VerifyRuns.ReplayHasACause | agent/internal/envelope/replay.go:81-105 | for device ids without NUL, under any clock and any restarts, an envelope is refused as a replay only if the same device had the same nonce accepted since the last restart |
| FreshnessLimits.RestartBoundIsTight | agent/internal/app/session_wiring.go:172-178 | the bound over restarts is attained: an envelope acceptable at the start of its window is accepted again maxAge + 2*skew later, after one restart |
| FreshnessLimits.NoncesOutliveTheirEnvelopesIff | agent/internal/envelope/replay.go:42-49 | in all runs within the capacity whose two checks read one clock that never goes back, no nonce is accepted twice while its first envelope is fresh, exactly when the guard's age exceeds maxAge + 2*skew |
| FreshnessLimits.ShortAgeForgets | agent/internal/envelope/replay.go:42-49 | with a shorter age, the nonce of any envelope in order is accepted again under a higher number while the envelope is fresh |
| FreshnessLimits.DeployedGuardForgets | agent/internal/app/session_wiring.go:179-187 | with the guard given the verifier's own age, as wired, and the default values, nonces do not outlive their envelopes |
| Commands.CatalogueIs | agent/internal/executor/operations.go:27-64 | each of the seventeen names selects its operation, and no other string selects any |
| Commands.AdvertisedIs | agent/internal/executor/dispatcher.go:92-154 | what is advertised for each operation: mutating, approval, time bound, implemented |
| Commands.RefusalIs | agent/internal/executor/dispatcher.go:221-248 | for every command, by wire name: the first reason that refuses it, or that its body runs |
| Commands.RegisterDoes | agent/internal/executor/registry.go:75-102 | what `project.register` does to the state and reports |
| Commands.UnregisterDoes | agent/internal/executor/registry.go:103-130 | what `project.unregister` does to the state, secrets included, and reports |
| Commands.InjectDoes | agent/internal/executor/secrets.go:123-154 | what `secrets.inject` does to the state and reports |
| Commands.OthersDo | agent/internal/executor/registry.go:153-156 | the other operations change neither projects nor secrets (an assumption about their bodies) and fail by name exactly when their collaborator is missing |
| Commands.CodesAre | agent/internal/executor/operations.go:114-135 | the code of every error |
| Registry.DecodeProjectIff | agent/internal/executor/registry.go:54-63 | exactly the argument objects with a project id that is not blank are accepted |
| Secrets.NameAllowedIff | agent/internal/executor/secrets.go:101-119 | which variable names may be injected: not empty, trimmed, without `=` and NUL, and none of the seven that choose a binary, letter case aside |
| Dispatcher.Dispatcher.Execute | agent/internal/executor/dispatcher.go:221-260 | guards in order, then the body; result and state are those of the value-level step |
| Dispatcher.Dispatcher.EvaluateIndependently | agent/internal/executor/policy_gate.go:118-156 | with an evaluator wired, only the two permissive verdicts let a command pass |
| Dispatcher.Dispatcher.RunInject | agent/internal/executor/secrets.go:123-154 | an injection writes its values over those held and reports sorted names |
| Dispatcher.Dispatcher.RunUnregister | agent/internal/executor/registry.go:103-130 | unregistering drops the project and its secrets and reports whether anything changed |
| Dispatcher.Dispatcher.Operations | agent/internal/executor/dispatcher.go:262-283 | the advertised list follows the catalogue and the table |
| ExecutorRuns.PolicyOnlyNarrows | agent/internal/executor/policy_gate.go:29-43 | for any commands and any answers, the bodies run with an evaluator, their outcomes and the state are those of the run without one over the commands it allows |
| ExecutorRuns.MutatingBodyWasApproved | agent/internal/executor/dispatcher.go:221-248 | a body that runs was asked for by its own name and allowed by a wired evaluator, and a mutating one carried a non-empty approval id |
| ExecutorRuns.RefusedChangesNothing | agent/internal/executor/dispatcher.go:227-248 | a refused command leaves registry and secrets unchanged |
| ExecutorRuns.RefusalCode | agent/internal/executor/operations.go:114-135 | the code of a refusal names the guard that refused: no verified envelope, a name outside the catalogue, a mutation without approval, and otherwise the agent's own policy |
| ExecutorRuns.HeldIsTheLastWrite | agent/internal/executor/secret_env.go:33-54 | after any run a value is held exactly when the last executed command that touched that variable of that project set it |
| ExecutorRuns.HeldNamesAreAllowed | agent/internal/executor/secrets.go:101-119 | every name ever held obeys the decode rules |
| ExecutorRuns.InjectionReport | agent/internal/executor/secrets.go:131-145 | the report names the injected variables and, as replaced, exactly those already held, sorted, with the right count |
| ExecutorRuns.ServedIsTheLastRegistration | agent/internal/executor/registry.go:284-302 | a project is served exactly when the last executed command about it registered it |
| ExecutorRuns.AdvertisedIsRunnableIff | agent/internal/executor/dispatcher.go:285-299 | some command for an operation succeeds exactly when its collaborator is wired; advertised and able to succeed differ exactly for the two forge operations of an agent without a git client |
| ExecutorRuns.UnwiredForgeIsAdvertisedAndRefused | agent/internal/executor/registry.go:153-156 | without a git client both forge operations are advertised, and every command for them that passes the guards is refused by name |
| ExecutorRuns.UnwiredNeverSucceeds | agent/internal/executor/scan.go:95-98 | a command whose collaborator is missing fails with that collaborator's error and changes nothing |
| AgentRuns.RunSplits | agent/internal/session/serve.go:630-652 | the executor's part of any run of the agent is a run over the commands made from accepted envelopes since the last restart |
| AgentRuns.EveryBodyWasSignedFor | agent/internal/app/session_wiring.go:76-83 | in any run, a body that runs was asked for by an arriving envelope with the signature `Sign` makes, the loaded bundle and a current window; a mutating one carried an approval |
| AgentRuns.OneBodyPerNumber | agent/internal/session/serve.go:630-652 | between restarts no number of a device drives two bodies |
| AgentRuns.HeldSecretWasSignedFor | agent/internal/executor/secrets.go:36-43 | whatever secret an agent holds was stated, since its last restart, by an authentic and approved injection for that project |
| Secrets.SecretEnvironment.PutValues | agent/internal/executor/secret_env.go:33-54 | the store after `put` is the old values overwritten, for any iteration order, and the replaced names are those that had a value, each once |
| Secrets.DecodeInjectIff | agent/internal/executor/secrets.go:83-121 | exactly these arguments are accepted: an object that states, for a project id that is not blank, between 1 and 256 values (strings, or `null` for the empty one), all under allowed names |
| Registry.ProjectRegistry.List | agent/internal/executor/registry.go:304-313 | every project served, in byte order |
| GateReachability.Reach | scripts/check-gate-reachability.py:213-230 | the worklist terminates with exactly the scripts a reference chain of any length reaches from an entry point |
| GateReachability.ReachableIsLeast | scripts/check-gate-reachability.py:26-29 | the reachable scripts are contained in every set closed under entry points and references |
| GateReachability.OrphanRingIsUnreachable | scripts/check-gate-reachability.py:26-29 | a closed ring of orphans is never reached |
| GateReachability.Check | scripts/check-gate-reachability.py:186-276 | the exit code is zero exactly when there are gates, each runs or is exempt, and no exemption is stale or unknown |
| SseReader.ReadSSE | frontend/lib/sse-reader.ts:9-64 | however the text is cut into chunks, the messages are those of the line machine over the whole text |
| SseReader.SplitConcat | frontend/lib/sse-reader.ts:28-30 | carrying the unfinished line over to the next chunk splits like the whole text |
| SseReader.LinesRebuildTheText | frontend/lib/sse-reader.ts:29-30 | complete lines and the carried-over line lose nothing of the text |
| SseReader.SentIsReceived | frontend/lib/sse-reader.ts:32-62 | every frame with data is received once, in order, under its last event and id lines or the defaults `message` and none, its data lines joined; other lines, frames without data, white space and an unfinished frame change nothing |
| SseReader.ServerFrameIsReceived | backend/src/core/sse.py:40-59 | a frame as this system's servers write it is received with its event, its data and no id |
| KnownAnswers.EmojiBesidePrivateUse | agent/internal/envelope/envelope_test.go:154-179 | U+1F600 sorts before U+E000 canonically and after it by bytes |
| KnownAnswers.CorpusKeyOrder | agent/testdata/envelopes/04-utf16-key-order.json:3-33 | the keys of the corpus envelope in their canonical order |
| KnownAnswers.TwoMemberObject | agent/internal/envelope/envelope.go:338-355 | an object is written with sorted members, colons, commas and no white space |

## Left out

- HMAC-SHA256 and SHA-256 are uninterpreted; nothing is claimed about their strength.
- The byte level of the JSON decoder: duplicate keys, repair of invalid UTF-8, nesting limits, and the point at which a document ends.
- Parse.Parse: takes member names as already resolved, so a member spelled in another letter case, which the decoder would match to its field, is refused here; `UnknownMemberIsRefused` claims nothing about such names. The argument objects of commands are read in the same way.
- Mutexes, goroutines and contexts: each method is one atomic step, and the constant-time comparison is equality.
- Error messages and paths: an error is its kind.
- Verify.FreshnessIsTheWindow: like the results on windows that rest on it, assumes that the sum of age and skew stays below the int64 limit; the step itself models the wrap of that sum and of `time.Unix` and the saturation of `Sub`, but instants are otherwise unbounded.
- Slices of keys and digests are values, so the defensive copies of the key source are not modelled as memory.
- The container list of the guard is a sequence and the index maps a key to its entry, not to a list node.
- AgentRuns.EveryBodyWasSignedFor: whether the session hands an accepted envelope on (it keeps back approval responses, and everything while its bundle is stale) is an input of each event, and frames the session refuses before verification are no events.
- The bodies of the scan, validator, inventory, change-set and git operations, including file application: their results are arbitrary and they do not touch the registry or the secrets.
- The input document of the policy evaluator, in particular the `change_items` it is shown; nothing is claimed about which paths a policy sees.
- Timeouts and progress reports of commands, and the JSON text of their reports.
- The choice of which operations require an approval is taken from the table as it stands.
- Reading files, stripping comments and matching references in the gate script: the reference relation is given.
- Decoding bytes to text and `JSON.parse` in the event reader, and agreement with the event-stream standard beyond what `SentIsReceived` states; a consumer that stops early is not modelled.
- The Python side of the envelope, the session, the transport and the user interface.
