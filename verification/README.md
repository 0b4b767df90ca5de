# CAP in Dafny

A model of the parts of the Cordum Agent Protocol (CAP) repository whose correctness
rests on whole runs and whole documents, and proofs about that model. The Go and
Python code that works by changing things step by step is modelled by methods and
classes with loop invariants, each proved equal to a function of its inputs; the
properties below are lemmas about those functions.

- **Signed packets** (`Varint`, `Wire`, `WireGrammar`, `WireProperties`,
  `WireSigning`, `Production`, `ProductionProperties`): the strict scan that takes the
  signature record out of a packet's bytes, its exact grammar, and signing and
  verifying as its two directions.
- **Replay and admission** (`Replay`, `ReplayRuns`, `Admission`): the purging replay
  store against a log that never forgets, and at-most-once delivery over any sequence
  of arrivals.
- **Worker handshake** (`Clock`, `Crypto`, `Handshake`, `HandshakeProperties`,
  `HandshakeExact`): the four signed phases, what a session implies about every reply
  that led to it, when an honest scheduler succeeds, and exactly when each step succeeds
  and with what.
- **External resources** (`BoundedRead`, `Resources`, `ResourceExact`, `ResourceStore`):
  the bounded read loop for every chunking, the registry, exactly when content is
  externalized and resolved, and backends that store by URI: exactly when a reference
  still resolves to its own content.
- **Generated text in documents** (`Text`, `Render`, `Rendering`,
  `RenderingProperties`, `Snippets`, `SnippetsProperties`, `SnippetsSync`,
  `SnippetsValidation`, `SnippetsGuide`, `Fences`): finding and rewriting protected
  blocks, and synchronising snippets, with the exact conditions under which a second pass
  changes nothing, and what the fence scanner computes.
- **Generated code manifest** (`Ordering`, `Codegen`, `CodegenCheck`, `CodegenFaults`,
  `CodegenProperties`): taking a snapshot of a tree and which trees it then accepts, and
  which faults of any manifest and tree are reported.
- **Conformance kit** (`KeyedSort`, `Adapter`, `AdapterProperties`, `Suite`, `Report`,
  `Conformance`, `ConformanceExact`): the concurrent adapter driver as a state machine
  over all interleavings, refined to a sequential reading, and every case, count and
  verdict of a report in terms of the messages on the wire.
- **Versions, roots, labels** (`Semver`, `Roots`, `Label`).

Cryptography, protobuf marshalling and file access are parameters: a hash, a
verification function, a pair of codec functions, readers and trees. Where a lemma
needs more of them (no collisions, only signed messages verify, decoding undoes
encoding) it says so in its `requires`. Clock readings, drawn nonces and signatures and
backend replies are parameters as well, so every lemma speaks about all of them.

Seven claims that one would like to be true without conditions are not. Each has a lemma
with a concrete input on which it fails, and an exact condition for all inputs:

| claim | fails by | holds exactly when |
|---|---|---|
| a body that passes the signer's probe survives signing and extraction | `ProbeIsNotEnough` | `RoundTripIff`; for marshalled records `ProbeIffGrammatical` |
| the replay store answers as a log until expiry | `ClockGoingBack` | `AgreesIff`: no clock reading reaches an expiry and a later one is before it again |
| a replay key determines its tuple | `LongTuplesCollide` | `TupleKeyInjectiveIff`: all parts are shorter than 2^32 + 1 bytes; `KeyInjectiveIff` for lists that may hold empty parts |
| rendering is idempotent (stated at internal/releasetruth/render.go:100-102) | `NotAlwaysIdempotent` | `IdempotentIff`, and `WriteThenCheck` for the file on disk |
| an empty result of Check means that every declared output is there as pinned (stated at tools/codegen/check.go:10-13) | `SkippedOutput` | `AcceptedIsPinnedIff`: every declared path can be opened |
| a fresh snapshot passes its own check | `DriveLikeNameFails` | `OwnSnapshot`, and `SnapshotThenCheck` for any other tree |
| the aggregate roots reach every proto file | `CycleBesideRoot` | `CoveredIff`; always without cycles, by `RootsCover` |

## Model

| member | source | states |
|---|---|---|
| Varint.ConsumeUndoesAppend | sdk/go/production_wire.go:132-139 | reading a varint gives back the value that was appended and its size, whatever follows |
| Varint.AppendIsPrefixFree | sdk/go/production_wire.go:132-139 | two appended varints followed by any bytes agree only if the values and the rests agree |
| Varint.CanonicalIffAppended | sdk/go/production_wire.go:132-139 | the shortest-form test accepts exactly the bytes that begin with an appended varint |
| Wire.CanonicalTagIffAppended | sdk/go/production_wire.go:100-107 | a tag is read as canonical exactly when the bytes begin with that tag as it would be written |
| Wire.ScanField | sdk/go/production_wire.go:21-46 | one round of the offset loop on the whole buffer is one step on the bytes that are left, errors included |
| Wire.ExtractSignatureField | sdk/go/production_wire.go:13-51 | the loop over offsets into the raw bytes computes the recursive extraction that the grammar lemmas speak about |
| WireGrammar.ScanFollowsSchema | proto/cordum/agent/v1/buspacket.proto:19-47 | the field numbers, wire types and payload numbers of the scan are those that the schema of the packet declares |
| WireGrammar.StepOnEncoded | sdk/go/production_wire.go:21-78 | on the encoding of a complete record the scan goes on exactly when the record is known, is not a repeat and is no second payload |
| WireGrammar.StepIsEncoded | sdk/go/production_wire.go:21-130 | whatever bytes the scan goes on over are the encoding of one such record |
| WireProperties.AdmissibleIffGrammatical | sdk/go/production_wire.go:53-98 | the running sets of seen fields and payloads decide the grammar, which is stated pair by pair |
| WireProperties.ScanSplits | sdk/go/production_wire.go:13-51 | any bytes split into the records that the scan gets through and the tail it stops at |
| WireProperties.Unambiguous | sdk/go/production_wire.go:13-51 | a byte string is the encoding of at most one grammatical record list |
| WireProperties.ExactGrammar | sdk/go/production_wire.go:13-139 | extraction succeeds, misses the signature, or reports a second one exactly on the byte strings, at most 1 MiB long, of three given shapes of canonical records; all others are malformed |
| WireProperties.ExtractOfRecords | sdk/go/production_wire.go:13-51 | on a grammatical signed record list the result is the encoding of the other records in order, and the content of the signature record |
| WireSigning.CutOut | sdk/go/production_wire.go:13-51 | an extracted body is the input with exactly the signature record cut out |
| WireSigning.PositionIndependence | sdk/go/production_wire.go:13-51 | with the signature record at any field boundary, extraction returns the same body and signature |
| WireSigning.RoundTripIff | sdk/go/production_signing.go:171-175 | appending a non-empty signature that fits and extracting it again returns both exactly when the body is a grammatical record list without a signature, for every byte string |
| WireSigning.ProbeIffGrammatical | sdk/go/production_wire.go:5-11 | on complete records the signer's probe accepts exactly the grammatical unsigned lists that leave room for three more bytes |
| WireSigning.ProbeIsNotEnough | sdk/go/production_wire.go:5-11 | on bytes that end inside a record the probe can accept a body that signing then corrupts |
| ProductionProperties.VerifiedIsSigned | sdk/go/production_signing.go:84-137 | an accepted packet is the decoding of the input without its signature record, and the key pinned for its tenant, sender and key ID signed the domain-separated form of those bytes, for this audience and inside the time window |
| ProductionProperties.VerifiesIff | sdk/go/production_signing.go:84-154 | verification succeeds exactly for a usable trust store and bytes whose body decodes to a packet of the profile, for this audience, tenant and sender, inside the time windows, signed by the key pinned for it; and returns that packet, with the signature cut out, and the digest of the body |
| ProductionProperties.SignsIff | sdk/go/production_signing.go:50-82 | signing succeeds exactly for a P-256 key and a packet in the profile without unknown fields that expires within five minutes and marshals to an unsigned body, within the size bounds; and returns the body and then the signature record |
| ProductionProperties.SignThenVerify | sdk/go/production_signing.go:50-137 | verification of a signed packet returns it unchanged, or the error of the first trust check that fails, told by the packet, the windows and the clock, for every trust store that pins the key |
| ProductionProperties.VerifiesUntilExpiry | sdk/go/production_signing.go:192-233 | with the default windows a signed packet verifies from signing on exactly until it expires |
| ProductionProperties.DigestIgnoresSignature | sdk/go/production_signing.go:156-162 | re-signing a body, or moving the signature record, keeps the signed-body digest |
| Replay.ReplayTupleKey | sdk/go/production_replay.go:72-85 | the loop builds the concatenation of length-prefixed parts |
| Replay.KeyInjective | sdk/go/production_replay.go:72-85 | a list of parts is determined by its key if all lengths lie among 2^32 consecutive ones |
| Replay.KeyInjectiveIff | sdk/go/production_replay.go:72-85 | keys determine all lists of parts shorter than a bound exactly when the bound is at most 2^32 |
| Replay.LongTuplesCollide | sdk/go/production_replay.go:49-85 | two different tuples that Admit takes have one key, because a length prefix keeps a length modulo 2^32 only |
| Replay.TupleKeyInjectiveIff | sdk/go/production_replay.go:49-85 | among the tuples that Admit takes, keys determine those with parts shorter than a bound exactly when the bound is at most 2^32 + 1 |
| Replay.InMemoryReplayStore.constructor | sdk/go/production_replay.go:45-47 | a new store is empty |
| Replay.InMemoryReplayStore.Admit | sdk/go/production_replay.go:49-70 | the new entries and the outcome are the admission function of the old entries, the call and its clock reading |
| ReplayRuns.StoreRefinesRetiringLog | sdk/go/production_replay.go:49-70 | over every sequence of calls and any clock, the purging store answers as a log in which an admission retires at the first later reading that reaches its expiry |
| ReplayRuns.StoreRefinesLog | sdk/go/production_replay.go:49-70 | unless a clock reading reaches an expiry and a later one is before it again, the purging store answers as a log that is never purged |
| ReplayRuns.SteadyClock | sdk/go/production_replay.go:49-70 | in particular they agree if clock readings do not go back in lock order |
| ReplayRuns.CrossingShows | sdk/go/production_replay.go:49-70 | where readings do so, a message sent at the two ends is admitted twice by the store and once by the log |
| ReplayRuns.AgreesIff | sdk/go/production_replay.go:49-70 | store and log agree for every choice of messages on exactly the schedules of readings and expiries without such a crossing |
| ReplayRuns.OnceUntilExpiry | sdk/go/production_replay.go:49-70 | from a first admission until a reading reaches its expiry, the tuple yields Duplicate for the same digest and Conflict for any other |
| ReplayRuns.AgainIff | sdk/go/production_replay.go:49-70 | after its latest admission a tuple is admitted again exactly when a reading since then has reached the expiry of that admission |
| ReplayRuns.LiveEntriesKept | sdk/go/production_replay.go:57-69 | an unexpired entry keeps its digest and expiry through every call |
| ReplayRuns.ClockGoingBack | sdk/go/production_replay.go:50-61 | with a reading older than one acted on before, the store admits a tuple again before its expiry |
| Admission.RecordOutlivesVerification | sdk/go/runtime/production_admission.go:135-184 | a packet that verifies at some instant has a replay expiry after that instant |
| Admission.CallIs | sdk/go/runtime/production_admission.go:135-184 | an arrival that passes the checks is put to the replay store under its tenant, audience, sender and message ID, with the digest of its body and its expiry plus the clock skew |
| Admission.DeliveredIsDecoded | sdk/go/runtime/production_admission.go:135-184 | a delivered packet is the decoding of its own arrival's bytes without the signature record, with that record's content as its signature, and was trusted when verified |
| Admission.FateOf | sdk/go/runtime/production_admission.go:135-184 | every arrival's fate after any others: rejected if it does not reach the store, acknowledged if the same body is remembered, rejected if another body is remembered under its tuple, and otherwise its own decoded packet is delivered |
| Admission.SignedIsDelivered | sdk/go/runtime/production_admission.go:135-184 | a packet that was signed, is trusted on arrival and is not remembered is delivered unchanged |
| Admission.AfterDelivery | sdk/go/runtime/production_admission.go:166-183 | after a delivery, and before its record expires, an arrival with the same tuple is not delivered, and is acknowledged exactly when its digest is the same |
| Admission.AtMostOnce | sdk/go/runtime/production_admission.go:135-184 | over any sequence of arrivals in which no admission clock reaches a record's expiry and is before it again, no signed body is delivered twice, however it is re-signed or its signature record moved |
| Admission.DeliveredAgainIff | sdk/go/runtime/production_admission.go:135-184 | whatever the clocks do, a body is delivered again after its latest delivery exactly when an arrival in between read a clock at or past the expiry of its record |
| Admission.Redelivery | sdk/go/runtime/production_admission.go:135-184 | while its replay record lasts, a copy of a delivered body is acknowledged and not delivered, and another body under the same message ID is rejected |
| Handshake.CheckTopics | sdk/go/worker_trust_validate.go:168-192 | the scan with its set of seen topics accepts exactly lists of well-formed, distinct topics |
| HandshakeProperties.FramesInjective | sdk/go/trust_signing.go:70-92 | transcripts are equal exactly for the same phase and the same unsigned bytes |
| HandshakeProperties.FramesAreNotProduction | sdk/go/trust_signing.go:25-91 | no handshake transcript is the signing input of a production packet |
| HandshakeProperties.ChallengeIsBound | sdk/go/worker_trust_verify.go:13-67 | an accepted challenge was signed for its phase by the pinned scheduler key it names and correlates with this request, inside the time windows |
| HandshakeProperties.ResultIsBound | sdk/go/worker_trust_verify.go:26-105 | an accepted result was signed for its phase over exactly the verified challenge; the session has its well-formed unexpired token, new on renewal, and exactly its two times |
| HandshakeProperties.SessionIsAuthentic | sdk/go/worker_trust_verify.go:13-147 | whatever the network replied, a session means that pinned keys signed both replies, that they carry this run's request, trace, nonce, purpose and configuration, and that the session's token and times are those of the signed result |
| HandshakeProperties.RunsAreShort | sdk/go/worker_trust_validate.go:290-300 | in a run with a session the two checks are less than 120 s apart, and the result check less than 180 s from the request's creation time |
| HandshakeProperties.RepliesServeOneRequest | sdk/go/worker_trust_verify.go:123-136 | a reply accepted in two runs was accepted for the same request, trace, nonce and purpose |
| HandshakeProperties.HonestChallengeAccepted | sdk/go/worker_trust_verify.go:45-67 | a challenge that echoes the request and is signed by a pinned key is accepted exactly inside the time windows |
| HandshakeProperties.HonestRunsSucceed | sdk/go/worker_trust_verify.go:13-147 | a run with an honest scheduler yields a session exactly when both checks fall inside the windows, and then every packet of the run and the whole session are the given ones |
| HandshakeExact.RequestIff | sdk/go/worker_trust_validate.go:19-65 | a packet with a request is valid exactly when its fields, listed one by one, are |
| HandshakeExact.TopChallengeIff | sdk/go/worker_trust_validate.go:67-90 | the same for a packet with a challenge |
| HandshakeExact.AuthenticateIff | sdk/go/worker_trust_validate.go:92-108 | the same for an authenticate packet around a challenge and capabilities |
| HandshakeExact.ResultIff | sdk/go/worker_trust_validate.go:110-157 | the same for a packet with a result, accepted or rejected |
| HandshakeExact.BuildRequestIff | sdk/go/worker_trust_build.go:30-53 | the request is built exactly for a usable configuration, canonical IDs, a purpose, a 32-byte nonce, a representable time and a signature over a packet that marshals; and is that packet, field by field |
| HandshakeExact.ChallengeAcceptedIff | sdk/go/worker_trust_verify.go:13-67 | a challenge is accepted exactly when the worker's own signed request and the scheduler's signed reply are well formed, near in time, agree in every echoed field and name this worker; and the two packets are returned |
| HandshakeExact.BuildAuthenticateIff | sdk/go/worker_trust_build.go:55-84 | the authenticate packet is built exactly for a well-formed challenge for this configuration, well-formed capabilities and a token that fits the purpose; and is that packet, field by field |
| HandshakeExact.SessionIff | sdk/go/worker_trust_verify.go:26-105 | a session is returned exactly for a signed, accepted, timely result over the verified challenge with a token that is new on renewal, with that token and those times; the scheduler's reason is reported exactly for such a result that is not accepted |
| BoundedRead.ReadBounded | sdk/go/production_resource_resolve.go:123-159 | the loop terminates for every reader, takes at most one byte over the limit, returns what the recursive read returns, and never reaches its last statement |
| BoundedRead.ServedIsRead | sdk/go/production_resource_resolve.go:123-159 | however the content is cut into chunks, it is returned whole if within the limit and refused otherwise |
| BoundedRead.ReadIffServed | sdk/go/production_resource_resolve.go:123-159 | a read returns some content exactly when the reader served that content and it is within the limit |
| Resources.ResourceRegistry.constructor | sdk/go/production_resource_registry.go:142-159 | a new registry has no backends |
| Resources.ResourceRegistry.AddRegistration | sdk/go/production_resource_registry.go:161-180 | an acceptable registration is added under its ID; any other changes nothing |
| Resources.NewResourceRegistry | sdk/go/production_resource_registry.go:142-159 | all registrations are installed in order, or there is no registry |
| Resources.InstalledIff | sdk/go/production_resource_registry.go:142-180 | a registry comes about exactly for sound registrations with distinct IDs, and holds just those under their own bounds |
| Resources.ResolvedIsVerified | sdk/go/production_resource_resolve.go:17-57 | resolved content was served by the backend and has the declared media type, size and digest, within the installed limit, before expiry |
| Resources.ExternalizeThenResolve | sdk/go/production_resource_externalize.go:19-170 | content accepted into a backend that serves it back is resolved byte for byte with its media type at any time before expiry, and reported as expired afterwards |
| ResourceExact.InstallsIff | sdk/go/production_resource_registry.go:142-180 | registrations are sound exactly if their IDs match the pattern, their bounds lie within 1 GiB and neither backend is missing |
| ResourceExact.MediaIff | sdk/go/production_resource.go:107-109 | a media type is valid exactly if it consists of two tokens around one slash, at most 127 characters long |
| ResourceExact.PlaceIff | sdk/go/production_resource.go:128-142 | splitting at slashes and testing the segments decides a property of neighbouring characters: no doubled or final slash, no lone dot, no two dots in a row |
| ResourceExact.UriIff | sdk/go/production_resource.go:111-126 | a URI is valid exactly if it is printable ASCII of at most 2048 characters with a lower-case scheme and such a place, without credentials, query, fragment or escapes |
| ResourceExact.ExternalizesIff | sdk/go/production_resource_externalize.go:19-170 | a reference is returned exactly for a good call in a live context, before expiry at all three looks at the clock, when the reader serves some content within the bound and the backend replied that reference, without unknown fields, at a valid URI, with the call's backend, media type, purpose and expiry and the content's size and hash |
| ResourceExact.ExternalizeErrors | sdk/go/production_resource_externalize.go:19-170 | every error that Externalize reports is true of the call, the read or the reply |
| ResourceExact.ResolvesIff | sdk/go/production_resource_resolve.go:17-57 | content and media type are returned exactly for a valid reference, installed and within its bound, before expiry at both looks at the clock, when the backend served that content with the size, hash and media type of the reference |
| ResourceExact.ResolveErrors | sdk/go/production_resource_resolve.go:17-182 | every error that Resolve reports is true of the reference, the read or the reply |
| ResourceStore.AcceptedIsWritten | sdk/go/production_resource_externalize.go:19-58 | an accepted reference has the backend, type, size and digest of the content that was sent to the backend, and names the place where it was stored |
| ResourceStore.OwnContentIff | sdk/go/production_resource_resolve.go:17-57 | after any sequence of Externalize calls, a reference resolves before expiry to its own content exactly when the last call that wrote its URI in its backend wrote that content and media type, and with a collision-free hash never to other content |
| ResourceStore.KeptUntilRewritten | sdk/go/production_resource_resolve.go:17-57 | a reference resolves to its own content as long as no later call stores something else under its URI |
| Render.FindBlocks | internal/releasetruth/render.go:45-86 | the line loop with its open flag, current block, inner lines and seen IDs computes the blocks, or the first error, of a two-state reading of the lines |
| Render.ParseOfUnparse | internal/releasetruth/render.go:45-86 | well-marked segments are read back from the lines they are written as |
| Render.UnparseOfParse | internal/releasetruth/render.go:45-86 | whatever is read is well marked and writes back the same lines |
| Render.FindIff | internal/releasetruth/render.go:45-86 | a document is read as given segments exactly when they are well marked and write that document |
| Rendering.BlocksAreSound | internal/releasetruth/render.go:45-86 | found blocks are ordered, disjoint and uniquely named, with their markers and inner text at the stated lines |
| Rendering.IndexBlocks | internal/releasetruth/render.go:109-112 | the index has exactly one entry for each block, at its begin line |
| Rendering.RenderDocument | internal/releasetruth/render.go:103-133 | the loop that jumps over old inner text computes the segment-wise rendering, or its first error |
| Rendering.RenderKeeps | internal/releasetruth/render.go:103-133 | lines outside blocks and marker lines stay as they are, and each block gets its rendered text |
| RenderingProperties.LinesOfRendered | internal/releasetruth/render.go:103-133 | the lines of a rendered document are the lines of the rendered segments |
| RenderingProperties.StableIsMarkerFree | internal/releasetruth/render.go:103-133 | if filling the blocks of a document twice gives the same lines, no filling contains a marker line |
| RenderingProperties.ReadBackOf | internal/releasetruth/render.go:103-133 | after normalisation, a rendered document consists of the same segments, each block with the pieces of its text between CR and LF |
| RenderingProperties.IdempotentIff | internal/releasetruth/render.go:100-133 | rendering again changes nothing exactly when no text put into a block is read back with a marker line |
| RenderingProperties.NotAlwaysIdempotent | internal/releasetruth/blocks.go:63-79 | a wire schema version with an end marker on a line of its own makes the second rendering of a release-status block differ from the first, whatever else the manifest holds |
| RenderingProperties.CrComesFromTexts | internal/releasetruth/render.go:103-133 | a rendered document contains a CR exactly when some text put into it does |
| RenderingProperties.CrIsNeverClean | cmd/cap-release/render.go:80-96 | a text with a CR drifts again after every write |
| RenderingProperties.WriteThenCheck | cmd/cap-release/render.go:68-96 | after a write in the file's newline style the check passes exactly when there is a block and no text contains a CR or a marker line |
| RenderingProperties.WrittenIs | cmd/cap-release/render.go:85-95 | without drift the data itself is left; else the rendering is written, with a CR put before every LF exactly if the data contains a CR LF |
| RenderingProperties.WrittenStyle | cmd/cap-release/render.go:90-95 | in a file that drifted, with texts free of CR, each LF is preceded by a CR exactly when the data contains a CR LF, there is no other CR, and the file normalises to the rendering |
| RenderingProperties.NoBlocksNoDrift | cmd/cap-release/render.go:68-78 | a file without blocks fails the check although it has no drift, and is not rewritten |
| RenderingProperties.BlocksHoldTheirTexts | internal/releasetruth/render.go:103-133 | after a clean rendering the same blocks are found in the same order, each holding its rendered text |
| Snippets.OutsideFence | tools/onboarding/sync_snippets.py:137-145 | the scan from the top of the guide finds out whether a line is outside every fence |
| Snippets.RenderGuide | tools/onboarding/sync_snippets.py:200-213 | the cursor loop copies everything outside the regions and puts each block in place of its region's content |
| Snippets.BlockText | tools/onboarding/sync_snippets.py:182-197 | a block's lines make up the fence with the language, the source with LF for CR LF, and the closing fence, for every source |
| SnippetsProperties.LocateIff | tools/onboarding/sync_snippets.py:101-117 | a marker is located at a line exactly when it occurs once in the guide and that line is the marker |
| SnippetsProperties.MovedLines | tools/onboarding/sync_snippets.py:200-213 | where each region's markers stand after rendering, and what stands before and between them |
| SnippetsProperties.RevalidatesIff | tools/onboarding/sync_snippets.py:148-179 | the rendered guide validates exactly when no block contains a marker and every block leaves the fence scanner outside, and then with the same regions in the same order |
| SnippetsValidation.ValidateRegions | tools/onboarding/sync_snippets.py:158-179 | gathering, sorting and comparing regions gives the regions in snippet order, or every snippet's first marker fault in order, or the first name out of order, or the first overlap with both names |
| SnippetsValidation.NamesKeptIff | tools/onboarding/sync_snippets.py:168-173 | sorting by start keeps the names in place exactly when the starts were rising |
| SnippetsValidation.FaultsIff | tools/onboarding/sync_snippets.py:101-155 | no fault is reported exactly when every snippet has its region |
| Fences.ScannerIff | tools/onboarding/sync_snippets.py:120-145 | the scanner ends outside exactly when the lines are lines that open nothing and closed fences, and inside a fence exactly when after such lines one line opens it and no later line closes it |
| Fences.NeutralIff | tools/onboarding/sync_snippets.py:120-145 | a block leaves the scanner outside exactly when it closes every fence that it opens, reading a lone CR as a line end |
| Fences.LaxOpening | tools/onboarding/sync_snippets.py:120-134 | compared with section 4.5 of the CommonMark spec, the script opens too many fences exactly on backtick runs with a later backtick |
| Fences.LaxClosing | tools/onboarding/sync_snippets.py:120-134 | and closes too many exactly on runs followed by white space other than space and tab |
| SnippetsSync.ConvergesIff | tools/onboarding/sync_snippets.py:233-256 | after a rewrite the next pass finds one newline style, the same regions and no drift exactly when the blocks contain no marker, close the fences they open and, in an LF guide, end no line in CR |
| SnippetsSync.SecondPass | tools/onboarding/sync_snippets.py:233-256 | what a pass leaves behind is settled exactly when the guide was settled already or its blocks settle, and a settled guide is left alone |
| SnippetsSync.GoodBlockIsNeutral | tools/onboarding/sync_snippets.py:120-134 | the block of a newline-terminated source without CR and without a fence-closing line opens one fence and closes it |
| SnippetsSync.GoodSourcesConverge | tools/onboarding/sync_snippets.py:233-256 | such sources without markers settle every valid guide in one pass |
| SnippetsSync.OutsideUnchanged | tools/onboarding/sync_snippets.py:200-213 | rendering touches nothing outside the regions: any blocks put in afterwards give what they would have given before |
| SnippetsGuide.SynchronizeGuide | tools/onboarding/sync_snippets.py:233-256 | the pass over the guide's own six snippets: newline style, regions, blocks, drift, and a rewrite only where there is drift |
| SnippetsGuide.GuideConverges | tools/onboarding/sync_snippets.py:233-256 | a pass over that guide with newline-terminated sources without CR, fence-closing line and marker leaves it settled, and the next pass changes nothing |
| Codegen.Snapshot | tools/codegen/snapshot.go:21-77 | the walk and the sorting steps record exactly the rule-matched files in path order, the sorted globs, and each file under the first rule that matches it |
| Codegen.SortedElements | tools/codegen/snapshot.go:79-86 | the elements of a set in strict order |
| CodegenCheck.CheckOutputPaths | tools/codegen/check.go:26-47 | the loop yields the problems of absolute, dot-dot and repeated paths in order, and one for unsorted paths |
| CodegenCheck.CheckOutputsOnDisk | tools/codegen/check.go:62-84 | the loop yields one problem for each missing, empty or stale output, in order |
| CodegenCheck.CheckUnmanifested | tools/codegen/check.go:86-105 | the walk yields one problem for each undeclared file that a glob matches |
| CodegenCheck.CheckGenerators | tools/codegen/check.go:107-132 | the loops yield the problems of empty generators, unknown references and unclaimed outputs |
| CodegenCheck.Check | tools/codegen/check.go:14-24 | all problems in the order of the five sub-checks |
| CodegenFaults.ReportedIff | tools/codegen/check.go:14-132 | for any manifest and tree, a problem is reported exactly when the manifest and tree have the fault that its code, path and detail stand for |
| CodegenFaults.AcceptsIff | tools/codegen/check.go:14-132 | nothing is reported exactly for a manifest with safe, distinct, sorted paths, each claimed by a generator, whose generators refer to declared outputs only, and a tree with all sources, each readable output as pinned, and no undeclared generated file |
| CodegenFaults.AcceptedIsPinnedIff | tools/codegen/check.go:62-70 | in an accepted tree every declared output is there with its pinned content exactly when every declared path is one that can be opened |
| CodegenFaults.SkippedOutput | tools/codegen/check.go:65-67 | a manifest that declares a//b is accepted in every tree: the path is skipped on disk and not reported for its shape |
| CodegenFaults.FirstRule | tools/codegen/snapshot.go:47-56 | a name belongs to the first rule with a matching glob, and to none if there is no such rule |
| CodegenProperties.SnapshotRecords | tools/codegen/snapshot.go:21-77 | a snapshot declares exactly the files that a rule claims, sorted, without repeats, each with the hash of its content |
| CodegenProperties.SnapshotThenCheck | tools/codegen/check.go:14-132 | a snapshot's manifest accepts another tree exactly when that tree has all sources and the same claimed files, each non-empty and equal after one CR LF replacement, and no claimed name has a colon in second place |
| CodegenProperties.OwnSnapshot | tools/codegen/check.go:14-132 | a tree passes its own snapshot exactly when its sources exist and no claimed file is empty or has a colon in second place |
| CodegenProperties.DriveLikeNameFails | tools/codegen/check.go:140-145 | a generated file named a:b is recorded by a snapshot that then rejects it |
| AdapterProperties.StepKeeps | internal/tck/adapter.go:122-255 | every step of reader, caller and world keeps the invariant that ties answers to the messages taken |
| AdapterProperties.RunsAreSequential | internal/tck/adapter.go:122-255 | in every interleaving the answers are those of a sequential reading: each message is taken at most once, in order, by the next command that was sent, and after the last one taken all calls fail |
| AdapterProperties.AnsweredIff | internal/tck/adapter.go:122-140 | a command is answered exactly by the message as far down the stream as commands were sent before it, if that message is a well-formed answer to it |
| ConformanceExact.ReturnsIff | internal/tck/adapter.go:82-140 | in every interleaving a call returns a message exactly when its command fits a line, as many messages came before as commands were sent, and the message is a good answer: a handshake of version 1 and a known role, or a result with the command's ID and a known status |
| ConformanceExact.StartsIff | internal/tck/adapter.go:82-116 | Start accepts exactly a first message that is a handshake of protocol version 1 by a worker or control plane |
| AdapterProperties.FailuresAbsorb | internal/tck/adapter.go:210-255 | after a call that failed by timeout, cancellation, a gone reader or a gone input, every later call fails |
| AdapterProperties.DoomedRun | internal/tck/adapter.go:210-255 | once the reader has stopped or the input is gone between calls, no message is handed out any more |
| AdapterProperties.CloseReturnsSoon | internal/tck/adapter.go:144-169 | after the shutdown signal at most two reader steps come before Close returns, and it can never be stuck |
| Suite.Validate | internal/tck/scenario.go:46-67 | the error is the first offence in order; there is none exactly for a positive version and well-formed scenarios with distinct IDs |
| Suite.LoadSuite | internal/tck/scenario.go:31-43 | a valid suite is returned with the same scenarios in strict ID order |
| Suite.Select | internal/tck/scenario.go:70-78 | exactly the scenarios of the profile, still in strict ID order |
| Suite.RunSuite | internal/tck/runner.go:32-65 | one case a scenario in order: not applicable if the role differs, else from the result of its own call |
| ConformanceExact.SentExactly | internal/tck/runner.go:32-56 | after the handshake exactly the scenarios that the role owns are sent, in order, each with its ID and parameters |
| Report.NewReport | internal/tck/report.go:51-79 | cases in ID order, the count of each status, and the verdict that no applicable required case misses PASS |
| Report.RenderJUnit | internal/tck/report.go:94-134 | each case gets its one element, and the three counters count the elements |
| Report.CountsAddUp | internal/tck/report.go:66-79 | for cases with known statuses the five counts add up to the total |
| Report.ElementsAddUp | internal/tck/report.go:111-134 | failures, errors, skips and passes add up to the number of cases |
| Conformance.StatusIff | internal/tck/runner.go:44-65 | an owned scenario has a status other than ERROR exactly when the message at its own place carries its ID and that status |
| ConformanceExact.CaseIs | internal/tck/runner.go:44-65 | every case, field by field: not applicable and N/A for a scenario of another role; else status, detail and evidence of the message that answers it, or ERROR with the fault and no evidence |
| ConformanceExact.ElementIs | internal/tck/report.go:111-134 | each JUnit class by scenario and message: none for PASS; skipped for another role or an optional N/A; an error for ERROR or no answer; a failure for FAIL, UNSUPPORTED and a required N/A |
| ConformanceExact.ReportTells | internal/tck/report.go:51-134 | each of the five counts is the number of scenarios answered so, N/A with those of other roles and ERROR with those not answered; and the JUnit counters are the numbers of their elements |
| Conformance.VerdictIff | internal/tck/runner.go:32-65 | in every interleaving a run is conformant exactly when each required owned scenario has a PASS with its ID at its own place in the stream |
| Conformance.PassesAreOwn | internal/tck/runner.go:32-65 | two passing scenarios pass by two different messages, in scenario order |
| Conformance.ReportAccounts | internal/tck/report.go:51-79 | over a whole run the counts add up to the number of scenarios and the report's verdict is the one on the wire |
| Conformance.WholeReport | internal/tck/report.go:51-134 | from a selected suite to the rendered report, in every interleaving: cases in scenario order, status counts and JUnit elements that each add up to the number of scenarios, and one verdict in the summary, in the elements of the required owned scenarios and on the wire |
| Conformance.ReportIsCanonical | internal/tck/report.go:51-64 | with distinct case IDs the report does not depend on the order of the cases |
| Conformance.HonestAdapterConforms | internal/tck/runner.go:32-65 | an adapter that answers in turn with PASS is found conformant, in a run that can happen |
| Semver.PartIsNumeric | internal/releasetruth/release_state.go:65-72 | on canonical numerals, comparing by length and then by bytes is comparing the numbers |
| Semver.SemverIff | internal/releasetruth/validate.go:9 | the pattern accepts exactly three canonical numerals joined by dots |
| Semver.SemverGreater | internal/releasetruth/release_state.go:62-74 | the part-wise comparison of canonical versions is the order on triples of numbers |
| Semver.NewerIsTotalOrder | internal/releasetruth/release_state.go:62-74 | on canonical strings this is a strict total order |
| Semver.CheckFutureCoordinate | internal/releasetruth/release_state.go:46-60 | no problem exactly for a canonical version newer than a canonical published one, with its tag and the stable channel; each problem for its own reason |
| Roots.AggregateRoots | tools/proto_codegen.py:98-105 | the protos that none imports, in order, or an error when there are none |
| Roots.RootsCover | tools/proto_codegen.py:98-105 | a non-empty acyclic import graph has roots and every proto is reached from one |
| Roots.CoveredIff | tools/proto_codegen.py:98-105 | in any graph every proto is reached exactly when no non-empty set of protos without roots contains all its importers |
| Roots.CycleBesideRoot | tools/proto_codegen.py:103-105 | a cycle beside a root passes the check for roots and is not reached |
| Label.SanitizeAgentName | sdk/go/displayname.go:24-55 | the one-pass loop with its space flag yields the words of the name, without dropped runes, joined by single spaces, cut at 128 runes and trimmed |
| Label.LabelIsNeat | sdk/go/displayname.go:24-55 | a label has at most 128 runes, no space at its ends or doubled, no other whitespace and nothing that is dropped |
| Label.NeatIsLabel | sdk/go/displayname.go:24-55 | such a text is its own label |
| Label.LabelIsIdempotent | sdk/go/displayname.go:24-55 | labelling a label changes nothing |

## Left out

- Elliptic curves, SHA-256, random numbers and protobuf marshalling: parameters, constrained only where a lemma says so.
- Nil pointers and nil receivers, contexts other than those of the resource operations and the adapter, and panics inside backends.
- The mutex of the replay store: calls are taken in lock order, each with the clock reading it took before the lock.
- Error texts and error wrapping: errors are a small set of values, one for each outcome that callers can tell apart.
- Files, directories, atomic replacement, file modes and UTF-8 decoding of files: contents are strings, trees are maps, and errors of a tree walk do not occur.
- Byte offsets in the snippet guide: markers and regions are given by line numbers, which determine the offsets.
- SnippetsValidation.ValidateRegions: asks for distinct snippet names, which the script's constant catalogue has.
- Fences.ScannerIff: knows fences at the top level only, as the script does; lists, block quotes and HTML blocks of CommonMark are not considered.
- Codegen.Snapshot: glob matching is a parameter, and a pattern error counts as no match, as in the source.
- CodegenCheck.CheckOutputsOnDisk: folding of letter case is modelled for ASCII, which is what hex digests use.
- Conformance.StatusIff: leaves out ERROR, which a fault of the harness and an ERROR that the adapter reported share; ConformanceExact.CaseIs has both.
- Adapter processes: spawning, waiting for exit, stderr capture, signals and the JSON codec; a line is decoded into any message or fails, and a command may be too long for a line.
- Report headers (adapter name, SDK, transport, tool version), durations and the JSON and XML text of reports.
- Manifest parsing, schema checks and the other validations of the release manifest, and the text of rendered release blocks.
- The legacy JSON handshake, job and heartbeat validation, HTTP client, TLS settings, metrics and the NATS transport.
- The SDKs in the other languages, which restate the same rules over other libraries.
