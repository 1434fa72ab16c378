# FileBelt: models and proofs

A Dafny model of the parts of FileBelt in which state, bytes or protocols have to
agree over whole runs, and the properties proved of it.

- `PercentDecoding`: the nested decoding of percent-encoded ASCII octets in request
  paths (section 2.1 of RFC 3986), as the normal form of a rewriting system.
- `Protobuf`, `Wire`: the NFS adapter's protobuf writer and reader, with its sticky
  failure flag and its strict varints.
- `Readdir`: the ring that translates stateless READDIR cookies (section 18.23 of
  RFC 8881) into page cursors of the server.
- `ManifestEntry`, `ControlPlane`, `ControlRequest`: the control packets that install the export manifest.
- `CallbackContexts`, `CallbackEvents`, `CallbackPipeline`: the ONLYOFFICE callback
  pipeline, from the two extractions of an event and its fingerprint to the effects of
  interleaved attempts.
- `OdfContent`: the acceptor for the XML events of an ODF content part.
- `RequestReader`: the incremental HTTP request reader.
- `PassivePorts`: the passive-port allocator of the FTP gateway.
- `Utf8`, `MarkdownBytes`: byte and line-ending round trips of Markdown files.
- `SemVer`: two recognisers of semantic versions (items 2, 9 and 10 of Semantic
  Versioning 2.0.0), one scanning and one splitting.
- `AstComplexity`, `MdastBudget`: complexity limits of document trees.
- `CollaborationWire`, `Collaboration`: the collaboration client's frames and session.

Objects and loops of the source are classes and loops here.  Their contracts tie them
to functions on values, and the theorems about runs are about those functions.

Some properties that one would expect do not hold of the code.  The members named here
show it and state when the property does hold:

- A read loop that ends finished need not have read a canonical message
  (`Wire.TruncatedTailIsFinished`; exact: `Wire.FinishedExact`, `Wire.DeadTailExact`).
- A null string is refused without setting the failure flag
  (`Wire.NullStringIsSilent`; exact: `Wire.Buffer.Put`, `Wire.WriteAll`).
- A READDIR call may deliver nothing although entries remain
  (`Readdir.ThirdCallStalls`; exact for every ring, by the slot that is selected:
  `Readdir.PlainCall`; exact by position and count where no older translation of the
  cookie survives in the ring, as after any 63 entries: `Readdir.FullPageThenNothing`,
  `Readdir.StallsIff`, and how often: `Readdir.StallsExactly`; that this is needed:
  `Readdir.RereadDoesNotStall`; at most 64 times: `Readdir.RepeatUntilProgress`).
- A walk over a directory need not report its end: the list handler
  (source/apps/filebelt-vfs/src/nfs_dispatch.rs) flags no page as the last and sends no
  cursor with it, and the adapter answers that with a server fault
  (`Readdir.ReadListing`; exact: `Readdir.ExhaustedSucceedsIff`).
- Whether a request is read can depend on how it is split into chunks
  (`RequestReader.SurgeIsNotRead`; exact: `RequestReader.SegmentationIff`).
- Bytes behind a request need not get it rejected (`RequestReader.PipelinedEitherWay`;
  exact: `RequestReader.PipelinedBytes`).
- An absent and an empty URL share a fingerprint pre-image until validation separates
  them (`CallbackEvents.EmptyUrlIsNotSeparated`; exact: `CallbackEvents.PreimageIff`,
  `CallbackEvents.ValidatedPreimageIff`).
- A checkpoint that resolves at a later sequence than it was asked for saves an older
  text (`Collaboration.LaterCheckpointIsStale`; exact:
  `Collaboration.CheckpointCurrentIff`).
- A sync group of more than one chunk is never accepted
  (`Collaboration.SyncAcceptedIff`).
- The string limit of a document tree binds single nodes only
  (`AstComplexity.StringsAreNotAdded`; exact: `AstComplexity.IsOfficeAst`).
- A local build tag need not be a release tag (`SemVer.ZerosAreNoReleaseTag`; exact:
  `SemVer.BuildTagIff`).

## Model

| member | source | states |
|---|---|---|
| PercentDecoding.DecodeNestedAsciiPathOctets | ui/web/vite.config.ts:66-77 | the stack loop returns a text that the rewriting of one octet at a time reaches from the input and that no rewriting applies to |
| PercentDecoding.RewritingKeepsResult | ui/web/vite.config.ts:66-77 | decoding any one octet of a text, wherever it is, does not change what the loop returns |
| PercentDecoding.UniqueNormalForm | ui/web/vite.config.ts:66-77 | any two maximal sequences of single decodings of one input, in any order, end in the same text; with the loop's contract, in the loop's output |
| PercentDecoding.Confluent | ui/web/vite.config.ts:66-77 | any two partial decodings of a text can be decoded further to one common normal form |
| PercentDecoding.PartialDecodingIsAbsorbed | ui/web/vite.config.ts:66-77 | decoding a partly decoded text gives the decoding of the original; idempotence is the case of a decoded text |
| PercentDecoding.OctetIff | ui/web/vite.config.ts:66-77 | three code points are decoded to a code point iff they are a percent sign and its two digits, high first, in upper or lower case |
| PercentDecoding.OctetIsLocal | ui/web/vite.config.ts:66-77 | whether three code points are decoded and to what does not depend on the text around them |
| PercentDecoding.EncodedRewritesToText | ui/web/vite.config.ts:66-77 | every ASCII text is reached from its full encoding in either case, one octet at a time |
| PercentDecoding.EncodedTextDecodes | ui/web/vite.config.ts:66-77 | an ASCII text without encoded octets, with every code point encoded in either case, is decoded to itself |
| Wire.VarintReadIffWritten | adapters/nfs/ganesha-fsal-filebelt/filebelt_wire.c:118-140 | the varint reader accepts a byte string iff it begins with the shortest form of a 64-bit value, and returns that value and the rest |
| Wire.RoundTrip | adapters/nfs/ganesha-fsal-filebelt/filebelt_wire.c:75-173 | every field list with non-decreasing numbers in range is read back exactly and leaves nothing unread |
| Protobuf.VarintDenotes | adapters/nfs/ganesha-fsal-filebelt/filebelt_wire.c:36-48 | a varint denotes its value, seven bits a byte, with the high bit on all bytes but the last and no empty last byte |
| Protobuf.ShortField | adapters/nfs/ganesha-fsal-filebelt/filebelt_wire.c:52-105 | the bytes of every field with a small number and value |
| Wire.EncodingIsInjective | adapters/nfs/ganesha-fsal-filebelt/filebelt_wire.c:75-105 | two such field lists with the same bytes are equal |
| Wire.FinishedExact | adapters/nfs/ganesha-fsal-filebelt/filebelt_wire.c:118-173 | what a read loop followed by the finished test has really established: the fields read with their raw keys, followed by nothing or by one of the tails below |
| Wire.DeadTailExact | adapters/nfs/ganesha-fsal-filebelt/filebelt_wire.c:118-168 | exactly the tails that a failing read consumes to the last byte |
| Wire.DeadVarintExact | adapters/nfs/ganesha-fsal-filebelt/filebelt_wire.c:118-140 | exactly the varints that are refused with nothing left unread |
| Wire.TruncatedTailIsFinished | adapters/nfs/ganesha-fsal-filebelt/filebelt_wire.c:118-173 | a message followed by the byte 0x80 reads as that message and as finished, so finished does not mean canonical |
| Wire.SmallKeysAreCanonical | adapters/nfs/ganesha-fsal-filebelt/filebelt_wire.c:142-158 | where no key reaches 2^35, where the source narrows the field number, the bytes read are the encoding of the fields read |
| Wire.NullStringIsSilent | adapters/nfs/ganesha-fsal-filebelt/filebelt_wire.c:100-105 | after the write of a null string the failure flag and the contents are as before |
| Wire.VarintBytes | adapters/nfs/ganesha-fsal-filebelt/filebelt_wire.c:36-48 | the encoding loop gives the shortest form |
| Wire.Cursor.constructor | adapters/nfs/ganesha-fsal-filebelt/filebelt_wire.c:107-116 | a fresh cursor has the whole input unread and accepts any field number |
| Wire.Cursor.ReadVarint | adapters/nfs/ganesha-fsal-filebelt/filebelt_wire.c:118-140 | the loop over the cursor takes what the specification takes, also when it refuses |
| Wire.Cursor.Next | adapters/nfs/ganesha-fsal-filebelt/filebelt_wire.c:142-168 | reads the next field or refuses, moves the cursor past exactly what was consumed, and remembers the field number |
| Wire.Cursor.Finished | adapters/nfs/ganesha-fsal-filebelt/filebelt_wire.c:170-173 | true iff nothing is unread |
| Wire.Buffer.constructor | adapters/nfs/ganesha-fsal-filebelt/filebelt_wire.c:64-73 | an empty buffer that has not failed |
| Wire.Buffer.Append | adapters/nfs/ganesha-fsal-filebelt/filebelt_wire.c:22-34 | appends all bytes or none, and a refusal sets the failure flag for good |
| Wire.Buffer.PutVarint | adapters/nfs/ganesha-fsal-filebelt/filebelt_wire.c:36-50 | appends the shortest form or fails |
| Wire.Buffer.PutKey | adapters/nfs/ganesha-fsal-filebelt/filebelt_wire.c:52-62 | appends the key of a field whose number is in range, or fails |
| Wire.Buffer.PutInteger | adapters/nfs/ganesha-fsal-filebelt/filebelt_wire.c:75-86 | appends a whole varint field or fails |
| Wire.Buffer.PutSlice | adapters/nfs/ganesha-fsal-filebelt/filebelt_wire.c:88-98 | appends a whole length-delimited field or fails |
| Wire.Buffer.Put | adapters/nfs/ganesha-fsal-filebelt/filebelt_wire.c:75-105 | success, failure and silent refusal of each kind of write, with the bytes each leaves |
| Wire.WriteAll | adapters/nfs/ganesha-fsal-filebelt/filebelt_wire.c:22-105 | over any script of writes whose results nobody looks at, the flag stays clear iff all fields are encodable and fit together, and then the buffer holds exactly their encoding |
| Readdir.Directory.constructor | adapters/nfs/ganesha-fsal-filebelt/filebelt_internal.h:81-83 | a ring without translations |
| Readdir.Directory.Remember | adapters/nfs/ganesha-fsal-filebelt/filebelt_handle.c:609-624 | overwrites the oldest slot; the ring holds the last 64 translations |
| Readdir.Directory.Resume | adapters/nfs/ganesha-fsal-filebelt/filebelt_handle.c:626-638 | finds a cookie iff it is among the last 64 remembered, and then the first slot in array order |
| Readdir.FindIffRecent | adapters/nfs/ganesha-fsal-filebelt/filebelt_handle.c:626-638 | the scan of the ring succeeds iff the cookie is recent |
| Readdir.Directory.DeliverPage | adapters/nfs/ganesha-fsal-filebelt/filebelt_handle.c:686-732 | which entries one page delivers, with which cookies, how the loop ends (stopped, undecodable entry, no memory, end, next page, unusable next cursor) and what it remembers |
| Readdir.AnswersObey | adapters/nfs/ganesha-fsal-filebelt/filebelt_handle.c:686-732 | the loop ends with a success and no end flag when the caller stops it, with the fault of the entry that cannot be decoded or stored, and otherwise at the end of the page as that page is flagged |
| Readdir.PageKeepsSound | adapters/nfs/ganesha-fsal-filebelt/filebelt_handle.c:686-732 | every translation remembered while a page is delivered is exact: page start plus skip is the position its cookie names |
| Readdir.Directory.SelectedIsExact | adapters/nfs/ganesha-fsal-filebelt/filebelt_handle.c:626-638 | the translation that a call starts from is exact |
| Readdir.Directory.Readdir | adapters/nfs/ganesha-fsal-filebelt/filebelt_handle.c:640-737 | a call is refused iff its cookie was evicted or never delivered, and changes nothing then; otherwise it delivers exactly the entries after the position its cookie names, never more than the caller asked for and none at or behind a faulty entry; it stops for one of these reasons or at the end of the page, with the status, end flag and number of remembered translations of that reason, and all translations stay exact, whatever cursors the server sends |
| Readdir.FollowClient | adapters/nfs/ganesha-fsal-filebelt/filebelt_handle.c:640-737 | over any interleaving of calls by one client with calls of others, the client sees a prefix of the listing without gap or repeat until it is refused, and without others it never is |
| Readdir.PlainCall | adapters/nfs/ganesha-fsal-filebelt/filebelt_handle.c:626-737 | for every ring: a call that nothing stops stalls iff the first slot with its cookie points behind the last entry of a page that is not flagged as the last and has a usable cursor |
| Readdir.FullPageThenNothing | adapters/nfs/ganesha-fsal-filebelt/filebelt_handle.c:626-737 | after a call that delivered a page to its end, and if no older translation of its last cookie survives in the ring, the next call stalls (delivers nothing without an error or the end) iff the ring position and the number delivered do not add up to a multiple of 64 |
| Readdir.StallsIff | adapters/nfs/ganesha-fsal-filebelt/filebelt_handle.c:626-737 | the same over the ring alone and after any number of stalls: such a call stalls until a translation to the next page lies in the first slot |
| Readdir.NextPageIsSelectedIff | adapters/nfs/ganesha-fsal-filebelt/filebelt_handle.c:609-638 | of the translations of the last cookie, if no older one survives, one to the next page is selected iff one was written to the first slot |
| Readdir.ThirdCallStalls | adapters/nfs/ganesha-fsal-filebelt/filebelt_handle.c:640-737 | with pages of 256 entries, as the list handler sends them, the walk from a new handle gets nothing from 63 calls in a row after its second page |
| Readdir.StallsExactly | adapters/nfs/ganesha-fsal-filebelt/filebelt_handle.c:640-737 | under the same condition a client alone stalls exactly as often as slots are left up to the end of the ring |
| Readdir.RereadDoesNotStall | adapters/nfs/ganesha-fsal-filebelt/filebelt_handle.c:640-737 | the condition is needed: after a reread of the last ten entries of the first page an older translation survives, the position is no multiple of 64, and the next call does not stall |
| Readdir.LongPageOverwrites | adapters/nfs/ganesha-fsal-filebelt/filebelt_handle.c:609-624 | a page with 63 or more entries left meets the condition |
| Readdir.ExhaustedSucceedsIff | adapters/nfs/ganesha-fsal-filebelt/filebelt_handle.c:725-732 | a call that nothing stops succeeds iff its page is flagged as the last or carries a usable cursor; otherwise it is a server fault behind the delivered entries |
| Readdir.EmptyCallFreshens | adapters/nfs/ganesha-fsal-filebelt/filebelt_handle.c:640-737 | a stalled call remembers the start of the next page once more |
| Readdir.FreshTranslationWins | adapters/nfs/ganesha-fsal-filebelt/filebelt_handle.c:626-638 | once the ring holds nothing but such translations one of them is selected |
| Readdir.RepeatUntilProgress | adapters/nfs/ganesha-fsal-filebelt/filebelt_handle.c:640-737 | repeating a stalled call ends after at most 64 stalls with entries, with the end, or with a server fault behind a page that cannot be followed |
| Readdir.ReadListing | adapters/nfs/ganesha-fsal-filebelt/filebelt_handle.c:640-737 | a client alone sees the listing up to its end or to the first page that cannot be followed, so all of it if the cursors inside are usable; with pages as the list handler sends them the end is never reported and the last call is a server fault |
| ManifestEntry.ParseExportLoop | adapters/nfs/ganesha-fsal-filebelt/filebelt_control.c:60-125 | the loop over the fields computes the specified result |
| ManifestEntry.ReadAllIsOrdered | adapters/nfs/ganesha-fsal-filebelt/filebelt_wire.c:142-168 | field numbers read from any bytes never decrease |
| ManifestEntry.ParseExportIff | adapters/nfs/ganesha-fsal-filebelt/filebelt_control.c:60-125 | bytes parse to an entry iff they are read as its five fields in order, and a sixth iff it is read-only, and the identifiers, the path of its drive and the length of its root handle are valid |
| ManifestEntry.CanonicalUuidIff | adapters/nfs/ganesha-fsal-filebelt/filebelt_control.c:47-58 | a drive is named by 36 characters, lower-case hexadecimal digits and four dashes |
| ControlPlane.ParseRequestLoop | adapters/nfs/ganesha-fsal-filebelt/filebelt_control.c:145-238 | the loop over the fields computes the specified result |
| ControlPlane.ParsedIsValid | adapters/nfs/ganesha-fsal-filebelt/filebelt_control.c:127-238 | every request that parses is valid: ascending entries, at most 1000, generations within the export's, both UUIDs canonical, drain without entries |
| ControlPlane.RequestRoundTrip | adapters/nfs/ganesha-fsal-filebelt/filebelt_control.c:145-238 | every valid request is read back from its encoding |
| ControlRequest.ParseRequestIff | adapters/nfs/ganesha-fsal-filebelt/filebelt_control.c:145-238 | a message parses to a request iff nothing is left unread, the request is valid and the fields read are its own: header, settings and one parsing export for each entry, or header, at most zero generations and the drain mark |
| ControlPlane.ResponseFits | adapters/nfs/ganesha-fsal-filebelt/filebelt_control.c:240-268 | the readback of a valid request is within its buffer |
| ControlPlane.EncodeEntry | adapters/nfs/ganesha-fsal-filebelt/filebelt_control.c:250-262 | the readback of one entry always fits its storage |
| ControlPlane.EncodeResponse | adapters/nfs/ganesha-fsal-filebelt/filebelt_control.c:240-268 | the readback of a valid request is always written, exactly |
| ControlPlane.ReadbackIsExact | adapters/nfs/ganesha-fsal-filebelt/filebelt_control.c:240-268 | reading the readback gives version, request and status, and then for each entry in order exactly its identifier, generation and root handle |
| ControlPlane.AfterIsSound | adapters/nfs/ganesha-fsal-filebelt/filebelt_control.c:270-304 | one packet keeps the manifest ascending, bounded and within the export generation |
| ControlPlane.EveryRunIsSound | adapters/nfs/ganesha-fsal-filebelt/filebelt_control.c:270-304 | so does any sequence of packets |
| ControlPlane.InstallThenDrain | adapters/nfs/ganesha-fsal-filebelt/filebelt_control.c:270-304 | installing and then draining with the same boot identifier ends with an empty manifest and generation zero |
| ControlPlane.OtherBootCannotDrain | adapters/nfs/ganesha-fsal-filebelt/filebelt_control.c:270-304 | a drain with another boot identifier, or without an installation, changes nothing |
| ControlPlane.Export.Install | adapters/nfs/ganesha-fsal-filebelt/filebelt_control.c:270-304 | a drain is accepted iff it names the boot that installed, an installation iff its entries fit in memory; an accepted one leaves exactly its own state and a refused one the old |
| ControlPlane.Export.ServePacket | adapters/nfs/ganesha-fsal-filebelt/filebelt_control.c:322-364 | an unanswered packet changes nothing; an answered one installed its request and is answered with its readback; with memory, a well-framed packet is answered iff its request is acceptable |
| ControlPlane.Export.ByExportId | adapters/nfs/ganesha-fsal-filebelt/filebelt_control.c:481-497 | the entry with that export identifier, of which there is at most one |
| ControlPlane.Export.ByName | adapters/nfs/ganesha-fsal-filebelt/filebelt_control.c:463-479 | the entry of that drive with the least export identifier |
| ControlPlane.FramePrefix | adapters/nfs/ganesha-fsal-filebelt/filebelt_control.c:322-364 | the length prefix is four bytes and reads back as the length |
| CallbackContexts.Contexts.Remember | adapters/onlyoffice/src/runtime.rs:157-171 | map and queue hold exactly the recency list in which the key is moved to the back and the front is dropped above 1024 |
| CallbackContexts.Contexts.Evict | adapters/onlyoffice/src/runtime.rs:164-169 | drops the oldest binding iff there are more than 1024 |
| CallbackContexts.Contexts.Remove | adapters/onlyoffice/src/runtime.rs:172-176 | the recency list without that key |
| CallbackContexts.Contexts.Get | adapters/onlyoffice/src/runtime.rs:456-463 | what the recency list binds the key to |
| CallbackContexts.InsertedIsMoved | adapters/onlyoffice/src/runtime.rs:157-171 | inserting into the map and requeueing the key is moving it to the back of the list |
| CallbackContexts.LookupIff | adapters/onlyoffice/src/runtime.rs:150-177 | a lookup finds a binding iff the list holds it |
| CallbackContexts.RememberedSurvivesIff | adapters/onlyoffice/src/runtime.rs:157-176 | a remembered binding is still there after any remembering and removing of other keys iff, of the keys remembered since and not removed again, there were never 1024 |
| CallbackEvents.ExtractionsAgree | adapters/onlyoffice/src/routes.rs:464-505 | a signed payload matches an event iff extracting the event from the payload gives exactly that event |
| CallbackEvents.SignedBodyIsTheSignedEvent | adapters/onlyoffice/src/main.rs:512-571 | a body whose event matches the signed payload yields the same event as the payload |
| CallbackEvents.NormalizedIff | adapters/onlyoffice/src/routes.rs:409-427 | exactly the numbers and digit strings that have a normal form, and that it is the decimal of their value |
| CallbackEvents.EventIsRead | adapters/onlyoffice/src/main.rs:512-571 | which keys and codes of a body are behind the status, save type, URL, file type and document of its event |
| CallbackEvents.IdentifiersAreRead | adapters/onlyoffice/src/main.rs:512-571 | where the revision and the event identifier come from, and what they fall back to |
| CallbackEvents.ActivityIff | adapters/onlyoffice/src/routes.rs:432-459 | an editing callback has an activity iff it reports exactly one connection or disconnection, of the route's own participant |
| CallbackEvents.UnwrappedIff | adapters/onlyoffice/src/routes.rs:464-468 | a signed payload is read from its payload member iff that is an object |
| CallbackEvents.ValidateIff | adapters/onlyoffice/src/routes.rs:353-407 | exactly the events that are accepted, status by status |
| CallbackEvents.ValidateErrors | adapters/onlyoffice/src/routes.rs:353-407 | what each error says of the event |
| CallbackEvents.NormalFormIsStable | adapters/onlyoffice/src/routes.rs:414-427 | a normalised server version is a plain decimal that normalises to itself |
| CallbackEvents.NormalFormsAreFaithful | adapters/onlyoffice/src/routes.rs:414-427 | different version numbers have different normal forms |
| CallbackEvents.DelimitedSplits | adapters/onlyoffice/src/runtime.rs:883-886 | length-delimited fields can be separated again |
| CallbackEvents.PreimageIsReadBack | adapters/onlyoffice/src/runtime.rs:117-135 | the bytes that are hashed: domain, document, the three codes, and the four texts behind their lengths, in this order |
| CallbackEvents.PreimageIff | adapters/onlyoffice/src/runtime.rs:117-135 | two events have the same fingerprint pre-image iff they agree on the covered fields, an absent URL counting as an empty one |
| CallbackEvents.ValidatedPreimageIff | adapters/onlyoffice/src/routes.rs:353-407 | on events that pass validation the pre-images are equal iff all covered fields are, the URL included |
| CallbackEvents.EmptyUrlIsNotSeparated | adapters/onlyoffice/src/runtime.rs:117-135 | without validation an absent and an empty URL give one pre-image |
| CallbackPipeline.NextKeepsGood | adapters/onlyoffice/src/routes.rs:645-697 | every step of any attempt, and every cache change, keeps cache and traces right |
| CallbackPipeline.EveryRunIsGood | adapters/onlyoffice/src/runtime.rs:407-552 | in every run of interleaved attempts, failures and evictions, each effect names the revision that Core keeps for the event's fingerprint, in the order record, fetch, begin, write, finalise, commit |
| CallbackPipeline.CommitFollowsItsOwnWrite | adapters/onlyoffice/src/runtime.rs:450-552 | a commit is the sixth effect of its attempt, after its own successful write and finalise of that revision, and the event is no timer save |
| CallbackPipeline.TimerIsNeverCommitted | adapters/onlyoffice/src/runtime.rs:800-819 | in every run with honest answers a force save of type timer is never committed |
| CallbackPipeline.OnlyOutputIsFetched | adapters/onlyoffice/src/runtime.rs:407-552 | and nothing is fetched, begun or written for a callback other than a save |
| CallbackPipeline.TerminalReceiptEndsAttempt | adapters/onlyoffice/src/runtime.rs:846-881 | a terminal, rejected or failed receipt ends the attempt: over every continuation nothing is fetched or written by it |
| CallbackPipeline.DoneStays | adapters/onlyoffice/src/routes.rs:645-697 | an attempt that is done never changes again, whatever the others do |
| CallbackPipeline.OnlyValidIsAttempted | adapters/onlyoffice/src/routes.rs:645-697 | in every run only callbacks that arrived and passed validation are attempted, under the digest of their own pre-image |
| CallbackPipeline.CheckpointRevisionIsNeverCommitted | adapters/onlyoffice/src/runtime.rs:800-819 | the revision of a timer save is never committed by any attempt, if digests do not collide |
| CallbackPipeline.UndisturbedAttemptCommits | adapters/onlyoffice/src/routes.rs:645-697 | from every state there is a run with honest answers in which a new attempt, other than a timer save, commits under Core's revision |
| CallbackPipeline.JustRemembered | adapters/onlyoffice/src/runtime.rs:157-171 | a context just remembered is found |
| CallbackPipeline.FetchOutcomes | adapters/onlyoffice/src/runtime.rs:407-450 | a refused record, a failed fetch and a context that is gone end the attempt with their own error; a context that is there is the one begun |
| CallbackPipeline.ReceiptOutcome | adapters/onlyoffice/src/runtime.rs:846-881 | which receipts resume a callback, which are duplicates and which errors; a receipt without an event, or without a revision where one is needed, is invalid |
| CallbackPipeline.WriteOutcomes | adapters/onlyoffice/src/runtime.rs:450-552 | what each admission and each answer to write and finalise leads to; a timer save ends after finalising |
| CallbackPipeline.CommitOutcome | adapters/onlyoffice/src/runtime.rs:450-552 | a committed or empty commit is new, a conflict a duplicate, and both leave the cache; all else is an error that keeps the context |
| OdfContent.ValidateOdfContent | adapters/onlyoffice/src/routes.rs:819-925 | the event loop accepts iff the events tokenise, stay within the size bound and form a document of the grammar |
| OdfContent.AcceptsIffDocument | adapters/onlyoffice/src/routes.rs:819-925 | the automaton over flags and depth accepts an event sequence iff it is a prolog, one element tree of nesting at most 256 and an epilog |
| OdfContent.PrologFromIff | adapters/onlyoffice/src/routes.rs:819-925 | a declaration may only come before any other non-empty event, and only once |
| OdfContent.Outline | adapters/onlyoffice/src/routes.rs:819-925 | an accepted sequence splits into prolog, root and epilog |
| OdfContent.Content | adapters/onlyoffice/src/routes.rs:819-925 | inside an element an accepted sequence starts with whole child trees and the end tag |
| OdfContent.AllowedReferenceIff | adapters/onlyoffice/src/routes.rs:996-1005 | a reference is allowed iff it is one of the five predefined entities or a decimal or hexadecimal character reference |
| OdfContent.BlankIff | adapters/onlyoffice/src/routes.rs:895-900 | text outside the root consists of ASCII white space |
| RequestReader.ReadRequest | adapters/onlyoffice/src/main.rs:181-222 | a request is returned iff the chunks, in the sizes in which they arrive, read as it |
| RequestReader.ReadIsBounded | adapters/onlyoffice/src/main.rs:181-222 | a request that is read is the front of what arrived: a head of at most 16 KiB up to the first blank line, that line, and as many bytes of body as the head says, at most 32 KiB |
| RequestReader.SegmentationIff | adapters/onlyoffice/src/main.rs:181-222 | one whole request is read under every split iff the first chunk border behind its head cannot pass 16384 bytes, and under none iff its head alone does |
| RequestReader.ShortHeadIsAlwaysRead | adapters/onlyoffice/src/main.rs:181-222 | in particular under every split if the head ends at or before byte 15357 |
| RequestReader.EarlyHeadIsRead | adapters/onlyoffice/src/main.rs:181-222 | the sufficient half, for each split |
| RequestReader.LateHeadIsNotRead | adapters/onlyoffice/src/main.rs:181-222 | a head beyond 16384 bytes is read under no split |
| RequestReader.SurgeIsNotRead | adapters/onlyoffice/src/main.rs:181-222 | a split that is refused, for every request in between |
| RequestReader.PipelinedBytes | adapters/onlyoffice/src/main.rs:169-222 | bytes behind a request leave it readable iff a read ends exactly where the request ends, with the head complete in time; no other request is ever read |
| RequestReader.PipelinedEitherWay | adapters/onlyoffice/src/main.rs:169-222 | every short request with bytes behind it is read under one split and rejected under another |
| PassivePorts.NewAllocator | adapters/ftp-ftps/src/lib.rs:314-324 | a range is accepted iff it is not empty and does not contain port zero |
| PassivePorts.Allocator.Reap | adapters/ftp-ftps/src/lib.rs:383-385 | removes exactly the bindings whose expiry is not in the future |
| PassivePorts.Allocator.Scan | adapters/ftp-ftps/src/lib.rs:334-344 | the first free port in cyclic order, or none free |
| PassivePorts.Allocator.Allocate | adapters/ftp-ftps/src/lib.rs:326-359 | exhaustion is reported iff every port has an unexpired binding; otherwise the first free port from the cursor is bound, or the expiry overflows |
| PassivePorts.Allocator.Claim | adapters/ftp-ftps/src/lib.rs:361-381 | succeeds iff the binding is there, unexpired and the caller's own; the port is freed either way |
| PassivePorts.CyclicIsOnto | adapters/ftp-ftps/src/lib.rs:334-344 | the cyclic order visits every port of the range |
| PassivePorts.BindKeepsBooks | adapters/ftp-ftps/src/lib.rs:345-357 | live bindings are on distinct ports and unclaimed, also after a new one |
| PassivePorts.ReleaseKeepsBooks | adapters/ftp-ftps/src/lib.rs:361-381 | and after one is freed or claimed |
| PassivePorts.Serve | adapters/ftp-ftps/src/lib.rs:313-385 | over any run each issued binding is granted at most once |
| Utf8.DecodeIff | ui/markdown/source/bytes.ts:16-43 | bytes decode to a text iff the text is well formed and the bytes are its encoding |
| MarkdownBytes.DetectIff | ui/markdown/source/bytes.ts:68-75 | CRLF iff there is a CR LF, every CR is followed by LF and every LF preceded by CR; LF and none iff there is no CR |
| MarkdownBytes.DecodeOfText | ui/markdown/source/bytes.ts:16-43 | what becomes of the encoding of every text: refused for its size, a zero or its line endings, in this order, and otherwise decoded to its text without mark and with line feeds |
| MarkdownBytes.Utf8ErrorIff | ui/markdown/source/bytes.ts:16-43 | exactly the bytes that encode no text are refused as UTF-8 |
| MarkdownBytes.WithoutCrlf | ui/markdown/source/bytes.ts:68-75 | after deleting the pairs, a CR or LF is left iff there was a lone one |
| MarkdownBytes.CollapseExpands | ui/markdown/source/bytes.ts:25-43 | expanding the line feeds of a collapsed CRLF text gives the text back |
| MarkdownBytes.ExpandCollapses | ui/markdown/source/bytes.ts:25-43 | and collapsing an expanded text too |
| MarkdownBytes.DecodedIsReproduced | ui/markdown/source/bytes.ts:16-43 | every byte string that is accepted is reproduced exactly under the same limit |
| MarkdownBytes.EncodedIsReadBackIff | ui/markdown/source/bytes.ts:16-43 | an encoded source is read back iff its line ending and byte order mark are what its text says |
| SemVer.IsReleaseTag | devops/source/image-plan.ts:496-529 | the index scanner accepts iff the splitting validator does and there is no plus sign |
| SemVer.IsDigitIff | devops/source/image-plan.ts:540-542 | the digits are the ten ASCII digits |
| SemVer.IsLetterIff | devops/source/image-plan.ts:544-546 | the letters are the ASCII letters |
| SemVer.ScanIffSplit | adapters/onlyoffice/src/release_metadata_validation.rs:112-146 | scanner and splitter recognise the same language without build metadata |
| SemVer.NumbersIff | devops/source/image-plan.ts:496-504 | scanning three numbers stops where splitting at the dots says |
| SemVer.PrereleaseIff | devops/source/image-plan.ts:506-528 | scanning identifiers accepts iff all split identifiers are valid |
| SemVer.ConsumeNumericIdentifier | devops/source/image-plan.ts:531-538 | consumes the longest number without a leading zero, or refuses |
| SemVer.ScanPrerelease | devops/source/image-plan.ts:506-528 | the scanning loop over a prerelease computes the specified result |
| SemVer.ScanIdentifier | devops/source/image-plan.ts:508-519 | consumes the longest run of identifier characters and says whether it is numeric |
| SemVer.BuildTagIff | devops/source/image-plan.ts:548-552 | a local build tag is itself a release tag iff the 12 characters of its revision are not all digits with a leading zero |
| SemVer.ZerosAreNoReleaseTag | devops/source/image-plan.ts:548-552 | release 1.0.0 built from a revision of forty zeros gives a tag that is no release tag |
| AstComplexity.Budget.Enter | ui/markdown/source/ast-validation.ts:210-218 | refuses at the depth or node limit and counts the node otherwise |
| AstComplexity.Budget.Leave | ui/markdown/source/ast-validation.ts:220-227 | overwrites node and string counts with those of the copy |
| AstComplexity.Budget.TakeString | ui/markdown/source/ast-validation.ts:229-238 | checks length, zeros and the running total |
| AstComplexity.CheckBlock | ui/markdown/source/ast-validation.ts:36-101 | the checks on a block itself |
| AstComplexity.CheckAlignments | ui/markdown/source/ast-validation.ts:36-101 | at most 1024 alignments, each null or one of three words |
| AstComplexity.CheckInline | ui/markdown/source/ast-validation.ts:114-143 | the checks on an inline node itself |
| AstComplexity.Check | ui/markdown/source/ast-validation.ts:28-183 | a node is accepted iff its tree is well shaped, its levels fit below the current depth and its nodes fit behind those counted; the merged count is then exact |
| AstComplexity.Every | ui/markdown/source/ast-validation.ts:240-242 | the same for a list of children sharing one budget |
| AstComplexity.EveryCell | ui/markdown/source/ast-validation.ts:166-183 | the same for the cells of a table row |
| AstComplexity.IsOfficeAst | ui/markdown/source/ast-validation.ts:15-26 | a document is accepted iff it is well shaped with at most 64 levels and 100,000 nodes in total |
| AstComplexity.AcceptedIff | ui/markdown/source/ast-validation.ts:15-26 | said of all nodes that can be reached through the children, items, rows and cells of any record, whatever its kind: a well-shaped document is accepted iff they are at most 100,000 with the root, none below level 64; each of them passed the checks of some role |
| AstComplexity.BlockIsShapedIff | ui/markdown/source/ast-validation.ts:36-101 | what is checked below a block of each kind: text in headings and paragraphs, items in a list, rows in a table, blocks elsewhere |
| AstComplexity.OtherIsShapedIff | ui/markdown/source/ast-validation.ts:114-183 | text in marked text and in the cells of a row, blocks in an item |
| AstComplexity.KeysOfBlockKind | ui/markdown/source/ast-validation.ts:36-101 | the exact keys of a block of each kind, and no other kind |
| AstComplexity.KeysOfInlineKind | ui/markdown/source/ast-validation.ts:114-143 | the same for inline nodes |
| AstComplexity.StringsAreNotAdded | ui/markdown/source/ast-validation.ts:220-227 | a document of texts is accepted iff each text is within the string limit by itself, whatever their sum |
| MdastBudget.MdastWithinBudget | ui/markdown/source/parser.ts:90-102 | the walk with an explicit stack accepts iff every depth is at most 64 and there are at most 100,000 nodes |
| MdastBudget.PushAll | ui/markdown/source/parser.ts:98-99 | pushing children adds their sizes and their depth conditions |
| CollaborationWire.WriteVarint | ui/markdown/source/collaboration.ts:562-572 | the shortest form of a safe non-negative integer, an error otherwise |
| CollaborationWire.Concatenate | ui/markdown/source/collaboration.ts:644-653 | one buffer with all parts in order |
| CollaborationWire.PartsOfField | ui/markdown/source/collaboration.ts:553-560 | the parts written for a field are the field's encoding |
| CollaborationWire.ReadVarint | ui/markdown/source/collaboration.ts:603-617 | the value of up to ten bytes if it is a safe integer, an error otherwise |
| CollaborationWire.NextField | ui/markdown/source/collaboration.ts:579-597 | one field or an error |
| CollaborationWire.Fields | ui/markdown/source/collaboration.ts:575-600 | all fields, or an error |
| CollaborationWire.FieldsRoundTrip | ui/markdown/source/collaboration.ts:553-617 | every field list that can be written is read back |
| CollaborationWire.SplitUpdate | ui/markdown/source/collaboration.ts:288-297 | the slices of 256 KiB are the specified chunks |
| CollaborationWire.UpdateFrameFits | ui/markdown/source/collaboration.ts:281-309 | the frame of every update of 1 byte to 2 MiB is within the frame limit |
| CollaborationWire.UpdateFrameIsReadBack | ui/markdown/source/collaboration.ts:288-308 | reading an update frame gives its identifier and sequence, and its chunks in order are the update |
| CollaborationWire.UpdateFieldAt | ui/markdown/source/collaboration.ts:288-308 | field by field: the identifier, the sequence and then, as field 3 each, the chunks with their index and the 262,144 bytes at that index |
| CollaborationWire.CheckpointRequestIsReadBack | ui/markdown/source/collaboration.ts:143-159 | reading a checkpoint request gives its identifier and the acknowledged sequence |
| CollaborationWire.SequencesAreSafe | ui/markdown/source/collaboration.ts:312-347 | no received sequence number exceeds the safe integers |
| CollaborationWire.AcknowledgementIsReadBack | ui/markdown/source/collaboration.ts:389-402 | a frame with field 5 is received as the acknowledgement of its fields 1 and 2, with a zero sequence written or left out |
| CollaborationWire.SyncIsReadBack | ui/markdown/source/collaboration.ts:350-356 | a frame with field 3 is received as the sync of its fields 1 to 5: sequence, chunk index, chunk count, update and snapshot flag, with zero fields written or left out |
| CollaborationWire.CheckpointIsReadBack | ui/markdown/source/collaboration.ts:404-420 | a frame with field 7 is received as the checkpoint of its fields 1 to 3: request, sequence and state |
| CollaborationWire.OtherFramesAreRead | ui/markdown/source/collaboration.ts:312-347 | a frame with field 8 or 9 is a refusal and one with field 10 a heartbeat, whatever they hold |
| Collaboration.NextKeepsGood | ui/markdown/source/collaboration.ts:143-420 | every frame, edit, request, disconnection and destruction keeps the invariants below |
| Collaboration.EveryRunIsGood | ui/markdown/source/collaboration.ts:143-509 | in every reachable state accepted updates are the acknowledged, the one in flight and the waiting ones in order; the queue is not idle while open; a pending request is faithful |
| Collaboration.SentOnceInOrder | ui/markdown/source/collaboration.ts:255-309 | over any run each accepted update is sent once, in order, in a frame that fits, and at most one is unacknowledged |
| Collaboration.FramesAreStamped | ui/markdown/source/collaboration.ts:281-309 | a step sends at most one frame, which carries the acknowledged sequence of that moment, and an update frame is the update then in flight |
| Collaboration.AcknowledgesLastSent | ui/markdown/source/collaboration.ts:389-402 | an accepted acknowledgement names the last update sent, and that update becomes acknowledged |
| Collaboration.SequenceStep | ui/markdown/source/collaboration.ts:374-402 | the acknowledged sequence never decreases, and after the snapshot only a frame raises it, by at most one |
| Collaboration.SequenceOverRun | ui/markdown/source/collaboration.ts:374-402 | so over a run it grows by at most the number of frames |
| Collaboration.SnapshotStarts | ui/markdown/source/collaboration.ts:350-387 | the bytes of a whole snapshot, as the server writes them, make a new session ready at that sequence with that content |
| Collaboration.NextGroupIsApplied | ui/markdown/source/collaboration.ts:350-387 | the bytes of the next whole group append it to the document of a ready session and raise the sequence by one |
| Collaboration.OtherFrames | ui/markdown/source/collaboration.ts:326-342 | frames 8 and 9 end an open session and drop its pending request, and frame 10 changes nothing |
| Collaboration.CheckpointIsCurrent | ui/markdown/source/collaboration.ts:404-420 | a checkpoint that resolves at the sequence it was asked for saves a text whose local updates are all acknowledged and that has every remote group applied |
| Collaboration.CheckpointCurrentIff | ui/markdown/source/collaboration.ts:404-420 | a checkpoint resolved after any run since its request has all remote groups iff no frame of that run carried a whole next group |
| Collaboration.LaterCheckpointIsStale | ui/markdown/source/collaboration.ts:374-420 | one that resolves after a further group was applied saves the text without that group |
| Collaboration.SyncAcceptedIff | ui/markdown/source/collaboration.ts:350-387 | exactly the sync frames that an open session accepts; a group of several chunks never is, because the completeness test skips holes |
| Collaboration.GroupIffSingle | ui/markdown/source/collaboration.ts:358-371 | one chunk of a group is the whole group or an error |
| Collaboration.AnsweredSessionDrains | ui/markdown/source/collaboration.ts:389-402 | a session whose updates are all answered, each with the current or the next sequence, ends with everything accepted acknowledged and the sequence advanced as often as answered |
| Collaboration.AnswerProgresses | ui/markdown/source/collaboration.ts:389-402 | each answer acknowledges the update in flight, sends the next and advances the sequence as it says |
| Collaboration.ProperFits | ui/markdown/source/collaboration.ts:491-495 | no frame of the session is too large to send |
| Collaboration.Session.constructor | ui/markdown/source/collaboration.ts:64-91 | the session before its snapshot |
| Collaboration.Session.Send | ui/markdown/source/collaboration.ts:491-495 | sends iff the frame fits and the socket is open |
| Collaboration.Session.Fail | ui/markdown/source/collaboration.ts:497-509 | ends the session once and drops a pending request |
| Collaboration.Session.Destroy | ui/markdown/source/collaboration.ts:161-174 | ends the session for the view |
| Collaboration.Session.Pump | ui/markdown/source/collaboration.ts:281-309 | takes the specified step, and its send never fails |
| Collaboration.Session.DocumentUpdate | ui/markdown/source/collaboration.ts:255-267 | takes the specified step |
| Collaboration.Session.RequestCheckpoint | ui/markdown/source/collaboration.ts:143-159 | takes the specified step; the request is sent iff nothing is unacknowledged and the socket is open |
| Collaboration.Session.Deliver | ui/markdown/source/collaboration.ts:372-387 | what a complete group does before and after the snapshot |
| Collaboration.Session.ReceiveSync | ui/markdown/source/collaboration.ts:350-387 | takes the specified step |
| Collaboration.Session.ReceiveAcknowledgement | ui/markdown/source/collaboration.ts:389-402 | takes the specified step |
| Collaboration.Session.ReceiveCheckpoint | ui/markdown/source/collaboration.ts:404-420 | resolves iff the request is pending and the frame is complete at the current sequence, with the text of the request |
| Collaboration.Session.Receive | ui/markdown/source/collaboration.ts:312-347 | a frame takes the session through one step of the model and keeps its invariants |

## Left out

- Sockets, TLS, HTTP clients, timers, threads and locks; a socket appears as whether it is open, and the clock as a parameter.
- SHA-256 and HMAC: digests are a parameter; where a result needs it, it says that the digests at hand do not collide.
- The Yjs document and presence: a document is the list of changes applied to it, and whether a presence frame is well formed is a parameter.
- Random identifiers: the identifiers that the collaboration client draws are parameters of 36 ASCII characters.
- ZIP reading and XML tokenising: an event stream is the input, with whether tokenising succeeded and stayed within the size bound.
- The element rules of the ODF validator (adapters/onlyoffice/src/routes.rs:927-994): each event carries whether its element is allowed.
- Parsing of the request head (adapters/onlyoffice/src/main.rs:251-295): a parameter, so the results hold for every head parser.
- The first READDIR cookie comes from the NFS server library, which is not part of this repository; the model takes it to be 3.
- A changing directory listing: resumption is stated for one unchanged listing served consistently.
- The peer check and the accept loop of the control socket, and the snapshot of the manifest.
- Null buffers and cursors of the C code, other than a null string.
- Sparse arrays in a document tree: arrays are sequences without holes.
- The handshake, heartbeat and presence frames that the collaboration client sends.
- The normalisers of the Markdown parser, the editor, and all other user interface.
- Access-control tables, feature tables, configuration, command lines, image planning other than release tags: finite tables or plumbing.
- The NFS commit tuple under overlapping commit, close and open, and the derived reasons of adapter image plans.
- CallbackPipeline.CheckpointRevisionIsNeverCommitted: assumes that Core keeps different revisions for different fingerprints, because that is Core's promise and not the adapter's.
- Collaboration.CheckpointIsCurrent: says nothing about the text's characters, because the merge of changes is the library's.
