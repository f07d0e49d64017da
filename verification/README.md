# A verified model of crosspaste-server

The server is a clipboard hub. Clients pair with it, push files to it in chunks or let it pull them, and it passes
them on encrypted; an optional tunnel carries HTTP requests into a device's private network. This project models
that behaviour in Dafny 4.11 and proves what the parts promise together. `dafny verify dfyconfig.toml` checks it.

How the pieces fit:

- State that the server updates in place is a class: `DatabaseModel.Database` (the tables), `HubModel.Hub` and
  `HubModel.PushSession`, `RegistryModel.Registry`. Each public method's contract equates the new state, read through
  `Pairs()`, `Files()`, `Log()` or `View()`, with a function on values of the same call.
- Those functions live in `PairingSpec`, `RelaySpec`, `SettingsSpec` and `RegistrySpec`. The `...Runs` modules (and the
  end of `SettingsSpec`) prove properties of all runs, that is all finite interleavings of calls, against references
  that do not mention the state: the last bytes written to a chunk, the latest verified key exchange, the list of all
  log rows ever inserted, the calls started and ended.
- Codecs are functions with inverse laws in both directions: `Chunking`, `BigEndian`, `Base64`, `Secure`, `Stream`,
  `SyncCodec`, `Totp`. `Forwarding` and `EndToEnd` put the codecs on the wire between hub and clients.

Conventions. A hub, registry or database call is one atomic step; `proxy_http` is split at its await, garbage
collection into snapshot and evictions, and a socket's receive loop into one step per frame. Time, random IVs, fresh
UUIDs, and the success of disk, database and remote calls are arguments; a file write that fails may leave the file
untouched or truncated. The key agreement, the block cipher, the hash
and MAC functions, signature verification and the JSON engine are parameters; the only laws used are that the cipher is
a bijection on blocks and that JSON decoding undoes encoding. Integers are unbounded; `usize as i64`, the `u32` length
prefix, the `u64` limit product and the TOTP counter wrap-around are written out.

Where a plausible property is false of the code, the model follows the code and says so with a counterexample and the
exact condition:

- The project's documentation promises globally unique paste ids, but they are the current millisecond. A pull and a
  push in the same millisecond share an id, and the pull is then served the push's bytes; two pulls in the same
  millisecond share their files, and the first is then served the second's bytes, even if the second one failed
  (`SameMillisecondMixesFiles`, `SecondPullMixesFiles`; exactly when a pull stays served: `PullIsServedExactly`).
- Disk and table can disagree on a chunk after a retry. A file write empties the file before it fills it, so a retry
  that fails on the disk, even with the same bytes, leaves a truncated chunk that still counts as received and is
  forwarded; a retry that fails at the database leaves its bytes on disk only (`DiskFailureTruncatesTheFile`,
  `DatabaseFailureSplitsTheStores`; exactly when: `TwoStoresAgreeExactly`, `StoreSplitsExactly`).
- The file size limit applies to paste types 3 and 4 only, while it is on; a push of any other enabled type opens a
  session beyond it (`OtherTypesAreNotLimited`; exactly when the bound holds: `LimitHoldsExactly`).
- Pairing and removal change memory before the table. After a failed statement a restart can bring a removed client
  back with its key, or forget a new one (`FailedRemovalComesBack`, `AgreementAfterFailure`; exactly when a restart
  keeps everything: `RestartKeepsPairingsExactly`, `RestartKeepsInfosExactly`).
- Removing a client leaves its open key exchange usable (`RemovalKeepsOpenExchange`).
- A socket that was replaced but is still open can answer calls sent on the new session (`ReplacedSocketStillSpeaks`),
  a socket that says hello under two ids forgets the first session (`ClosingForgetsEarlierHellos`), and a session heard
  from between snapshot and eviction is evicted all the same (`EvictionIgnoresLaterTouch`).

## Model

| member | source | states |
|---|---|---|
| `EndToEnd.PushReachesTheTarget` | src/hub.rs:845-900 | after any run of stores, retries and failures in which the last store that touched each chunk's file left its slice of F there, an upload at any later time succeeds exactly when the count is right, the key works, and the target takes every chunk and the completion; then the target has exactly F |
| `EndToEnd.PulledFileReachesReaders` | src/hub.rs:687-758 | the pull of a paste declaring |F| bytes from a client that serves F's slices asks for exactly those and keeps them; every reader then rebuilds F under its own key, after any run that leaves the fresh id alone |
| `RelayRuns.PushDeliversTheFile` | src/hub.rs:405-475 | a completed push reads back as F when the last store that touched each chunk's file, whole or torn, left its slice there, and only then if what was left has the right lengths; still so after further calls, fan-out and restart |
| `RelayRuns.CompletedPushIsFinal` | src/hub.rs:439-475 | after completion every store and complete on the id is refused, the file reads as the join of what the last stores left on disk, and every chunk is served from the table, until the id is prepared anew |
| `RelayRuns.CompletionFacts` | src/hub.rs:454-474 | a push that completes has ceil(size / 1 MiB) chunks, each of them stored in both places since it was prepared |
| `RelayRuns.ReceivedIsExact` | src/hub.rs:379-436 | in every run each session has ceil(size / 1 MiB) slots and a slot is set exactly when its chunk was stored since the prepare |
| `RelayRuns.SessionIsOpenPush` | src/hub.rs:379-474 | in every run an id has a session exactly while its last prepare has been neither completed by its own client and token nor lost in a restart, and the session is what that prepare made it |
| `RelayRuns.PrepareAnswersExactly` | src/hub.rs:367-403 | a prepare succeeds exactly for a paired client and a positive u64 size; the reply has one chunk for each 1 MiB slice of such a file; each refusal has its cause |
| `RelayRuns.StoreAnswersExactly` | src/hub.rs:413-436 | the reply to every store in every run, by the open push: unknown, not the owner, wrong token, index out of range, disk, database, or stored |
| `RelayRuns.CompleteAnswersExactly` | src/hub.rs:439-475 | the reply to every completion in every run: the owner with its token is told exactly the chunks not stored since the prepare, ascending, and the push is handed over, as prepared, exactly when there are none |
| `RelayRuns.StoresHoldLastWrites` | src/hub.rs:426-431 | in every run the directory holds exactly what the last store that touched each file left, truncated or whole, and the table the last bytes that reached it |
| `RelayRuns.TwoStoresAgreeExactly` | src/hub.rs:746-758 | the chunk that is served equals the chunk that is concatenated if and only if what the last store left on disk is what the last successful store wrote |
| `RelayRuns.StoreSplitsExactly` | src/hub.rs:426-436 | after a store of a chunk its two histories agree if and only if it succeeded, or did not open the file and they agreed before, or left on disk what the table has |
| `RelayRuns.OnlyLateFailuresSplit` | src/hub.rs:426-431 | stores that succeed, or fail before the file is opened, never take agreeing stores apart |
| `RelayRuns.DiskFailureTruncatesTheFile` | src/hub.rs:426-429 | a retry with the same bytes whose file write fails halfway: the push completes, the chunk is served whole, and the file is forwarded truncated |
| `RelayRuns.DatabaseFailureSplitsTheStores` | src/hub.rs:426-436 | a retry with other bytes that fails at the database makes the stores differ after completion |
| `RelayRuns.FanoutsAreBounded` | src/routes.rs:528-544 | fan-outs ever started plus live sessions of an id never exceed the prepares of that id, so one prepare starts at most one fan-out |
| `RelayRuns.FanoutsAreBacked` | src/hub.rs:677-683 | in every run each running fan-out is of a prepared push whose chunks are all in the table |
| `RelayRuns.ServedExactly` | src/hub.rs:746-758 | in every run and for every index a request for a chunk gets the last row if there is one, and otherwise what the last pull under the id left, if the id was last indexed as a pull of that many chunks since the restart; the two refusals are exact, and no file is ever missing |
| `RelayRuns.PullIsServedExactly` | src/hub.rs:736-758 | in every continuation of a pull its chunk is served as pulled if and only if the row for it, if any, has the same bytes, and without a row the id was last indexed as a pull covering it and no later pull left other bytes |
| `RelayRuns.PulledFileStaysServed` | src/hub.rs:736-758 | under an id without pushes a pulled file stays served through any run that leaves the id alone |
| `RelayRuns.SameMillisecondMixesFiles` | src/hub.rs:708-709 | a push and a pull in the same millisecond: the pull is served the push's bytes |
| `RelayRuns.SecondPullMixesFiles` | src/hub.rs:708-744 | two pulls in the same millisecond: the first is served the second one's bytes, whether the second was complete or not |
| `RelayRuns.RestartServesExactlyTheRows` | src/hub.rs:148-149 | after a restart a chunk is served exactly when it had reached the table, so pulled files are forgotten |
| `RelaySpec.MissingIsComplement` | src/hub.rs:454-461 | the missing list is the strictly ascending complement of the received set |
| `RelaySpec.CompleteReportsTheMissing` | src/hub.rs:454-464 | the list in a completion's reply is the strictly ascending complement of the received set, and is empty exactly when the push is handed over |
| `RelaySpec.CompleteExactlyWhenAllReceived` | src/hub.rs:462-474 | completion succeeds exactly when everything is received, removes that session only, and otherwise changes nothing |
| `RelaySpec.StoringTheMissingCompletes` | src/hub.rs:439-475 | storing exactly the chunks that a completion reported makes the next completion succeed |
| `RelaySpec.ReadFilesJoins` | src/hub.rs:970-978 | reading the chunk files in order gives their concatenation |
| `RelaySpec.ReadFilesSucceeds` | src/hub.rs:970-978 | reading succeeds exactly when every chunk file is there |
| `RelaySpec.PullIsCheckedExactly` | src/hub.rs:693-711 | a pull that passes its checks asks for exactly the 1 MiB slices of a file of the declared size; each refusal has its cause |
| `Chunking.JoinChunks` | src/hub.rs:864 | cutting into chunks and joining gives the input back |
| `Chunking.ChunkCount` | src/hub.rs:857 | there are ceil(len / size) chunks |
| `Chunking.ChunkAt` | src/hub.rs:864 | chunk i is the slice from i*size to the smaller of (i+1)*size and the length |
| `Chunking.WellSplitIsChunks` | src/hub.rs:864 | a splitting into full pieces with a shorter, non-empty last one is unique |
| `Chunking.CeilDivIsLeastCover` | src/hub.rs:379 | the chunk count is the least number of chunks that covers the size |
| `Forwarding.UploadDeliversTheFile` | src/hub.rs:854-899 | the count check passes exactly for ceil(len / size) chunks of positive size; posted bodies decrypt to a prefix of the file, and after success to all of it |
| `Forwarding.UploadEndsExactly` | src/hub.rs:854-899 | every end of an upload: zero chunk size, count mismatch, no key, or, with all bodies encrypted, success if and only if the target takes every chunk and the completion; else the first refused chunk k after exactly k+1 bodies, or the completion after all |
| `Forwarding.UploadedBodies` | src/hub.rs:864-882 | body j is piece j encrypted for the target |
| `Forwarding.UploadSendsPrefix` | src/hub.rs:864-882 | however an upload ends, the bodies posted decrypt in order to the first pieces |
| `Forwarding.FetchedAreTheSlices` | src/hub.rs:713-735 | a source that serves the slices of a file is fetched completely and in order |
| `Forwarding.ObtainedExactly` | src/hub.rs:714-735 | a pulled chunk is what its reply decodes to; without a key, a reply, or a reply that decodes there is none |
| `Forwarding.UntilFailureExactly` | src/hub.rs:713-735 | a pull gets the chunks before the first that fails, and that one fails |
| `Forwarding.LeftoverExactly` | src/hub.rs:735 | a failed file write leaves a prefix of the chunk, or nothing if the file was not opened |
| `Forwarding.StreamForClientRoundTrip` | src/hub.rs:760-772 | what is streamed to a client decodes under the key on file to the same bytes |
| `Secure.DecryptAcceptsExactlyEncryptions` | src/secure.rs:124-150 | decryption yields p from c if and only if c is the encryption of p under the IV at its head (CBC, section 6.2 of NIST SP 800-38A) |
| `Secure.PayloadIsChained` | src/secure.rs:130-136 | a payload starts with the IV, and each later block is the cipher of a block of the padded plaintext xored with the block before it (section 6.2 of NIST SP 800-38A) |
| `Secure.XorIsBitwise` | src/secure.rs:132 | each bit of the exclusive or is the sum modulo 2 of the bits in its place |
| `Secure.PadShape` | src/secure.rs:133 | padding appends n bytes of value n, 1 to 16 of them, up to a whole block (section 6.3 of RFC 5652) |
| `Secure.DecryptRefusals` | src/secure.rs:143-149 | a short payload is refused first, then a key that does not agree |
| `Secure.PayloadLength` | src/secure.rs:130-136 | a payload is exactly 16 + 16*(len/16 + 1) bytes long |
| `Secure.UnpadPad` | src/secure.rs:133 | unpadding undoes PKCS7 padding (section 6.3 of RFC 5652) |
| `Secure.PadUnpad` | src/secure.rs:148 | every accepted padding is the canonical one |
| `Secure.CbcDecryptInvertsEncrypt` | src/secure.rs:132-148 | CBC decryption undoes CBC encryption, for any bijective block cipher |
| `Secure.SasIsTheSameOnBothSides` | src/secure.rs:229-241 | both sides compute the same short authentication string, below one million, from the hash of the smaller key before the larger |
| `Secure.LexLeExactly` | src/secure.rs:230 | keys are compared as byte strings: by prefix, or by the first byte that differs |
| `Stream.StreamRoundTrip` | src/hub.rs:760-843 | decoding undoes encoding for every plaintext, key and choice of IVs |
| `Stream.TruncationIsExact` | src/hub.rs:826-841 | every cut of a stream decodes to the whole pieces kept when it is on a frame boundary, and otherwise fails with the error that fits the bytes left over |
| `Stream.StreamLayout` | src/hub.rs:760-772 | frame i starts at byte 262,180 i and holds the big-endian length of its payload and then piece i of 256 KiB, encrypted under IV i |
| `Stream.DecodedExactly` | src/hub.rs:819-843 | every input is some frames that decrypt and a rest: nothing, and the answer is their pieces joined; or 1 to 3 bytes, an overlong length, or a frame that does not decrypt, and the answer is that error |
| `Stream.DecodeLoop` | src/hub.rs:819-843 | the decoding loop ends on every input and computes the recursive decoder, errors included |
| `BigEndian.U32RoundTrip` | src/hub.rs:768 | reading a big-endian u32 undoes writing it |
| `BigEndian.U32BytesRoundTrip` | src/hub.rs:831 | writing a big-endian u32 undoes reading it |
| `BigEndian.U32IsBigEndian` | src/hub.rs:831 | the most significant byte comes first |
| `HubModel.Hub.LoadOrCreate` | src/hub.rs:109-152 | start-up builds exactly the maps that the table's rows describe, and empty sessions over the files on disk |
| `HubModel.Hub.SetPairingTokenFor` | src/hub.rs:158-166 | sets the token for 30 seconds and touches nothing else |
| `HubModel.Hub.TrustV1` | src/hub.rs:235-284 | the v1 checks in order, then memory, then the table |
| `HubModel.Hub.ExchangeKeysV2` | src/hub.rs:286-309 | a verified exchange replaces the client's pending entry, SAS included, and returns the SAS |
| `HubModel.Hub.ConfirmTrustV2` | src/hub.rs:311-343 | a confirm uses up the pending entry and admits its key |
| `HubModel.Hub.UpdateClientSyncInfo` | src/hub.rs:477-491 | the table is written before memory, and a failure leaves both alone |
| `HubModel.Hub.RemoveClient` | src/hub.rs:927-932 | three maps forget the client, then the row is deleted |
| `HubModel.Hub.PreparePush` | src/hub.rs:367-403 | a session with one empty slot per chunk, or the first error that applies |
| `HubModel.Hub.StorePushChunk` | src/hub.rs:405-437 | file, then row, then slot; a failure stops at its place and keeps what was done before it, a truncated file included |
| `HubModel.Hub.CompletePush` | src/hub.rs:439-475 | the loop reports what is missing, or the session is handed over and removed |
| `HubModel.Hub.ReadCompletedPush` | src/hub.rs:970-978 | the loop concatenates the chunk files and fails at the first that is not there |
| `HubModel.Hub.ReadFileChunk` | src/hub.rs:746-758 | table first, with the failure of its query, then the index of stored files, the range check and the directory |
| `HubModel.Hub.EncryptStreamForClient` | src/hub.rs:760-772 | the loop yields the framed stream; the cast of the length to u32 never truncates |
| `HubModel.Hub.DecryptStreamFromClient` | src/hub.rs:819-843 | the stream is decoded under the key on file |
| `HubModel.Hub.UploadCompletedPushToTarget` | src/hub.rs:845-900 | the posted bodies and the result, up to the first refusal |
| `HubModel.Hub.BroadcastCompletedPush` | src/hub.rs:574-685 | every other client with SyncInfo is tried once, delivered counts exactly the targets reached, attempted is delivered plus failed, and the file becomes readable |
| `HubModel.ReachesExactly` | src/hub.rs:591-672 | a target counts as reached if and only if it has a host and a usable key, announces the right count, and takes every chunk and the completion, the file being readable |
| `HubModel.Hub.CachePullFileFromClient` | src/hub.rs:687-744 | the chunks fetched and written before the first failure are on disk, with what a failed write left; the file is indexed exactly when all were; the error tells fetching from writing |
| `PairingRuns.RestartIsTransparent` | src/hub.rs:109-152 | when database calls succeed, rebuilding from the table gives clients, times, keys and SyncInfos of the live maps, after every run |
| `PairingRuns.HealthyClientAgrees` | src/hub.rs:259-340 | a client whose own statements succeeded agrees with its row, re-pairing included, whatever failed for others |
| `PairingRuns.RestartKeepsPairingsExactly` | src/hub.rs:116-136 | in every run, whatever failed, a restart keeps all clients, times and keys if and only if for every client what the process holds was saved |
| `PairingRuns.RestartKeepsInfosExactly` | src/hub.rs:116-136 | in every run it keeps all SyncInfos if and only if for every client the latest one held was saved to a row |
| `PairingRuns.TransparentExactlyWhenAgreeing` | src/hub.rs:116-136 | in one state: a restart changes nothing if and only if memory and table agree on every client |
| `PairingRuns.AgreementAfterFailure` | src/hub.rs:259-271 | after a failed write memory and table agree only if the table already said the same |
| `PairingRuns.DomainsAlwaysMatch` | src/hub.rs:260-269 | in every run clients and keys have the same domain and SyncInfo is known for clients only |
| `PairingRuns.PendingIsOpenExchange` | src/hub.rs:299-328 | in every run a client's pending entry is its latest exchange not yet used up or lost |
| `PairingRuns.KeysAreHeldAndSaved` | src/hub.rs:259-340 | in every run, whatever fails: memory has the key and time of the latest pairing since the last removal, except that a restart goes back to what was saved; the row has the latest pairing saved since the last removal that was |
| `PairingRuns.InfosAreHeldAndSaved` | src/hub.rs:477-491 | the same for SyncInfo, which re-pairing leaves alone |
| `PairingRuns.KeysComeFromLatestPairing` | src/hub.rs:259-340 | a client none of whose own statements failed has, in memory and in its row, the key and time of its latest pairing since its last removal |
| `PairingRuns.FailedRemovalComesBack` | src/hub.rs:927-932 | a run in which a client whose removal failed at the database is back after a restart |
| `PairingRuns.ConfirmIsBacked` | src/hub.rs:316-340 | each confirm that takes effect has an earlier verified exchange of the client, at most 30,000 ms old, with the keys used |
| `PairingRuns.ConfirmAcceptedExactly` | src/hub.rs:316-327 | in every run a confirm passes if and only if the client has an open exchange, at most 30,000 ms old, whose signing key verifies it |
| `PairingRuns.ConfirmsUseDistinctExchanges` | src/hub.rs:328 | no exchange backs two confirms |
| `PairingRuns.TrustAcceptedExactly` | src/hub.rs:240-259 | in every run a v1 trust passes if and only if its signature and key are good and it shows the token in force, set at most 30,000 ms before |
| `PairingRuns.TrustIsBacked` | src/hub.rs:244-261 | each v1 trust that takes effect shows the token in force, set at most 30,000 ms before |
| `PairingRuns.TrustAnswersExactly` | src/hub.rs:235-284 | the reply to every v1 trust in every run, by the token in force, for 30,000 ms |
| `PairingRuns.ExchangeAnswersExactly` | src/hub.rs:291-309 | an exchange replies with the SAS of the client's key exactly when signature and key are good |
| `PairingRuns.ConfirmAnswersExactly` | src/hub.rs:316-343 | the reply to every confirm in every run, by the client's open exchange, for 30,000 ms |
| `PairingRuns.UpdateAndRemoveAnswerExactly` | src/hub.rs:477-491 | in every run a SyncInfo update is refused exactly for clients not held in memory, and a failed statement is reported |
| `PairingRuns.SeenIsLatest` | src/database.rs:311-334 | in every run a row's last-seen time is that of the latest touch or SyncInfo since the row was made |
| `PairingRuns.RemovalKeepsOpenExchange` | src/hub.rs:927-932 | a confirm after a removal is judged as before it and re-admits the client |
| `PairingSpec.RebuildAddsRow` | src/hub.rs:120-136 | a row adds one client, its key, and its SyncInfo if that parses |
| `RegistryRuns.NoLostWaiter` | src/registry.rs:180-233 | in every reachable state a waiting call has its responder in exactly its own session or a frame in its channel, never both; sessions keep to the in-flight limit |
| `RegistryRuns.NoCrossDelivery` | src/registry.rs:222-232 | a resumed call gets its own response, its own session's disconnect error, or a timeout; the channel is never found closed |
| `RegistryRuns.ResponseIsBacked` | src/tunnel.rs:121-126 | a response in a call's channel was sent with that payload by an earlier step on a socket that then spoke for the call's device, while the call's session was current |
| `RegistryRuns.ReplacedSocketStillSpeaks` | src/tunnel.rs:107-126 | a replaced socket that is still open answers calls of the new session and keeps it from going stale |
| `RegistryRuns.StartIsExact` | src/registry.rs:180-220 | a call is offline exactly without a current session or with room but a closed channel, busy exactly at the limit, and then nothing is sent; otherwise its request goes to the channel of the registered session and no other, and it is filed there |
| `RegistryRuns.RequestIsSentOnce` | src/registry.rs:202-208 | in every run each call let through has its request, id and payload as given, exactly once in the channel of its own session, and no channel has any other request |
| `RegistryRuns.SentIsExact` | src/tunnel.rs:66-126 | what each step sends: the pong of a ping, the acknowledgement of a hello after the notice to the replaced session, the error for a blank id, the request of a call; nothing else |
| `RegistryRuns.SeenIsLastHeard` | src/registry.rs:160-164 | in every run a session was last seen at its hello, the latest ping or pong for its device, or the latest call that found room |
| `RegistryRuns.OutcomeIsFinal` | src/registry.rs:222-232 | an ended call keeps its outcome for ever |
| `RegistryRuns.CallsAreConserved` | src/registry.rs:180-233 | in every run calls started are calls ended plus calls waiting |
| `RegistryRuns.UnregisterIsExact` | src/registry.rs:134-158 | unregistering is without effect unless the session is current; then exactly its pending calls are answered |
| `RegistryRuns.OtherSessionsSurviveTeardown` | src/tunnel.rs:140-142 | closing an old socket or evicting from an old list leaves every other session, its registration and its calls untouched |
| `RegistryRuns.DoomedWasStale` | src/registry.rs:315-330 | whatever is evicted was stale when a snapshot listed it |
| `RegistryRuns.CollectionIsExact` | src/registry.rs:312-331 | a whole collection removes exactly the registered sessions not seen within the limit and answers exactly their pending calls |
| `RegistryRuns.RegistrationIsLostOnlyBy` | src/registry.rs:93-158 | a registration ends only by its own socket, its own eviction, or a new hello for the device |
| `RegistryRuns.EvictionIgnoresLaterTouch` | src/registry.rs:327-330 | a session heard from after the snapshot is evicted all the same |
| `RegistryRuns.ResponseReachesOnlyItsCall` | src/registry.rs:166-178 | a response has an effect exactly when its request is pending in the current session of the sender's device, and then on that call only |
| `RegistryRuns.LateResponsesAreDiscarded` | src/registry.rs:171-177 | responses for replaced sessions, and second responses, change nothing |
| `RegistryRuns.ClosingForgetsEarlierHellos` | src/tunnel.rs:100-142 | closing a socket removes a session it opened exactly when that is the one it remembers |
| `RegistryRuns.SecondHelloOrphansTheFirst` | src/tunnel.rs:80-106 | after two hellos under different ids the first session outlives the socket |
| `Text.TrimIsExact` | src/tunnel.rs:88 | trimming removes the whitespace at both ends, all of it and nothing else |
| `RegistryRuns.StepKeepsInv` | src/registry.rs:93-331 | every step keeps the invariant that ties devices, sessions, sockets and calls together |
| `RegistryModel.Registry.RegisterDevice` | src/registry.rs:93-132 | the old session is notified and detached, the new one starts empty |
| `RegistryModel.Registry.UnregisterDevice` | src/registry.rs:134-158 | the drain loop answers every pending responder |
| `RegistryModel.Registry.CompleteRequest` | src/registry.rs:166-178 | the responder is taken out and used at most once |
| `RegistryModel.Registry.StartProxy` | src/registry.rs:180-220 | offline, busy, or waiting with the request sent; a request that cannot be sent is taken back |
| `RegistryModel.Registry.AwaitProxy` | src/registry.rs:222-232 | the channel is looked at before the clock |
| `RegistryModel.Registry.GcStaleDevices` | src/registry.rs:312-331 | listing and evicting in any order collects exactly the stale sessions |
| `RegistryModel.Registry.OnHello` | src/tunnel.rs:80-106 | a blank id is refused; otherwise the socket registers and remembers the new session |
| `RegistryModel.Registry.OnClose` | src/tunnel.rs:140-143 | the remembered session is unregistered and the channel closed |
| `RegistrySpec.CollectOneMore` | src/registry.rs:327-330 | evictions commute into one collection |
| `Base64.DecodeInvertsEncode` | src/sync_info.rs:172 | decoding undoes encoding, with padding (section 4 of RFC 4648) |
| `Base64.EncodeInvertsDecode` | src/sync_info.rs:195 | every accepted text is the canonical encoding of what it decodes to |
| `Base64.EncodedLength` | src/sync_info.rs:172 | the encoding has 4 * ceil(len / 3) characters |
| `Base64.EncodedAt` | src/sync_info.rs:172 | every character: the sextets, most significant first, of three bytes as 24 bits, with padding (section 4 of RFC 4648) |
| `Base64.AlphabetExactly` | src/sync_info.rs:172 | the alphabet of table 1 of RFC 4648, in both directions |
| `SyncCodec.QrBijection` | src/sync_info.rs:183-204 | a text decodes to (bytes, token) if and only if the bytes are not empty and it is their encoding under that token |
| `SyncCodec.QrLayout` | src/sync_info.rs:183-192 | the text carries the bytes rotated right by the token modulo their number, then the token, big-endian |
| `SyncCodec.QrPayloadRoundTrip` | src/sync_info.rs:183-204 | every SyncInfo and token survive the QR text |
| `SyncCodec.EmptyQrIsRefused` | src/sync_info.rs:185-196 | an empty document is encoded without rotation and refused by the decoder |
| `SyncCodec.RotationsCompose` | src/sync_info.rs:206-212 | rotations add modulo the length |
| `SyncCodec.RotationUndone` | src/sync_info.rs:200-201 | rotating by the complement undoes a rotation, in either order |
| `SyncCodec.EncodeTxtRecord` | src/sync_info.rs:167-181 | one entry per piece under its decimal number, without collisions, each value of at most the chunk size |
| `SyncCodec.TxtRecordReassembles` | src/sync_info.rs:167-181 | joining the entries in numeric order and decoding gives the JSON bytes |
| `SyncCodec.TxtEntryFits` | src/routes.rs:244-245 | with 128-byte values an entry fits the 255 bytes of section 6.1 of RFC 6763 for indices below 10 to the 126, the best bound for a full entry |
| `Decimal.TextIsInjective` | src/sync_info.rs:176 | different indices have different keys |
| `Decimal.TextLength` | src/sync_info.rs:176 | a number has at most k digits exactly when it is below 10 to the k |
| `Decimal.TextIsDecimal` | src/sync_info.rs:176 | the last digit is the remainder by ten and the text before it that of the tenth |
| `Decimal.ParsedExactly` | src/admin.rs:696 | a text parses to n exactly when it is, after an optional plus sign, digits of value n below the limit |
| `DatabaseModel.Database.SaveClient` | src/database.rs:303-309 | inserts, or updates everything except SyncInfo and last-seen time |
| `DatabaseModel.Database.SaveFileChunk` | src/database.rs:397-408 | inserts or replaces one row, under the index cast to i64 |
| `DatabaseModel.Database.PruneRequestLogs` | src/database.rs:608-617 | deletes exactly the rows whose id is not among the newest |
| `DatabaseModel.Database.RequestLog` | src/database.rs:554-583 | inserts and prunes in one transaction |
| `DatabaseModel.Database.UpdateSettings` | src/database.rs:500-522 | upserts every pair and prunes when the retention is among them |
| `SettingsSpec.LogIsEndOfHistory` | src/database.rs:500-617 | under any mix of inserts and validated updates the log is the end of all rows ever inserted, ids ascending, within the retention |
| `SettingsSpec.ConstantRetentionIsExact` | src/database.rs:571-580 | while the retention stays N the log is exactly the last min(N, total) rows |
| `SettingsSpec.DefaultRetentionIsExact` | src/database.rs:219 | from a fresh database that is 10,000 |
| `SettingsSpec.RetentionTakesEffect` | src/database.rs:500-522 | after setting the retention to n, and until it is set again, the log is exactly the last n of the rows held then and all rows inserted since |
| `SettingsSpec.NumbersAreLatest` | src/routes.rs:479-483 | in every run the limit and the retention are the numbers that the texts last set for them denote |
| `SettingsSpec.PruneKeepsTheNewest` | src/database.rs:612-615 | with ascending ids the delete keeps exactly the last rows |
| `SettingsSpec.UpdateAcceptedExactly` | src/admin.rs:677-725 | validation accepts an update if and only if applying it leaves every setting present, known and in range |
| `SettingsSpec.GateExactly` | src/routes.rs:446-495 | in every reachable settings state a paste passes if and only if the relay and the switch of its type are on and, for files and images under the limit, it takes at most max_file_size_mb chunks |
| `SettingsSpec.GateAnswersExactly` | src/routes.rs:446-495 | in every reachable settings state, the reason a paste is refused for |
| `SettingsSpec.LimitCanBeSet` | src/admin.rs:696-705 | setting the limit to the text of n makes it n |
| `SettingsSpec.DefaultsAreWellFormed` | src/database.rs:206-229 | the default settings are present and in range |
| `SettingsSpec.SizeLimitBoundsSession` | src/routes.rs:446-495 | in every reachable settings state the limit fits u64, and a file or image paste let through with the limit on gets at most max_file_size_mb chunks, at most 102400 |
| `SettingsSpec.OtherTypesAreNotLimited` | src/routes.rs:474-492 | in all well-formed settings, a paste one byte over the limit, of a type that is on and not limited, passes and opens a session of one chunk more than max_file_size_mb |
| `SettingsSpec.LimitHoldsExactly` | src/routes.rs:474-492 | for a type that is on, every paste let through takes at most max_file_size_mb chunks if and only if the type is 3 or 4 and the limit is on |
| `SettingsSpec.WellFormedIsReachable` | src/admin.rs:382-396 | every well-formed settings state is reached by one validated update |
| `Routes.SyncPastePush` | src/routes.rs:377-393 | caller, body, gate and prepare in this order; any refusal leaves the files alone |
| `Routes.SyncPushComplete` | src/routes.rs:519-546 | a fan-out is spawned exactly when this call closed the session |
| `Routes.PullFile` | src/routes.rs:548-574 | the stored chunk, plain or as an encrypted stream for the caller; a key that opened the request always encrypts the reply |
| `Routes.SecureBodyIsOpened` | src/routes.rs:842-859 | a body encrypted under the key on file is read as what it says in the clear |
| `Routes.BodyIsRefusedExactly` | src/routes.rs:842-859 | a body is refused exactly for not decrypting or not parsing |
| `Routes.CallerIsCheckedExactly` | src/routes.rs:861-880 | only a paired client that names itself and means this server passes; each refusal has its cause |
| `Totp.Truncate` | src/admin.rs:742-746 | the truncation of section 5.3 of RFC 4226 stays within the digest and below 2 to the 31 |
| `Totp.TruncateReadsBigEndian` | src/admin.rs:742-746 | the truncated value is the low 31 bits of the big-endian u32 at the offset the digest names |
| `Totp.SameTextSameNumber` | src/admin.rs:734-747 | comparing zero-padded codes as text is comparing them as numbers |
| `Totp.AcceptedExactly` | src/admin.rs:727-735 | a code is accepted exactly when its number is that of this step or a neighbouring one |
| `Totp.AcceptedTexts` | src/admin.rs:727-735 | of all texts exactly those that trim to the code of this step or a neighbouring one are accepted, and none without a decodable secret |
| `Totp.AcceptedWithinOneStep` | src/admin.rs:732-735 | a code is accepted at every second within 30 of the one it was made for |
| `Totp.OutOfWindowAfterAMinute` | src/admin.rs:732-735 | at 60 seconds or more its step is outside the window |

## Left out

- HTTP routing, CORS, tracing, WebSocket transport, mDNS, QR images, icons, admin pages, sessions, passwords, audit log and configuration parsing: plumbing or simple branching.
- `broadcast_paste`, `receive_paste` and the paste table: one forwarding loop and one upsert, without the chunk protocol that makes the file path hard.
- Rooms: a session's room code is always absent, so rooms and sessions never meet.
- AES, ECDH, ECDSA, SHA-2, HMAC and Argon2 internals: parameters with the laws named above. Base64 decoding of client keys is a parameter of the pairing model; the codec itself is in `Base64`.
- Races inside one call and cancelled handler futures: a call is one step, so nothing is claimed for them.
- `RegistryModel.Registry`: sessions, sockets and one-shot channels, shared by reference in the server, are filed under their ids; the model has no object identity beyond the id.
- `HubModel.Hub.CachePullFileFromClient`: the content of the requests sent to the source is not modelled, and a chunk that cannot be fetched or decrypted reports one error.
- `HubModel.Hub.ReadFileChunk`: a file that is there is taken to be readable, here and in `ReadCompletedPush`.
- `HubModel.Hub.BroadcastCompletedPush`: the announcement's JSON is not modelled; a target's answer to it is an argument.
- `HubModel.Hub.ExchangeKeysV2`: the responses and the signatures on them are not modelled; the SAS is a parameter here and its computation is in `Secure`.
- `Routes.SyncPastePush`, `Routes.SyncPushComplete`: the encryption of their JSON replies is not modelled, nor are the other headers of a request and their parsing.
- The legacy import at start-up, and rows disabled by hand: no statement of the server disables a row.
