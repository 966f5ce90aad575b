# Verified model of the HD runtime's protocol cores

The HD runtime drives Android guests from a Windows host. This project models the parts of it that
follow a protocol or rewrite data, in Dafny 4.11, and proves what they are for:

* `FramePool.dfy`, `PoolHistory.dfy`, `FrameBroker.dfy`, `FrameVerdicts.dfy`, `FrameWire.dfy`,
  `FrameBytes.dfy`, `FrameSession.dfy`: the zero-copy frame broker. A pool of three buffers changes hands
  between producer and consumer; a session loop takes messages off a pipe, negotiates the buffers, answers
  posts that arrive before the negotiation is complete, creates the pool from them and drives it.
* `Redaction.dfy`, `RedactionPieces.dfy`, `MaskedAssignments.dfy`, `DiagnosticRecords.dfy`,
  `RecordMembers.dfy`, `PrivateRoots.dfy`, `RepeatedRedaction.dfy`, `DiagnosticFiles.dfy`: redaction of
  diagnostic text, JSON values and log files.
* `CommandMatcher.dfy`, `UwbAdapter.dfy`, `UwbRequests.dfy`, `ModemLines.dfy`, `SensorFrames.dfy`,
  `SensorRequests.dfy`, `H4Packets.dfy`: readers of byte streams that arrive in pieces, over a small theory
  of such readers in `Common.dfy`.
* `GattServer.dfy`, `GattAnswers.dfy`, `Type2Tag.dfy`, `Type4Tag.dfy`: an emulated Bluetooth peer and two
  emulated NFC tags.
* `ProcessTree.dfy`, `Lifecycle.dfy`, `Decimals.dfy`, `RuntimeNumbers.dfy`: the descendants of a process,
  the lifecycle of an instance, and exact decimal arithmetic.

`dafny verify dfyconfig.toml` checks everything.

## How the model is built

Code that changes state step by step is a class or a method with a loop, proved against a function of
the old state and the inputs; the promises are lemmas about those functions over every input and every
run. What the platform decides is an input of each step: whether a Vulkan adapter opens or an image
imports, whether a marker file is present, how much time has passed, what the guest sends and in which
pieces. Machine integers are subset types, and saturation, wrapping and checked arithmetic are written
out. Byte positions in text are character positions; the needles the code searches for are ASCII, so both
select the same pieces. A `&str` that shrinks from the front is a position in the whole text.

The stream theory says that a reader is extensible when bytes that arrive later change neither a complete
item nor a rejection. It proves once that then, however a stream is cut, a service ends in the state of the
uncut stream and with its failure; if nothing fails it has sent the same output, and otherwise a front part
of what the items before the failure give (`Streams.ServeAgrees`). What is sent is independent of the cuts
exactly when the stream does not fail or has nothing to send before it fails (`Streams.SendsAlikeExactly`).
Each protocol shows that its reader is extensible.

Theorems that speak of the model's own functions say little about tables and character classes, which such
a theorem takes over with the function. What the code decides by a table is therefore stated a second time on
bytes and characters alone: the messages and verdicts of the frame session, the classes of characters and
the keys of redaction, the words that give a member away, the requests and answers of the adapters, peers
and tags, and the units of a rate.

## Where the code does less than it suggests

Each of these is a lemma that says for all inputs exactly when the property holds.

* A read that fails keeps back the answers to its own earlier frames, because they are written after the
  whole read has been handled (crates/hd-peripheral-adapters/src/lib.rs:392-404). A device-info command and
  an unsupported one are answered by nothing if they arrive in one read, and the first of them is answered
  if they arrive in two (`UwbAdapter.OneReadLosesAnswer`); `UwbAdapter.ChannelSendsAlikeExactly` says for
  which streams this cannot happen.
* The sensor bridge reads bytes behind an implausible header as lines if they arrive in the same read, and
  as a new header if they do not. What it finds is independent of the cuts exactly when no byte follows
  the first implausible header (`SensorFrames.SameHoweverCutExactly`).
* The virtual Bluetooth peer ignores the ending handle of a request and does not reject an empty range; read
  by type it answers a service in the format of a group, does not find the device name, and reports an
  unknown group with the wrong error (`FindInformationExactly`, `ReadByTypeExactly`,
  `ReadByGroupTypeExactly` in `GattServer`). A client that asks for the characteristics from handle 1 to
  handle 1 is handed handle 2 (`GattServer.CharacteristicsDiscoveredExactly`).
* Replacing a private root removes it from every text exactly when it is not itself a part of the
  placeholder (`DiagnosticRecords.ReplaceRemovesExactly`). Redaction as a whole keeps a list of roots out
  exactly when none is a part of the placeholder, and none is a part of the mask unless the roots cut
  through everything there is to mask (`PrivateRoots.RootsAreRemovedExactly`).
* A key that is itself the value of an earlier key disappears with it, and what it is assigned stays: the
  text "password=api_key : x" becomes "password=<redacted> : x" (`MaskedAssignments.KeyInsideValueIsLost`). An
  assignment is masked for certain behind a front without separators and markers, and between any two
  delimiters (`MaskedAssignments.DelimitedAssignmentIsMasked`).
* Redacting a record a second time can damage it. With the root "user" the string "user" becomes
  "<user-profile>" and then "<<user-profile>-profile>"; with the root "redacted", the string
  "signing_key=password= x" becomes "signing_key=<redacted> <redacted>", whose second mask stands behind no
  key any more. Redaction with one root is idempotent exactly when neither placeholder holds it
  (`RepeatedRedaction.RedactionIdempotentExactly`).
* The ACL length of a packet is true up to 65531 bytes of PDU only, but the peer still receives every PDU
  that is sent, because the receiver only compares it with `>=` (`GattServer.AttRoundTrip`).
* The capability container of the Type 4 tag is right up to 65533 bytes of message, and the length field up
  to 65535 (`Type4Tag.ContainerDescribesFile`, `Type4Tag.NdefReadsBack`).
* The Type 2 memory holds messages of up to 1003 bytes, while its caller admits 1000
  (`Type2Tag.BuildMemory`).
* The landscape density is the largest one that keeps the tablet layout unless the product saturates and
  an absurd density is asked for (`RuntimeNumbers.LandscapeDensityExactly`).

## Model

| member | source | states |
|---|---|---|
| `FramePools.CreateExact` | crates/hd-frame/src/lib.rs:52-103 | a pool is created if and only if the probe passes, there are three valid descriptors of one non-zero generation and their ids differ; its slots are then those three, available, with the descriptors' own values |
| `FramePools.FramePool.Create` | crates/hd-frame/src/lib.rs:52-103 | the insertion loop succeeds, fails and builds exactly as `CreateState` says, with the first defect as its error |
| `FramePools.FramePool.ProducerAcquire` | crates/hd-frame/src/lib.rs:109-123 | the whole new state and reply of the call; a refused call changes nothing |
| `FramePools.FramePool.ProducerPublish` | crates/hd-frame/src/lib.rs:125-156 | the same for publishing: owner, values, descriptor and counter |
| `FramePools.FramePool.ConsumerImported` | crates/hd-frame/src/lib.rs:158-172 | the same for importing: only a counter moves |
| `FramePools.FramePool.ConsumerRelease` | crates/hd-frame/src/lib.rs:174-209 | the same for releasing: owner, values, descriptor and the counter that the verdict chooses |
| `FramePools.PoolConservation` | crates/hd-frame/src/lib.rs:109-209 | over any interleaving of accepted and refused calls, published frames are presented, dropped or held by the consumer, and every counter is the true count cut off at 64 bits |
| `FramePools.CreatedPoolConserves` | crates/hd-frame/src/lib.rs:52-209 | the same from the moment a pool is created |
| `FramePools.SyncValuesIncrease` | crates/hd-frame/src/lib.rs:125-209 | per buffer, the accepted acquire values and the accepted release values strictly increase over every run and end at the slot's value |
| `PoolHistories.CreatedExactly` | crates/hd-frame/src/lib.rs:52-103 | creation field by field: a probe of version 2 with every capability and three buffers of version 2, one non-zero generation, the transport of the probe, matching handle counts, at least 320 pixels each way, a stride of four bytes a pixel, and different ids |
| `PoolHistories.CallsAreAnswered` | crates/hd-frame/src/lib.rs:109-209 | after every run of accepted and refused calls, the answer to a call, its error included, follows from the accepted calls for its buffer alone: who had it last, and the last values published and released |
| `FrameBrokers.CycleExact` | crates/hd-frame-producer/src/windows.rs:264-268 | an idle slot takes a newer value through all four pool calls and ends idle with it; an unknown id is the only refusal |
| `FrameBrokers.NegotiationSucceeds` | crates/hd-frame-producer/src/windows.rs:203-252 | with three seeded registrations creation cannot fail, and the slots are idle, of one size, generation and transport, with the values of the posts that came earlier |
| `FrameBrokers.StepKeepsInv` | crates/hd-frame-producer/src/windows.rs:134-323 | every message keeps the session invariant, is answered once, and meets a pool error only for an id outside the three buffers |
| `FrameBrokers.SessionRefinesPool` | crates/hd-frame-producer/src/windows.rs:134-323 | over every message sequence and platform behaviour the one global monotonic check implies every per-slot check of the pool; echoed values strictly increase and each message has one response |
| `FrameBrokers.RegistrationAcceptedExactly` | crates/hd-frame-producer/src/windows.rs:137-253 | while negotiating, a registration is accepted if and only if it can be imported, has the common size, is the first for its buffer, and the marker is there if it is the third; accepted means that the session survives the message, because the accepting response goes out before the marker is checked. It then sets its own entry, the common size and the adapter and leaves the other entries alone, and the third creates the pool |
| `FrameBrokers.PoolExactlyAfterThree` | crates/hd-frame-producer/src/windows.rs:224-252 | the pool exists if and only if all three buffers have been accepted, and then holds exactly them, idle, with the values last accepted |
| `FrameBrokers.PostAcceptedExactly` | crates/hd-frame-producer/src/windows.rs:254-323 | with a pool, a post is accepted, in the sense that the session survives it, if and only if its buffer exists, its value is new and the marker is present; it then changes that slot alone and counts one frame |
| `FrameVerdicts.RegistrationSurvivesExactly` | crates/hd-frame-producer/src/windows.rs:134-253 | while negotiating, a session survives exactly the registrations of 72 bytes that are sound and either have an unknown format, or are on the adapter and then either fail to import or are first for their buffer, of the common size and, as the third, find the marker; with every bound and format code written out |
| `FrameVerdicts.UnknownFormatIsRefused` | crates/hd-frame-producer/src/windows.rs:158-170 | a registration with neither virgl format 1 or 2 nor Vulkan format 37, 43, 44 or 50 is refused by one response, and nothing changes |
| `FrameVerdicts.FailedImportIsRefused` | crates/hd-frame-producer/src/windows.rs:172-201 | a registration that cannot be imported is refused by one response, and only the adapter is kept |
| `FrameVerdicts.EarlyBufferIsRecorded` | crates/hd-frame-producer/src/windows.rs:202-240 | the first two accepted buffers: the whole new session, with the descriptor field by field, and one response |
| `FrameVerdicts.ThirdBufferMakesPool` | crates/hd-frame-producer/src/windows.rs:224-252 | the third accepted buffer: response, metrics and marker in this order, and the pool with a slot for each recorded buffer |
| `FrameVerdicts.RegistrationErrorsExactly` | crates/hd-frame-producer/src/windows.rs:137-240 | which objection ends a negotiating session, the first in the order of the checks |
| `FrameVerdicts.LateRegistrationEndsSession` | crates/hd-frame-producer/src/windows.rs:137-146 | with a pool every registration ends the session |
| `FrameVerdicts.EarlyPostExactly` | crates/hd-frame-producer/src/windows.rs:254-316 | a post before there is a pool: the whole outcome for a wrong size, an old value, a known buffer and an unknown one |
| `FrameVerdicts.PostIsCountedAndReported` | crates/hd-frame-producer/src/windows.rs:264-316 | a post with a pool: the counters are the accepted posts since the marker; from a second after the last report on, the metrics with the rate of the interval go out before the response |
| `FrameVerdicts.PostErrorsExactly` | crates/hd-frame-producer/src/windows.rs:254-268 | which posts end a session with a pool, and with what |
| `FrameBrokers.FrameBroker.Register` | crates/hd-frame-producer/src/windows.rs:137-253 | the registration branch: every check in its order, the response and the new session state |
| `FrameBrokers.FrameBroker.Publish` | crates/hd-frame-producer/src/windows.rs:254-316 | the publication branch: pool cycle, metrics interval, bootstrap seeding, response and new state |
| `FrameBrokers.FrameBroker.Serve` | crates/hd-frame-producer/src/windows.rs:103-324 | the loop over messages is the run the lemmas speak about, state, outputs and error |
| `FrameWire.WriteRelease` | crates/hd-frame-producer/src/windows.rs:471-488 | the buffer filled field by field is the release message, byte for byte |
| `FrameWire.HeaderRoundTrip` | crates/hd-frame-producer/src/windows.rs:415-430 | a written header is read back as its kind and size |
| `FrameBytes.RegistrationIsRead` | crates/hd-frame-producer/src/windows.rs:415-460 | twelve bytes of header and sixty of body are read as the registration whose every field is given by offset |
| `FrameBytes.PublicationIsRead` | crates/hd-frame-producer/src/windows.rs:415-469 | the same for a publication |
| `FrameBytes.OtherMessagesAreRejected` | crates/hd-frame-producer/src/windows.rs:134-146 | any other kind or size is rejected with its header |
| `FrameBytes.ReleaseIsWritten` | crates/hd-frame-producer/src/windows.rs:471-488 | the 28 bytes of a release |
| `FrameBytes.LeftoverBytes` | crates/hd-frame-producer/src/windows.rs:103-146 | how bytes that hold no whole message end a session |
| `FrameWire.RegisterRoundTrip` | crates/hd-frame-producer/src/windows.rs:432-460 | a written registration is read back field by field, whatever follows it |
| `FrameWire.PostRoundTrip` | crates/hd-frame-producer/src/windows.rs:462-469 | a written publication is read back, whatever its padding and whatever follows |
| `FrameSessions.Serve` | crates/hd-frame-producer/src/windows.rs:134-323 | the loop over the bytes of a pipe, a header and then a body at a time, is the run over the messages in them, and ends with the cause that the bytes behind them give |
| `FrameSessions.BytesAreAnswered` | crates/hd-frame-producer/src/windows.rs:134-488 | for arbitrary bytes, what a session sends back reads as exactly its releases; there is one for each message unless one stops the session, and no pool call is refused for ownership or monotonicity |
| `FrameSessions.WrittenMessagesAreServed` | crates/hd-frame-producer/src/windows.rs:134-469 | well-formed messages written on the pipe are exactly the messages the session runs over |
| `FrameWire.ReleasesRoundTrip` | crates/hd-frame-producer/src/windows.rs:471-488 | every sequence of written releases is read back as itself and leaves nothing |
| `FrameWire.StreamRoundTrip` | crates/hd-frame-producer/src/windows.rs:415-469 | every sequence of well-formed messages is read back as itself and leaves nothing |
| `Redaction.FindKeyAssignment` | crates/hd-runtime/src/diagnostics.rs:494-510 | the scanning loop finds the first occurrence of the key with no word character on either side |
| `Redaction.RedactAssignment` | crates/hd-runtime/src/diagnostics.rs:459-492 | the loop over assignments masks exactly the values that `FindValues` lists |
| `Redaction.RedactBearerText` | crates/hd-runtime/src/diagnostics.rs:424-457 | the bearer loop and the eleven key passes compute `RedactText` |
| `Redaction.MaskBearersMasks` | crates/hd-runtime/src/diagnostics.rs:424-439 | after the bearer pass every "bearer " in any case is "Bearer " followed by the mask |
| `Redaction.PassMasksKey` | crates/hd-runtime/src/diagnostics.rs:459-510 | after the pass for a key, the value of every word-bounded assignment to it begins with the mask and ends there |
| `Redaction.PassReplacesOnlyValues` | crates/hd-runtime/src/diagnostics.rs:459-492 | a pass replaces whole values of assignments to its key by the mask; the rest of the text is kept, piece by piece |
| `Redaction.BearerPassReplacesOnlyTokens` | crates/hd-runtime/src/diagnostics.rs:424-439 | the bearer pass replaces markers with their whole tokens, and keeps the rest |
| `Redaction.PassKeepsKeys` | crates/hd-runtime/src/diagnostics.rs:440-456 | a later pass neither creates an assignment to an earlier key nor disturbs its mask |
| `Redaction.PassKeepsBearers` | crates/hd-runtime/src/diagnostics.rs:440-456 | a later pass neither creates a bearer marker nor disturbs its mask |
| `Redaction.RedactTextMasksEverything` | crates/hd-runtime/src/diagnostics.rs:424-457 | after all passes, every marker and every assignment to each of the eleven keys is masked, in every text |
| `Redaction.RedactTextFixes` | crates/hd-runtime/src/diagnostics.rs:424-457 | a text is left as it is if and only if everything in it is masked already |
| `Redaction.ChangesLeaveMask` | crates/hd-runtime/src/diagnostics.rs:424-457 | wherever redaction changes a text it leaves a mask in it |
| `Redaction.RedactTextIdempotent` | crates/hd-runtime/src/diagnostics.rs:424-457 | redacting twice is redacting once |
| `RedactionPieces.RedactTextSplits` | crates/hd-runtime/src/diagnostics.rs:424-510 | what stands in front of a quote, comma, semicolon or closing bracket, that included, and what stands behind it are redacted independently, in every text |
| `MaskedAssignments.EverythingIsMasked` | crates/hd-runtime/src/diagnostics.rs:424-510 | in every redacted text, taken apart into characters: behind each of the eleven keys in any case with no letter, digit or underscore around it, ASCII blanks, a colon or equals sign and white space, the mask stands and ends; and behind each "bearer " |
| `MaskedAssignments.MaskedTextsAreFixed` | crates/hd-runtime/src/diagnostics.rs:424-510 | exactly the texts of which that holds are left as they are |
| `MaskedAssignments.AssignmentIsMasked` | crates/hd-runtime/src/diagnostics.rs:459-510 | an assignment behind a front without separators and markers comes back with its token replaced by the mask and everything else as it was |
| `MaskedAssignments.DelimitedAssignmentIsMasked` | crates/hd-runtime/src/diagnostics.rs:424-510 | the same between any two delimiters of any text, whatever stands around them |
| `MaskedAssignments.TokenIsMasked` | crates/hd-runtime/src/diagnostics.rs:424-439 | a bearer token behind such a front comes back as "Bearer <redacted>" |
| `MaskedAssignments.KeyInsideValueIsLost` | crates/hd-runtime/src/diagnostics.rs:440-492 | a text in which a token stays, because its key is the value of an earlier key |
| `DiagnosticRecords.ReplaceIgnoringCase` | crates/hd-runtime/src/diagnostics.rs:518-531 | the replacement loop replaces the leftmost disjoint occurrences; an empty needle changes nothing |
| `DiagnosticRecords.ReplaceRemovesExactly` | crates/hd-runtime/src/diagnostics.rs:518-531 | a root without angle brackets is gone from every text if and only if it is not part of the placeholder |
| `PrivateRoots.RootsAreRemovedExactly` | crates/hd-runtime/src/diagnostics.rs:414-419 | any roots without angle brackets are gone from every redacted string if and only if none is part of the placeholder, and either none is part of the mask or each marker and each key with its separator holds one |
| `PrivateRoots.RootIsRemovedExactly` | crates/hd-runtime/src/diagnostics.rs:414-419 | a single such root is gone from every redacted string if and only if neither placeholder holds it |
| `DiagnosticRecords.RedactStringCleans` | crates/hd-runtime/src/diagnostics.rs:414-419 | a redacted string is masked throughout and free of every private root, across all replacements and passes |
| `DiagnosticRecords.RedactJsonCleans` | crates/hd-runtime/src/diagnostics.rs:389-422 | at every depth sensitive members are the mask and all other strings are clean, and the structure is kept |
| `RecordMembers.ObjectIsRedacted` | crates/hd-runtime/src/diagnostics.rs:389-407 | a redacted object keeps its members in order; the value of each whose name holds one of seven words, or is "authorization", in any case, becomes the mask, and every other value is redacted itself |
| `RecordMembers.OtherValuesAreRedacted` | crates/hd-runtime/src/diagnostics.rs:408-422 | arrays are redacted item by item, strings as strings, and other values are kept |
| `RecordMembers.ReplaceGoesOn` | crates/hd-runtime/src/diagnostics.rs:518-531 | the first occurrence of a root, in any case, becomes "<user-profile>" and the text behind it is treated in the same way |
| `RecordMembers.ReplaceKeeps` | crates/hd-runtime/src/diagnostics.rs:518-531 | a text without the root is kept, and so is every text under an empty root |
| `RecordMembers.StringIsRedacted` | crates/hd-runtime/src/diagnostics.rs:414-419 | the roots are replaced one after the other, then the text passes run |
| `DiagnosticRecords.RedactJsonIdempotent` | crates/hd-runtime/src/diagnostics.rs:389-422 | for any list of roots without angle brackets that neither placeholder holds, redacting a JSON value twice is redacting it once |
| `RepeatedRedaction.RedactionIdempotentExactly` | crates/hd-runtime/src/diagnostics.rs:389-422 | with one root without angle brackets, redacting twice is redacting once for every JSON value if and only if neither placeholder holds the root |
| `DiagnosticFiles.RedactTextRecords` | crates/hd-runtime/src/diagnostics.rs:533-554 | the loop over records redacts each of them and joins the results |
| `DiagnosticFiles.RecordsAreClean` | crates/hd-runtime/src/diagnostics.rs:533-554 | every record of a redacted file is one clean line, and all but the last end their line |
| `DiagnosticFiles.FirstLineIsRedacted` | crates/hd-runtime/src/diagnostics.rs:533-554 | a line is redacted on its own, as JSON if it is some and as a string otherwise; carriage returns in front of its newline are dropped, and the rest of the file is treated in the same way |
| `DiagnosticFiles.LastLineIsRedacted` | crates/hd-runtime/src/diagnostics.rs:533-554 | the same for a last line without a newline |
| `DiagnosticFiles.EnforceTotalLimit` | crates/hd-runtime/src/diagnostics.rs:556-568 | the retain loop keeps files in order and notes each one that does not fit any more |
| `DiagnosticFiles.SelectionExactly` | crates/hd-runtime/src/diagnostics.rs:556-568 | the kept files fit, and nothing is omitted if and only if all files fit together |
| `DiagnosticFiles.SelectionIsGreedy` | crates/hd-runtime/src/diagnostics.rs:556-568 | a file is kept if and only if it fits 63 MiB together with the kept files in front of it, also behind one that was omitted; the others are noted in order |
| `DiagnosticFiles.MarksAreUnique` | crates/hd-runtime/src/diagnostics.rs:556-568 | there is only one choice of files like that |
| `CommandMatcher.LocationBridge.Drain` | crates/hd-device-sim/src/main.rs:377-387 | the inner loop answers and removes the leftmost disjoint commands of the pending bytes |
| `CommandMatcher.LocationBridge.Receive` | crates/hd-device-sim/src/main.rs:373-392 | after each read the replies are those of the whole stream so far and at most 64 bytes are kept |
| `CommandMatcher.Serve` | crates/hd-device-sim/src/main.rs:371-392 | however the stream is cut into reads of 1 to 64 bytes, the replies are the leftmost disjoint commands in it; trimming loses none |
| `CommandMatcher.CommandsAreCounted` | crates/hd-device-sim/src/main.rs:24-24 | the command cannot overlap itself, so the count is the number of all positions at which the text "CMD_GET_LOCATION" stands |
| `Streams.ServeAgrees` | crates/hd-peripheral-adapters/src/lib.rs:386-410 | for every extensible reader and machine, a chunked service that does not fail ends as the digest of the whole stream; one that fails on an item ends in the digest's state with its failure; what a failing service has sent, on an item or at the limit, is a front part of the digest's output |
| `Streams.SendsAlikeExactly` | crates/hd-peripheral-adapters/src/lib.rs:386-410 | for streams within the limit, what is sent is independent of the cuts if and only if the stream does not fail or has nothing to send before it fails |
| `UwbAdapter.FramesAreExtensible` | crates/hd-peripheral-adapters/src/lib.rs:447-468 | later bytes change neither a complete frame nor a rejected one, and a frame consumes at least its header |
| `UwbAdapter.ControlFramesAreRead` | crates/hd-peripheral-adapters/src/lib.rs:447-468 | a control packet is four bytes and as many as the fourth says, whatever follows |
| `UwbAdapter.DataFramesAreRead` | crates/hd-peripheral-adapters/src/lib.rs:447-468 | a data packet has a 16-bit length; over 65532 bytes it is rejected |
| `UwbAdapter.SupportedExactly` | crates/hd-peripheral-adapters/src/lib.rs:588-665 | fifteen pairs of group and opcode are answered, two of them only with five bytes of payload, and nothing else is |
| `UwbRequests.ReadingCommands` | crates/hd-peripheral-adapters/src/lib.rs:588-665 | ten commands leave the session alone: response by response, in bytes |
| `UwbRequests.SessionCommands` | crates/hd-peripheral-adapters/src/lib.rs:607-640 | init, deinit and configuration: the new session, the response and the status notification, in bytes |
| `UwbRequests.RangeStartCommand` | crates/hd-peripheral-adapters/src/lib.rs:508-539 | starting to range raises both counters and sends status and range data, in bytes |
| `UwbRequests.RangeStopCommand` | crates/hd-peripheral-adapters/src/lib.rs:650-654 | stopping only changes and reports the state |
| `UwbAdapter.AnswerShape` | crates/hd-peripheral-adapters/src/lib.rs:588-669 | a supported request is answered by one response with its own group and opcode and exactly the notifications that belong to it, all well formed |
| `UwbAdapter.AnswerReadsBack` | crates/hd-peripheral-adapters/src/lib.rs:492-669 | the bytes of every answer are taken apart into exactly its packets with nothing left over |
| `UwbAdapter.CountersOnTheWire` | crates/hd-peripheral-adapters/src/lib.rs:515-539 | range notifications and ranging counts carry the session's counters and token |
| `UwbAdapter.CountersCountStarts` | crates/hd-peripheral-adapters/src/lib.rs:588-669 | over every run without a refused request, from any session with counters at zero, sequence number and ranging count agree and are the range starts since the last session init modulo 2^32 |
| `UwbAdapter.ChannelFollowsStream` | crates/hd-peripheral-adapters/src/lib.rs:383-410 | however the guest's bytes are cut, session and failure at the end are those of the whole stream unless the limit stops the channel; the responses are the same without a failure, and a front part of those to the frames before it with one |
| `UwbAdapter.ChannelSendsAlikeExactly` | crates/hd-peripheral-adapters/src/lib.rs:392-404 | for streams of at most 64 KiB, what is sent is independent of the cuts if and only if no frame is rejected or refused, or the first one is |
| `UwbAdapter.ChannelCutsAgree` | crates/hd-peripheral-adapters/src/lib.rs:383-410 | for streams of any length, two cuts that stay within the limit end in the same session with the same failure, and send the same under that condition |
| `UwbAdapter.OneReadLosesAnswer` | crates/hd-peripheral-adapters/src/lib.rs:392-404 | a supported and an unsupported command: in one read nothing is answered, in two reads the first is |
| `UwbAdapter.LongInputEndsChannel` | crates/hd-peripheral-adapters/src/lib.rs:393-399 | more than 64 KiB of pending bytes end the channel without an answer |
| `UwbAdapter.EncodePacket` | crates/hd-peripheral-adapters/src/lib.rs:492-506 | the packet bytes, and refusal exactly of payloads over 255 bytes |
| `UwbAdapter.UwbSession.Respond` | crates/hd-peripheral-adapters/src/lib.rs:588-669 | one request: new session, output bytes, and an untouched session when it is refused |
| `UwbAdapter.GuestChannel.Receive` | crates/hd-peripheral-adapters/src/lib.rs:393-403 | one read: every complete frame is answered in order, within the limit |
| `ModemLines.ModemChannel.TakeResponses` | crates/hd-peripheral-adapters/src/lib.rs:312-325 | searching the last separator and splitting before it gives what reading line by line gives |
| `ModemLines.ModemIgnoresChunking` | crates/hd-peripheral-adapters/src/lib.rs:277-325 | the replies do not depend on the payloads' boundaries, and exactly the bytes after the last separator are kept; a channel that its limit stops has sent a front part of them |
| `ModemLines.CommandsAreAnswered` | crates/hd-peripheral-adapters/src/lib.rs:290-325 | commands that end with a carriage return or a line feed, cut in any way: each that is not empty is replied to in order, and what follows the last end is kept |
| `ModemLines.LongCommandsEndChannel` | crates/hd-peripheral-adapters/src/lib.rs:290-297 | more than 64 KiB of pending bytes end the channel |
| `SensorFrames.SensorBridge.TakeListRequests` | crates/hd-device-sim/src/sensor_bridge.rs:105-137 | the draining loops find the frames, and once a header is implausible the lines |
| `SensorFrames.SameHoweverCutExactly` | crates/hd-device-sim/src/sensor_bridge.rs:105-137 | what is found and kept is independent of the cuts if and only if no byte follows the first implausible header |
| `SensorFrames.FramesAreFound` | crates/hd-device-sim/src/sensor_bridge.rs:105-137 | in every sequence of plausible frames each list request is found, in order, under every cut, and nothing is left |
| `SensorRequests.HeadersAreBelieved` | crates/hd-device-sim/src/sensor_bridge.rs:105-125 | a header is believed if and only if its command fits 16 bits next to the highest bit and its size 1 MiB; byte by byte |
| `SensorRequests.FramedRequestsAreCounted` | crates/hd-device-sim/src/sensor_bridge.rs:105-130 | however frames are cut, one true is reported for each list request among them, and nothing else |
| `SensorRequests.LinesAreCounted` | crates/hd-device-sim/src/sensor_bridge.rs:126-137 | behind an implausible header one false is reported for each line that is a list request, and the unfinished line is kept |
| `SensorRequests.HostFrameBytes` | crates/hd-device-sim/src/sensor_bridge.rs:146-161 | the eight bytes in front of a payload of the host |
| `SensorFrames.HostFrameReadsBack` | crates/hd-device-sim/src/sensor_bridge.rs:146-161 | the header the host writes is accepted with its payload exactly up to 1 MiB |
| `SensorFrames.WritePayload` | crates/hd-device-sim/src/sensor_bridge.rs:146-161 | the bytes written with and without a header, and refusal exactly of lengths over 32 bits |
| `H4Packets.ReadH4Packet` | crates/hd-rootcanal-adapter/src/main.rs:765-794 | the four exact reads deliver the packet and consume its bytes, or fail with the error that belongs to the defect |
| `H4Packets.PacketsRoundTripExactly` | crates/hd-rootcanal-adapter/src/main.rs:693-794 | a written sequence of packets is read back, consuming every byte, if and only if all of them are well formed |
| `H4Packets.ShortPacketsAreRead` | crates/hd-rootcanal-adapter/src/main.rs:765-794 | types 1 and 3: two bytes, the length of the body, the body, whatever follows |
| `H4Packets.DataPacketsAreRead` | crates/hd-rootcanal-adapter/src/main.rs:765-794 | type 2: two bytes, a 16-bit length, the body; over 65535 bytes it is rejected |
| `H4Packets.IsochronousPacketsAreRead` | crates/hd-rootcanal-adapter/src/main.rs:765-794 | type 5: the same with 14 bits of length |
| `H4Packets.OtherTypesAreRejected` | crates/hd-rootcanal-adapter/src/main.rs:771-775 | no other type is read |
| `H4Packets.PartOfPacketWaits` | crates/hd-rootcanal-adapter/src/main.rs:765-794 | no proper part of a packet is read or rejected |
| `H4Packets.PacketsAreExtensible` | crates/hd-rootcanal-adapter/src/main.rs:765-794 | packets and rejections do not depend on how the bytes arrive |
| `GattServer.AttRoundTrip` | crates/hd-rootcanal-adapter/src/main.rs:557-651 | every PDU that is sent passes all length checks of the receiver and is received with its handle; the ACL length is true if and only if it has at most 65531 bytes |
| `GattAnswers.PacketBytes` | crates/hd-rootcanal-adapter/src/main.rs:639-651 | the eight bytes in front of a PDU that is sent |
| `GattAnswers.PacketIsReceived` | crates/hd-rootcanal-adapter/src/main.rs:557-574 | which packets are received, with what handle and what part of their bytes |
| `GattServer.ResponseFitsMtu` | crates/hd-rootcanal-adapter/src/main.rs:576-637 | no response exceeds 247 bytes, whatever the name |
| `GattServer.RequestAnswered` | crates/hd-rootcanal-adapter/src/main.rs:557-651 | a request packet is answered on its own connection with exactly the server's response, or not at all if there is none |
| `GattAnswers.ExchangeMtu` | crates/hd-rootcanal-adapter/src/main.rs:576-580 | the MTU is 247 |
| `GattAnswers.ReadName` | crates/hd-rootcanal-adapter/src/main.rs:605-615 | handle 3 gives up to 246 bytes of the name, every other handle an error |
| `GattAnswers.FindInformationBytes` | crates/hd-rootcanal-adapter/src/main.rs:581-595 | the answer from each handle on, in bytes |
| `GattAnswers.ReadByTypeBytes` | crates/hd-rootcanal-adapter/src/main.rs:596-604 | the same for reading by type |
| `GattAnswers.ReadByGroupTypeBytes` | crates/hd-rootcanal-adapter/src/main.rs:616-624 | the same for reading by group type |
| `GattAnswers.WritesAndCommands` | crates/hd-rootcanal-adapter/src/main.rs:625-631 | writes are refused; commands, confirmations and empty PDUs get no answer |
| `GattAnswers.OtherRequests` | crates/hd-rootcanal-adapter/src/main.rs:625-632 | every other or short request is not supported |
| `GattServer.FindInformationExactly` | crates/hd-rootcanal-adapter/src/main.rs:581-595 | when the answer to Find Information is the specified one over the attribute table |
| `GattServer.ReadByTypeExactly` | crates/hd-rootcanal-adapter/src/main.rs:596-604 | when the answer to Read By Type is the specified one |
| `GattServer.ReadByGroupTypeExactly` | crates/hd-rootcanal-adapter/src/main.rs:616-624 | when the answer to Read By Group Type is the specified one |
| `GattServer.ServicesDiscovered` | crates/hd-rootcanal-adapter/src/main.rs:616-624 | a discovering client terminates with exactly the services of the table in its range |
| `GattServer.CharacteristicsDiscoveredExactly` | crates/hd-rootcanal-adapter/src/main.rs:596-604 | over a range that starts at 1 or later and is not empty, a discovering client ends with exactly the characteristics in the range if and only if the range does not end in front of handle 2 |
| `Type2Tag.BuildMemory` | crates/hd-casimir-adapter/src/main.rs:534-561 | the build succeeds if and only if the message has at most 1003 bytes, and fills the 1024 bytes with header, TLV, terminator and zeros |
| `Type2Tag.HandleCommand` | crates/hd-casimir-adapter/src/main.rs:563-592 | the reply and the whole new memory of every command |
| `Type2Tag.AcknowledgedExactly` | crates/hd-casimir-adapter/src/main.rs:571-579 | a write is acknowledged if and only if it is carried out; otherwise nothing changes |
| `Type2Tag.FastReadGivesPages` | crates/hd-casimir-adapter/src/main.rs:566-570 | a fast read gives the named pages, both ends included |
| `Type2Tag.ReadBytes` | crates/hd-casimir-adapter/src/main.rs:563-592 | a read gives sixteen bytes or what is left |
| `Type2Tag.FastReadBytes` | crates/hd-casimir-adapter/src/main.rs:566-570 | a fast read in bytes, also with its pages the wrong way round |
| `Type2Tag.WriteBytes` | crates/hd-casimir-adapter/src/main.rs:571-579 | a write changes its four bytes in every page but the first four |
| `Type2Tag.OtherCommands` | crates/hd-casimir-adapter/src/main.rs:563-592 | version, signature, and everything that is refused |
| `Type2Tag.ImageBytes` | crates/hd-casimir-adapter/src/main.rs:534-561 | the memory of a fresh tag, byte by byte |
| `Type2Tag.PagesHoldLastWrite` | crates/hd-casimir-adapter/src/main.rs:563-592 | after every run each page holds what was last written to it, or what it held before |
| `Type2Tag.HeaderIsReadOnly` | crates/hd-casimir-adapter/src/main.rs:571-579 | no run changes the first 16 bytes |
| `Type2Tag.NdefReadsBack` | crates/hd-casimir-adapter/src/main.rs:534-592 | READ commands over all pages and a TLV parser recover exactly the message, alone and in front of the terminator |
| `Type4Tag.Tag.HandleCommand` | crates/hd-casimir-adapter/src/main.rs:594-633 | the reply and the selection after every command |
| `Type4Tag.SucceedsExactly` | crates/hd-casimir-adapter/src/main.rs:594-633 | which commands report success |
| `Type4Tag.SelectBytes` | crates/hd-casimir-adapter/src/main.rs:594-606 | selecting by name, by the identifiers E103 and E104, and by any other |
| `Type4Tag.ReadBytes` | crates/hd-casimir-adapter/src/main.rs:607-631 | reading the selected file, in bytes, up to its end and behind it |
| `Type4Tag.NothingToRead` | crates/hd-casimir-adapter/src/main.rs:607-626 | without a selected file a read is refused |
| `Type4Tag.FileBytes` | crates/hd-casimir-adapter/src/main.rs:607-642 | the two files, byte by byte |
| `Type4Tag.OtherCommands` | crates/hd-casimir-adapter/src/main.rs:594-633 | everything else is not supported |
| `Type4Tag.LastSelectionHolds` | crates/hd-casimir-adapter/src/main.rs:598-606 | after every run the file last selected is selected; failures do not change it |
| `Type4Tag.ContainerDescribesFile` | crates/hd-casimir-adapter/src/main.rs:635-642 | the container announces its 15 bytes, and the size of the file if and only if the message has at most 65533 bytes |
| `Type4Tag.TilesGiveFile` | crates/hd-casimir-adapter/src/main.rs:608-631 | however a file is tiled with reads, each succeeds and their data put together is the file |
| `Type4Tag.NdefReadsBack` | crates/hd-casimir-adapter/src/main.rs:594-633 | selecting the NDEF file in any state and reading it in tiles recovers the message; its length field is right if and only if the length fits it |
| `ProcessTree.Descendants` | crates/hd-platform/src/windows.rs:362-374 | the fixpoint loop terminates with exactly the root and all processes with a chain of parents to it, for every table of links, cyclic or not, and every order |
| `Lifecycle.BootOrder` | crates/hd-core/src/state.rs:63-107 | a run from a state without a guest to a running guest passes worker start, guest launch, display negotiation and guest boot in this order |
| `Lifecycle.DeletedWhenInactive` | crates/hd-core/src/state.rs:38-107 | a run that ends in deletion turned to it in a state without a worker and never left it again |
| `Lifecycle.DeletedIsFinal` | crates/hd-core/src/state.rs:63-107 | once deleted, always deleted |
| `Lifecycle.NoDeadEnds` | crates/hd-core/src/state.rs:63-107 | from every state an instance can be deleted in at most three transitions |
| `Lifecycle.EnteredExactly` | crates/hd-core/src/state.rs:63-107 | out of which states each state is entered |
| `Lifecycle.InstanceStatus.Transition` | crates/hd-core/src/state.rs:143-161 | exactly the permitted transitions are taken; a refused one changes nothing; the revision is the number of changes cut off at 64 bits |
| `Lifecycle.InstanceStatus.SetDesired` | crates/hd-core/src/state.rs:135-141 | only a new wish is a change, and it leaves the observed states alone |
| `RuntimeNumbers.RateExactly` | crates/hd-runtime/src/adb.rs:1464-1493 | a rate is recognised as k if and only if it is well formed, its checked steps fit in 64 bits, and value times unit is the integer k |
| `RuntimeNumbers.RatesByUnit` | crates/hd-runtime/src/adb.rs:1464-1493 | kbit, mbit and gbit in any case stand for 1, 1000 and 1000000 kilobits, and no other unit is read |
| `RuntimeNumbers.RateFieldIsNamed` | crates/hd-runtime/src/adb.rs:1165-1173 | the field that counts is the first one spelled "rate", in any case |
| `RuntimeNumbers.NetemRateKbps` | crates/hd-runtime/src/adb.rs:1165-1173 | the rate is read from the field behind the first one named "rate" |
| `RuntimeNumbers.NetemLoss` | crates/hd-runtime/src/adb.rs:1153-1163 | the percentage denotes exactly the basis points for every u16, in its shortest form |
| `RuntimeNumbers.MicrounitsReadBack` | crates/hd-device-sim/src/sensor_bridge.rs:63-72 | every i64 reads back from its text, the minimum included |
| `RuntimeNumbers.LandscapeDensityExactly` | crates/hd-runtime/src/adb.rs:354-365 | the density keeps the tablet layout and is the largest that does, up to saturation |

## Left out

- RedactJson: modelled on values, while the code rewrites the value in place; aliasing cannot arise in either.
- RootsAreRemovedExactly: says nothing about roots with angle brackets, which no Windows path contains.
- RedactJsonIdempotent: gives one direction for several roots; the exact condition is proved for one (`RedactionIdempotentExactly`), and neither speaks of roots with angle brackets.
- ChannelCutsAgree: beyond 64 KiB there is no run over the uncut stream to compare with, so the condition is sufficient only.
- ReadingCommands: the capability entries of the adapter are one constant, repeated and not interpreted.
- AssignmentIsMasked: for fronts with assignments of their own the result is stated between delimiters only; where it fails is shown by one text.
- RecordsAreClean: idempotence of whole files is not stated, because a text line can become JSON once a root in it is replaced.
- Select: file contents are sizes; hashing, archives and retention of old bundles are not part of this model.
- FrameBroker: pipe failures while a response is written end the session in the code and are not part of this model; launch paths and marker contents are checked by opaque functions.
- Vulkan: whether an adapter opens and an image imports are inputs, and so is the presence of the marker file.
- ModemLines: the table of replies to AT commands is a parameter; the framing of the vsock pipe is left out.
- SensorBridge: what counts as a list request is a parameter, because it depends on Unicode trimming; report timing is left out.
- LocationBridge: the text of the location reply and the simulator lock.
- GattServer: the controllers themselves, advertising data and the forwarding of link-layer events between peers, which would only add single-branch facts.
- Type 2 and Type 4 tags: polling, anti-collision and the RF packets that carry the commands.
- ProcessTree: taking the snapshot.
- Lifecycle: forced reconciliation, which bypasses the transition relation on purpose; timestamps are a parameter.
- RuntimeNumbers: splitting the shaper's report into fields, and portrait displays, whose density is passed through.
- Named pipes, sockets, timeouts, retries, identifiers, tokens and logging.
