# Relay One in Dafny

Relay One is a mail server with tasks and an assistant around it. This project models the
parts of its server that hold an algorithm or a protocol of their own and proves what they
keep. Code that changes state step by step is a method or a class, proved against a function;
the results are lemmas about those functions, over all inputs, all runs or all interleavings.
`dafny verify dfyconfig.toml` checks everything.

| module | what it models |
|---|---|
| Bytes, Utf8, Text | little-endian numbers, UTF-8 with lossy decoding, the string operations of Rust's library |
| Crc32, Zip | the table-driven CRC-32 and the hand-written ZIP writer, with a reader |
| CircuitBreaker, AiClient, Prompt | the breaker, its callers behind a one-permit semaphore as a state machine, the prompt limit |
| StreamLines | reassembly of the model's event stream from network chunks |
| Sessions | the bounded chat transcript |
| Agent | the tool loop |
| Mbox, Mailto, Unsubscribe | the mbox reader, mailto URIs, the List-Unsubscribe header |
| MailMove, MoveRuns | moving mail: the handlers on index, archive and queue, and all their interleavings with the worker and the sync |
| MailSync | what the sync writes into index and archive |
| Migrate | the resumable folder copy |
| Todos, Labels, Dedupe | the task table, label consolidation, merging duplicates |
| Senders | mails grouped by sender |
| QuickAdd | one line of text as a task |

## Findings

Where the code does not do what its comments or its design promise, the model follows the
code and a lemma says exactly when the promise holds.

- The ZIP central record has 44 fixed bytes, not the 46 of APPNOTE 4.3.12 (external attributes
  are written as 2 bytes). A reader of the code's layout recovers everything (`Zip.RoundTrip`);
  one of the standard layout, which also compares local name and checksum, does not get the
  files back unless there are none (`Zip.StandardLayoutIff`).
- The breaker's comment promises one probe; a second one is let through
  (`CircuitBreaker.TwoAreAdmitted`), never a third. When the promise is kept:
  `CircuitBreaker.OneProbeExactlyWhen`, `AiClient.OneProbeExactlyWhen`.
- The breaker can stick in half-open until a user resets it. Exactly when:
  `AiClient.LatchesExactlyWhen`. It happens when the agent's time limit drops the probes, and
  also without any cancellation (`AiClient.LateLeaveLatches`).
- The check before a hard delete looks for the Message-ID anywhere in the fetched header part.
  A reply that quotes it passes, its text is filed as the mail, and the mail itself is deleted
  for good (`MoveRuns.MailCanBeLost`; exactly when: `MoveRuns.UnarchivedDeletion`). Comparing
  the fetched mail's own Message-ID would make the moves safe (`MoveRuns.OwnIdLosesNothing`).
- The sync can make a row name another mail's file, and then a move deletes a mail that no file
  holds, without fetching anything and whatever the check. Caching a mail onto a row of its number
  keeps the row's file (`MailSync.CachedRowLosesAMail`; exactly when: `MailSync.CachingIsSafeIff`);
  the backfill names the file and writes the rows by number, in all folders
  (`MailSync.BackfillLosesAMail`; exactly when: `MailSync.BackfillIsSafeIff`).
- A mail moved into the folder it is in loses its index row, and so does a mail without a
  Message-ID when the target has another one without: the sync stores "" for it, and the
  duplicate rule takes the two for one (`MailMove.RowIsDroppedIff`; when the mail is still in the
  index: `MailMove.MovedIsShown`).
- Without a Message-ID another mail's file can justify the deletion. Exactly when:
  `MailMove.NumberedMailTrustsTheNumber`. With the rule above such a mail can lose its row and be
  deleted for good without ever being archived (`MailMove.BlankIdsAreDuplicates`).
- Merging tasks deletes and writes by uid, which is unique only within a calendar: other tasks
  of the uid are deleted or overwritten along (`Dedupe.SharedUidLosesBoth`,
  `Dedupe.LoneTaskIsDeleted`; exactly when: `Dedupe.UidSurvivesIff`, `Dedupe.RunIsFateIff`).
- Consolidating labels writes by uid too: the last task of a shared uid overwrites the labels of
  the others (`Labels.SharedUidLosesALabel`; exactly when: `Labels.RunMeetsItsAimIff`). Then a
  theme can be left with too few tasks, and a second run goes on changing them
  (`Labels.SecondRunGoesOn`; exactly when: `Labels.SecondRunIdleIff`).
- A folder copy with limit 0 can be repeated forever (`Migrate.LimitZero`).
- A mailto URI may leave "+" as it is (section 2 of RFC 6068); in subject and body it is read as a
  space. Exactly when that matters: `Mailto.RoundTripIff`.
- A stream chunk that ends inside a character garbles it (`StreamLines.CutInsideCharacter`;
  exactly when: `Utf8.CutKeepsTextIff`, `StreamLines.ChunksKeepTextIff`).
- A stream whose connection breaks is sent again from its beginning (`StreamLines.RetryRepeats`;
  exactly when the caller sees the complete answer and nothing else: `StreamLines.SentOnceIff`),
  and one whose last attempt meets status 429 ends without any error
  (`StreamLines.EndsSilentlyIff`).
- The transcript's budget counts bytes, its comment says characters
  (`Sessions.UmlautsLoseAMessage`; exactly when it matters: `Sessions.BytesKeepAsMuchIff`).
- Quick-add: a date after a time clears the mark that a time was given, and a weekday recurrence
  after it puts the task at midnight but leaves the mark (`QuickAdd.FridayAtMidnight`; exactly
  when: `QuickAdd.MarkMisleadsIff`); "in N" swallows the next word, unit or not
  (`QuickAdd.DateOfThreeIff`, `QuickAdd.SwallowsAWordIff`); a large N stops the program although
  the parser is said never to fail (`QuickAdd.LargeNumberLeavesCalendar`; exactly when:
  `QuickAdd.Parse`); the documented "/Section" token stays in the title
  (`QuickAdd.SectionIsAWord`).

## Model

| member | source | states |
|---|---|---|
| Crc32.Compute | server/src/api/export.rs:264-278 | The table-driven loop returns the bit-serial reflected CRC-32 (section 8 of RFC 1952) of every byte sequence. |
| Crc32.FillTable | server/src/api/export.rs:265-272 | Entry k of the table is byte k after eight conditional shift-and-xor steps. |
| Crc32.EightSteps | server/src/api/export.rs:275 | Eight bit steps on any word equal one lookup on its low byte xor the word shifted by a byte. |
| Crc32.ByteByTable | server/src/api/export.rs:274-276 | One pass of the byte loop is eight steps of the serial register fed with that byte. |
| Crc32.SerialConcat | server/src/api/export.rs:274-276 | Checking two bit streams one after the other is checking their concatenation. |
| Crc32.BurstSeparates | server/src/api/export.rs:264-278 | Two different stretches of at most 32 bits, fed to the same register, leave different registers. |
| Crc32.BurstDetected | server/src/api/export.rs:264-278 | Two messages that differ only inside 32 consecutive bits never have the same checksum. |
| Crc32.GeneratorIs | server/src/api/export.rs:269 | The generator has exactly the powers of section 8 of RFC 1952, reflected. |
| Crc32.PresetAndComplement | server/src/api/export.rs:273-277 | The register starts with all bits set and the checksum is its complement. |
| Zip.ZipWriter.constructor | server/src/api/export.rs:196-198 | A new writer is valid and has written nothing. |
| Zip.ZipWriter.AddFile | server/src/api/export.rs:201-245 | Output, count, central directory and position are those of all files so far plus this one; 16- and 32-bit fields wrap. |
| Zip.ZipWriter.Finish | server/src/api/export.rs:247-261 | The whole output is local entries, central directory and end record of exactly the files added, in order. |
| Zip.RecordAt | server/src/api/export.rs:223-243 | The i-th central record stands where a reader looks for it and its stored offset is the start of the i-th local header. |
| Zip.LocalAt | server/src/api/export.rs:204-220 | At the i-th stored offset stand the i-th local header, its name and its bytes. |
| Zip.EntriesAreStored | server/src/api/export.rs:204-242 | Every local header and every central record hold, field by field, what a stored entry must say: version 2.0, no flag, method 0, checksum, both sizes, name, no extra field; and the bytes follow the local header. |
| Zip.RoundTrip | server/src/api/export.rs:201-261 | A reader that follows end record, central records and offsets gets back every name and content in order. |
| Zip.RoundTripIff | server/src/api/export.rs:216 | Within the 32-bit limits the round trip succeeds exactly when the count and every name length fit 16 bits. |
| Zip.StandardLayoutIff | server/src/api/export.rs:225-240 | A reader of the standard 46-byte central record (APPNOTE 4.3.12) gets the files back if and only if there are none: the code writes 44 bytes. |
| Zip.EndRecordTells | server/src/api/export.rs:247-261 | The end record stands at the end and says field by field: one disk, the number of files twice, length and start of the directory, no comment. |
| Zip.DamageDetected | server/src/api/export.rs:203-220 | Damage to one stored file inside 32 consecutive bits makes the reader refuse the archive. |
| CircuitBreaker.CircuitBreaker.AllowRequest | server/src/ai/circuit_breaker.rs:52-80 | The new state and the answer are those of the transition table, for every state and clock. |
| CircuitBreaker.CircuitBreaker.RecordSuccess | server/src/ai/circuit_breaker.rs:83-88 | Closed, no failures, no permission, the settings kept. |
| CircuitBreaker.CircuitBreaker.Reset | server/src/ai/circuit_breaker.rs:91-97 | The same state as after a success. |
| CircuitBreaker.CircuitBreaker.RecordFailure | server/src/ai/circuit_breaker.rs:100-133 | Failures pruned to the window, opened from half-open or at the threshold. |
| CircuitBreaker.PrunedListIsWindow | server/src/ai/circuit_breaker.rs:100-133 | After every run under a monotone clock the pruned list is the full history since the last success or reset, restricted to the window; closed means fewer than the threshold. |
| CircuitBreaker.OpensExactlyAtThreshold | server/src/ai/circuit_breaker.rs:100-132 | In every state: a failure opens the circuit, from its own time on, if and only if the circuit was half-open or three failures since the last success or reset lie in the window; else the circuit stays as it was. |
| CircuitBreaker.SuccessCloses | server/src/ai/circuit_breaker.rs:83-97 | After a success or a reset, in whatever state, the circuit is closed without failures, and every call is let through until the next failure. |
| CircuitBreaker.PermissionOnlyHalfOpen | server/src/ai/circuit_breaker.rs:52-133 | Over every run the permission for a second call is there only while the circuit is half-open. |
| CircuitBreaker.AtMostTwo | server/src/ai/circuit_breaker.rs:58-79 | Between an opening and the next outcome or reset at most two calls are let through, none before the reset timeout. |
| CircuitBreaker.TwoAreAdmitted | server/src/ai/circuit_breaker.rs:60-74 | Two calls after the timeout are both let through: the one that changes the state and one more. |
| CircuitBreaker.OneProbeExactlyWhen | server/src/ai/circuit_breaker.rs:58-79 | Between an opening and the next outcome or reset: the promised single probe is kept if and only if every call but the last one asked before the timeout was over; nobody gets through if and only if all did. |
| AiClient.CompleteUser | server/src/ai/client.rs:129-158 | The breaker sees one question and, exactly when the call was admitted and got the permit, one outcome; the result is the rejection, the busy error or the reply, in that order. |
| AiClient.CompleteBackground | server/src/ai/client.rs:183-222 | The same discipline, but a busy model means no result at all. |
| AiClient.TraceRuns | server/src/ai/client.rs:129-158 | What one undisturbed call does to the breaker is one run of its events. |
| AiClient.LatchesExactlyWhen | server/src/ai/client.rs:112-158 | A step makes the breaker stick in half-open if and only if the last caller who owes an outcome leaves or is cancelled while the permission is used up. |
| AiClient.NeverLatches | server/src/ai/client.rs:129-158 | In every interleaving without cancellation, where callers give up only while the holder is still at work, the breaker never sticks. |
| AiClient.LatchedUntilReset | server/src/ai/circuit_breaker.rs:72-78 | A stuck breaker lets nobody through, however long the run, until a user resets it. |
| AiClient.ProbesLatch | server/src/ai/client.rs:137-139 | Two admitted probes that go without an outcome leave the breaker stuck. |
| AiClient.CancellationLatches | server/src/ai/agent.rs:315 | A run in which the agent time limit drops two admitted calls and the breaker sticks. |
| AiClient.LateLeaveLatches | server/src/ai/client.rs:137-157 | A run without cancellation that sticks: a caller let through before the opening fails a minute later, and two callers give up between that recorded outcome and the release of its permit. |
| AiClient.InterleavingIsBreakerRun | server/src/ai/client.rs:129-158 | Every interleaving drives the breaker through a run of its own events. |
| AiClient.AtMostTwoAdmitted | server/src/ai/client.rs:137-139 | In every interleaving at most two callers are admitted between an opening and the next outcome, none before the timeout. |
| AiClient.OneProbeExactlyWhen | server/src/ai/client.rs:137-139 | The same two conditions in every interleaving, on the arrivals; the breaker is untouched exactly when nobody gets through. |
| Prompt.Truncate | server/src/ai/client.rs:590-611 | A prompt over the limit keeps its longest prefix of whole characters that fits, plus a note on top of the limit. |
| Utf8.CharRoundTrip | server/src/ai/client.rs:440 | Lossy decoding reads every encoded character back and consumes exactly its bytes. |
| Utf8.RoundTrip | server/src/ai/client.rs:440 | Lossy decoding inverts encoding on all text. |
| Utf8.OnlyEncodedIsRead | server/src/ai/client.rs:440 | A character is read only from its one encoding; all else gives replacement characters. |
| Utf8.CutKeepsTextIff | server/src/ai/client.rs:440 | Decoding the two parts of a cut text on their own gives the text back if and only if the cut is between two characters. |
| StreamLines.Reassemble | server/src/ai/client.rs:434-463 | The chunk loop of one response yields exactly the specified items and says whether it ended the stream ([DONE] or overflow). |
| StreamLines.StreamCompletion | server/src/ai/client.rs:403-476 | All attempts with their retries: what is yielded after refused, failed, broken and complete answers. |
| StreamLines.EndsSilentlyIff | server/src/ai/client.rs:396-476 | The caller sees neither an error nor an answer that ended the stream, if and only if every attempt was one to be retried and the last met status 429. |
| StreamLines.SentOnceIff | server/src/ai/client.rs:360-470 | After any retried attempts and a complete answer, the caller has seen that answer and nothing else if and only if no broken attempt had brought a complete line with content; the answer always comes last. |
| StreamLines.NothingStreamedIff | server/src/ai/client.rs:440-462 | Unless it was stopped, a response yields nothing if and only if no complete line of its decoded text carries content. |
| StreamLines.PrintedStreamIsRead | server/src/ai/client.rs:434-463 | What a server prints, payloads after "data: " with any white space at the line ends and blank lines between, then "data: [DONE]" and anything more, is read as exactly the contents of the payloads in order, and stops the stream. |
| StreamLines.StoppedIff | server/src/ai/client.rs:434-463 | The stream is stopped if and only if a buffer overflows or the whole text holds the end mark. |
| StreamLines.RetryRepeats | server/src/ai/client.rs:464-470 | An input: the connection breaks and the next attempt brings the whole answer, so all that was sent before is sent again. |
| StreamLines.DrainBuffer | server/src/ai/client.rs:445-462 | The find-newline-and-cut loop drains exactly the complete lines up to [DONE]. |
| StreamLines.DrainConcat | server/src/ai/client.rs:445-462 | Draining a text in two steps is draining it once, up to [DONE]. |
| StreamLines.StreamIsBatch | server/src/ai/client.rs:434-463 | With what was drained before, the rest of the stream is the batch result, or a prefix of it ended by the overflow error. |
| StreamLines.ChunksDoNotMatter | server/src/ai/client.rs:434-463 | For chunks cut between characters the stream equals splitting the whole text once, if and only if the buffer never overflows. |
| StreamLines.AnyTwoChunkings | server/src/ai/client.rs:434-463 | Two ways of cutting the same text between characters yield the same stream. |
| StreamLines.ChunksKeepTextIff | server/src/ai/client.rs:440 | Chunks of a text, decoded one by one, give the text back if and only if every chunk is text by itself. |
| StreamLines.AnyChunks | server/src/ai/client.rs:434-463 | For any chunks: the stream splits the text they decode to, if and only if no buffer overflows, and that is the text sent if and only if every chunk is text by itself. |
| StreamLines.CutInsideCharacter | server/src/ai/client.rs:440 | An input: the same bytes cut inside a character yield another line. |
| Sessions.Session.Append | server/src/ai/sessions.rs:75-107 | The stored list is the clamped message appended, cut to 20 messages, then shrunk from the front until the budget holds or one is left. |
| Sessions.BatchIsLongest | server/src/ai/sessions.rs:87-100 | Cutting a whole transcript once gives its longest suffix with at most 20 messages and 6000 bytes, or its last message. |
| Sessions.AppendKeepsLongest | server/src/ai/sessions.rs:75-107 | If the stored list is the longest allowed suffix, it is again after one more append. |
| Sessions.IncrementalIsBatch | server/src/ai/sessions.rs:75-107 | After any run of appends the stored list is what cutting the whole clamped transcript once would give. |
| Sessions.StoredWasSaid | server/src/ai/sessions.rs:75-86 | Every stored message was said, and is as it was or its first 2000 characters marked as cut. |
| Sessions.BytesKeepAsMuchIff | server/src/ai/sessions.rs:91-100 | After any run the stored list is what a budget of as many characters would keep if and only if that fits 6000 bytes too or is one message. |
| Sessions.UmlautsLoseAMessage | server/src/ai/sessions.rs:93 | An input: two messages of 2000 umlauts, 4000 characters, of which only the second is stored. |
| Mbox.Split | server/src/api/import.rs:508-538 | The line loop returns the messages of the specification, for every content. |
| Mbox.MessageCount | server/src/api/import.rs:513-537 | There are as many messages as lines that start with "From ". |
| Mbox.WriteRead | server/src/api/import.rs:508-538 | A written mbox reads back as each message with its lines read back one by one. |
| Mbox.LastLineIsKept | server/src/api/import.rs:513 | A last line without line feed is kept as it is, CR included; all others lose one CR. |
| Mbox.ReadBackKept | server/src/api/import.rs:526-531 | A written line reads back as itself if and only if it does not start with ">From " and does not end in CR. |
| Mbox.RoundTripIff | server/src/api/import.rs:508-538 | Writing separators and escapes (Appendix A of RFC 4155) and splitting returns the same messages if and only if no line is of those two kinds. |
| Mailto.DecodeBytes | server/src/api/unsubscribe.rs:66-83 | The decoding loop is the specification on every byte string, broken escapes included. |
| Mailto.UnescapedEscaped | server/src/api/unsubscribe.rs:66-83 | Decoding inverts every percent-encoder of section 2.1 of RFC 3986, byte for byte. |
| Mailto.DecodeEncode | server/src/api/unsubscribe.rs:66-83 | Decoding inverts encoding on all text. |
| Mailto.EscapeIff | server/src/api/unsubscribe.rs:66-83 | An escape is read with digits in either case, and only two hexadecimal digits make one. |
| Mailto.DecodeNeverGrows | server/src/api/unsubscribe.rs:66-83 | The decoded text never takes more bytes than the input, not even where broken escapes decode to replacement characters of three bytes. |
| Mailto.UnescapedTokens | server/src/api/unsubscribe.rs:66-83 | The byte loop reads the text as escapes and whole characters: the decoded bytes are theirs, and they cost exactly the input. |
| Mailto.Read | server/src/api/unsubscribe.rs:85-107 | The query loop is the fold over its pairs, for every URI. |
| Mailto.ReadIff | server/src/api/unsubscribe.rs:87-92 | A URI is read if and only if what stands before the query decodes to an address with "@" and without comma, white space or control character. |
| Mailto.KeysInAnyCase | server/src/api/unsubscribe.rs:100-104 | The keys of the query count in any letter case. |
| Mailto.ReadIsSafe | server/src/api/unsubscribe.rs:85-107 | Whatever the URI says: one plain address, a subject without control characters, a text with none but LF, neither blank. |
| Mailto.DecodeSpaced | server/src/api/unsubscribe.rs:98-99 | A value of the query, printed with any characters a mailto URI may leave as they are (section 2 of RFC 6068), is read back with each "+" left as it is turned into a space, and otherwise unchanged. |
| Mailto.RoundTripIff | server/src/api/unsubscribe.rs:85-107 | A printed mailto URI with admissible address and non-blank control-free subject and body, a plain "@" included, reads back as the same three strings if and only if no "+" of subject or body was left as it is. |
| Unsubscribe.Field | server/src/api/unsubscribe.rs:42-64 | The line loop is the specification of the first field of that name, unfolded. |
| Unsubscribe.Read | server/src/api/unsubscribe.rs:117-145 | The offer is the fold of the URI list of the header block. |
| Unsubscribe.BodyIsIgnored | server/src/api/unsubscribe.rs:42-64 | Text after the first empty line never changes the offer. |
| Unsubscribe.SameBlockSameOffer | server/src/api/unsubscribe.rs:117-145 | The offer depends on the header block alone. |
| Unsubscribe.UrisConcat | server/src/api/unsubscribe.rs:125-128 | Cutting a value outside the brackets cuts its URI list. |
| Unsubscribe.FoldedValue | server/src/api/unsubscribe.rs:49-54 | Folding a value at white space outside the brackets (section 2.2.3 of RFC 5322) keeps its URIs. |
| Unsubscribe.FoldingKeepsOffer | server/src/api/unsubscribe.rs:42-64 | Folding the field between its URIs never changes the offer, whatever lines stand around it, unless the continuation itself looks like the Post field. |
| Unsubscribe.Selection | server/src/api/unsubscribe.rs:124-143 | What the URI loop picks from any list, from any partial offer on. |
| Unsubscribe.OfferMeaning | server/src/api/unsubscribe.rs:117-145 | One-click is the first https URI and needs the Post header (section 3.1 of RFC 8058); mail is the first readable mailto; link the first other web page. |
| Unsubscribe.RenderRead | server/src/api/unsubscribe.rs:125-128 | A printed bracketed URI list (section 3.2 of RFC 2369) reads back as that list. |
| Unsubscribe.PrintedHeaderIsRead | server/src/api/unsubscribe.rs:117-145 | A printed header is read as the selection from exactly those URIs. |
| Unsubscribe.OneClickIsOffered | server/src/api/unsubscribe.rs:122-136 | A printed header with the Post field (section 3.1 of RFC 8058), name and value in any letter case and the value with any spaces: the first https URI is offered for one-click, and with any other value none is. |
| Unsubscribe.NoPostNoOneClick | server/src/api/unsubscribe.rs:122-124 | Without the Post field nothing is offered for one-click. |
| Unsubscribe.SchemesIff | server/src/api/unsubscribe.rs:129-139 | Schemes count in any letter case, and only as a prefix. |
| Unsubscribe.PaddedUri | server/src/api/unsubscribe.rs:125-128 | White space inside the brackets does not belong to the URI. |
| MailMove.Relay.UpdateFolderFrom | server/src/cache/messages.rs:1135-1223 | The index after a move: source row dropped for a duplicate, else moved with its number shifted to the first free of 101; refused if none is free. |
| MailMove.RehomedKeepsOthers | server/src/cache/messages.rs:1135-1223 | Numbers stay unique per folder and every other row is kept. |
| MailMove.RowIsDroppedIff | server/src/cache/messages.rs:1171-1216 | Any moved row is dropped from the index if and only if a mail of the same stored Message-ID is in the target, the empty one counting as one; otherwise it is in the target, in its place. |
| MailMove.MovedIsShown | server/src/cache/messages.rs:1171-1216 | When a moved mail is still in the index: with a Message-ID, if and only if it was not moved into the folder it is in or has a second row there; without one, if and only if it has no such duplicate. |
| MailMove.Relay.MoveOnProvider | server/src/api/messages.rs:675-745 | Key taken first, index moved, one provider operation queued, none out of the trash without a Message-ID. |
| MailMove.Relay.MoveToLocalFolder | server/src/api/messages.rs:750-864 | The new index, archive and queue of a move into a local folder, for every fetch outcome. |
| MailMove.Relay.MoveMessage | server/src/api/messages.rs:675-746 | The handler for every target: only a folder kept here, other than the trash, takes the mail off the provider. |
| MailMove.DeletesOnlyWithAFile | server/src/api/messages.rs:685-864 | A request queues at most one operation, on the mail itself: a deletion only for such a folder and with a file of the noted digest behind a row of the mail; else a move, to the target or, for such a folder, to the trash. |
| MailMove.ProviderQueues | server/src/api/messages.rs:705-735 | Towards the provider exactly one move from the folder to the target is queued, except where no number is free or out of the trash without a Message-ID. |
| MailMove.FoldersAfter | server/src/cache/messages.rs:1232-1247 | The target becomes known, kept here only for an account in archive mode; no other folder changes. |
| MailMove.FreeIsFirst | server/src/cache/messages.rs:1192-1222 | The new number is the own one or the first free one in steps of 100000; none is found if and only if all 101 are taken. |
| MailMove.FiledTells | server/src/api/messages.rs:811-829 | A fetched text is filed under number and Message-ID, and exactly the rows of the mail in the target name it with its digest. |
| MailMove.AcceptsIff | server/src/api/messages.rs:810-812 | A fetched mail is accepted if and only if its header part contains the Message-ID, whatever its body says. |
| MailMove.DecidingRow | server/src/api/messages.rs:778-796 | Without a Message-ID: which row, as the index was before, the archive check looks at, and when there is none. |
| MailMove.NumberedMailTrustsTheNumber | server/src/api/messages.rs:778-849 | Without a Message-ID (none stored or a blank one) the request queues a hard delete if and only if the deciding row exists and has an intact file: the row that holds the number in the target, else its own unless dropped. |
| MailMove.BlankIdsAreDuplicates | server/src/api/messages.rs:750-849 | An input: two mails without Message-ID under one number; the moved one loses its row, nothing is archived and its hard delete is queued. |
| MoveRuns.StepSafe | server/src/api/messages.rs:675-864 | In every safe state a step, a sync or any other writer included, keeps the guarantee if and only if it writes no text into the archive that is not the mail's and makes no row name another mail's file. |
| MoveRuns.NoMailIsLost | server/src/api/messages.rs:675-864 | Every interleaving of arrivals, arbitrary syncs and file writes, moves, archive checks and worker steps keeps the guarantee throughout if and only if it has no such step: each mail is on the provider or archived, and every queued hard delete refers to an archived mail. |
| MoveRuns.OwnIdLosesNothing | server/src/api/messages.rs:812 | With a check that compares the fetched mail's own Message-ID instead, a run keeps the guarantee throughout if and only if no sync misleads: the moves themselves break nothing. |
| MoveRuns.ComparingIdsIsOwnId | server/src/api/messages.rs:812 | Comparing the mail's own Message-ID is such a check. |
| MoveRuns.HandlerIsRun | server/src/api/messages.rs:750-864 | The handler run alone is one of these runs, step by step. |
| MoveRuns.MoveKeepsCopies | server/src/api/messages.rs:705-735 | A move on the provider leaves as many copies of every mail as there were, and none where it took one from. |
| MoveRuns.VerifiedIsArchived | server/src/cache/archive.rs:109-125 | Where a row passes the check, its mail is archived if the row names a file of its own mail, and in general if and only if some file is under its Message-ID. |
| MoveRuns.UnarchivedDeletion | server/src/api/messages.rs:778-849 | A request queues a hard delete of a mail the archive does not hold if and only if the row passes the check although the archive does not hold the mail, or it does not pass, the text fetched under the number is another one that has the Message-ID in its header part, and no other file holds the mail. |
| MoveRuns.MailCanBeLost | server/src/api/messages.rs:798-849 | For every mail and every other one that quotes its Message-ID there is a run that loses it. |
| MoveRuns.ReplyIsAccepted | server/src/api/messages.rs:810-812 | A text that only quotes the Message-ID in In-Reply-To passes the check. |
| MailSync.CachedKeyedIff | server/src/cache/messages.rs:117-141 | Caching a mail keeps every row naming only its own mail's file if and only if its number is not held by a row with another mail's file. |
| MailSync.CachingIsSafeIff | server/src/cache/messages.rs:117-141 | In every safe state caching a mail keeps the guarantee of the moves if and only if so. |
| MailSync.FilingIsSafeIff | server/src/sync/scheduler.rs:2102-2129 | Filing a text and writing it into the rows of a number keeps the guarantee if and only if it is the text of the mail the file is named by and every row reached with a Message-ID is that mail's. |
| MailSync.BackfillIsSafeIff | server/src/sync/scheduler.rs:2270-2306 | Where mails have their own texts and the first row of the number has a Message-ID, a backfill keeps the guarantee if and only if all rows of the number, in whatever folder, are the fetched mail's; the condition without these is stated too. |
| MailSync.CachedRowLosesAMail | server/src/cache/messages.rs:117-141 | From a safe state, without any fetch and whatever the check: an archived mail is moved on the provider, another one is cached onto its row and moved to a local folder, and that one is gone. |
| MailSync.BackfillLosesAMail | server/src/sync/scheduler.rs:2270-2306 | From a safe state: two unarchived mails of one number in two folders are backfilled one after the other, the first is moved to a local folder and is gone. |
| Migrate.Folder.Copy | server/src/api/migrate.rs:186-263 | The loop appends exactly the copies of the specification and reports their counts; an unreadable folder reports done. |
| Migrate.CallCopies | server/src/api/migrate.rs:233-255 | A call copies the missing mails that can be copied, in order, up to the limit; it is not done exactly when it reached the limit; when done, everything else missing was counted as failed. |
| Migrate.CallBrings | server/src/api/migrate.rs:224-244 | What a call brings is new, on the server and brought once; the missing shrink by it. |
| Migrate.NeverCopiedTwice | server/src/api/migrate.rs:224-237 | Over any number of calls no mail is copied twice. |
| Migrate.RepeatingEnds | server/src/api/migrate.rs:245-250 | Undone calls take exactly the limit off the missing, so there are at most missing / limit of them. |
| Migrate.DoneLeavesTheFailed | server/src/api/migrate.rs:233-255 | A call that says done leaves missing exactly as many as it counted failed, and a server mail is there if it was before or could be copied. |
| Migrate.SameAsUnlimited | server/src/api/migrate.rs:186-263 | Without failures, repeated calls leave the same target in the same order as one unlimited call. |
| Migrate.LimitZero | server/src/api/migrate.rs:245-250 | With limit 0 a call tries one mail and is never done while one is missing; it changes nothing exactly when that mail cannot be copied. |
| Todos.Store.SetLabels | server/src/cache/todo.rs:258-281 | Every row of that uid has the labels; every other row, every other field and the order stay. |
| Todos.Store.SetDescription | server/src/cache/todo.rs:242-281 | Every row of that uid has the description; every other row, every other field and the order stay. |
| Todos.WithoutUidAt | server/src/cache/todo.rs:320-329 | A delete takes the rows of its uid out of their places and leaves all others in theirs. |
| Labels.Note | server/src/api/todos.rs:740-750 | One task: its normalised labels once each, and every theme counted once. |
| Labels.Survey | server/src/api/todos.rs:735-752 | The counts are the numbers of tasks each theme covers. |
| Labels.Sift | server/src/api/todos.rs:770-780 | Labels kept, and exactly the others parked for the task. |
| Labels.Consolidate | server/src/api/todos.rs:728-810 | The new table, the new candidates and the counts of the run. |
| Labels.CleanConcat | server/src/api/todos.rs:742-751 | Labels are cleaned in their order, each once: a list as its first part and then what the second has besides. |
| Labels.WantedConcat | server/src/api/todos.rs:771-779 | The labels that stay keep their order. |
| Labels.ChangesAreCounted | server/src/api/todos.rs:782-807 | The report counts the tasks whose labels differ from those they are to have and whose update works. |
| Labels.LeavingIsParked | server/src/api/todos.rs:775-779 | Where uids are distinct, the report counts the candidates parked. |
| Labels.RunRowByRow | server/src/api/todos.rs:769-808 | Whatever uids are shared, each task ends with the labels written last under its uid, or its own. |
| Labels.RunMeetsItsAimIff | server/src/api/todos.rs:782-807 | Every task gets exactly the labels it is to have if and only if all tasks of a uid that is written are to have the same ones. |
| Labels.DistinctUidsAgree | server/src/api/todos.rs:728-810 | Distinct uids are more than enough for that. |
| Labels.SharedUidLosesALabel | server/src/api/todos.rs:805 | An input: the last task of a shared uid takes a kept label off another one, unparked. |
| Labels.EveryLabelEarnsItsPlaceIff | server/src/api/todos.rs:754-808 | Whatever uids are shared: how many tasks carry a label afterwards can be counted before the run from the labels written last and the own ones; the same property, every label but the origin on five tasks or more, read on these counts. |
| Labels.AgreeingTasksEarn | server/src/api/todos.rs:754-758 | So it is when all tasks of a uid that is written want the same labels. |
| Labels.GoneIsParkedIff | server/src/api/todos.rs:771-805 | For each task and label it had: gone if and only if parked, exactly when the label is none to keep or what was written last under the uid has it. |
| Labels.GoneIsParked | server/src/api/todos.rs:771-780 | Then a label is gone from a task if and only if the pair was parked; the origin never goes. |
| Labels.SecondRunIdleIff | server/src/api/todos.rs:782-808 | Whatever uids are shared, with an idempotent normaliser: a second run changes no task if and only if no label is left with one to four tasks, and parks nothing if and only if so. |
| Labels.SecondRunGoesOn | server/src/api/todos.rs:782-808 | Inputs: a theme with just enough tasks, one of them of the uid of a last task with another label; the second run changes tasks and parks it. |
| Labels.SecondRunDoesNothing | server/src/api/todos.rs:782-790 | Where the tasks of each written uid agree, a second run keeps the same themes, changes no task and parks nothing. |
| Labels.NormalizeIsIdempotent | server/src/cache/tags.rs:20-40 | The synonym table is idempotent. |
| Labels.SynonymsMeet | server/src/cache/tags.rs:25-38 | The synonyms, and nothing but them: every other label stays. |
| Labels.NormalizerIsIdempotent | server/src/cache/tags.rs:20-40 | So the normaliser in use meets what the second run needs. |
| Dedupe.Grouped | server/src/api/todos.rs:827-834 | The groups are the open tasks of each non-empty title, in order. |
| Dedupe.Merge | server/src/api/todos.rs:843-891 | One group: descriptions folded, duplicates deleted, survivor written when something was folded; the number of duplicates that brought text. |
| Dedupe.Dedupe | server/src/api/todos.rs:823-894 | Table and report after all groups, in an arbitrary order that has every title of an open task once. |
| Dedupe.FoldedKeeps | server/src/api/todos.rs:848-861 | The survivor's text stays in front and every duplicate's trimmed text is part of the result. |
| Dedupe.KeeperIsRichest | server/src/api/todos.rs:843-847 | No task of the group has a longer description than the keeper, in bytes, and none with an equally long one has a lower id. |
| Dedupe.SortedIsRanked | server/src/api/todos.rs:843-847 | The same tasks, each before those with shorter descriptions and, among equally long ones, before those with higher ids. |
| Dedupe.SurvivorIsRichest | server/src/api/todos.rs:828-876 | An open titled task that is there after the run is the one of its title that had the longest description and then the lowest id. |
| Dedupe.JoinedIff | server/src/api/todos.rs:850-863 | A duplicate's text is added if and only if it is not contained yet; then at the end, after the mark, on a line of its own. |
| Dedupe.UntitledIsLeft | server/src/api/todos.rs:833-841 | Done and untitled tasks are to be left alone. |
| Dedupe.RunRowByRow | server/src/api/todos.rs:842-892 | Whatever uids are shared: a row is gone when a merged group has a duplicate of its uid; otherwise it has the text written last under its uid, or its own. |
| Dedupe.UidSurvivesIff | server/src/api/todos.rs:872 | A uid is still there if and only if it was there and no merged group has a duplicate with it, in the group of the row or not. |
| Dedupe.RunIsFateIff | server/src/api/todos.rs:823-894 | In whatever order the groups come, duplicates go, keepers get their text and all else stays, if and only if no task that is to stay has the uid of a duplicate, or of a keeper whose text it is not to have. |
| Dedupe.DistinctUidsAreApart | server/src/api/todos.rs:823-894 | Distinct uids are more than enough for that. |
| Dedupe.TextIsKeptIff | server/src/api/todos.rs:850-886 | A task's text is in an open task of its title afterwards if and only if its keeper is not deleted under its uid and what was written last under it contains the text. |
| Dedupe.TextIsKept | server/src/api/todos.rs:850-886 | So all text is kept where the run does what is meant. |
| Dedupe.OneTaskPerTitle | server/src/api/todos.rs:823-894 | Afterwards no two open tasks share a non-empty normalised title, whatever uids they share. |
| Dedupe.OthersAreUntouchedIff | server/src/api/todos.rs:828-872 | Any task is left as it is if and only if no deleted duplicate has its uid and no other text was written under it. |
| Dedupe.SecondRunDoesNothing | server/src/api/todos.rs:823-894 | A second run, in any order, changes nothing, whatever uids are shared. |
| Dedupe.SharedUidLosesBoth | server/src/api/todos.rs:872 | Two open tasks of one uid and one title are both deleted. |
| Dedupe.LoneTaskIsDeleted | server/src/api/todos.rs:872 | An input: a task alone with its title is deleted because a duplicate of another title has its uid. |
| Agent.RunTool | server/src/ai/agent.rs:283-308 | One tool outcome adds one tool message with the call's id, and its card, effect or question. |
| Agent.RunTools | server/src/ai/agent.rs:268-310 | The calls of one reply, each answered in order, or cut off by the time limit inside one of them. |
| Agent.RunLoop | server/src/ai/agent.rs:244-313 | At most five model calls; each sees the first messages and every turn before, fully answered; steps are the calls in order; cards, effects, question and navigation are those of the outcomes; the loop ends for exactly the reason recorded. |
| Agent.TurnsWellFormed | server/src/ai/agent.rs:260-310 | Any sequence of answered turns is well formed. |
| Agent.EveryModelCallIsWellFormed | server/src/ai/agent.rs:244-313 | At every model call each tool-call turn is followed by exactly one tool message per call, in order, with matching ids, and there is no other tool message. |
| Agent.EverythingIsShown | server/src/ai/agent.rs:256-310 | At every model call the model is shown all its replies before, with text and calls, and the answer to every call under its id. |
| Agent.AnswerTells | server/src/ai/agent.rs:283-308 | The answer to a call holds what the tool brought: the data itself, or title, question or error at its end; of a navigation only that there is one. |
| Agent.Run | server/src/ai/agent.rs:315-355 | The plan is the cards in call order, each once, stored or absent; effects likewise; question and navigation are the last ones; the standard note of the language where the model gave no answer; nothing if the model failed. |
| Senders.PrintedAddressIsRead | server/src/api/aufraeumen.rs:122-133 | "Name <address>" is read back as name and lower-case address. |
| Senders.QuotedAddressIsRead | server/src/api/aufraeumen.rs:122-133 | A name in quotes is read back without them. |
| Senders.BareAddressIsRead | server/src/api/aufraeumen.rs:122-133 | An address alone, in brackets or not, is its own name. |
| Senders.Collect | server/src/api/aufraeumen.rs:136-159 | Per address the count, unread count, newest date, name and the uids in order. |
| Senders.Grouped | server/src/api/aufraeumen.rs:136-162 | Nobody stands behind one with fewer mails, or with as many and an older newest one; one entry per address and every sender present. |
| Senders.EntryTells | server/src/api/aufraeumen.rs:138-158 | An entry tells of the mails of its address in folder order: their numbers, how many, how many unread, and name and date of the first one. |
| Senders.LexLeIff | server/src/api/aufraeumen.rs:160 | Dates compare at the first character that differs. |
| Senders.EveryRowInOneGroup | server/src/api/aufraeumen.rs:138-159 | Every row with a sender is in exactly one group. |
| Senders.CountsAddUp | server/src/api/aufraeumen.rs:136-162 | Counts and unread counts add up to the rows with a sender. |
| Senders.Enter | server/src/api/aufraeumen.rs:110-117 | True with the first offering mail if and only if one offers, false if and only if all say no, else unknown. |
| Senders.EnterAbo | server/src/api/aufraeumen.rs:108-119 | The same for every entry, and nothing else changes. |
| QuickAdd.Parse | server/src/api/quick_add.rs:112-181 | The scan ends; its groups follow each other without gap; title and task are those of the groups; it fails if and only if the line, read as groups to its end, names a day outside the calendar. |
| QuickAdd.GroupedIsPrefix | server/src/api/quick_add.rs:118-177 | There is one reading of a line: any groups that follow each other from its start are its beginning. |
| QuickAdd.LargeNumberLeavesCalendar | server/src/api/quick_add.rs:354-362 | An input: "in" and a number too large name a day outside the calendar. |
| QuickAdd.GroupAt | server/src/api/quick_add.rs:119-174 | Every group takes at least one token and none past the end. |
| QuickAdd.RecurrenceAt | server/src/api/quick_add.rs:196-235 | A recurrence stays inside the line and its weekday is one of seven. |
| QuickAdd.TimeAt | server/src/api/quick_add.rs:261-291 | A time stays inside the line. |
| QuickAdd.DateAt | server/src/api/quick_add.rs:326-379 | A date stays inside the line. |
| QuickAdd.TokensAreConserved | server/src/api/quick_add.rs:118-177 | Every token is in exactly one group. |
| QuickAdd.TitleIsTheRest | server/src/api/quick_add.rs:118-179 | The words of the title are the tokens at its places, in input order. |
| QuickAdd.InTitleIff | server/src/api/quick_add.rs:118-179 | A token is in the title if and only if its group is no recognised one. |
| QuickAdd.HasTimeExactlyWhen | server/src/api/quick_add.rs:158-173 | The task is marked as having a time if and only if a time was recognised and no date after it. |
| QuickAdd.DueIsLastDayAtLastTime | server/src/api/quick_add.rs:147-173 | The due moment is the last day named, today if none, at the last time not followed by a weekday recurrence. |
| QuickAdd.MarkMisleadsIff | server/src/api/quick_add.rs:147-173 | In a line with a time: marked with one but due at another minute if and only if a weekday recurrence and no date came after it; due at the time but unmarked if and only if a date and no such recurrence did (midnight aside). |
| QuickAdd.FridayAtMidnight | server/src/api/quick_add.rs:147-165 | An input: a time before "jeden freitag" is due at midnight and marked with a time. |
| QuickAdd.LabelsAreDistinct | server/src/api/quick_add.rs:131-139 | The labels are exactly those written, each once. |
| QuickAdd.NextWeekdayIsLeast | server/src/api/quick_add.rs:401-409 | The least day not before today with that weekday. |
| QuickAdd.RelativeDays | server/src/api/quick_add.rs:331-353 | Today, tomorrow, the day after, yesterday and next week, by all their names. |
| QuickAdd.WeekdaysAre | server/src/api/quick_add.rs:339-342 | A weekday, by any name or plural, is its next occurrence within seven days. |
| QuickAdd.WrittenDates | server/src/api/quick_add.rs:363-379 | A written date takes one token, or two after "am"; an ISO date after "am" leaves its own token to be read next. |
| QuickAdd.TimesAre | server/src/api/quick_add.rs:261-291 | A clock time, "um" with a clock time or an hour, and an hour with "uhr". |
| QuickAdd.EveryOne | server/src/api/quick_add.rs:208-216 | "jeden" and a weekday or a unit give the rule. |
| QuickAdd.EverySoMany | server/src/api/quick_add.rs:196-206 | "alle", a number and a unit give the rule with an interval of at least one. |
| QuickAdd.DailyToYearly | server/src/api/quick_add.rs:218-230 | The one-word rules. |
| QuickAdd.MarksAre | server/src/api/quick_add.rs:121-144 | Projects, labels and priorities. |
| QuickAdd.LastOneCounts | server/src/api/quick_add.rs:121-151 | Of several priorities, projects or rules the last one counts. |
| QuickAdd.NothingInvented | server/src/api/quick_add.rs:121-151 | The task has no priority, project or rule that was not written. |
| QuickAdd.DateOfThreeIff | server/src/api/quick_add.rs:354-362 | In every line a date takes three tokens if and only if they are "in", a number and one more, and no time is read first. |
| QuickAdd.ThirdTokenHasNoSay | server/src/api/quick_add.rs:358-359 | Any other third token gives the same date. |
| QuickAdd.SwallowsAWordIff | server/src/api/quick_add.rs:354-362 | In a line read as groups: the token after "in" and a number is part of the date and missing from the title, whatever it is, if and only if no time is read there first. |
| QuickAdd.SectionIsAWord | server/src/api/quick_add.rs:119-175 | A token that starts with a slash is a word of the title in every line, although the documentation calls it a section. |

## Left out

- Routing, SQL text, IMAP, SMTP, CalDAV and HTTP: outcomes of such calls are parameters, or steps a run may take.
- Clocks, the semaphore's queue order and task scheduling: times are parameters, interleavings are arbitrary.
- SHA-256 and the shortened SHA-1 in archive names: a digest stands for the text itself and a name for the Message-ID, so collisions are not modelled.
- Lower-casing and the classes of letters and digits beyond ASCII: parameters; `Labels.Lowercases` says what the synonym table needs of them.
- MoveRuns.NoMailIsLost: speaks of mails with a Message-ID that identifies the mail; for mails without one see MailMove.NumberedMailTrustsTheNumber and MailMove.BlankIdsAreDuplicates. Its condition is not ensured by the code; files that are removed on purpose, with a local folder or an account, are not modelled.
- MailSync.Cached: the guards that skip a mail on its way to or from the trash, and the removal of a provisional row, which touch no other row.
- MoveRuns.StepSafe: the provider finds a mail by its whole Message-ID; that the IMAP search matches parts of it is not modelled, nor Gmail's labels, nor the delay between marking a mail and expunging it.
- MailMove.Relay.MoveToLocalFolder: a write that fails leaves no partial file, and the first matching row in table order stands for the row SQL returns.
- MailMove.Relay.MoveOnProvider: the folder caches that a move invalidates.
- AiClient.NeverLatches: holds for patient runs; in the source nothing enforces them, and AiClient.LatchesExactlyWhen gives the exact condition for all steps.
- AiClient.CompleteUser: the text of the messages sent; `complete_messages` and `complete_with_tools` share its discipline and are not written out again; `stream_completion` does not ask the breaker at all.
- StreamLines.StreamCompletion: the delays between attempts, the texts of the errors, and the JSON layer, which is a parameter.
- StreamLines.ChunksDoNotMatter: text after the last line feed is dropped by the code, and so by the batch form.
- Sessions.Session.Append: how the list is stored as JSON.
- Zip.ZipWriter.AddFile: a sink that fails while writing, and overflow checks of a debug build; the arithmetic wraps as in a release build.
- Mbox.RoundTripIff: the writer is the one of the format, not the export handler, which writes no separator lines (server/src/api/export.rs:98-104).
- Unsubscribe.FoldingKeepsOffer: folding inside a bracketed URI.
- Migrate.Folder.Copy: which row a mail's text is taken from (it is looked up by account and uid without a folder), so copying one mail is an outcome.
- Labels.Consolidate: the comparison of sorted, deduplicated lists is one of sets.
- Dedupe.TextIsKept: writes that succeed; the title normaliser is a parameter.
- Labels.RunRowByRow: writes that succeed; Labels.Consolidate covers failing ones.
- Dedupe.Merge: the deletion of the CalDAV object.
- Agent.RunLoop: what tools do, event sending, the audit log and the clamping of tool results.
- Senders.Grouped: the order of entries with equal count and date, which the source leaves to its hash map.
- QuickAdd.Parse: number, time and date formats are parameters, and local times in a daylight-saving gap are not told apart.
- `stapel_verschieben`, `priority.rs`, settings handlers and backoff.
