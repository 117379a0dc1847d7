# A verified model of the holobox chat widget and its storage functions

This project models, in Dafny, the parts of the holobox demo that have behaviour worth stating:

- **The browser chat widget** (public/static/script.js):
  - the read loop of `sendMessage`: it splits the streamed reply into frames on the blank line `"\n\n"`, collects the `content` of the `data: ` frames and keeps the last `sources: ` value;
  - the send bookkeeping: the empty-input guard, the user turn with its file parts, the five-turn context window, and what each way of ending a send commits;
  - the citation chip list (`addCitation`);
  - attachment admission (`isAllowedFile`, the 10 MiB and 32 MiB limits, the per-selection counter) and the pending list. This covers removal by id and the `alive` guard on upload completion;
  - the HTML escaping of user text in `renderMessage`;
  - dictation: how `finalBuffer` is joined and the line the input box shows.
- **The older, deprecated client** (deprecated/script_test.js): its data-only read loop, its ten-turn window, what it commits, its send-button toggle and its dictation.
- **The download function** (api/file_download/index.js): `fn` validation, the `data/` prefix, the download name, the Content-Disposition value and the shape of the 302 response.
- **The upload function** (api/file_upload/index.js): file-name sanitising, the blob name, and the shape of the 200 response.

## Layout

Files and their modules:

- `wrappers.dfy`: `Option` and `Result`.
- `text.dfy` (`Text`): `trim`, `trimStart`, `trimEnd`, `startsWith` and `endsWith` over the ECMAScript white-space class.
- `framing.dfy` (`Framing`): the splitting on `"\n\n"` and the chunked reader. It is generic in the frame handler, so both clients share it.
- `stream.dfy` (`Stream`): the current client's frame handler and its read-loop state, `StreamSession`.
- `turns.dfy` (`Turns`): turns, replies and `context.slice(-n)`.
- `citations.dfy` (`Citations`): the chip list.
- `attachments.dfy` (`Attachments`): admission and the `Tray` of pending files.
- `escape.dfy` (`UserHtml`): user-text escaping.
- `dictation.dfy` (`Dictation`): the current client's dictation.
- `chat.dfy` (`Chat`): the current client's `sendMessage`.
- `legacy.dfy` (`Legacy`): the deprecated client.
- `http.dfy` (`Http`), `download.dfy` (`Download`), `upload.dfy` (`Upload`): the two storage functions.

The model treats the following as parameters: JSON parsing, markdown rendering, the bubble's `textContent`, URI decoding and encoding, the signature, the clock and the container call.

- The current client's helpers are the `Stream.Codec` fields. `content` gives what `JSON.parse(p).content || ''` appends, or None when parsing throws. `sources` gives `JSON.parse(p)`. `shown` gives the bubble text after `innerHTML = toTightHtml(text)`.
- The storage functions' helpers are the `Env` fields.

A network response is a `Turns.Reply`: the text chunks read, in order, and how the response ended. It ended either at the end of the stream, by an abort, or by an error with a message.

## Model

| member | source | states |
|---|---|---|
| Text.TrimStart | public/static/script.js:1332 | `trimStart` drops exactly the leading white space: the result is a suffix, everything removed is white space, and the result does not start with white space |
| Text.TrimEnd | public/static/script.js:1331 | `trimEnd` drops exactly the trailing white space: the result is a prefix, everything removed is white space, and the result does not end with white space |
| Text.Trim | public/static/script.js:781 | neither end of the trimmed string is white space, and it is no longer than the input |
| Text.TrimMeaning | public/static/script.js:781 | the trimmed string is the part of the input between a white-space prefix and a white-space suffix, and it is empty exactly when the input is all white space |
| Text.TrimIdempotent | public/static/script.js:781 | trimming twice is trimming once |
| Framing.FindDelimiterCorrect | public/static/script.js:847 | the delimiter search finds a `"\n\n"` exactly when there is one, and the one it finds is the leftmost |
| Framing.SplitJoin | public/static/script.js:847 | `split("\n\n")` loses nothing: joining the parts with `"\n\n"` gives the text back |
| Framing.SplitWellSplit | public/static/script.js:847 | splitting gives at least one part; no part holds `"\n\n"`, and no part but the last ends with a newline |
| Framing.SplitCharacterised | public/static/script.js:847 | `Split(s) == parts` exactly when the parts join to `s` and are well split, so the split is unique |
| Framing.SplitAppend | public/static/script.js:844-848 | splitting a longer text re-splits only the last part: the complete frames already found stay |
| Framing.ReadKeepsBuffer | public/static/script.js:844-848 | buffer invariant of one read: the dispatched frames, each followed by `"\n\n"`, then the new buffer, equal the old buffer plus the chunk, and the new buffer holds no `"\n\n"` |
| Framing.DispatchAppend | public/static/script.js:850-868 | dispatching two runs of frames is dispatching the first run and then the second |
| Framing.DecodeStep | public/static/script.js:839-869 | one more read takes the decoding of the text so far to the decoding of the text plus the chunk |
| Framing.FeedAllDecodes | public/static/script.js:839-869 | the read loop over any chunking ends in the state of decoding the concatenated text in one piece |
| Framing.ChunkingIrrelevant | public/static/script.js:839-869 | two chunkings of the same text leave the read loop in the same state |
| Framing.UnterminatedTailDropped | public/static/script.js:841-848 | for terminated frames followed by an unterminated tail, exactly those frames are dispatched and the tail stays in the buffer, never dispatched |
| Stream.DispatchMeaning | public/static/script.js:850-868 | dispatching appends the contents of the parsed `data: ` frames, the last parsed `sources: ` frame wins, and the bubble shows the text once a data frame has parsed; other frames change nothing |
| Stream.ReplyIndependentOfChunking | public/static/script.js:839-869 | over any chunking, `fullText` is the in-order concatenation of the contents of the terminated data frames, and `citations` that of the last terminated parsed sources frame |
| Stream.TailNeverCommitted | public/static/script.js:841-848 | text still in the buffer when the reader reports `done` never reaches `fullText` |
| Stream.TwoDataFramesThenSources | public/static/script.js:850-868 | two data frames and a sources frame give the two contents in order, and the parsed sources value |
| Stream.HelloScenario | public/static/script.js:839-869 | a concrete reply split mid-frame across reads gives the same text as read in one piece |
| Stream.ShownCitations | public/static/script.js:876-878 | citations are shown only when they are a non-empty array, and then they are its names |
| Stream.StreamSession.constructor | public/static/script.js:804-836 | the read loop starts with empty text and buffer, no citations, and the `...` placeholder |
| Stream.StreamSession.Consume | public/static/script.js:850-867 | one frame does what the frame handler says: a data frame appends and re-renders, a sources frame replaces the citations, any other frame is skipped |
| Stream.StreamSession.Feed | public/static/script.js:844-868 | one read moves the loop's variables exactly as `Framing.Feed` does, and keeps them equal to decoding everything received so far |
| Stream.StreamSession.Complete | public/static/script.js:871-878 | at `done` the bubble is rendered once more from the whole text, which is what is committed; the citations to show are returned |
| Turns.LastTurns | public/static/script.js:815 | `context.slice(-n)` is the last n turns, or all of them when there are fewer (and all of them when `n` is 0) |
| Turns.WindowEndsWithNewest | public/static/script.js:809-815 | the window sent always ends with the turn just pushed |
| Turns.WindowSlides | public/static/script.js:809-815 | pushing onto a full window drops exactly its oldest turn |
| Citations.Files | public/static/script.js:264 | a single name is treated as a one-element list, and an array as itself |
| Citations.IndexOf | public/static/script.js:267-268 | the search finds the first chip with that name, and finds none exactly when there is none |
| Citations.ExceptMembers | public/static/script.js:342 | removing names keeps exactly the other names |
| Citations.RecentMembers | public/static/script.js:265-346 | the front of the list holds exactly the cited names |
| Citations.RecentNoDuplicates | public/static/script.js:265-346 | the cited names at the front appear once each |
| Citations.RecentByLastOccurrence | public/static/script.js:265-346 | of two cited names, the one whose last citation is later is nearer the top |
| Citations.RemoveAtIsExcept | public/static/script.js:342 | in a list without duplicates, `removeChild` of the found chip removes that name and nothing else |
| Citations.ReflectsNoDuplicates | public/static/script.js:263-348 | afterwards no name appears twice in the chip list |
| Citations.MoveToFrontStep | public/static/script.js:265-346 | one more name moved to the top keeps the list split into the cited names, last occurrence first, then the other chips in their order |
| Citations.ChipList.constructor | public/static/script.js:263 | the chip list starts empty |
| Citations.ChipList.MoveToTop | public/static/script.js:267-345 | the chip for the name is taken out if present or created, then put on top |
| Citations.ChipList.AddCitation | public/static/script.js:263-348 | the list becomes the cited names, most recent occurrence first, followed by the other chips in their old order, with no duplicates |
| Attachments.AfterLastDotProps | public/static/script.js:449 | `split('.').pop()` is a dot-free end of the name: all of the name, or the part after a `.` |
| Attachments.AfterLastDotUnique | public/static/script.js:449 | those properties determine the extension |
| Attachments.AfterLastDotIs | public/static/script.js:449 | the part after the last dot is `e` exactly when the name is `e` or ends with `"." + e` |
| Attachments.LowerAfterLastDot | public/static/script.js:449 | lower-casing commutes with taking the part after the last dot |
| Attachments.ExtensionIs | public/static/script.js:449-450 | the extension is `pdf` (say) exactly when the lower-cased name is `pdf` or ends with `.pdf` |
| Attachments.Admit | public/static/script.js:1104-1126 | a file is admitted exactly when it is allowed, at most 10 MiB, and the pending total plus the bytes already accepted plus its size is at most 32 MiB; otherwise the first failing check gives the notice |
| Attachments.Verdicts | public/static/script.js:1098-1165 | a selection gets one verdict per file, and the counter grows by every admitted file's size |
| Attachments.SelectionWithinLimit | public/static/script.js:1118-1135 | from a state within the limit, the pending total plus everything a selection admits stays within 32 MiB |
| Attachments.VerdictAt | public/static/script.js:1104-1135 | the k-th file's verdict is its admission check given the bytes admitted by the files before it |
| Attachments.LimitsInclusive | public/static/script.js:39-40 | exactly 10 MiB per file and exactly 32 MiB in total are admitted, and one byte more per file is not |
| Attachments.FallbackBranchCounts | public/static/script.js:1132-1163 | a file admitted by MIME type alone starts no upload, yet its size still counts for the rest of the selection |
| Attachments.FindIndex | public/static/script.js:1005 | `findIndex` gives the first entry with the id, or -1 exactly when there is none |
| Attachments.PendingTotalAppend | public/static/script.js:457-459 | the pending total of two lists is the sum of their totals |
| Attachments.SpliceRemovesId | public/static/script.js:1003-1008 | with distinct ids, splicing out the found entry removes exactly that chip's entry and reduces the total by its size; with none found, nothing changes |
| Attachments.WithoutIdMembers | public/static/script.js:1003-1008 | removal by id keeps every entry of other chips and nothing of that chip |
| Attachments.SelectOne | public/static/script.js:1128-1164 | an admitted file gets a new live chip and, unless it is admitted only by MIME type, an upload in flight; a refused file changes nothing |
| Attachments.SelectFromVerdicts | public/static/script.js:1098-1165 | the verdicts a selection records are those `Verdicts` gives |
| Attachments.SelectFromIds | public/static/script.js:1130-1131 | a selection only adds chip ids it issues, and keeps the uploads already in flight |
| Attachments.InFlightUploadsNotCounted | public/static/script.js:457-459 | only completed uploads count: four 8 MiB PDFs fill one selection, a fifth picked while they upload is admitted too, and then 40 MiB is pending |
| Attachments.Tray.constructor | public/static/script.js:1098 | the tray starts with nothing pending, no chips and no uploads |
| Attachments.Tray.Consider | public/static/script.js:1104-1164 | one file: the verdict is `Admit` with the current pending total, the counter grows by an admitted size, and the chip and upload are those `SelectOne` gives |
| Attachments.Tray.Select | public/static/script.js:1098-1169 | the change handler leaves the chips, ids and uploads that `SelectFrom` gives, and leaves the pending list alone |
| Attachments.Tray.PdfUploaded | public/static/script.js:1138-1149 | a finished PDF upload adds its entry (one URL to show and send) only if the chip is still alive, and records the URL |
| Attachments.Tray.DocxConverted | public/static/script.js:1152-1159 | a finished DOCX conversion adds its entry (show the DOCX, send the PDF, original size) only if the chip is still alive |
| Attachments.Tray.UploadFailed | public/static/script.js:1150 | a failed upload or conversion adds nothing |
| Attachments.Tray.Remove | public/static/script.js:1003-1015 | `remove` marks the chip dead and deletes only that chip's pending entry, so a later completion for it adds nothing |
| Attachments.Tray.ClearPending | public/static/script.js:812 | `pendingFiles.length = 0` empties the list and leaves chips and uploads alone |
| UserHtml.RenderedIsEscape | public/static/script.js:363-367 | the four `.replace` calls, in their order, equal a single left-to-right escape pass |
| UserHtml.EntitiesBreakLines | public/static/script.js:363-367 | the line-break pass after the entity pass is that single pass |
| UserHtml.EscapeCountsBreaks | public/static/script.js:363-367 | each `\n` or `\r\n` becomes exactly one `<br>`, and the HTML has no other `<` |
| UserHtml.EscapeOnlyBreakTags | public/static/script.js:363-367 | because `&` is escaped first, every `<` and `>` in the HTML belongs to an inserted `<br>` |
| UserHtml.UnescapeEscape | public/static/script.js:363-369 | the browser shows the user's text back, with `\r\n` shown as one line break |
| Dictation.AppendFinalKeepsWords | public/static/script.js:1324 | appending a final text adds exactly its non-space characters |
| Dictation.AppendFinalSeparates | public/static/script.js:1324 | a new final text never sticks to the previous one: there is a space at the seam |
| Dictation.AppendFinalTidy | public/static/script.js:1324 | the final buffer never starts with white space |
| Dictation.FinalsAppend | public/static/script.js:1319-1328 | results delivered over several events give the same buffer as delivered in one |
| Dictation.FinalsKeepWords | public/static/script.js:1319-1328 | the buffer holds the words of the final transcripts in order, and nothing else |
| Dictation.CollapseSingleSpaced | public/static/script.js:1332 | after `replace(/\s+/g, ' ')` the only white space is single spaces |
| Dictation.CollapseKeepsWords | public/static/script.js:1332 | the replacement changes white space only |
| Dictation.CollapseOfSingleSpaced | public/static/script.js:1332 | a single-spaced text is left as it is |
| Dictation.CollapseIdempotent | public/static/script.js:1332 | the replacement is idempotent |
| Dictation.LineShape | public/static/script.js:1331-1332 | the dictated line is single-spaced and does not start with white space |
| Dictation.LineKeepsWords | public/static/script.js:1331-1332 | the line's words are those of the earlier input, then of the final buffer, then of the interim text |
| Dictation.Recognizer.constructor | public/static/script.js:1270-1281 | the recognizer starts idle with an empty buffer, in a browser that does or does not offer a speech API |
| Dictation.Recognizer.Start | public/static/script.js:1305-1314 | starting does nothing while listening, nor without a speech API; otherwise listening begins, the buffer is emptied and the input is kept as the line's base |
| Dictation.Recognizer.Stop | public/static/script.js:1354-1363 | stopping does nothing unless listening; otherwise listening ends and the buffer and input are kept |
| Dictation.Recognizer.MicClick | public/static/script.js:1365-1368 | the mic button stops a listening recognizer, and otherwise starts it (resetting the buffer) only when the browser has a speech API |
| Dictation.Recognizer.Collect | public/static/script.js:1318-1328 | the loop appends the visited final texts to the buffer, in order, keeping it tidy, and collects the interim texts |
| Dictation.Recognizer.OnResult | public/static/script.js:1316-1334 | after an event the buffer is the old one with the visited final texts joined on, it stays tidy, and the input shows the dictated line |
| Chat.FileParts | public/static/script.js:808 | one `input_file` part per pending file, in order, with its `openaiUrl` |
| Chat.Committed | public/static/script.js:880-893 | a finished or aborted send commits exactly one assistant turn holding the bubble's final text; a failed one commits none |
| Chat.AbortCommitsBubble | public/static/script.js:886-889 | an aborted send commits the rendered text so far if a data frame had parsed, and the `...` placeholder otherwise |
| Chat.FinishedCommitsContents | public/static/script.js:871-881 | a finished send commits the rendering of the contents of the terminated data frames, however the reply was chunked |
| Chat.Widget.constructor | public/static/script.js:13-40 | the widget starts with no input, context, bubbles, pending files or chips |
| Chat.Widget.ContentParts | public/static/script.js:807-808 | the content array is the text part followed by one file part per pending file |
| Chat.Widget.ReadReply | public/static/script.js:834-869 | the read loop over the reply's chunks ends in the state of decoding their concatenation |
| Chat.Widget.Conclude | public/static/script.js:845-893 | the reply's ending decides the bubbles shown, the assistant turn committed and the chips added |
| Chat.Widget.SendMessage | public/static/script.js:780-900 | an empty trimmed input without attachments sends nothing and changes nothing. Otherwise: the user turn is pushed; pending files are emptied; the payload is the last five turns; the ending decides the commit, the error notice and the citations |
| Legacy.DispatchMeaning | deprecated/script_test.js:272-282 | dispatching appends the contents of the parsed `data: ` frames; every other frame adds nothing |
| Legacy.SourcesIgnored | deprecated/script_test.js:272-282 | a `sources: ` frame contributes nothing |
| Legacy.ReplyText | deprecated/script_test.js:265-283 | over any chunking the text is the content of the terminated data frames, the same text the current client builds |
| Legacy.Committed | deprecated/script_test.js:289-298 | only a finished send commits a turn, and that turn is the assistant's raw decoded reply text |
| Legacy.Notices | deprecated/script_test.js:294-298 | only an error that is not an abort renders a bubble, `"Error: "` plus its message |
| Legacy.Heard | deprecated/script_test.js:357 | the heard text is already trimmed |
| Legacy.Widget.constructor | deprecated/script_test.js:10-13 | the widget starts with no input, context or bubbles, no controller and not listening, in a browser that does or does not offer a speech API |
| Legacy.Widget.FeedChunk | deprecated/script_test.js:268-282 | one read is `Framing.Feed` with the data-only handler |
| Legacy.Widget.ReadReply | deprecated/script_test.js:261-283 | the read loop ends with the data text of the concatenated chunks |
| Legacy.Widget.Conclude | deprecated/script_test.js:246-298 | a finished send commits the raw text; an abort commits and shows nothing and clears the controller; an error shows its message |
| Legacy.Widget.Send | deprecated/script_test.js:223-300 | for a non-blank text: the input is cleared, the user bubble, placeholder and turn are pushed and the controller set; with no URL the error bubble follows and nothing is sent, otherwise the ten-turn window is sent and the ending decides what is committed and shown |
| Legacy.Widget.SendMessage | deprecated/script_test.js:219-302 | an empty trimmed input returns before touching anything. Otherwise the user turn is pushed and the controller set; a missing API URL then renders its error; with a URL the payload is the last ten turns |
| Legacy.Widget.Click | deprecated/script_test.js:308-315 | with a controller set, a click clears it and changes nothing else; otherwise it does all that `sendMessage` does: nothing for a blank input, the user turn and the error bubble with the controller set when no URL is loaded, and otherwise the ten-turn window sent, the reply committed and the controller left set unless aborted |
| Legacy.Widget.MicClick | deprecated/script_test.js:392-395 | the mic button stops a listening widget; otherwise, with a speech API, it starts listening and clears the input, and without one (`startDictation`'s alert and return) nothing changes |
| Legacy.Widget.Collect | deprecated/script_test.js:347-354 | the loop concatenates the final transcripts and the interim transcripts, each in order |
| Legacy.TranscriptsInterim | deprecated/script_test.js:350-354 | the old client's interim text is the current client's interim text of the same results |
| Legacy.Widget.OnResult | deprecated/script_test.js:343-367 | the input is overwritten only when the trimmed final-plus-interim text is not empty, and then with that text |
| Download.LastSegment | api/file_download/index.js:26 | `split("/").pop()` is the slash-free end of the name after its last `/`, or the whole name |
| Download.NoQuotes | api/file_download/index.js:26 | every `"` becomes `'` and nothing else changes |
| Download.MissingNameRejected | api/file_download/index.js:16-20 | a missing or empty `fn` gives 400 with the fixed message, whatever decoding and signing would do |
| Download.EmptyRouteNameRejected | api/file_download/index.js:16-17 | an empty route `fn` is not replaced by the query's, since `??` skips only an absent value |
| Download.PresentNameNotRejected | api/file_download/index.js:21-57 | any other request gets 302 or 500 |
| Download.BlobNameNormal | api/file_download/index.js:24 | the blob name starts with `data/`, a name already there is kept, and normalising is idempotent |
| Download.DownloadNameChoice | api/file_download/index.js:26 | the download name is the non-empty requested one, else the blob's last segment if non-empty, else `download`, with quotes replaced |
| Download.DownloadNameSafe | api/file_download/index.js:26 | the download name is never empty and holds no `"` |
| Download.DispositionReadsBack | api/file_download/index.js:37 | the header is `attachment; filename="<name>"`, and reading it back gives the name exactly when the name has no backslash |
| Download.Redirects | api/file_download/index.js:28-53 | on success: status 302, Location is the blob URL with the name encoded and the signature as query, and Cache-Control is `private, max-age=30`. The signature is read-only and expires 15 minutes after now |
| Download.Failures | api/file_download/index.js:54-57 | a failing decode or signature gives 500 with the error's message |
| Upload.DropUnclean | api/file_upload/index.js:18 | the run of characters outside the class at the front is dropped, and only that |
| Upload.SanitizeClean | api/file_upload/index.js:18 | the sanitised name holds only `[A-Za-z0-9_.-]` |
| Upload.SanitizeOfClean | api/file_upload/index.js:18 | a clean name is unchanged |
| Upload.SanitizeIdempotent | api/file_upload/index.js:18 | sanitising is idempotent |
| Upload.SanitizeChangesIffUnclean | api/file_upload/index.js:18 | the name changes exactly when it is not clean |
| Upload.RunBecomesOne | api/file_upload/index.js:18 | each maximal run outside the class, however long, becomes a single `_` |
| Upload.FileNameNotEmpty | api/file_upload/index.js:18 | a missing or empty file name becomes `file`, and the name is never empty |
| Upload.Decimal | api/file_upload/index.js:19 | `String(n)` is a non-empty string of decimal digits |
| Upload.DecimalValue | api/file_upload/index.js:19 | the digits give back the number |
| Upload.BlobNameRoundTrip | api/file_upload/index.js:19 | the blob name gives back the time and the sanitised name it was built from |
| Upload.BlobNameInjective | api/file_upload/index.js:19 | different times or names give different blob names |
| Upload.Answers | api/file_upload/index.js:20-33 | on success: 200 `text/plain`, with the blob URL (the account's blob host, the container and the escaped blob name), `?` and the signature as body. The signature allows create and write and expires an hour after now |
| Upload.Fails | api/file_upload/index.js:34-37 | a failing container call or signature gives 500 `Failed to create SAS URL` |

## Left out

- UTF-8 decoding (`TextDecoder` in streaming mode) is a browser library. The model receives reply chunks as already-decoded text.
- `JSON.parse`, `marked`, `toTightHtml`, `textContent`, `decodeURIComponent`, `encodeURIComponent`, the storage SDK's escaping of a blob name in its URL and the SAS signing are foreign code. They are parameters (`Stream.Codec`, `Download.Env`, `Upload.Env`).
- Network I/O is not modelled:
  - every `fetch` and XHR call: the chat request, the upload PUT with progress, the download preflight and the instruction loading;
  - `createIfNotExists`, which is the boolean `containerReady`.
  - A reply is given whole, as its chunks plus how it ended.
- Concurrency is not modelled:
  - a send runs to its end in one step;
  - in the current client, a click on the send button while `setBusy` marks it busy aborts the send; that is the `Aborted` ending;
  - in the old client, `setBusy` disables the send button for the whole send, so no click can abort a send that runs alone. Its `Aborted` ending stands only for a click during an overlapping send, started by the silence timer (deprecated/script_test.js:361-365) once an earlier send's `finally` has re-enabled the button;
  - an upload resolves later through `PdfUploaded`, `DocxConverted` or `UploadFailed`.
- `setBusy` gates the send button: the old client disables it, and the current client's click and Enter handlers test its `busy` class. With one send at a time, the model's clicks always find the button idle, so the gate itself is not modelled.
- Scrolling, copy buttons, the attachment thumbnails in a sent bubble (`appendAttachmentsToMessage`), prompts, and the avatar calls of `sendMessage` (`interruptSpeaking`, `speakAvatar`) are presentation or third-party SDK calls.
- The LiveAvatar session lifecycle, DOCX to PDF conversion, the sidebar resizer, the progress bar and `formatBytes` are third-party code, floating-point or presentation work.
- Timers are UI timing, so they are not modelled: the silence timers of both clients (including the old client's automatic send after silence), the minimum spinner time of a chip download, and the control auto-hide.
- Whether the browser offers `SpeechRecognition` is the constant `speechApi` of each recognizer, fixed when it is made. The alert shown without it is presentation.
- The chip click handler of `addCitation` (download preflight, spinner) is I/O. Only the list order is modelled.
- api/speechToken/index.js, api/get_liveavatar_token/index.js, api/get_heygen_token/index.js and api/get_instructions/index.js are not part of this model. They wrap a single upstream call.
- `crypto.randomUUID` for chip ids is replaced by a counter. Only the ids' distinctness is used.
- Text.Trim: its own ensures state only the two ends and the length. The full meaning (the middle of the input between white space, empty exactly when the input is all white space) is proved in `Text.TrimMeaning`, because stating it on the function makes every use of `Trim` costlier to verify.
- Attachments.Extension: `toLowerCase` is modelled on ASCII letters only; other letters are kept as they are.
- Upload.Clean: `\w` is taken as ASCII letters, digits and `_`, as JavaScript defines it without the `u` flag. Names are sequences of Unicode scalar values, as Dafny's strings are. JavaScript sees a character outside the Basic Multilingual Plane as two UTF-16 code units; both fall outside `[\w.\-]`, in the same run, so `Sanitize` gives the same `_` either way.
- Download.Failures: `String(err?.message || err)` is modelled as the error's message string.
- Upload.Env: the two `Date.now()` calls (for the name and for the expiry) are separate parameters, since they may differ.
- Dictation.Recognizer.Stop, Dictation.Recognizer.MicClick: the `sendMessage` call at the end of `stopDictation` is `Chat.Widget.SendMessage` on the input box's text, which the recognizer does not call itself. So a click that stops dictation keeps `input` here, while in the browser the send that follows clears it.
- The `window.CUSTOM_API_OPENAI_URL` request target of the current client, and the instruction prompt sent with the payload, are not modelled. The payload is the window of turns.
- The old client's hidden assistant bubble, rendered while streaming, is not modelled. Only the committed text, and whether an error bubble is shown, are modelled.
