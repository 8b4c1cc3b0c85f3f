# SCOTS chatbot front end: chat stream decoder, image attachments and Markdown renderer

This project models four parts of the chat front end and proves properties about each.

- **`sendChatMessage`** is the call that posts a chat message and reads the reply. The reply arrives as a stream of Server-Sent-Events-like text.
  - It checks the installed-app id against a UUID pattern, then checks for a login token.
  - It builds the request body. Local-file attachments are sent with their url blanked.
  - It maps the HTTP status to an error.
  - It reads the body chunk by chunk. A line buffer is carried across chunks. Every complete line goes through the event handler, which updates the answer, the two ids, `created_at` and two flags.
  - It turns the decoded fields into the result, or into the "no response" error.
- **The image attachment list** (`useImageFiles`) is a list of `ImageFile` entries keyed by `_id`. It supports:
  - an insert-or-merge;
  - removal;
  - link-load success and failure marks;
  - clearing;
  - a visible subset that leaves out entries marked deleted.
  
  Beside the list sit the checks a local file must pass before upload, the entries an upload produces, and the `disabled` switch of the clipboard and drag-and-drop uploaders.
- **The image link box** turns the typed link into a remote entry. The entry starts out loading when the link has an `http`, `https` or `ftp` scheme, and failed otherwise.
- **`renderContent`** is the Markdown component's renderer, a fixed chain of global replacements:
  - escaping `&`, `<` and `>`;
  - fenced code blocks, inline code and links;
  - bold, then italic;
  - line breaks.

Modules:
- `SseLines` covers line splitting.
- `UnicodeEscape` covers `unicodeToChar`.
- `ChatDecoder` covers the event fold, the `ReadStream` loop and its specification `Decode`.
- `ChatApi` covers the call around the decoder.
- `ImageUploader` covers the list, both as values and as the class `ImageFileList`, plus the upload checks.
- `ImageLinkInput` covers the link box.
- `Markdown` and `HtmlMarkup` cover the renderer.
- `JsText` holds JavaScript string helpers (`trim`, `startsWith`, character classes).
- `Wrappers` holds `Option` and `Result`.

In the chat modules, text is a sequence of UTF-16 code units. `unicodeToChar` can produce any code unit, lone surrogates included. The attachment and Markdown modules use Dafny strings.

Each imperative piece of the source is a method proved equal to a specification function:
- `ChatDecoder.ReadStream` is the chunk loop. It calls `HandleLines`, which is the `forEach`, and that calls `HandleLine`, the callback.
- `ImageUploader.ImageFileList` holds the list field that the hook's handlers replace.
- `ImageLinkInput.LinkInput` holds the text of the link box.

The properties are then proved about the specification functions.

The comment at frontend/lib/miagent-api.ts:331 says the ids are saved from the first message. In the code, a message event that comes after `message_end` is still the "first message". It therefore overwrites the ids that `message_end` set. `ChatDecoder.MessageAfterEndReplacesIds` states this.

The decode does not depend on where the body is cut into chunks only as long as no `message_end` arrives (`ChatDecoder.ChunkingIrrelevant`). Reading stops after the chunk that delivers `message_end`, so a line after it is folded when it shares that chunk and ignored when it comes in a later one (`ChatDecoder.ChunkingMattersAfterEnd`).

## Model

| member | source | states |
|---|---|---|
| ChatApi.UuidByGroups | frontend/lib/miagent-api.ts:201 | The UUID test holds exactly when the id is five runs of 8, 4, 4, 4 and 12 hex digits of either case, joined by dashes. |
| ChatApi.BlankIdIsNotUuid | frontend/lib/miagent-api.ts:216-223 | A blank id never passes the UUID test, so the blank check only chooses which error is raised. |
| ChatApi.OutgoingFile | frontend/lib/miagent-api.ts:246-254 | A local-file attachment is sent with an empty url and its other fields unchanged. A remote one is sent unchanged. |
| ChatApi.OutgoingFiles | frontend/lib/miagent-api.ts:245-255 | The `files` key is absent exactly when the list is missing or empty. Otherwise it has the same count and order, with each url blanked exactly for local files. |
| ChatApi.OutgoingFilesIdempotent | frontend/lib/miagent-api.ts:245-255 | Mapping the attachments a second time changes nothing. |
| ChatApi.SendChatMessage | frontend/lib/miagent-api.ts:210-387 | Checks run in order. A blank id, then a non-UUID id, then a missing token each fail before any request. A request is made exactly when all three pass, and its body is `BuildBody`. Status 401 fails with "session expired" and is the only case that clears the login. Any other non-OK status fails with the server's message, else its error, else `API error: <status code>`; an error body that does not parse gives "Unknown error". An OK response without a body fails with "no reader". Otherwise the result is the decode of the body, concluded. |
| ChatApi.ConcludeSucceedsWithAnId | frontend/lib/miagent-api.ts:376-386 | A call succeeds exactly when the decode succeeds with at least one id. It then returns the decoded answer and ids unchanged. Its `created_at` is the decoded one when that is non-zero and the clock's seconds otherwise, so it is non-zero whenever the clock is. |
| ChatApi.PingOnlyStreamHasNoResponse | frontend/lib/miagent-api.ts:356-378 | A stream whose payloads are all pings fails with "no response". |
| ChatApi.FirstMessageIsMessage | frontend/lib/miagent-api.ts:331-341 | The first message event exists exactly when some payload is a `message` or `agent_message` event. |
| ChatDecoder.ErrorMessage | frontend/lib/miagent-api.ts:319-321 | The thrown message is never empty. It is `message`, else `error`, else "API error". |
| ChatDecoder.ApplyMessage | frontend/lib/miagent-api.ts:324-341 | A message event appends its decoded answer. It leaves the ids alone once the first message has passed. `created_at` is overwritten by any non-zero value. The event clears `isFirstMessage`. |
| ChatDecoder.ApplyMessageEnd | frontend/lib/miagent-api.ts:342-355 | `message_end` fills only empty fields: the conversation id; the message id from `message_id`, else from `id`; and `created_at`. It sets `messageEndReceived`. |
| ChatDecoder.HandleLine | frontend/lib/miagent-api.ts:305-360 | The `forEach` callback on one line equals the specification step `StepLine`. |
| ChatDecoder.HandleLines | frontend/lib/miagent-api.ts:304-365 | The loop over a chunk's lines equals the fold of the lines, and the first throw ends it. |
| ChatDecoder.ReadStream | frontend/lib/miagent-api.ts:294-371 | The read loop over the chunks returns exactly `Decode` of the chunks. |
| ChatDecoder.StepLineByEvent | frontend/lib/miagent-api.ts:306-317 | Blank lines, comment lines, lines that are not `data: ` lines, and data lines that do not parse all leave the state alone. Any other line acts exactly through its payload. |
| ChatDecoder.FoldLinesByEvents | frontend/lib/miagent-api.ts:305-361 | Folding lines equals folding the payloads that the lines carry, in order. |
| ChatDecoder.FoldFailsIffThrows | frontend/lib/miagent-api.ts:319-329 | The fold fails exactly when some payload has status 400, has no event, or is a message whose answer is not text. It then fails with the error of the first such payload. |
| ChatDecoder.ApplyPayloadThrows | frontend/lib/miagent-api.ts:319-329 | One payload throws exactly under those conditions, and with that error. |
| ChatDecoder.AnswerIsConcatenation | frontend/lib/miagent-api.ts:324-329 | On success, the answer is the old answer followed by the in-order concatenation of the decoded answers of the message events. |
| ChatDecoder.ApplyPayloadAnswer | frontend/lib/miagent-api.ts:324-329 | Only message events add to the answer, and they add their decoded fragment. |
| ChatDecoder.IdsFromFirstMessage | frontend/lib/miagent-api.ts:331-337 | Without `message_end`, the ids are the non-empty ids of the first message event, or the old ones. `isFirstMessage` stays set exactly while no message event came. |
| ChatDecoder.CreatedAtLastWriteWins | frontend/lib/miagent-api.ts:338-340 | Without `message_end`, `created_at` is the last non-zero value carried by a message event, or the old one. |
| ChatDecoder.IdsStableAfterFirstMessage | frontend/lib/miagent-api.ts:331-341 | Once the first message has passed, ids that are already set never change. |
| ChatDecoder.MessageAfterEndReplacesIds | frontend/lib/miagent-api.ts:331-355 | A message event that follows `message_end` overwrites both ids, because it is still the first message. |
| ChatDecoder.PingsChangeNothing | frontend/lib/miagent-api.ts:356-359 | Payloads that neither throw nor are message or `message_end` events leave the state unchanged. |
| ChatDecoder.FoldLinesAppend | frontend/lib/miagent-api.ts:304-365 | Folding two runs of lines is folding the first, then the second from its result. |
| ChatDecoder.FoldLinesKeepsEnd | frontend/lib/miagent-api.ts:342-355 | Lines without a `message_end` payload never change `messageEndReceived`. |
| ChatDecoder.StepLineEnd | frontend/lib/miagent-api.ts:319-355 | A line that succeeds sets the end flag exactly when it carries `message_end`, and never clears it. |
| ChatDecoder.FoldLinesEnd | frontend/lib/miagent-api.ts:304-365 | After a successful fold, the end flag is set exactly when it was set before or some line carried `message_end`. |
| ChatDecoder.ReadFromWithoutEnd | frontend/lib/miagent-api.ts:294-371 | Without `message_end`, reading all chunks equals folding the complete lines of their concatenation. |
| ChatDecoder.ChunkingIrrelevant | frontend/lib/miagent-api.ts:300-302 | Without `message_end`, two chunkings of the same text decode the same. |
| ChatDecoder.UnterminatedTailIgnored | frontend/lib/miagent-api.ts:296-302 | A final chunk without a newline changes nothing: the buffered tail is dropped at the end of the stream. |
| ChatDecoder.ReadFromUntilEnd | frontend/lib/miagent-api.ts:294-371 | From any state without the end flag: if chunk `k` is the first whose complete lines hold `message_end`, reading folds exactly the complete lines of chunks `0..k`. |
| ChatDecoder.DecodeWithEnd | frontend/lib/miagent-api.ts:294-371 | If chunk `k` is the first whose complete lines hold `message_end`, the decode is the fold of the complete lines of chunks `0..k`. On success the end flag is set, and the decode equals that of chunks `0..k` alone. |
| ChatDecoder.ChunkingMattersAfterEnd | frontend/lib/miagent-api.ts:300-369 | A `message_end` line and a message line with a non-empty fragment, sent as one chunk, decode to that fragment. Sent as two chunks with the same text, they decode to an empty answer. |
| ChatDecoder.LaterChunksIgnored | frontend/lib/miagent-api.ts:366-369 | Once a chunk has delivered `message_end`, later chunks are never read. |
| ChatDecoder.LineEventInEvents | frontend/lib/miagent-api.ts:310-317 | The payload of any parsed data line is among the payloads of the lines. |
| ChatDecoder.DecodeWithoutEnd | frontend/lib/miagent-api.ts:294-371 | Without `message_end`, the decode fails exactly when some payload throws. On success it gives the concatenated answer, the ids of the first message event, and the last non-zero `created_at`. |
| SseLines.Split | frontend/lib/miagent-api.ts:301-302 | `split('\n')` gives at least one piece and no piece holds a newline. The pieces but the last, each followed by a newline, then the last piece, give back the text. |
| SseLines.CompleteLinesAndTail | frontend/lib/miagent-api.ts:300-302 | The complete lines, each newline-terminated, then the kept buffer, equal the buffer plus the chunk. The kept buffer has no newline. |
| SseLines.SplitUnique | frontend/lib/miagent-api.ts:301-302 | Any way of writing the text as newline-free terminated lines plus a newline-free tail is the split. |
| SseLines.TwoChunks | frontend/lib/miagent-api.ts:300-302 | Splitting chunk by chunk with the buffer carried gives the same lines and tail as splitting the joined text. |
| UnicodeEscape.UnicodeToChar | frontend/lib/miagent-api.ts:288-292 | The decoded text is never longer than the input. |
| UnicodeEscape.NoBackslashUnchanged | frontend/lib/miagent-api.ts:288-292 | Text without a backslash is left unchanged. |
| UnicodeEscape.EscapeDecodes | frontend/lib/miagent-api.ts:289-291 | The lower-case `\uXXXX` escape that `Escape` writes for any code unit decodes to that code unit. |
| UnicodeEscape.HexEscapeDecodes | frontend/lib/miagent-api.ts:289-291 | `\u` followed by any four hex digits, each upper or lower case, decodes to the code unit those digits name, and decoding resumes after them. |
| UnicodeEscape.NonEscapeKept | frontend/lib/miagent-api.ts:289 | Where no escape starts, the code unit is copied and decoding resumes at the next one. |
| UnicodeEscape.PlainTextKept | frontend/lib/miagent-api.ts:288-292 | A stretch without a backslash is copied unchanged, whatever follows it. |
| UnicodeEscape.DecodeEscapeAll | frontend/lib/miagent-api.ts:288-292 | Escaping every code unit of a text and decoding gives the text back. |
| UnicodeEscape.UpperEscapeIsNul | frontend/lib/miagent-api.ts:289-290 | `\UXXXX` matches the case-insensitive pattern, but the case-sensitive removal of `\u` leaves it unparsable. It decodes to code unit 0. |
| JsText.TrimEmptyIffBlank | frontend/lib/miagent-api.ts:216 | `trim()` gives the empty string exactly when every character is JavaScript white space. |
| ImageUploader.MergeIdempotent | frontend/components/image-uploader/hooks.ts:17 | Spreading the same update twice is spreading it once. Spreading an entry over itself changes nothing. |
| ImageUploader.FindIndex | frontend/components/image-uploader/hooks.ts:13 | `findIndex` returns the first position with the `_id`, or -1 exactly when no entry has it. |
| ImageUploader.Upserted | frontend/components/image-uploader/hooks.ts:11-26 | A listed `_id` merges the update into its first entry only, keeping length and every other entry. A new `_id` is appended, keeping the prefix. |
| ImageUploader.Removed | frontend/components/image-uploader/hooks.ts:28-33 | Exactly the entries with another `_id` remain. |
| ImageUploader.RemovedAppend | frontend/components/image-uploader/hooks.ts:28-33 | Removal distributes over concatenation, so the order of what remains is kept. |
| ImageUploader.RemovedAbsent | frontend/components/image-uploader/hooks.ts:28-33 | Removing an `_id` that is not listed changes nothing. |
| ImageUploader.WithProgress | frontend/components/image-uploader/hooks.ts:35-53 | Only the first entry with the `_id` gets the new progress. Everything else is unchanged, and an absent `_id` changes nothing. |
| ImageUploader.ProgressLastWriteWins | frontend/components/image-uploader/hooks.ts:35-53 | Two progress marks on the same `_id` amount to the second one. |
| ImageUploader.Visible | frontend/components/image-uploader/hooks.ts:86-88 | The visible entries are exactly the listed ones not marked deleted. |
| ImageUploader.VisibleAppend | frontend/components/image-uploader/hooks.ts:86-88 | The filter distributes over concatenation, so order is kept. |
| ImageUploader.UpsertIdempotent | frontend/components/image-uploader/hooks.ts:11-26 | Uploading the same entry twice is uploading it once. |
| ImageUploader.UpsertThenRemove | frontend/components/image-uploader/hooks.ts:11-33 | Removing an `_id` right after uploading it leaves what removing it alone would. |
| ImageUploader.MimeSubtype | frontend/components/image-uploader/hooks.ts:111 | The second `/`-separated piece of the MIME type exists exactly when the type has a `/`, and it holds no `/`. |
| ImageUploader.MimeSubtypeSound | frontend/components/image-uploader/hooks.ts:111 | The subtype is the text after the first `/`, up to the next `/` or the end. |
| ImageUploader.ToLower | frontend/components/image-uploader/hooks.ts:111 | Lower-casing keeps the length and maps each character on its own. |
| ImageUploader.ToLowerIdempotent | frontend/components/image-uploader/hooks.ts:111 | Lower-casing twice is lower-casing once. |
| ImageUploader.MimeSubtypeOfLower | frontend/components/image-uploader/hooks.ts:111 | The subtype of the lower-cased type is the lower-cased subtype. |
| ImageUploader.AcceptIgnoresCase | frontend/components/image-uploader/hooks.ts:108-120 | Whether a file is accepted does not depend on the case of its MIME type. |
| ImageUploader.AcceptUnderLargerLimit | frontend/components/image-uploader/hooks.ts:117-120 | A larger non-zero size limit accepts every file a smaller one accepts. |
| ImageUploader.LocalUploadLifecycle | frontend/components/image-uploader/hooks.ts:122-147 | A local upload with a fresh stamp appends its entry. The progress, success and failure callbacks then rewrite that last entry only. |
| ImageUploader.UploadStaysWithinLimit | frontend/components/image-uploader/hooks.ts:166-173 | When the uploader is enabled, one more upload stays within `number_limits`. The uploader becomes disabled exactly when the limit is reached. |
| ImageUploader.ImageFileList.constructor | frontend/components/image-uploader/hooks.ts:8-9 | The list starts empty. |
| ImageUploader.ImageFileList.VisibleFiles | frontend/components/image-uploader/hooks.ts:86-88 | The exposed files are the stored ones not marked deleted. |
| ImageUploader.ImageFileList.Upload | frontend/components/image-uploader/hooks.ts:11-26 | `handleUpload` replaces the list by `Upserted`. |
| ImageUploader.ImageFileList.Remove | frontend/components/image-uploader/hooks.ts:28-33 | `handleRemove` replaces the list by `Removed`. |
| ImageUploader.ImageFileList.ImageLinkLoadError | frontend/components/image-uploader/hooks.ts:35-43 | `handleImageLinkLoadError` marks the first entry with the `_id` as failed (-1). |
| ImageUploader.ImageFileList.ImageLinkLoadSuccess | frontend/components/image-uploader/hooks.ts:45-53 | `handleImageLinkLoadSuccess` marks the first entry with the `_id` as done (100). |
| ImageUploader.ImageFileList.Clear | frontend/components/image-uploader/hooks.ts:81-84 | `handleClear` empties the list. |
| ImageLinkInput.ClickEntry | frontend/components/image-uploader/image-link-input.tsx:19-32 | An entry is emitted exactly when the box is enabled and the link is not blank. The entry is remote, has an empty file id and the untrimmed link as url, and has progress 0 exactly when the scheme matches and -1 otherwise. |
| ImageLinkInput.SchemeHead | frontend/components/image-uploader/image-link-input.tsx:11 | A link with an accepted scheme starts with `h` or `f`. |
| ImageLinkInput.SchemeLinkIsNotBlank | frontend/components/image-uploader/image-link-input.tsx:11-20 | A link with an accepted scheme is never blank. |
| ImageLinkInput.LeadingSpaceFails | frontend/components/image-uploader/image-link-input.tsx:20-27 | The scheme is tested on the untrimmed link, so a leading space makes the entry start out failed. |
| ImageLinkInput.LinkInput.constructor | frontend/components/image-uploader/image-link-input.tsx:17 | The box starts empty. |
| ImageLinkInput.LinkInput.Change | frontend/components/image-uploader/image-link-input.tsx:40 | Typing replaces the text. |
| ImageLinkInput.LinkInput.Click | frontend/components/image-uploader/image-link-input.tsx:19-32 | A click emits `ClickEntry` and empties the box exactly when something is emitted. |
| ImageLinkInput.LinkInput.KeyDown | frontend/components/image-uploader/image-link-input.tsx:42-46 | Enter behaves like a click. Other keys emit nothing and keep the text. |
| Markdown.EscapeIsPerChar | frontend/components/markdown.tsx:23-26 | The three replacements turn each `&`, `<` and `>` into its entity, one character at a time, with no entity escaped twice. |
| Markdown.EscapeRemovesAngles | frontend/components/markdown.tsx:22-26 | No `<` or `>` is left after escaping. |
| Markdown.DecodeEntitiesInvertsEscape | frontend/components/markdown.tsx:23-26 | Escaping loses nothing: decoding the entities with `&amp;` last restores any text. |
| Markdown.UnescapeCodeRestoresRaw | frontend/components/markdown.tsx:30-33 | For code without `&`, un-escaping after escaping gives back the raw code, its `<` and `>` included. |
| Markdown.UnescapeCodeOfEntityText | frontend/components/markdown.tsx:30-33 | Because `&amp;` is un-escaped first, the typed text `&lt;` comes out as `<`. |
| Markdown.FenceAtSound | frontend/components/markdown.tsx:29 | A block match is a fence, a word-character language, a newline, the body up to the first following fence, and that fence. |
| Markdown.FenceAtMatches | frontend/components/markdown.tsx:29 | Any such text is matched back to exactly its language, body and rest. |
| Markdown.CodeBlocks | frontend/components/markdown.tsx:29-35 | Text without a backtick passes the code-block step unchanged. |
| Markdown.CodeBlocksOfFence | frontend/components/markdown.tsx:29-35 | A lone fenced block becomes one `<pre><code>` holding its body un-escaped. |
| Markdown.InlineCodeAtSound | frontend/components/markdown.tsx:38 | An inline-code match is a backtick, a non-empty group without backtick or newline, and a backtick. |
| Markdown.InlineCodeWraps | frontend/components/markdown.tsx:38 | Inline code with such a group becomes `<code …>` around the group, and the rest is scanned on. |
| Markdown.InlineCode | frontend/components/markdown.tsx:38 | Text without a backtick is unchanged. |
| Markdown.LinkAtSound | frontend/components/markdown.tsx:41 | A link match is exactly `[text](href)` with a non-empty text without `]` and a non-empty href without `)`. |
| Markdown.LinkAtMatches | frontend/components/markdown.tsx:41 | Any such link markup is matched back to its text, href and rest. |
| Markdown.LinkWraps | frontend/components/markdown.tsx:41 | `[t](u)` becomes an anchor to `u` reading `t`, and the rest is scanned on. |
| Markdown.Links | frontend/components/markdown.tsx:41 | Text without `[` is unchanged. |
| Markdown.BoldAtSound | frontend/components/markdown.tsx:44 | A bold match is two stars, a non-empty group without stars, and two stars. |
| Markdown.BoldWraps | frontend/components/markdown.tsx:44 | `**x**` becomes `<strong>` around `x`, and the rest is scanned on. |
| Markdown.Bold | frontend/components/markdown.tsx:44 | Text without `*` is unchanged. |
| Markdown.ItalicAt | frontend/components/markdown.tsx:47 | An emphasis match is never preceded by a star, has a non-empty star-free group, and is not followed by a star. |
| Markdown.ItalicAtSound | frontend/components/markdown.tsx:47 | An emphasis match is a star, the group, and a star. |
| Markdown.ItalicWraps | frontend/components/markdown.tsx:47 | `*x*` not followed by a star becomes `<em>` around `x`, and the scan goes on with a star just behind it. |
| Markdown.StarAfterMatchCannotOpen | frontend/components/markdown.tsx:47 | A star right after a star cannot open an emphasis. |
| Markdown.Italic | frontend/components/markdown.tsx:47 | Text without `*` is unchanged. |
| Markdown.BoldBeforeItalic | frontend/components/markdown.tsx:43-47 | Since bold runs first, `**x**` ends as `<strong>` and is never read as emphasis. |
| Markdown.BreakLinesPerChar | frontend/components/markdown.tsx:50 | Every newline becomes `<br />` and no newline remains. |
| Markdown.RenderedHasNoNewline | frontend/components/markdown.tsx:17-53 | Empty content renders as the empty string. No rendered HTML contains a newline, code blocks included. |
| Markdown.PlainTextRendering | frontend/components/markdown.tsx:17-53 | Text without backticks, brackets or stars is only escaped, with its newlines turned into `<br />`. |
| Markdown.FencedBlockRendering | frontend/components/markdown.tsx:17-53 | A message made of one fenced block renders as one `<pre><code>`. Its body is escaped then un-escaped, and its newlines are turned into `<br />`, even though the comment at line 49 says code blocks keep them. |
| Markdown.RawCodeInFencedBlock | frontend/components/markdown.tsx:17-53 | Raw `<` and `>` in fenced code without `&` reach the HTML unescaped. |
| Markdown.EntityTextInFencedBlock | frontend/components/markdown.tsx:17-53 | The text `&lt;` written in a fenced block renders as a raw `<`. |
| Markdown.LiveTagInFencedBlock | frontend/components/markdown.tsx:29-35 | An `<img … onerror=…>` tag inside a fenced block is emitted as live HTML. |
| Markdown.KeptFencedBlockRendering | frontend/components/markdown.tsx:29-35 | With the body kept escaped, a lone fenced block shows its code as text. The body holds no `<` or `>` from the code, and decoding its entities gives the code back. |
| Markdown.KeptTagIsText | frontend/components/markdown.tsx:29-35 | With the body kept escaped, the same image tag is shown as text. |
| HtmlMarkup.PreWrapperPlain | frontend/components/markdown.tsx:34 | The `<pre><code>` wrapper holds no backtick, bracket, star or newline, so later steps never rewrite it. |
| HtmlMarkup.StrongPlain | frontend/components/markdown.tsx:44 | The `<strong>` wrapper holds none of them either, so italic never rewrites it. |

## Findings

| source | as written | input that shows it | evidently intended | confidence | as-written member | corrected member |
|---|---|---|---|---|---|---|
| frontend/components/markdown.tsx:29-35 | The code-block callback un-escapes `&amp;`, `&lt;` and `&gt;` in the block body before placing it in the HTML. This undoes the escaping that line 22 says is there to prevent XSS. | A message consisting of a fenced block whose body is `<img src=x onerror=alert(1)>` | The body stays escaped, so the block shows its code as text | medium, not executed | Markdown.LiveTagInFencedBlock | Markdown.KeptFencedBlockRendering |

`Markdown.RenderContent` keeps modelling the code as written. `Markdown.RenderContentKept` is the same pipeline with the corrected code-block step `Markdown.CodeBlocksKept`.

## Left out

- Network and platform calls are left out: `fetch`, the request url and headers, `reader.read()` promises, the `localStorage` removals and the redirect on 401, and `console` logging. The response is a parameter: its status, its error body when it parses, and its body as text chunks. The 401 path is recorded only as "login cleared, call failed".
- `TextDecoder` is left out: the chunks are already-decoded text. A UTF-8 sequence split across chunks is not modelled.
- `JSON.parse` is a parameter that returns an optional payload record; the JSON grammar is not modelled. Payload fields hold JavaScript truthiness directly: an empty string stands for an absent or falsy string, and 0 for an absent `created_at`. Non-string ids and non-numeric `created_at` values are not modelled.
- `Date.now()` is a parameter. It enters as the `created_at` default in seconds and as the `_id` stamp of new attachments.
- UnicodeEscape.UnicodeToChar: its own contract is only the length bound. What it produces is stated case by case by `HexEscapeDecodes`, `UpperEscapeIsNul`, `NonEscapeKept` and the empty text, which together cover every input.
- A `data: null` line is not modelled. There `bufferObj.status` throws a `TypeError` (miagent-api.ts:319), which is re-thrown with its message (miagent-api.ts:362-364). The parser parameter returns either no payload or a record.
- A non-OK response whose JSON error body is `null` is not modelled. There `error.message` throws a `TypeError` (miagent-api.ts:266-267). The error body is either absent, meaning it did not parse, or a record.
- Non-string `message` and `error` fields are not modelled. The source turns a truthy non-string value into text when it builds the `Error`; the model's fields are text.
- The message of an error thrown inside `forEach` and re-thrown at miagent-api.ts:362-364 is kept as the decoder's error value. The model does not rebuild the `Error` object around it.
- `handleReUpload` (hooks.ts:55-79) is left out. It works through asynchronous upload callbacks that write over a snapshot of the list taken when the retry started.
- The `imageUpload` request and its progress arithmetic are left out, because the arithmetic is floating point. `LocalUploadLifecycle` takes the progress value as given.
- `FileReader` is left out. The data URL of a local file is a parameter of `LocalEntry`.
- ImageUploader.ToLower: maps only ASCII `A`-`Z`. JavaScript's `toLowerCase` also lower-cases other scripts. The extensions it is compared with are ASCII.
- ImageUploader.Merge: models object spread key by key, treating an optional key that is absent and one explicitly set to `undefined` alike. In the source, an explicit `undefined` would overwrite the old value. No caller in the source passes one.
- Markdown.UnescapeCodeRestoresRaw: stated only for code without `&`. With `&`, un-escaping also decodes entities the user typed, as `UnescapeCodeOfEntityText` shows.
- Markdown.FencedBlockRendering, Markdown.RawCodeInFencedBlock and Markdown.KeptFencedBlockRendering: stated for a message that is one fenced block whose code has no backtick, `[` or `*`. Messages that mix blocks with other markup are covered only by the step-by-step lemmas.
- The link `href` is not escaped for `"`, and the model reproduces this. No property is stated about attribute quoting.
- React state, rendering and styling are left out, apart from the text held by the link box and the list held by `useImageFiles`.
- The Python backend is not part of this model.
