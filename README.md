# Chat client core, modelled in Dafny

This project models the logic of the chat page `app/page.tsx` of a small Next.js
client. The page talks to a retrieval-augmented chat backend through `/api/chat`.
The model has three parts:

- **The reply renderer** `FormattedText`/`processText` (module `Formatter`), a pure
  function from the bot's reply text to a sequence of blocks:
  - the text is split on `'\n'`;
  - a line that is blank after `trim()` becomes a break;
  - every other line is cut by
    `line.split(/(\*\*.*?\*\*|\*.*?\*|`.*?`)/g)` into plain pieces and captured
    tokens;
  - each part is classified by its first and last characters as bold, italic,
    code or plain text, or dropped when it is blank.

  The JavaScript semantics the renderer needs live in module `JsText`: the
  ECMAScript whitespace set of `trim`, `split('\n')`, and the lazy `.*?` that
  stops at line terminators.
- **The reply normalisation** inside `sendMessage` (module `Reply`):
  - the JSON `output` field, or the raw body when the body is not JSON or has no
    string `output`;
  - literal backslash-`n` pairs turned into newlines;
  - the two asterisk rewrites;
  - `trim()`.
- **The page's state machine** (modules `ChatSpec` and `Chat`). The state is the
  transcript, the input text, the staged image and its preview, the loading flag
  and the session id. `ChatSpec` gives every handler as a transition on a state
  value and proves what the transitions keep. `Chat.ChatController` holds the same
  state as fields, and its methods perform each transition in place and are proved
  against `ChatSpec`:
  - `handleImageSelect` and the file reader's completion;
  - `removeImage`;
  - `sendMessage`, split at its `await` into `BeginSend` (the guard, the user
    message, the cleared composer, the posted form) and `CompleteSend` (the bot
    message for the outcome, the end of loading).

The modelled behaviour follows the code as written, including what looks odd:
- a lone `*` or backtick left over as a plain piece renders as an empty italic or
  code span;
- a `**` caught by the italic alternative renders as an empty bold span;
- both asterisk rewrites leave the text unchanged;
- the user message keeps the input untrimmed.

Reply bodies and parse results are inputs to the model. So are ids, timestamps
and the preview's data URL.

## Model

| member | source | states |
|---|---|---|
| JsText.TrimStartSpec | app/page.tsx:22 | the start-trimmed text is a suffix of the input, everything dropped is whitespace, and it does not start with whitespace |
| JsText.TrimEndSpec | app/page.tsx:22 | the end-trimmed text is a prefix of the input, everything dropped is whitespace, and it does not end with whitespace |
| JsText.TrimSpec | app/page.tsx:22 | `trim()` keeps a contiguous middle of the text with only whitespace around it, leaves no whitespace at either end, and gives the empty string exactly when the text is all whitespace |
| JsText.Trim | app/page.tsx:22 | `String.prototype.trim`; its properties are stated by `JsText.TrimSpec` |
| Formatter.Classify | app/page.tsx:32-56 | the chain of tests applied to one part; stated by `Formatter.ClassifyDrops`, `Formatter.ClassifyStripsDelimiters` and `Formatter.ClassifyPlainExactly` |
| Formatter.KeepSpans | app/page.tsx:31-57 | the `forEach` over the parts; stated by `Formatter.KeepSpansAppend`, `Formatter.KeepSpansAt` and `Formatter.KeepSpansEmpty` |
| Formatter.FormatLine | app/page.tsx:28-57 | the spans of one line; stated by `Formatter.FormatLineEmpty` and the `Format*` lemmas |
| Formatter.LineBlocks | app/page.tsx:22-65 | what one line contributes; stated by `Formatter.LineBlocksShape` |
| Formatter.ProcessText | app/page.tsx:16-69 | `processText`; stated by `Formatter.ProcessTextShape` |
| Reply.Rewrite | app/page.tsx:257-258 | the two asterisk rewrites; stated by `Reply.RewriteIsIdentity` |
| Reply.NormaliseReply | app/page.tsx:250-263 | the processing of an ok reply; stated by `Reply.NormaliseReplyIsClean`, `Reply.NormaliseReplyPaths` and `Reply.CleanSpec` |
| ChatSpec.SelectImage | app/page.tsx:133-160 | `handleImageSelect` on the state; stated by `ChatSpec.SelectImageEffect` |
| ChatSpec.LoadPreview | app/page.tsx:155-158 | the reader's completion as written; stated by `ChatSpec.StalePreviewSentWithoutImage` |
| ChatSpec.LoadPreviewFor | app/page.tsx:155-158 | the corrected reader completion; stated by `ChatSpec.StepCorrectedKeepsPreviewHasImage` |
| ChatSpec.RemoveImage | app/page.tsx:163-165 | `removeImage` on the state; stated by `ChatSpec.RemoveImageIdempotent` |
| ChatSpec.CanSend | app/page.tsx:200 | the guard of `sendMessage`; stated by `ChatSpec.BeginSendBlocked` and `ChatSpec.SingleFlight` |
| ChatSpec.UserMessage | app/page.tsx:202-208 | the user message; stated by `ChatSpec.BeginSendEffect` |
| ChatSpec.SendForm | app/page.tsx:229-235 | the posted form; stated by `ChatSpec.SendFormFields` |
| ChatSpec.BeginSend | app/page.tsx:199-225 | `sendMessage` up to the request; stated by `ChatSpec.BeginSendBlocked` and `ChatSpec.BeginSendEffect` |
| ChatSpec.Dispatched | app/page.tsx:202-225 | the state once the guard has passed; stated by `ChatSpec.BeginSendEffect` |
| ChatSpec.ReplyText | app/page.tsx:242-281 | the bot message's text; stated by `ChatSpec.ReplyTextOk`, `ChatSpec.ReplyTextFailure` and `ChatSpec.ReplyTextIsBotText` |
| ChatSpec.CompleteSend | app/page.tsx:265-284 | the rest of `sendMessage`; stated by `ChatSpec.CompleteSendEffect` |
| ChatSpec.Step | app/page.tsx:133-284 | one event on the page; stated by `ChatSpec.StepKeepsAlternation` |
| JsText.SplitLines | app/page.tsx:18 | `split('\n')` gives at least one piece, no piece holds a newline, and joining the pieces with `'\n'` gives the text back |
| JsText.SplitJoinLines | app/page.tsx:18 | splitting undoes joining, for lines without newlines |
| JsText.SplitLineWithoutNewline | app/page.tsx:18 | text without a newline is one line |
| JsText.SplitLinesPrefix | app/page.tsx:18 | a newline-free prefix followed by a newline becomes the first line |
| JsText.FindClose | app/page.tsx:28 | the lazy `.*?` followed by a delimiter ends within the text, after the delimiter |
| JsText.FindCloseEndsWithDelimiter | app/page.tsx:28 | a match found ends with the delimiter |
| JsText.FindCloseShortest | app/page.tsx:28 | the end found is a valid end for `.*?` plus delimiter that crosses no line terminator, no shorter one exists, and none is found exactly when no end exists |
| Formatter.MatchAt | app/page.tsx:28 | a match of the token grammar is at least two characters long and lies within the text |
| Formatter.MatchIsToken | app/page.tsx:28 | what the grammar matches opens and closes with the same delimiter character, and a match opening with `**` also closes with `**` |
| Formatter.Split | app/page.tsx:28 | the split yields an odd number of parts: plain pieces alternating with captured matches |
| Formatter.SplitConcat | app/page.tsx:28 | concatenating the parts gives the line back |
| Formatter.SplitTokens | app/page.tsx:28 | every part at an odd index is a captured token |
| Formatter.SplitRest | app/page.tsx:28 | after the first plain piece and its match, the parts are the split of the rest of the line, so every later match is again the leftmost one |
| Formatter.SplitLeftmost | app/page.tsx:28 | no match starts inside the first plain piece, and the part after it is the match that starts there: the scan takes the leftmost match |
| Formatter.ClassifyDrops | app/page.tsx:53-56 | a part is dropped exactly when it is whitespace only |
| Formatter.ClassifyStripsDelimiters | app/page.tsx:32-51 | a bold span comes only from a part opening and closing with `**`, an italic one only from a part opening and closing with `*`, a code one only from a part opening and closing with a backtick; bold strips two characters at each end, italic and code strip one, a part shorter than both delimiters gives empty text, a part opening with `**` is never italic, and plain text is kept verbatim |
| Formatter.ClassifyPlainExactly | app/page.tsx:32-56 | a part is kept verbatim as plain text exactly when it is not blank and none of the bold, italic and code tests accepts it, so short unclosed parts such as `*a` stay plain |
| Formatter.ClassifyWrapped | app/page.tsx:32-51 | wrapping text in `**`, `*` or backticks and classifying it gives the text back as bold, italic or code (italic only when the text does not itself start with `*`) |
| Formatter.PlainPart | app/page.tsx:53-56 | a non-blank part opening with neither delimiter is kept as plain text |
| Formatter.KeepSinglePart | app/page.tsx:31-57 | one part yields its classified span, or nothing when it is dropped |
| Formatter.KeepSpansAppend | app/page.tsx:31-57 | the spans of a concatenation of part lists are the spans of the first list followed by those of the second |
| Formatter.KeepSpansAt | app/page.tsx:31-57 | a kept part's span comes after the spans of all earlier parts and before those of all later parts: left-to-right order is kept |
| Formatter.KeepSpansEmpty | app/page.tsx:53-59 | a part list yields no span exactly when its text is whitespace only |
| Formatter.FormatLineEmpty | app/page.tsx:22-59 | a line yields no span exactly when it is blank |
| Formatter.CapturedPartsAreFormatted | app/page.tsx:28-51 | every captured token is rendered as bold, italic or code, never dropped and never plain |
| Formatter.LineBlocksShape | app/page.tsx:21-66 | every line contributes exactly one block, and a paragraph is never empty |
| Formatter.ProcessLinesCons | app/page.tsx:21-66 | the first line's block comes first, then the blocks of the remaining lines |
| Formatter.ProcessLinesShape | app/page.tsx:21-66 | one block per line, in the lines' order, each line's block at its own index |
| Formatter.ProcessTextShape | app/page.tsx:15-72 | `processText` yields one block per `'\n'`-separated line; the block is a break exactly for blank lines, and a non-empty paragraph of the line's spans otherwise |
| Formatter.SplitPlainPrefix | app/page.tsx:28 | text without `*` or backticks joins the first plain piece of what follows it |
| Formatter.SplitWithoutDelimiters | app/page.tsx:28 | a line without `*` or backticks is one plain piece |
| Formatter.FormatPlainLine | app/page.tsx:28-56 | a non-blank line without `*` or backticks renders verbatim as one plain span |
| Formatter.CloseAfterRun | app/page.tsx:28 | a delimiter after a run with no delimiter character and no line terminator is where the lazy match closes |
| Formatter.BoldToken | app/page.tsx:28 | `**text**` with no asterisk or line terminator inside is matched whole by the bold alternative |
| Formatter.ItalicToken | app/page.tsx:28 | `*text*` with non-empty text free of asterisks and line terminators is matched whole by the italic alternative |
| Formatter.CodeToken | app/page.tsx:28 | a backtick-quoted text with no backtick or line terminator inside is matched whole by the code alternative |
| Formatter.SplitAtToken | app/page.tsx:28 | a token at the start of a line is split off whole, after an empty plain piece |
| Formatter.SplitWholeToken | app/page.tsx:28 | a line that is one token splits into the token between two empty pieces |
| Formatter.SplitPlainThenToken | app/page.tsx:28 | plain text followed by one token splits into the text, the token and an empty piece |
| Formatter.KeepSpansSkipsEmpty | app/page.tsx:53-56 | the empty pieces the split leaves around tokens render as nothing |
| Formatter.FormatTokenFirst | app/page.tsx:28-57 | a token at the start of a line renders as its own span, followed by the spans of the rest of the line |
| Formatter.FormatPlainThenToken | app/page.tsx:28-57 | non-blank plain text followed by a token renders as a plain span and then the token's span |
| Formatter.FormatBoldFirst | app/page.tsx:28-38 | `**text**` at the start of a line renders as one bold span before the rest of the line |
| Formatter.FormatPlainItalic | app/page.tsx:28-45 | plain text followed by `*text*` renders as a plain span and an italic span |
| Formatter.FormatBoldPlainItalic | app/page.tsx:28-57 | bold, plain and italic text on one line render as those three spans, in order |
| Formatter.UnclosedDoubleAsterisk | app/page.tsx:28-38 | a leading `**` that nothing closes is caught by the italic alternative as the two asterisks alone, and renders as an empty bold span |
| Formatter.LoneDelimiterParts | app/page.tsx:39-51 | a lone `*` part renders as an empty italic span and a lone backtick as an empty code span |
| Formatter.ThreeAsterisksExample | app/page.tsx:28-57 | the line `***` renders as an empty bold span followed by an empty italic span |
| Reply.Unescape | app/page.tsx:256 | the replacement never lengthens the text, and text that ends up starting with `n` already started with `n` |
| Reply.UnescapeLeavesNoEscape | app/page.tsx:256 | no backslash-`n` pair is left after the replacement, not even one formed across a replaced pair |
| Reply.UnescapeKeepsPlainText | app/page.tsx:256 | text without backslash-`n` pairs is unchanged |
| Reply.UnescapeIdempotent | app/page.tsx:256 | replacing twice is replacing once |
| Reply.UnescapeEscape | app/page.tsx:256 | newlines written as backslash-`n` come back as newlines, for text without backslash-`n` pairs of its own |
| Reply.RewriteStep | app/page.tsx:257-258 | one step of either asterisk rewrite gives back a non-empty prefix of the text unchanged |
| Reply.RewriteIsIdentity | app/page.tsx:257-258 | both asterisk rewrites leave any text unchanged |
| Reply.TrimKeepsNoEscapes | app/page.tsx:259 | trimming text without backslash-`n` pairs leaves none |
| Reply.CleanSpec | app/page.tsx:256-262 | unescape-then-trim leaves no backslash-`n` pair and no whitespace at either end, and is empty exactly when the unescaped text is all whitespace |
| Reply.NormaliseReplyIsClean | app/page.tsx:250-263 | the JSON path and the fallback path both come to unescape-then-trim of the payload |
| Reply.NormaliseReplyPaths | app/page.tsx:250-263 | the `output` string is cleaned exactly when the body parsed as JSON and `output` is a string; any other body is cleaned as a whole |
| Reply.CleanEscaped | app/page.tsx:256-262 | a reply whose newlines were sent escaped gets them back: cleaning it is trimming the intended text |
| ChatSpec.ValidateImage | app/page.tsx:139-150 | a file is accepted exactly when its type is `image/png`, `image/jpeg` or `image/jpg` and its size is at most 5 MiB; the type is checked first |
| ChatSpec.ImageSizeLimit | app/page.tsx:145-150 | exactly 5 MiB is accepted, one byte more is refused as too large |
| ChatSpec.SelectImageEffect | app/page.tsx:133-160 | a missing or refused file leaves the state unchanged; an accepted file is staged and nothing else changes |
| ChatSpec.RemoveImageIdempotent | app/page.tsx:163-165 | `removeImage` leaves no image and no preview, keeps the transcript, the loading flag, the input and the session id, and doing it twice is doing it once |
| ChatSpec.SendFormFields | app/page.tsx:227-235 | the form carries the input as typed and the session id, and an `upload_image` field holding the staged image exactly when one was staged |
| ChatSpec.BeginSendBlocked | app/page.tsx:200 | with blank input and no image, a pending request or no session id, a send changes nothing |
| ChatSpec.BeginSendEffect | app/page.tsx:199-225 | an accepted send appends exactly one user message with the untrimmed input, keeps earlier messages, clears input, image and preview, sets loading and keeps the session; the message carries an image exactly when the preview is present and non-empty, and then it is that preview |
| ChatSpec.SingleFlight | app/page.tsx:199-225 | once a send is accepted, a second send is blocked and changes nothing |
| ChatSpec.ReplyTextOk | app/page.tsx:242-263 | on an ok response the bot's text is the cleaned payload |
| ChatSpec.ReplyTextFailure | app/page.tsx:242-281 | on a failed request or a status that is not ok the bot's text is the fixed error text |
| ChatSpec.ReplyTextIsBotText | app/page.tsx:246-281 | a bot text is the error text, or has no backslash-`n` pair and no whitespace at either end |
| ChatSpec.CompleteSendEffect | app/page.tsx:242-284 | completion appends exactly one non-user message with the reply text, keeps earlier messages, ends loading and changes nothing else |
| ChatSpec.InitialAlternates | app/page.tsx:75-81 | the initial state alternates |
| ChatSpec.SendKeepsAlternation | app/page.tsx:199-225 | an accepted send keeps the transcript alternating and only appends to it |
| ChatSpec.ReplyKeepsAlternation | app/page.tsx:242-284 | completing a pending send keeps the transcript alternating and only appends to it |
| ChatSpec.StepKeepsAlternation | app/page.tsx:133-284 | every event keeps user and bot messages alternating, loading exactly when the last message is the user's, every bot text well formed, and the transcript append-only |
| ChatSpec.RunKeepsAlternation | app/page.tsx:133-284 | any sequence of events from an alternating state keeps it alternating and only appends to the transcript |
| ChatSpec.StalePreviewSentWithoutImage | app/page.tsx:152-159 | as written, a preview that finishes loading after its image was sent makes the next message show that picture while its form uploads no image |
| ChatSpec.StepCorrectedKeepsPreviewHasImage | app/page.tsx:155-158 | with the corrected reader completion, a preview is only shown while an image is staged, and every event keeps it so |
| ChatSpec.RunCorrectedUploadsShownImages | app/page.tsx:155-158 | with the corrected reader completion, a user message carries a picture only when its form uploads an image |
| Chat.ChatController.constructor | app/page.tsx:75-81 | the fields start as the initial state, which satisfies the class invariant `Valid()` (the transcript alternates) |
| Chat.ChatController.InitSession | app/page.tsx:91-92 | the mount effect stores the session id |
| Chat.ChatController.SetInput | app/page.tsx:488 | the text box's change handler sets the input |
| Chat.ChatController.HandleImageSelect | app/page.tsx:133-160 | performs the image-selection transition and returns the alert for a refused file |
| Chat.ChatController.PreviewLoaded | app/page.tsx:155-158 | the reader's completion sets the preview to its result (none when the read failed), whatever the state is by then |
| Chat.ChatController.PreviewLoadedFor | app/page.tsx:155-158 | the corrected reader completion: sets the preview only while the file it was read from is still staged |
| Chat.ChatController.RemoveImage | app/page.tsx:163-175 | clears the staged image and the preview |
| Chat.ChatController.BeginSend | app/page.tsx:199-235 | performs the guarded send transition, keeps `Valid()`, and returns the posted form exactly when the guard passes |
| Chat.ChatController.Dispatch | app/page.tsx:202-235 | requires the guard to have passed and `Valid()`; appends the user message, clears the composer, sets loading, keeps `Valid()` and returns the form built from the state before |
| Chat.ChatController.CompleteSend | app/page.tsx:242-284 | called only while a request is pending: performs the completion transition for the outcome and keeps `Valid()` |

## Left out

- The server route `app/api/chat/route.ts` is not part of this model. It is a network
  relay built on `fetch`, `process.env` and the platform's form parsing. The
  fallback credential it contains is not reproduced.
- JSX markup and styling are not modelled. Neither are scrolling, mobile detection,
  the attach menu, the outside-click handler, or resetting the file inputs'
  `.value`. These are DOM plumbing with no effect on the modelled state.
- `uuidv4()`, `new Date()` and the `FileReader` data-URL conversion are parameters
  (`id`, `now`, and the reader's `result`, which is none when the read failed).
- `alert` becomes the returned `ImageError`. `console.error` is dropped.
- `fetch`, `response.text()` and `JSON.parse` are foreign calls. Their results are
  the `SendOutcome` and `ParsedBody` inputs of `CompleteSend`.
- `ParsedBody` keeps only whether the body parsed and whether `output` was a
  string. Any other JSON content is not modelled.
- React's asynchronous batching and closures are not modelled. State updates apply
  at once, in program order. A send is two steps with any other events allowed in
  between, which is how the late preview is modelled.
- The `isHydrated` flag is not modelled. It only affects rendering: it disables
  controls, chooses the placeholder text, and decides whether message timestamps and
  the session id are displayed. None of these is part of the modelled state.
- Strings are sequences of code points. JavaScript strings are UTF-16 code units, so
  characters outside the Basic Multilingual Plane count as one character here and two
  there. That changes no behaviour of the modelled operations, since every character
  they test for is in the Basic Multilingual Plane.

## Findings

| source | as written | input that shows it | evidently intended | confidence | as-written member | corrected member |
|---|---|---|---|---|---|---|
| app/page.tsx:155-158 | the reader's `onloadend` sets `imagePreview` unconditionally, even after the image it was reading has been sent or removed | choose a valid image, send before the reader finishes, let it finish, then type text and send: the preview reappears, and the second message shows the picture while its form has no `upload_image` | a finished read only sets the preview while its file is still the staged image, so a shown picture is always uploaded | not executed | ChatSpec.StalePreviewSentWithoutImage | ChatSpec.RunCorrectedUploadsShownImages |

The corrected completion is `ChatSpec.LoadPreviewFor`. It is used by
`ChatSpec.StepCorrected` and by `Chat.ChatController.PreviewLoadedFor`. The
controller also keeps `PreviewLoaded`, which behaves as the code is written.
