# jpt — a verified model of the translation extension's core

jpt is a browser extension for reading Japanese. The user holds Shift and
sweeps the pointer over text, or presses the `toggle-translate` shortcut. The
content script then shows a loading overlay and sends the selected text to
the background worker. The worker asks the OpenAI chat-completion endpoint
for a word-by-word breakdown and a translation. It sends exactly one
`displayTranslation` message back, and the content script renders that
answer as an HTML table plus a translation block in a draggable overlay,
which a click outside dismisses.

This project models three parts of that system in Dafny and proves their
properties:

* **The response formatter** (`buildHtml`), in `Formatter.dfy`:
  * the specification function `Formatted`, built on `Parse` and `Render`;
  * the imperative `BuildHtml`, whose loops follow the source's `forEach`s, proved equal to `Formatted`.
  * It rests on `Text.dfy` (JavaScript `trim`, `join`, and decimal rendering of a status code) and `Splitting.dfy` (JavaScript `split` with the two regular expressions the formatter uses, as a left-to-right scanner).
  * The lemmas prove:
    * how each line is classified;
    * that every non-blank line gives exactly one entry, in order;
    * the counts;
    * that fragments hold no delimiter;
    * the shape of the markup;
    * a round trip: an answer written in the format the prompt requests parses back into exactly its rows and translation lines.
* **The overlay and Shift-selection controller**, in `Content.dfy`: the class `ContentScript`.
  * Its fields are the script's module-level state: `selectingShift`, the anchor, `lastPopupPos` and `outsideHandler`.
  * It also holds the page state the script changes: the overlay elements, the capture-phase `mousedown` listeners, the native selection, the drag in progress, and the messages sent.
  * Each event listener and helper is a method. Every event method (and the show functions) preserves `Valid()`, which says:
    * there is at most one overlay;
    * the only registered outside-click handler is `outsideHandler`;
    * a shown overlay has its handler registered;
    * a position is remembered whenever an overlay is shown.
  * `AttachOutsideClick` runs in the middle of a show function, where the new overlay already exists but its handler does not yet; it states its effect without `Valid()`.
  * Two methods are moves of the page rather than of the script: `UserSelects` (an ordinary selection) and `PageRemovesOverlay` (the page deleting the element). The scenarios use them.
  * Each method also states its whole new state.
  * The DOM's answers arrive as a `Page` value with each event: the text and rectangle of a range, `caretRangeFromPoint`, and the viewport and scroll.
* **The background worker**, in `Background.dfy`:
  * `OnCommand`: the keyboard command forwarded to the active tab.
  * `OnMessage`: the `selectedText` listener, as a pure function. Its inputs are the message, the sending tab, the stored key and the HTTP outcome. It returns the sequence of effects the listener performs.
  * `Messages.dfy` holds the message shapes shared by both scripts.

## Model

| member | source | states |
|---|---|---|
| Text.Trim | jpt/content.js:73 | `trim` leaves a string with no white space at either end, and gives "" exactly when the input is all white space |
| Text.TrimStartShape | jpt/content.js:73 | the leading part `trim` drops is all white space, and what remains is the rest of the string, starting with a non-white-space character |
| Text.TrimEndShape | jpt/content.js:73 | the trailing part `trim` drops is all white space, and what remains is the start of the string, ending with a non-white-space character |
| Text.TrimTidy | jpt/content.js:73 | a string with no white space at either end is left unchanged by `trim` |
| Text.TrimUnique | jpt/content.js:69 | trimming white space + m + white space yields m whenever m has no white space at its ends |
| Text.TrimIdempotent | jpt/background.js:23 | the Shift release sends text it has already trimmed (jpt/content.js:49); trimming it again in the background's blank test changes nothing |
| Text.Join | jpt/content.js:94 | `join` starts with the first part's first character and ends with the last part's last character |
| Text.JoinAvoids | jpt/content.js:81 | a character absent from every part and from the separator is absent from the joined string |
| Text.Decimal | jpt/background.js:69 | the status is rendered as decimal digits with no leading zero |
| Text.DecimalRoundTrip | jpt/background.js:69 | reading the rendered digits back yields the status code |
| Splitting.SplitFrom | jpt/content.js:69 | `split` always returns at least one piece, and the first piece extends the text scanned before the first separator |
| Splitting.MatchLen | jpt/content.js:77 | a match of a separator (a run of line feeds, one line feed, or a column gap) at the start of the text consumes only separator characters and never more than the text |
| Splitting.NoGapSinglePiece | jpt/content.js:77 | a string with no tab, no U+3000 and no two adjacent spaces splits into itself alone |
| Splitting.GapSplits | jpt/content.js:77 | a string containing a column gap splits into at least two pieces |
| Splitting.PiecesHaveNoGap | jpt/content.js:77 | no piece of the column split contains a tab, a U+3000 or two adjacent spaces |
| Splitting.PiecesHaveNoNewline | jpt/content.js:69 | no piece of the `/\n+/` split contains a line feed |
| Splitting.LastPieceNonEmpty | jpt/content.js:77 | when the text does not end in a separator, the last piece is not empty |
| Formatter.NonEmpty | jpt/content.js:77 | `filter(Boolean)` keeps a string exactly when it is in the input and non-empty, and never lengthens the list |
| Formatter.NonEmptyAppend | jpt/content.js:77 | `filter(Boolean)` keeps the input order: the survivors of a concatenation are those of the first part followed by those of the second |
| Formatter.NonEmptyKeepsAll | jpt/content.js:77 | `filter(Boolean)` leaves a list without empty strings unchanged |
| Formatter.Fragments | jpt/content.js:77 | definition: the column split of a trimmed line, filtered; characterised by FragmentsAreGapFree, GapFreeFragments and GappedFragments |
| Formatter.Lines | jpt/content.js:69 | definition: the answer trimmed and split on runs of line feeds; characterised by PiecesHaveNoNewline, RunsAsLineFeeds and SplitJoined |
| Formatter.Classify | jpt/content.js:73-85 | definition: the decision for one line; characterised by ClassifyBlank, ClassifyRowIffGap, ClassifyRowShape and ClassifyTranslationShape |
| Formatter.Parse | jpt/content.js:69-86 | definition: the rows and translation lines of the answer's lines; characterised by EntriesFollowLines, LayoutCounts and AnswerEntries |
| Formatter.Render | jpt/content.js:88-95 | definition: the table, then the div when there is a translation line; characterised by RenderShape |
| Formatter.Formatted | jpt/content.js:67-97 | definition: `buildHtml` as a specification; characterised by FormattedShape and AnswerRoundTrip, and computed by BuildHtml |
| Formatter.BuildHtml | jpt/content.js:67-97 | the two `forEach` loops and the appends compute exactly the specification `Formatted(text)` |
| Formatter.CollectEntries | jpt/content.js:72-86 | the `forEach` over the lines collects exactly the rows and the translation lines of the specification, in order |
| Formatter.TableHtml | jpt/content.js:88-92 | the rows loop yields the table wrapper around one `<tr>` per row, in order |
| Formatter.FragmentsAreGapFree | jpt/content.js:77 | every fragment is non-empty and holds no tab, no U+3000 and no two adjacent spaces |
| Formatter.GapFreeFragments | jpt/content.js:77-84 | a trimmed line with no column gap is one fragment, the line itself |
| Formatter.GappedFragments | jpt/content.js:77-79 | a trimmed line with a column gap has at least two fragments, and the first is a prefix of the line |
| Formatter.ClassifyBlank | jpt/content.js:73-74 | a line contributes nothing exactly when it is all white space |
| Formatter.ClassifyRowIffGap | jpt/content.js:77-85 | a non-blank line becomes a table row if and only if its trimmed text contains a column gap, and otherwise a translation line |
| Formatter.ClassifyRowShape | jpt/content.js:79-82 | a row's term is the first fragment: non-empty, gap-free and a prefix of the trimmed line; its gloss is non-empty and holds no tab and no U+3000 |
| Formatter.ClassifyTranslationShape | jpt/content.js:83-84 | a translation line is the whole trimmed line; it is non-empty, gap-free and its own single fragment |
| Formatter.EntriesOfAppend | jpt/content.js:72-86 | the entries of two blocks of lines are the entries of the first followed by those of the second |
| Formatter.EntriesFollowLines | jpt/content.js:72-86 | there is exactly one entry per non-blank line, and the i-th entry is the classification of the i-th non-blank line |
| Formatter.PartitionCounts | jpt/content.js:79-85 | every entry goes to exactly one of the rows and the translation lines |
| Formatter.LayoutCounts | jpt/content.js:69-86 | rows plus translation lines equals the number of non-blank lines |
| Formatter.RowsOfAppend | jpt/content.js:82-84 | rows and translation lines keep the input order across concatenation |
| Formatter.RenderShape | jpt/content.js:88-95 | the markup starts with the table; it ends with `</div>` exactly when there is a translation line, and then ends with the `<br>`-joined lines in the div |
| Formatter.FormattedShape | jpt/content.js:68-95 | `buildHtml` is "" exactly for "", any other input (white space included) yields the table, and the translation div closes the markup exactly when a translation line exists |
| Formatter.RunsAsLineFeeds | jpt/content.js:69 | splitting on runs of line feeds gives the same entries as splitting on each line feed, since the extra pieces are empty |
| Formatter.SplitJoined | jpt/content.js:69 | splitting lines joined by "\n" on line feeds gives the lines back |
| Formatter.RowLineClassified | jpt/content.js:77-82 | a line "term\tgloss" made of two well-formed cells is classified as exactly that row |
| Formatter.CellClassified | jpt/content.js:83-84 | a well-formed single cell is classified as a translation line holding itself |
| Formatter.AnswerEntries | jpt/content.js:72-86 | row lines, an optional blank line, then translation lines give back exactly those rows and translation lines |
| Formatter.AnswerRoundTrip | jpt/content.js:67-97 | an answer in the requested format (row lines, a blank line, translation lines) parses into exactly its rows and translation lines, and `buildHtml` renders them |
| Formatter.WorkedExample | jpt/content.js:69-86 | "忘れる(わすれる)\tto forget", a blank line and "I forgot." give one row and one translation line |
| Background.OnCommand | jpt/background.js:4-13 | the `translate` request is sent, to the active tab, exactly for `toggle-translate` when that tab has a non-zero id |
| Background.OnMessage | jpt/background.js:16-93 | a message that is not `selectedText` causes nothing; otherwise the last step is one `displayTranslation` to the sender, with no send before it |
| Background.RequestIffTextAndKey | jpt/background.js:33-65 | the key is read exactly when the text is not blank; the request is made exactly when a key is also stored; it carries the untrimmed text, `gpt-4o`, 0.3 and a bearer token |
| Background.BlankTextNotice | jpt/background.js:23-30 | missing or blank text is answered with the no-text notice alone, before any key is read |
| Background.MissingKeyNotice | jpt/background.js:36-42 | with no stored key the reply is the API-key notice and no request is made |
| Background.ReplyByOutcome | jpt/background.js:68-87 | a thrown error or a non-2xx status gives the failure notice with its message; a 2xx gives the trimmed content, or the empty-answer notice when that is missing or blank |
| Background.ReplyFor | jpt/background.js:44-88 | the reply chosen from the HTTP outcome is never empty; ReplyByOutcome gives each case |
| Background.Translation | jpt/background.js:23-87 | every handled message is answered with a non-empty translation: one of the two notices, or what the request brought |
| Background.Preliminaries | jpt/background.js:23-65 | the steps taken before the reply (reading the key, issuing the request) never send anything to the tab |
| Background.RepliesWithOutcome | jpt/background.js:44-88 | with non-blank text and a stored key, the reply is exactly the one the HTTP outcome selects |
| Content.Placement | jpt/content.js:172-184 | a new overlay takes the remembered position, else the position below the selection's rectangle, else the viewport centre |
| Content.Unregister | jpt/content.js:209 | `removeEventListener` leaves every other listener registered and this one not at all |
| Content.SelectionString | jpt/content.js:252 | definition: the native selection's text, or "" without a range; characterised by NoSelectionNoText and used by HandleTranslateRequest and KeyUp |
| Content.NoSelectionNoText | jpt/content.js:49 | with no selection, the trimmed selection text is empty |
| Content.MoveNode | jpt/content.js:316-317 | only the dragged element's position changes |
| Content.ContentScript.constructor | jpt/content.js:6-12 | the script starts idle: no overlay, no handler, no remembered position, no anchor |
| Content.ContentScript.AttachOutsideClick | jpt/content.js:206-227 | the previous handler is unregistered before a fresh one is registered and remembered |
| Content.ContentScript.Show | jpt/content.js:165-203 | the old overlay element is removed and one new element is appended at the placement; the position is remembered; the old handler is replaced by a single fresh one |
| Content.ContentScript.ShowLoadingOverlay | jpt/content.js:163-204 | the old overlay is replaced by one loading overlay at the placement, that position is remembered, and a single fresh outside-click handler is registered |
| Content.ContentScript.ShowOverlay | jpt/content.js:260-298 | the same as the loading overlay, but holding `buildHtml(content)` and draggable |
| Content.ContentScript.HandleTranslateRequest | jpt/content.js:242-254 | the loading overlay is shown first; then "" is sent when there is no selection, else the untrimmed selected text |
| Content.ContentScript.OnMessage | jpt/content.js:230-237 | `translate` runs the translate request; `displayTranslation` shows the formatted answer and sends nothing |
| Content.ContentScript.KeyDown | jpt/content.js:15-21 | a Shift press while idle starts tracking and clears the anchor and the selection; anything else changes nothing |
| Content.ContentScript.MouseMove | jpt/content.js:24-43 | while tracking, a resolved caret extends the selection from the anchor, which the first caret fixes; with no caret, or when idle, nothing changes; a drag in progress moves the element and the remembered position to the pointer minus the grab offset |
| Content.ContentScript.KeyUp | jpt/content.js:46-64 | Shift release ends tracking; non-blank trimmed text puts the spinner below the selection and sends that text; blank text shows and sends nothing; the selection is always cleared |
| Content.ContentScript.ReleaseSelection | jpt/content.js:49-62 | non-empty trimmed text remembers the position below the selection, shows the spinner there and sends that text; empty text changes nothing; the selection is cleared in both cases |
| Content.ContentScript.MouseDown | jpt/content.js:212-224 | the handler only unregisters itself when the overlay is gone; a press outside removes the overlay and the handler; a press inside keeps both, and a right-button press on a loaded overlay starts a drag |
| Content.ContentScript.MouseUp | jpt/content.js:320-322 | releasing the button ends the drag and changes nothing else |
| Content.DragMovesByDelta | jpt/content.js:305-319 | a right-button drag moves the overlay by exactly the pointer's travel and remembers the new position |
| Content.SecondOutsideClickIsNoOp | jpt/content.js:212-224 | an outside click dismisses the overlay and unregisters the handler, after which a second click changes nothing |
| Content.LoadedWhereLoading | jpt/content.js:268-269 | the loaded overlay appears where the loading overlay was |
| Content.BlankShiftSelection | jpt/content.js:47-63 | pressing and releasing Shift with nothing selected shows nothing and sends nothing |
| Content.VanishedOverlayClick | jpt/content.js:212-217 | once the page has removed the overlay, the next press anywhere only unregisters the stale handler, leaving neither overlay nor handler |
| Content.CommandSendsSelection | jpt/content.js:242-253 | after an ordinary selection, the `translate` request shows the spinner and sends that range's text untrimmed |

## Left out

- Styling and DOM construction are not modelled: `ensureStyle`, `ensureSpinnerStyle`, the spinner, `innerHTML`, the cursor and the `contextmenu` suppression. The overlay is a node identity with a mode and a position.
- Range and caret geometry are inputs, not computed: `caretRangeFromPoint`, `getBoundingClientRect`, `scrollX/Y` and `innerWidth/innerHeight` come in as the `Page` value of each event.
- Content.Placement: positions are integers. The centre uses floor division, whereas the source can produce a fractional position (`innerHeight / 2`) that `parseInt` later truncates when a drag starts. The drag delta is proved for integer positions only.
- Content.ContentScript.MouseMove: a newly added range is stored as given. The model does not capture the browser collapsing a range whose end precedes its start.
- Content.ContentScript.MouseDown: the model holds one drag at a time. An earlier overlay's `mousemove` listener that outlives its element, after a second right-button press with no release between them, is not modelled.
- `fetch`, `chrome.storage`, `chrome.tabs` and `chrome.runtime` messaging are inputs or recorded effects. So is the asynchronous ordering, so overlapping requests, where the last reply to arrive wins, are not modelled.
- The system prompt is a constant carried by the real request; `Background.Request` leaves it out.
- Background.OnMessage: the sender is given as its tab id. A sender with no tab, for which reading `sender.tab.id` would throw and no reply be sent, is not modelled; only the content script sends `selectedText`.
- Background.OnMessage: `text` and `content` are modelled as optional strings. Non-string JSON values in those fields are not modelled.
- The HTTP layer is not modelled: headers other than the bearer token, the JSON encoding of the body, and `console.error` logging.
- No HTML escaping is modelled, because `buildHtml` performs none. Terms, glosses and translation lines go into the markup verbatim.
- `jpt/options.js` (the options page) is not part of this model. It only trims the key, stores it and clears a status message after a timer.
