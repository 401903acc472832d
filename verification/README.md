# Webpage analyser server: a verified Dafny model

The server is an Express service. `POST /analyze` accepts a page URL and
queues a job. A single background worker loads the page in a headless
browser and captures a fixed set of elements from it. It then turns each
captured element into a component artifact: cleaned HTML, a CSS rule, a
class-injected snippet and a React module. The client polls
`GET /result/:jobId` for the job's summary. Jobs live in memory. A sweep
runs every five minutes and deletes the jobs created more than an hour
before, so a job disappears at the first sweep after its first hour.

This project models the server's logic in Dafny 4.11 and proves properties
of it. It covers:

- the component synthesis helpers;
- the job store with its FIFO queue, `isProcessing` flag, worker and hourly sweep;
- the admission checks (HMAC signature, URL allowlist);
- the two JSON endpoints.

Modules, one per concern of `server/index.js`:

| module | file | what it holds |
|---|---|---|
| `Wrappers` | wrappers.dfy | `Option` |
| `Text` | text.dfy | the JavaScript string built-ins the server uses: `\s`, `trim`, `replace(/\s+/g, " ")`, `join`, `toLowerCase`, number-to-string, single-character global `replace` |
| `Selection` | selection.dfy | the "walk a fixed name list and emit the names that have a value" pattern. Both the CSS whitelist and the HTML attribute list use it. |
| `Css` | css.dfy | `CSS_WHITELIST`, `styleObjectToCss`, `buildCssForElement` |
| `Markup` | markup.dfy | the captured element descriptor, `buildCleanHtml`, the class-injecting regex replace, `escapeHtml` |
| `Components` | components.dfy | `sanitizeClassName`, `buildComponentResult`, the React template, the job summary |
| `Security` | security.dfy | `validateSecret`, `isAllowedUrl` |
| `Jobs` | jobs.dfy | `queueJob`, `getJobResult`, `processQueue`, the sweep |
| `Api` | api.dfy | `handleAnalyze`, the `/result/:jobId` handler |

How the model represents the program:

- **Falsy values.** An empty string stands for an absent, `null` or empty descriptor attribute. The builders only test those values for truthiness.
- **Asynchronous worker.** The worker is an `async` loop that runs synchronously until it awaits an extraction. The store therefore records the awaited job as `inFlight`:
  - `RunUntilSuspend` is the synchronous stretch;
  - `CompleteExtraction` is one resumption;
  - `Drain` runs the loop to the end with the outcomes given.
- **Clock and ids.** Clock readings are `nat` milliseconds passed in. Job ids are parameters that the caller guarantees fresh.

## Model

| member | source | states |
|---|---|---|
| Text.Trim | server/index.js:75 | `String.prototype.trim`: the result is a contiguous slice of the input that neither starts nor ends with whitespace. An input without whitespace is returned unchanged. |
| Text.TrimCutsWhitespace | server/index.js:75 | Everything `trim` cuts before and after its result is whitespace. |
| Text.CollapseSpaces | server/index.js:282-288 | `replace(/\s+/g, " ")`: no two whitespace characters remain adjacent, and every remaining whitespace character is a plain space. The token view is unchanged: each visible character in order, with each maximal whitespace run as one token. |
| Text.CollapseSpacesUnique | server/index.js:282-288 | The collapsed text is the only string that has single plain spaces and the input's token view, so every whitespace run becomes exactly one space. |
| Text.CollapseIdempotent | server/index.js:282-288 | Collapsing whitespace a second time changes nothing. |
| Text.CollapseKeepsVisibleSuffix | server/index.js:282-288 | Whitespace-free text at the end of a string passes through collapsing untouched. |
| Text.CollapseKeepsVisiblePrefix | server/index.js:282-288 | Whitespace-free text at the start, followed by whitespace, comes out followed by one plain space. |
| Text.TrimKeepsNoDoubleSpace | server/index.js:282 | Trimming keeps the "no two adjacent whitespace characters" property. |
| Text.TrimKeepsVisibleSuffix | server/index.js:282 | Trimming keeps a whitespace-free ending. |
| Text.Join | server/index.js:241 | `Array.prototype.join`: with a non-empty separator the result is empty exactly when there are no parts, or one empty part; a single part is returned as it is. |
| Text.JoinAppend | server/index.js:241 | Joining one more part appends the separator and that part. Together with the one-part case, this fixes the join of any list: the parts in order, separated by the separator. |
| Text.Decimal | server/index.js:245 | Number interpolation in a template: a non-empty string of decimal digits with no leading zero except for 0. |
| Text.DecimalInjective | server/index.js:245 | Different numbers give different decimal texts, because reading the digits back gives the number (`DecimalRoundTrip`). |
| Text.ReplaceChar | server/index.js:309 | A global replace of one character: the character no longer occurs unless the replacement holds it, and every output character comes from the input or the replacement. |
| Text.ReplaceCharAppend | server/index.js:251-255 | A global character replace distributes over concatenation. |
| Selection.SelectExact | server/index.js:235-239 | A listed name is emitted exactly when it has a value. |
| Selection.SelectOrdered | server/index.js:235-239 | The emitted names keep the order of the list. |
| Selection.SelectSound | server/index.js:235-239 | Every emitted pair carries a listed name and that name's own value. |
| Css.DeclarationSound | server/index.js:233-242 | Each emitted declaration names a whitelisted property, with the captured value, which is significant (non-empty and not `auto`, `0px` or `normal`). |
| Css.DeclarationsComplete | server/index.js:233-242 | Every whitelisted property with a significant value is emitted. |
| Css.DeclarationsOrdered | server/index.js:225-242 | Declarations appear in `CSS_WHITELIST` order. |
| Css.StyleObjectToCss | server/index.js:233-242 | The CSS body is empty exactly when no whitelisted property carries a significant value. |
| Css.BuildCssForElement | server/index.js:259-263 | The result is the "no significant styles" comment exactly when the body is empty. Otherwise it starts with `.className {` and a newline, and ends with a newline and `}`. |
| Css.NoStylesCommentExactly | server/index.js:259-263 | The comment is emitted exactly when every whitelisted property lacks a significant value. |
| Markup.CleanAttributesOrdered | server/index.js:269-276 | Attributes are written in the fixed order id, name, type, placeholder, src, href, alt, aria-label. |
| Markup.CleanAttributesExact | server/index.js:269-276 | An allowlisted attribute is written exactly when the element has a usable value for it. |
| Markup.TypeOnlyForInputOrButton | server/index.js:271 | `type=` is written exactly for `input` and `button` elements that have a type. |
| Markup.CleanAttributeValue | server/index.js:269-276 | Each written attribute is allowlisted and carries the element's own non-empty value. |
| Markup.BuildCleanHtml | server/index.js:265-289 | `buildCleanHtml`. Its properties are stated by CleanAttributesOrdered, CleanAttributesExact, TypeOnlyForInputOrButton, CleanAttributeValue, CleanHtmlNoDoubleSpace, CleanHtmlOpening and CleanHtmlEnding. |
| Markup.CleanHtmlNoDoubleSpace | server/index.js:265-289 | The cleaned markup never holds two adjacent whitespace characters. |
| Markup.CleanHtmlEnding | server/index.js:281-288 | `input` and `img` markup ends with `/>`. Other markup ends with `</tag>` for a whitespace-free tag name. |
| Markup.CleanHtmlOpening | server/index.js:265-288 | The cleaned markup starts with `<`, the lower-cased tag name and a space. |
| Markup.VoidNeedsNoTrim | server/index.js:282 | For `input` and `img`, the final `trim` is a no-op after collapsing. |
| Markup.ClassAfterTagName | server/index.js:300-303 | `replace(/^<([a-z0-9-]+)/, …)` inserts ` class="…"` right after a plain tag name. Cutting the attribute out again gives the markup back. |
| Markup.InjectClass | server/index.js:300-303 | `replace(/^<([a-z0-9-]+)/, …)` on the cleaned markup. ClassAfterTagName states the result for markup opening with a plain tag name, and its inverse. |
| Markup.EscapeHtml | server/index.js:249-256 | `escapeHtml` as the chain of five global replacements. It is proved equal to character-wise escaping (EscapeHtmlCharwise) and undone by decoding (EscapeRoundTrip). |
| Markup.EscapeHtmlCharwise | server/index.js:249-256 | Because `&` is replaced first, the replacement chain escapes each character exactly once. It equals character-by-character escaping. |
| Markup.EscapeChars | server/index.js:249-256 | Escaped text holds no `<`, `>`, `"` or `'`. |
| Markup.EscapeRoundTrip | server/index.js:249-256 | Decoding the five entities gives the original text back. |
| Components.Sanitize | server/index.js:245 | The character replace keeps the length, and every character of the result is in `[A-Za-z0-9-_]`. |
| Components.SanitizeKeepsAllowed | server/index.js:245 | Allowed characters keep their place; any other character becomes `-`. |
| Components.SanitizeIdempotent | server/index.js:245 | Sanitizing a sanitized name changes nothing. |
| Components.SanitizeClassName | server/index.js:244-246 | `sanitizeClassName`. ClassNameSuffix states its shape, and ClassNamesDistinct its injectivity in the index. |
| Components.ClassNameSuffix | server/index.js:244-246 | `sanitizeClassName(base, idx)` is the sanitized base, a dash and the decimal index, which survive untouched. |
| Components.ClassNamesDistinct | server/index.js:291-294 | Components at different positions get different class names, whatever their tags. |
| Components.ComponentClassNamePrefix | server/index.js:293-294 | Every component class name starts with `gen-`. |
| Components.ReactFunctionNameIsIdentifier | server/index.js:309 | The generated React function name is a valid JavaScript identifier. |
| Components.ReactSnippetEmbedsMarkup | server/index.js:305-314 | The React module is the fixed head, the snippet unchanged, and the fixed tail, so the snippet can be cut back out. |
| Components.OuterHtmlPreview | server/index.js:324-326 | The result is the first 200 characters, with `...` exactly when something was cut. Text of 200 characters or fewer is returned whole. A missing `outerHTML` gives `undefined`. |
| Components.BuildComponentResult | server/index.js:291-328 | `buildComponentResult`. Its fields are described by ComponentNaming, ComponentSnippetCarriesClass, ComponentCssNonEmpty, ReactSnippetEmbedsMarkup and OuterHtmlPreview. |
| Components.ComponentNaming | server/index.js:291-328 | `index` is `idx + 1` and `kind` is the lower-cased tag. The class name is a valid class name that starts with `gen-` and ends with `-` and the index. |
| Components.ComponentSnippetCarriesClass | server/index.js:297-303 | `htmlSnippet` is `cleanedHtml` with ` class="className"` inserted after the tag name, and removing it gives `cleanedHtml` back. |
| Components.ComponentCssNonEmpty | server/index.js:259-263 | A component's CSS is never empty. |
| Components.BuildComponents | server/index.js:474 | There is one component per captured element; nothing is filtered, deduplicated or capped. |
| Components.ComponentsNumberedAndDistinct | server/index.js:474 | Components keep capture order, are numbered 1, 2, … and have pairwise distinct class names. |
| Components.BuildSummary | server/index.js:474-486 | The `data` record of a finished job. SummaryShape states its count and when its files are empty, and SummaryFilesExtend states how the files are built. |
| Components.SummaryFilesExtend | server/index.js:476-477 | `cssFile` and `reactFile` are the components' rules and modules joined by a blank line: one more component appends a blank line and its own text. |
| Components.SummaryShape | server/index.js:474-486 | `componentCount` is the number of captured elements. `cssFile` and `reactFile` are empty exactly when nothing was captured. |
| Security.SignedData | server/index.js:193-212 | The raw body is signed when it was captured. Otherwise strict mode has nothing to check, and lenient mode signs the reconstructed body (`""` without a body, the text body, or its JSON). |
| Security.ValidateSecret | server/index.js:180-222 | A missing or blank signature passes. In strict mode a missing raw body fails. Otherwise the trimmed signature must equal the HMAC of the signed text. |
| Security.AcceptedSignatureIsGenuine | server/index.js:180-222 | A passing signed request carries the HMAC of its own raw body, or of its reconstructed body in lenient mode. |
| Security.StrictNeverLooser | server/index.js:193-201 | Strict mode accepts nothing that lenient mode refuses, and the two agree when the raw body was captured. |
| Security.UnsignedIgnoresSecret | server/index.js:181-188 | The configured secret only affects requests that carry a signature. |
| Security.IsAllowedUrlAsWritten | server/index.js:170-178 | `isAllowedUrl` as written: an unparsable URL is refused; with the allowlist off everything passes; otherwise the host must end with a listed domain. |
| Security.SuffixRuleAdmitsLookalike | server/index.js:174 | As written, `evilexample.com` passes an allowlist holding only `example.com`. |
| Security.IsAllowedUrl | server/index.js:170-178 | The corrected check: refused when the URL does not parse; allowed when the allowlist is off; otherwise allowed exactly when the host is a listed domain or a subdomain of one. |
| Security.CorrectedRuleIsNarrower | server/index.js:170-178 | The corrected check admits nothing the original refuses, and still admits every listed domain and its subdomains. |
| Jobs.Rejection | server/index.js:469-470 | The worker refuses a job exactly when its URL is empty or not allowed. |
| Jobs.Settle | server/index.js:479-494 | Recording an extraction's outcome on a job. SettleWellFormed states the result: `done` with the summary, or `failed` with the message. |
| Jobs.FinalIsTerminal | server/index.js:457-495 | Every job the worker takes up ends `done` or `failed`, with the fields of that state present. A finished job carries its own URL and one component per captured element. |
| Jobs.SettleWellFormed | server/index.js:468-492 | Extraction success yields `done` with a summary; failure yields `failed` with the error message. |
| Jobs.GetJobResult | server/index.js:448-450 | `getJobResult` returns the stored job, or nothing. |
| Jobs.QueueJob | server/index.js:435-446 | `queueJob`. QueueJobEffect states its effect on the store. |
| Jobs.RunUntilSuspend | server/index.js:452-499 | The synchronous stretch of `processQueue`'s loop. RunUntilSuspendInv and RunUntilSuspendAdvances state its effect. |
| Jobs.Shift | server/index.js:458-470 | One turn of the loop up to its `await`: shift the head id, skip it when it is not stored, otherwise mark it processing and fail it at once when validation refuses it. ShiftAdmitted, ShiftRefused and RunUntilSuspendFifo state its effect. |
| Jobs.CompleteExtraction | server/index.js:467-499 | The resumption after an awaited extraction. CompleteExtractionInv and LifecycleAdvances state its effect. |
| Jobs.Resume | server/index.js:473-494 | The job awaited at `extractElementsFromUrl` is settled with the outcome when the store still holds it. ResumeSettlesOnly and ResumeKeepsUrls state that nothing else changes. |
| Jobs.ProcessQueue | server/index.js:452-454 | `processQueue` does nothing while the worker runs or when the queue is empty. |
| Jobs.ProcessQueueInv | server/index.js:452-499 | `processQueue` keeps the store invariant and never adds or removes jobs. |
| Jobs.RunUntilSuspendInv | server/index.js:457-495 | The synchronous stretch of the loop ends either awaiting one extraction or with `isProcessing` false and an empty queue. |
| Jobs.RunUntilSuspendFifo | server/index.js:457-473 | The loop takes ids up in FIFO order. Up to its first `await` it shifts ids one by one from the head of the queue: ids no longer stored are skipped, and jobs whose URL validation refuses are failed. It stops at the first admitted id, which is left processing and awaited, with the rest of the queue behind it in order. When no id is admitted the queue ends empty and the flag false. Jobs not shifted are untouched. |
| Jobs.CompleteExtractionInv | server/index.js:468-499 | Resuming after an extraction keeps the invariant and the set of stored ids. |
| Jobs.CompleteExtractionFifo | server/index.js:473-499 | After an extraction settles, the awaited job (if still stored) gets exactly its settled record. The loop then continues from the head of the queue as RunUntilSuspendFifo states: the same first admitted id is awaited next and the same ids before it are failed or skipped. |
| Jobs.QueueJobEffect | server/index.js:435-446 | `queueJob` adds exactly one job and changes no other. While the worker is busy, the new id waits at the tail of the queue. When the worker is idle, the job is taken up at once. |
| Jobs.Sweep | server/index.js:502-509 | The sweep deletes exactly the jobs created more than an hour before, whatever their status. It keeps the rest unchanged and leaves the queue and worker alone. |
| Jobs.SweepInv | server/index.js:502-509 | The sweep keeps the store invariant. |
| Jobs.SweptStaysGone | server/index.js:457-461 | A swept job is not written back when its extraction later settles. |
| Jobs.LifecycleAdvances | server/index.js:435-509 | Every event moves each job forward along `queued → processing → done/failed`. A finished job never changes, and url, creation time and secret are fixed. |
| Jobs.Drain | server/index.js:452-499 | Running the loop to the end: every stored job ends in its final record (failed when validation refuses it, otherwise settled with its extraction outcome), a finished job is left as it is, the worker stops with an empty queue and the flag false, and the ids taken up are the stored ids of the queue. The order of the steps is stated by RunUntilSuspendFifo and CompleteExtractionFifo. |
| Api.NormalizeUrl | server/index.js:80 | The result starts with `http`: the URL itself when it already does, otherwise `https://` plus the URL. |
| Api.NormalizeIdempotent | server/index.js:80 | Normalizing twice is normalizing once. |
| Api.NormalizeBareHost | server/index.js:80 | `example.com` becomes `https://example.com`. |
| Api.HandleAnalyze | server/index.js:63-97 | `handleAnalyze`. AnalyzeDecisions, AcceptedJob and AnalyzeAdmitsLookalike state its answers and its effect on the store. |
| Api.AnalyzeDecisions | server/index.js:70-97 | 401 exactly when the signature fails. 400 exactly when it passes and the trimmed URL is empty. 403 exactly when the normalized URL fails `isAllowedUrl` with its `endsWith` rule as written. Otherwise exactly one job is added. Every refusal leaves the store unchanged. |
| Api.AnalyzeAdmitsLookalike | server/index.js:80-96 | With the allowlist on and `example.com` listed, a request for `evilexample.com` is queued, not refused with 403. |
| Api.AcceptedJob | server/index.js:85-89 | An accepted job stores the normalized URL, the raw signature header and the time. It is queued, or processing when the worker was idle, and the worker's own validation never refuses it. |
| Api.PollResult | server/index.js:516-563 | The `/result/:jobId` handler. BypassNeedsStoredSecret, QueuerCanPoll, QueuePosition, StatusMapping and SweptJobNotFound state its answers. |
| Api.IndexOf | server/index.js:543 | `indexOf` gives the first position of the id, or -1 when it is absent. |
| Api.BypassNeedsStoredSecret | server/index.js:522-529 | A request that fails the signature check is served only when it carries exactly the signature stored with that job. |
| Api.QueuerCanPoll | server/index.js:522-529 | A signature header that neither starts nor ends with whitespace, once it queued a job, lets its holder poll that job for as long as it is stored. |
| Api.QueuePosition | server/index.js:538-545 | `queuePosition` is 0 for the job being processed. For a queued job it is the job's one-based place in the queue. |
| Api.StatusMapping | server/index.js:538-562 | `failed` gives 400 with the error; `done` gives the summary; `queued` and `processing` report the status. |
| Api.SweptJobNotFound | server/index.js:519-536 | After the sweep deleted a job, polling it gives 404 once the signature check passes, and 401 otherwise. |

## Left out

- The page extraction (`extractElementsFromUrl`: browser launch, navigation retry, the in-page capture, browser close) is foreign browser I/O. Its result is an input to the worker: the captured descriptors, or an error message.
- The SHA-256 HMAC is an uninterpreted function of the secret and the signed text.
- `new URL(...)` parsing is an input that yields the host name, or nothing when the URL does not parse.
- `Date.now`, `setInterval` and the random id generator are left out. Clock readings are parameters, and job ids are parameters required to be fresh.
- Express, body-parser, helmet and multer wiring, the multipart recovery path for bodies that fail to parse, `/preview`, `/health` and the process exit handlers are HTTP plumbing.
- The 500 responses are left out, for example when the `url` field is not a string and `.trim()` throws.
- The parsing of the environment variables is left out, including the comma-splitting of `ALLOWED_DOMAINS`. The settings are a `Config` value.
- Text.ToLowerAscii: lower-cases ASCII letters only. DOM tag names are ASCII, and the full Unicode case mapping of `toLowerCase` is not modelled.
- Text.Decimal: writes the plain decimal form. JavaScript switches to exponent notation at 10^21, far beyond any element count.
- Components.Sanitize: works on Unicode scalar values. JavaScript strings are UTF-16, so a character outside the Basic Multilingual Plane becomes two dashes there and one here. The same difference applies to the 200-character cut in Components.OuterHtmlPreview.
- Components.OuterHtmlPreview: counts the 200-character limit in Unicode scalar values rather than UTF-16 code units.
- Jobs.Drain: all events of one run happen at a single clock reading `now`, so its final records do not show the order in which jobs were taken up. Single resumptions (`CompleteExtraction`) take their own `now`, and the order is stated step by step by RunUntilSuspendFifo and CompleteExtractionFifo.
- Concurrency beyond the single worker's await points is not modelled. Each request handler runs to completion between worker steps, as on Node's event loop.

## Findings

| source | as written | input that shows it | evidently intended | confidence | as-written member | corrected member |
|---|---|---|---|---|---|---|
| server/index.js:174 | `u.hostname.endsWith(d)` admits any host whose name merely ends with an allowlisted domain | allowlist on with `ALLOWED_DOMAINS=example.com`, URL `https://evilexample.com` is allowed | allow the listed domain and its subdomains only (`host == d` or `host` ends with `.` + `d`) | medium, not executed | Security.IsAllowedUrlAsWritten | Security.IsAllowedUrl |

`handleAnalyze` and the worker's validation both use the check as written (`Security.IsAllowedUrlAsWritten`), so `Api.AnalyzeAdmitsLookalike` shows the look-alike host being queued. The corrected rule is stated on its own and compared with the original.
