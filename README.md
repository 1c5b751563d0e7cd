# Design-To-Code, modelled in Dafny

Design-To-Code turns an uploaded design image into one HTML/CSS/JS section.
The browser app does several things:

- it validates the upload;
- it clamps the image width;
- it posts the image to a small Express backend, which builds a prompt and forwards it upstream.

The app then works on the generated markup:

- it lists the `{{ASSET_ID_name}}` image placeholders it finds, replaces them with user URLs or with a `placehold.co` fallback, and lets the user retype text fragments;
- it keeps a history of up to fifty generated sections;
- while a request runs, it shows a scrolling terminal log.

This project models that logic and proves what it promises. Every file is one Dafny module:

| file | module | models |
|---|---|---|
| `wrappers.dfy` | `Wrappers` | `Option` and `Result` |
| `js_string.dfy` | `JsString` | the JavaScript string built-ins the code relies on, with their laws: `trim`, `startsWith`/`endsWith`/`includes`, `split`/`join`, a literal global replace, `toLowerCase` on ASCII, `toString` of a count |
| `seqs.dfy` | `Seqs` | `Array.from(new Set(..))` and `slice(-n)` |
| `types.dfy`, `constants.dfy` | `Types`, `Constants` | the records of `types.ts` and the values of `constants.ts` |
| `templates.dfy` | `Templates` | the template engine of `App.tsx`: placeholder detection, the three customisation passes over an abstract document, the editable-fragment walk, and the saved-asset counter |
| `session.dfy` | `Session` | the application shell's state |
| `file_uploader.dfy` | `FileUploader` | the accept / size / Photoshop routing decision of the file picker |
| `server.dfy` | `Server` | the backend: the `.env` loader, request checks, prompt assembly, image normalisation and reply extraction |
| `gemini_service.dfy` | `GeminiService` | the client of that backend |
| `terminal.dfy` | `Terminal` | the terminal log window |

In `session.dfy`, the state is a class `AppSession` whose handlers update its fields in place. Each handler is proved to follow a transition function over a `SessionState` value, and the lemmas reason about those functions.

The document the browser parses is abstract. It is a sequence of nodes, each either a text leaf or opaque markup. The parser and serialiser are function parameters. The text-edit walk rewrites an `array<Node>` in place, as the tree walker mutates text nodes.

JavaScript object key order is kept for the asset overrides. They are a sequence of key/URL pairs in insertion order. That is the order `Object.entries` yields for such keys.

The fallback placeholder pass does not always leave a placeholder-free document. A name may itself contain `{{ASSET_ID_`, because the name pattern excludes only `}`. The text `{{ASSET_ID_{{ASSET_ID_a}}}}` then becomes the fallback URL followed by the token `{{ASSET_ID_a}}`. `Templates.FallbackCanLeaveAToken` proves this.

## Model

| member | source | states |
|---|---|---|
| `JsString.TrimStart` | App.tsx:92 | `trimStart`, computed by dropping white space from the front; its meaning is `TrimStartSpec` |
| `JsString.TrimEnd` | App.tsx:92 | `trimEnd`, computed by dropping white space from the back; its meaning is `TrimEndSpec` |
| `JsString.Trim` | App.tsx:92 | `trim`: `trimEnd` after `trimStart`; `TrimmedBounds` and `TrimSplitsText` relate it to the text |
| `JsString.TrimStartSpec` | App.tsx:92 | `trimStart` keeps a suffix, removes only white space, and stops at a non-space character |
| `JsString.TrimEndSpec` | App.tsx:92 | `trimEnd` keeps a prefix, removes only white space, and stops at a non-space character |
| `JsString.TrimStartUnique` | App.tsx:92 | the suffix after any all-space prefix that ends at a non-space is exactly what `trimStart` keeps |
| `JsString.TrimEndUnique` | App.tsx:92 | the prefix before any all-space suffix that starts after a non-space is exactly what `trimEnd` keeps |
| `JsString.TrimmedBounds` | App.tsx:117-121 | a text with content is its `^\s*` match, its trim and its `\s*$` match, at computed cut points |
| `JsString.TrimSplitsText` | App.tsx:119-121 | leading white space + trimmed text + trailing white space gives the text back |
| `JsString.TrimOfPadded` | App.tsx:119-121 | padding an unpadded text with white space and trimming it recovers both the text and the padding |
| `JsString.ToLower` | components/FileUploader.tsx:17 | lower-casing keeps the length, leaves no upper-case ASCII letter, turns each into its lower-case partner, and keeps every other character in place |
| `JsString.ToLowerIdempotent` | components/FileUploader.tsx:17 | lower-casing a lower-cased name changes nothing |
| `JsString.ToLowerEndsWith` | components/FileUploader.tsx:17-18 | a suffix of a name is still a suffix after both are lower-cased |
| `JsString.Split` | server/index.js:16 | a split yields at least one piece, and the first piece is a prefix of the text |
| `JsString.JoinSplit` | App.tsx:104 | joining the pieces of a split with the separator gives the text back |
| `JsString.SplitPiecesAreFree` | App.tsx:104 | no piece of a split contains the separator |
| `JsString.Join` | App.tsx:104 | `join`, computed piece by piece; its law is `JoinSplit` |
| `JsString.ReplaceAll` | App.tsx:104 | a global replace of a literal pattern, computed left to right; its meaning is `ReplaceAllIsJoinOfSplit` |
| `JsString.ReplaceAllIsJoinOfSplit` | App.tsx:104 | a literal global replace cuts the text at every occurrence of the pattern and joins the pieces with the replacement |
| `JsString.ReplaceAllWithoutPattern` | App.tsx:104 | a literal replace of an absent pattern leaves the text unchanged |
| `JsString.SplitWithoutSeparator` | server/index.js:83 | a text without the separator splits into itself alone |
| `JsString.SplitAtJoint` | App.tsx:74 | splitting at a one-character separator distributes over a join at that character |
| `JsString.Count` | App.tsx:379 | the length of a global `match` of a literal pattern, none counting zero, computed left to right; its meaning is `CountIsSeparators` and `CountZeroIffAbsent` |
| `JsString.CountIsSeparators` | App.tsx:379 | the number of non-overlapping matches is the number of pieces a split finds, minus one |
| `JsString.CountZeroIffAbsent` | App.tsx:379 | the match count is zero exactly when the pattern does not occur |
| `JsString.NatToString` | App.tsx:143-144 | the decimal text of a number is non-empty and made of digits |
| `JsString.NatToStringRoundTrip` | App.tsx:143-144 | reading the decimal text of a number back gives the number |
| `Seqs.FirstIndex` | App.tsx:81 | the index of the first occurrence of an element that occurs |
| `Seqs.FirstIndexUnique` | App.tsx:81 | any index holding the element with no earlier occurrence is the first index |
| `Seqs.Dedup` | App.tsx:81 | `Array.from(new Set(s))` is duplicate-free, holds only elements of `s`, and holds every one of them |
| `Seqs.DedupKeepsFirstOccurrenceOrder` | App.tsx:81 | the distinct elements come out in order of their first occurrence |
| `Seqs.DedupSnoc` | App.tsx:93-94 | pushing a new element onto a deduplicated list appends it; pushing a known one changes nothing |
| `Seqs.TakeLast` | components/TechnicalTerminal.tsx:49 | `slice(-n)` is the last `n` elements, or all of them when fewer |
| `Templates.NameRun` | App.tsx:80 | the run of non-`}` characters ends at the first `}` or at the end of the text |
| `Templates.MatchAt` | App.tsx:80 | a match at the front of a text is a complete token whose name is non-empty and free of `}` |
| `Templates.MatchAtExact` | App.tsx:80 | a text that starts with a well-formed token matches with exactly that token's name |
| `Templates.Scan` | App.tsx:80 | every match the left-to-right scan finds carries a capturable name |
| `Templates.ScanRoundTrip` | App.tsx:80 | writing every match back as its token rebuilds the scanned text, so text between matches is untouched |
| `Templates.MatchesAreTokensOfText` | App.tsx:80 | every match of the global search is a well-formed token and occurs in the markup |
| `Templates.MatchStartsWithMarker` | App.tsx:80 | a match begins with the `{{ASSET_ID_` marker |
| `Templates.NoMarkerNoMatches` | App.tsx:80-81 | markup without the marker has no match |
| `Templates.DetectedAssets` | App.tsx:78-82 | `detectedAssets`, computed as `Dedup` of the scan's matches; its meaning is `DetectedAssetsSpec` |
| `Templates.DetectedAssetsSpec` | App.tsx:78-82 | the detected assets: none without code or without the marker; otherwise every match, each once, in first-match order, each a well-formed token present in the markup |
| `Templates.ApplyAssetOverrides` | App.tsx:102-105 | the override pass, one `replace` per entry in insertion order; its meaning is the three lemmas below |
| `Templates.OverrideReplacesEveryOccurrence` | App.tsx:102-105 | one override cuts the text at every literal occurrence of its key and joins the pieces with its URL; none of the pieces holds the key |
| `Templates.OverridesInSequence` | App.tsx:102-105 | overrides apply one after another in insertion order |
| `Templates.OverridesWithoutKeys` | App.tsx:102-105 | text that holds none of the keys comes through the override pass unchanged |
| `Templates.FallbackPass` | App.tsx:107-109 | the fallback pass, one scan that writes each match's `placehold.co` URL; its meaning is the four lemmas below |
| `Templates.FallbackAtToken` | App.tsx:107-109 | a token at the front becomes the `placehold.co` URL for its name, and the pass continues after it |
| `Templates.FallbackAtCharacter` | App.tsx:107-109 | a character where no match starts is kept, and the pass continues after it |
| `Templates.FallbackWithoutMatches` | App.tsx:107-109 | text without a match comes through the fallback pass unchanged |
| `Templates.FallbackCanLeaveAToken` | App.tsx:107-109 | a name that itself contains the marker leaves a well-formed token in the output |
| `Templates.RewriteNodes` | App.tsx:114-124 | the walk keeps the number of nodes |
| `Templates.RewriteNode` | App.tsx:116-123 | one node of the walk; its meaning is `RewriteNodeSpec` |
| `Templates.RewriteNodeSpec` | App.tsx:116-123 | a node changes only if it is a text leaf whose trimmed text has a non-empty edit; such a leaf becomes its leading space, the replacement and its trailing space |
| `Templates.RewrittenLeafKeepsSpacing` | App.tsx:116-123 | after a rewrite with an unpadded replacement, the leaf trims to the replacement and keeps its exact original padding |
| `Templates.RewriteTextLeaves` | App.tsx:114-124 | the in-place walk leaves the array equal to rewriting each node on its own |
| `Templates.Customized` | App.tsx:100-127 | `previewHtml`: the override pass, the fallback pass, then the leaf walk when edits exist; `ApplyCustomizations` computes it and `CustomizedPlainMarkup` states a case |
| `Templates.ApplyCustomizations` | App.tsx:100-127 | the result is the override pass, then the fallback pass, then, only when edits exist, the leaf walk between parse and serialise |
| `Templates.CustomizedPlainMarkup` | App.tsx:100-127 | with no edits, markup without marker or override keys comes back unchanged, with no parse or serialise |
| `Templates.Fragments` | App.tsx:84-98 | the qualifying trimmed leaf texts in document order, before de-duplication; its meaning is `FragmentIsLeafText` and `LeafTextIsFragment` |
| `Templates.FragmentIsLeafText` | App.tsx:91-96 | every fragment is the trimmed text, longer than one character, of some leaf |
| `Templates.LeafTextIsFragment` | App.tsx:91-96 | every leaf whose trimmed text is longer than one character gives a fragment |
| `Templates.CollectFragments` | App.tsx:90-97 | the walker loop collects the distinct fragments in order of first appearance |
| `Templates.EditableTextBlocks` | App.tsx:84-98 | no fragments without code; otherwise the walk's result over the parsed markup |
| `Templates.TextBlocksSpec` | App.tsx:91-96 | the listed texts are distinct, each a trimmed leaf text longer than one character, every such leaf text is listed, in first-appearance order |
| `Templates.SavedAssets` | App.tsx:379 | the dashboard counter: the per-item token counts summed; its meaning is `SavedAssetsAppend` and `SavedAssetsZero` |
| `Templates.SavedAssetsAppend` | App.tsx:379 | the counter adds up over any split of the history |
| `Templates.SavedAssetsZero` | App.tsx:379 | the counter is zero exactly when no item's markup has the marker, and then no item has a detected asset |
| `Session.Without` | App.tsx:181 | filtering by id keeps exactly the items with another id |
| `Session.WithoutConcat` | App.tsx:181 | the filter distributes over concatenation, so kept items stay in order |
| `Session.WithoutAbsent` | App.tsx:181 | filtering out an id no item carries changes nothing |
| `Session.Take` | App.tsx:153 | `slice(0, n)` is a prefix of length `min(n, length)` |
| `Session.NewHistoryItem` | App.tsx:142-149 | the new item reuses a non-empty editing id, else takes the clock's decimal text; its name is a non-empty section name, else `Section <count+1>`; its id and name are never empty; it carries the code, the time, the upload's preview and the session font |
| `Session.Upserted` | App.tsx:151-154 | the history update: the item, then the old list without the edited id, cut to fifty; its meaning is the four lemmas below |
| `Session.UpsertedShape` | App.tsx:151-154 | after a generation the new item leads, the rest is an in-order prefix of the old list without the edited id, and at most fifty remain |
| `Session.UpsertedEditedIdOnce` | App.tsx:143-154 | while editing, exactly one item carries the edited id afterwards: the new one, at the front |
| `Session.UpsertedKeepsLength` | App.tsx:151-154 | saving again the edited item, present once in a history of at most fifty, keeps the history's length |
| `Session.UpsertedAtCapacity` | App.tsx:153 | at capacity a new generation drops the oldest item |
| `Session.KeysLookup` | App.tsx:102 | a placeholder is among the override keys exactly when looking it up finds an override |
| `Session.Lookup` | App.tsx:102 | the override stored for a placeholder; `KeysLookup` relates it to the keys |
| `Session.Put` | App.tsx:187 | `{...prev, [k]: v}` on an insertion-ordered object; its meaning is the three lemmas below |
| `Session.PutLookup` | App.tsx:187 | after `{...prev, [k]: v}` the key reads `v`, and every other key reads as before |
| `Session.PutKeys` | App.tsx:187 | an existing key keeps its place; a new key goes last |
| `Session.PutKeepsKeysDistinct` | App.tsx:187 | a put keeps the override keys distinct |
| `Session.Navigate` | App.tsx:62-67 | `navigateTo`; its meaning is `DocsRoundTrip` |
| `Session.CloseDocs` | App.tsx:69-71 | `handleCloseDocs`; its meaning is `DocsRoundTrip` |
| `Session.DocsRoundTrip` | App.tsx:62-71 | opening the documentation from a working view and closing it returns there; navigating from the documentation keeps the remembered view |
| `Session.InsertPrompt` | App.tsx:73-76 | `handleInsertPrompt`; its meaning is `InsertPromptAppendsLines` |
| `Session.InsertPromptAppendsLines` | App.tsx:73-76 | inserting into non-empty guidance appends the text's lines after the old lines |
| `Session.GenerateCall` | App.tsx:129-137 | the call `handleGenerate` makes; `AppSession.HandleGenerate` states it |
| `Session.Generated` | App.tsx:129-160 | `handleGenerate` once settled; its meaning is `GeneratedSpec`, `GenerationFailedSpec` and `GeneratedKeepsValid` |
| `Session.GeneratedSpec` | App.tsx:139-155 | a success shows the code and records it first in the history as the edited item; older entries kept were there before and none carries the edited id; the dashboard's latest font becomes the session font, or `Inter` |
| `Session.LatestFont` | App.tsx:375 | the first item's font, or `Inter`; its meaning is `LatestFontSpec` |
| `Session.LatestFontSpec` | App.tsx:375 | the latest font is never empty: the first item's font, or `Inter` for an empty history or an empty font; later items do not matter |
| `Session.GenerationFailedSpec` | App.tsx:156-159 | a failure sets the error status with a non-empty message, the thrown one when it has text, and leaves code and history unchanged |
| `Session.LoadFromHistory` | App.tsx:162-176 | `handleLoadFromHistory`; `OverridesCleared` states what it clears |
| `Session.DeleteHistoryItem` | App.tsx:178-183 | `handleDeleteHistoryItem`; its meaning is `DeleteSpec` and `DeleteKeepsValid` |
| `Session.DeleteSpec` | App.tsx:178-183 | a confirmed delete removes every item with the id and keeps the others in order; an absent id or a declined dialog changes nothing |
| `Session.ApplyAsset` | App.tsx:185-188 | `handleApplyAsset`; its meaning is `ApplyAssetSpec` and `ApplyAssetKeepsValid` |
| `Session.SetLocalAssetInput` | App.tsx:606 | the asset input's change handler; `AppSession.HandleLocalAssetInput` states it |
| `Session.ApplyAssetSpec` | App.tsx:185-188 | a typed non-empty URL becomes the override for its placeholder and nothing else changes; an empty or missing URL changes nothing |
| `Session.TextEdit` | App.tsx:190-192 | `handleTextEdit`; its effect on the preview is `TextEditRewritesLeaf` |
| `Session.TextEditRewritesLeaf` | App.tsx:190-192 | after an edit with non-empty text, every leaf whose trimmed text is the original is rewritten, keeping its padding |
| `Session.ManualCodeEdit` | App.tsx:194-200 | `handleManualCodeEdit`; its meaning is `ManualCodeEditSpec` |
| `Session.ManualCodeEditSpec` | App.tsx:194-200 | an edited part reads back as written and the other parts and fields are kept; a later edit of the part overrides it and writing the old text back undoes it; without code nothing changes |
| `Session.Reset` | App.tsx:202-213 | `resetState`; `OverridesCleared` states what it clears |
| `Session.OverridesCleared` | App.tsx:162-176 | loading an item or resetting leaves a preview of just the fallback pass; loading keeps typed URLs, reset clears them |
| `Session.GeneratedKeepsValid` | App.tsx:151-154 | a generation keeps the history bounded by fifty, with non-empty ids and distinct override keys |
| `Session.DeleteKeepsValid` | App.tsx:181 | a delete keeps the session invariant |
| `Session.ApplyAssetKeepsValid` | App.tsx:187 | applying an asset keeps the override keys distinct |
| `Session.AppSession.constructor` | App.tsx:11-36 | the initial state: dashboard, idle, nothing uploaded, empty history, font `Inter` |
| `Session.AppSession.NavigateTo` | App.tsx:62-67 | the fields follow `Navigate` and the invariant holds |
| `Session.AppSession.HandleCloseDocs` | App.tsx:69-71 | the fields follow `CloseDocs` |
| `Session.AppSession.HandleInsertPrompt` | App.tsx:73-76 | the fields follow `InsertPrompt` |
| `Session.AppSession.HandleGenerate` | App.tsx:129-160 | no call without an upload; the call carries the code only on refine; the settled fields follow `Generated` and keep the invariant |
| `Session.AppSession.RecordItem` | App.tsx:151-155 | the history becomes the upsert of the new item, and the item's id becomes the edited id |
| `Session.AppSession.HandleLoadFromHistory` | App.tsx:162-176 | the fields follow `LoadFromHistory` |
| `Session.AppSession.HandleDeleteHistoryItem` | App.tsx:178-183 | the fields follow `DeleteHistoryItem` and the invariant holds |
| `Session.AppSession.HandleApplyAsset` | App.tsx:185-188 | the fields follow `ApplyAsset` and the invariant holds |
| `Session.AppSession.HandleLocalAssetInput` | App.tsx:606 | the typed URL is recorded for its placeholder |
| `Session.AppSession.HandleTextEdit` | App.tsx:190-192 | the edit map records the replacement |
| `Session.AppSession.HandleManualCodeEdit` | App.tsx:194-200 | one part of the shown code is replaced; without code nothing changes |
| `Session.AppSession.ResetState` | App.tsx:202-213 | the fields follow `Reset` |
| `FileUploader.IsAccepted` | components/FileUploader.tsx:15-19 | `isAccepted`, as `.some` over the accepted list; its meaning is `AcceptedIff` |
| `FileUploader.AcceptedIff` | components/FileUploader.tsx:15-19 | a file is accepted iff some accepted entry is its MIME type or a suffix of its lower-cased name, or it is a Photoshop file |
| `FileUploader.PngWithoutMimeRejected` | components/FileUploader.tsx:15-19 | `x.png` with no MIME type is rejected |
| `FileUploader.HandleFile` | components/FileUploader.tsx:14-66 | a file is rejected iff unaccepted or over the limit; it goes to the parser iff accepted, within the limit and a Photoshop file |
| `FileUploader.SizeAndTypeOrder` | components/FileUploader.tsx:21-29 | the type check comes first; exactly 100 MiB passes, one byte more fails |
| `FileUploader.PsdAnyCaseName` | components/FileUploader.tsx:17-18 | a name ending in any case spelling of `.psd` is a Photoshop file and goes to the parser within the limit, whatever its MIME type |
| `FileUploader.UpperPsdSuffix` | components/FileUploader.tsx:17-18 | `.PSD` is such a spelling |
| `FileUploader.PsdRoute` | components/FileUploader.tsx:31-66 | a Photoshop file is always accepted and is parsed within the limit; an accepted `.fig` goes to the reader |
| `FileUploader.Selected` | components/FileUploader.tsx:21-66 | what reaches `onFileSelect`; its meaning is `SelectedSpec` |
| `FileUploader.Alert` | components/FileUploader.tsx:21-66 | the alert shown, if any; its meaning is `SelectedSpec` |
| `FileUploader.SelectedSpec` | components/FileUploader.tsx:21-66 | only an accepted file within the limit reaches the callback, carrying that file; every file that does not raises an alert |
| `FileUploader.OnDrop` | components/FileUploader.tsx:69-75 | `onDrop`; its meaning is `DropSpec` |
| `FileUploader.OnInputChange` | components/FileUploader.tsx:79-83 | `onInputChange`; `DropSpec` relates it to `onDrop` |
| `FileUploader.DropSpec` | components/FileUploader.tsx:69-83 | drops are ignored while loading; only the first file counts |
| `Server.IndexOf` | server/index.js:19-20 | `indexOf` is -1 iff the character is absent, else its first position |
| `Server.StripQuotes` | server/index.js:25 | the two quote regexes; its meaning is `StripQuotesSpec` |
| `Server.StripQuotesSpec` | server/index.js:25 | one leading and one trailing quote come off independently: both together, matching or not, or either alone; an unquoted value is unchanged |
| `Server.ParseEnvLine` | server/index.js:17-25 | a line's key and value, or none; its meaning is `EnvLineSkips`, `ParseAssignment` and `ParsePaddedAssignment` |
| `Server.ParseAssignment` | server/index.js:17-25 | an unpadded `KEY=value` line reads back as that key and the quote-stripped value, with `=` allowed in the value |
| `Server.ParsePaddedAssignment` | server/index.js:17-25 | a `KEY=value` line with white space at its ends and around the key, `=` and value reads back as the bare key and the quote-stripped value |
| `Server.ApplyEnvLine` | server/index.js:26-28 | one line applied under the `!process.env[key]` guard; its meaning is `EnvLineSkips`, `EnvKeepsNonEmpty` and `EnvFirstNonEmptyWins` |
| `Server.EnvLineSkips` | server/index.js:17-20 | a line yields no assignment exactly when it is blank once trimmed, a `#` comment, or without `=`, and such a line leaves the environment unchanged |
| `Server.LoadEnvLine` | server/index.js:17-28 | one line: a skipped line leaves the environment unchanged; any other line leaves its key set, assigned unless it already held a non-empty value |
| `Server.ApplyEnvLines` | server/index.js:16-29 | the lines applied in order; `LoadEnv` computes it |
| `Server.LoadEnv` | server/index.js:13-33 | the loader applies the content's lines in order |
| `Server.EnvKeepsNonEmpty` | server/index.js:26-28 | a variable already non-empty is never overwritten |
| `Server.EnvFirstNonEmptyWins` | server/index.js:26-28 | of two lines for an unset key the first wins when non-empty, else the second |
| `Server.ApiKey` | server/index.js:38 | the first non-empty of `OPENROUTER_API_KEY` and `API_KEY`; its meaning is `ApiKeySpec` |
| `Server.ApiKeySpec` | server/index.js:38-52 | the key is present iff one of the two variables is non-empty, the first preferred; without it every request gets 500 and no upstream call; a key set before the `.env` file is read survives loading |
| `Server.PromptText` | server/index.js:66-81 | the prompt text; its meaning is the three lemmas below |
| `Server.RefinePromptSpec` | server/index.js:66-78 | a refine prompt starts with the system prompt and the HTML, holds CSS and JS, and ends with guidance and instruction |
| `Server.InitialPromptSpec` | server/index.js:66-81 | a first prompt starts with the system prompt and ends with the guidance, or the default |
| `Server.PromptStartsWithSystem` | server/index.js:66-81 | every prompt starts with the system prompt |
| `Server.NormalizeImage` | server/index.js:83-85 | the image sent upstream; its meaning is `NormalizeImageIsDataUrl` and `NormalizeImagePayload` |
| `Server.NormalizeImageIsDataUrl` | server/index.js:83-85 | the image is always a data URL, normalising is idempotent, and a data URL alone is passed through |
| `Server.NormalizeImagePayload` | server/index.js:83-85 | without a comma the whole input is the payload; with one, the segment up to the next comma, or the whole input if it is empty |
| `Server.FindTextPart` | server/index.js:147 | the index of the first part whose type is `text`, or none |
| `Server.ExtractText` | server/index.js:141-150 | the text of the message content by its shape; its meaning is `ExtractTextFirstPart` and `ExtractTextShapes` |
| `Server.ExtractTextFirstPart` | server/index.js:146-147 | an array's text is its first text part's text, whatever follows |
| `Server.ExtractTextShapes` | server/index.js:141-150 | a string content is the text itself, an object's `text` is read when present, and no content or an array without a text part gives no text |
| `Server.Prepare` | server/index.js:48-85 | the checks before any upstream call and the call they build; `HandleSpec` states them |
| `Server.Finish` | server/index.js:113-165 | the answer once the upstream call returned; `UpstreamFailures` and `HandleSpec` state it |
| `Server.Handle` | server/index.js:48-165 | the whole exchange; its meaning is `HandleSpec`, `UpstreamFailures` and `ApiKeySpec` |
| `Server.HandleSpec` | server/index.js:48-165 | no key gives 500 and a bad image 400, neither calling upstream; a call's image is a data URL and its prompt starts with the system prompt; 200 iff the reply is OK with non-empty parsable text, which is the body; once a call is made the status is 200 or 502 |
| `Server.UpstreamFailures` | server/index.js:113-163 | after the call, a reply that is not OK, an empty or unexpected content, and a text that is not JSON are each answered 502 with their own error and no body |
| `GeminiService.ClampDimensions` | services/geminiService.ts:10-16 | width at most 1600; unchanged at or below it; otherwise 1600 with the aspect ratio kept; neither dimension grows |
| `GeminiService.TrimTrailingSlashes` | services/geminiService.ts:34 | `replace(/\/+$/, '')`; its meaning is `TrimTrailingSlashesSpec` |
| `GeminiService.TrimTrailingSlashesSpec` | services/geminiService.ts:34 | the trailing run of slashes goes, and only it |
| `GeminiService.ApiBase` | services/geminiService.ts:31-36 | `getApiBase`; its meaning is `ApiBaseSpec` |
| `GeminiService.ApiBaseSpec` | services/geminiService.ts:31-36 | empty when unset or empty; otherwise a prefix of the setting without a trailing slash; idempotent |
| `GeminiService.Endpoint` | services/geminiService.ts:46 | the URL posted to; its meaning is `EndpointSpec` |
| `GeminiService.EndpointSpec` | services/geminiService.ts:46 | the endpoint ends with the route, with one slash before it |
| `GeminiService.RequestBody` | services/geminiService.ts:51-57 | the posted body; its meaning is `RequestBodyAccepted` |
| `GeminiService.RequestBodyAccepted` | services/geminiService.ts:51-57 | with a key and a non-empty image the posted body passes the server's checks and names the client's model |
| `GeminiService.GenerationResult` | services/geminiService.ts:60-67 | the outcome of `generateCodeFromDesign`; its meaning is `GenerationResultSpec` |
| `GeminiService.GenerationResultSpec` | services/geminiService.ts:60-67 | a failed reply never yields code and its message carries the backend's text; a good one yields the decoded body |
| `Terminal.ErrorLine` | components/TechnicalTerminal.tsx:41-42 | the `ERROR:` line, with the default message when none is given; `TerminalWindow.RunEffect` states it |
| `Terminal.LogStep` | components/TechnicalTerminal.tsx:47-51 | one tick of the log timer; its meaning is the four lemmas below |
| `Terminal.LogStepAdvances` | components/TechnicalTerminal.tsx:47-51 | a tick on the window over the first `i` messages shows the first `i + 1` |
| `Terminal.LogsAfterFrom` | components/TechnicalTerminal.tsx:47-51 | `k` ticks from the window of `i` messages show those of `min(i + k, total)` |
| `Terminal.LogsFromStart` | components/TechnicalTerminal.tsx:46-52 | from start, the log shows the last six of the first `k` messages, in list order |
| `Terminal.LogStepSpec` | components/TechnicalTerminal.tsx:48-50 | a tick puts the next message last and keeps at most six lines; after the last it changes nothing |
| `Terminal.ThoughtStep` | components/TechnicalTerminal.tsx:54-57 | one tick of the thought timer; its meaning is `ThoughtStepSpec` |
| `Terminal.ThoughtStepSpec` | components/TechnicalTerminal.tsx:54-57 | the thought line is at most 120 characters, ends with the new snippet, and is the end of old line plus snippet |
| `Terminal.TerminalWindow.constructor` | components/TechnicalTerminal.tsx:36-37 | no lines and no thought at first |
| `Terminal.TerminalWindow.RunEffect` | components/TechnicalTerminal.tsx:39-64 | an error appends its line untruncated and starts nothing; otherwise counters restart and timers run |
| `Terminal.TerminalWindow.LogTick` | components/TechnicalTerminal.tsx:47-52 | the log follows `LogStep`: the next message last, six at most, nothing once all shown |
| `Terminal.TerminalWindow.ThoughtTick` | components/TechnicalTerminal.tsx:55-58 | the thought follows `ThoughtStep`, stays within 120 characters, and the snippet index advances |

## Left out

- The browser's HTML parser and serialiser. `DOMParser`, the tree walker and `innerHTML` are an abstract `Dom` of two function parameters. Object keys inherited from the prototype, such as `constructor`, are not modelled as text-edit keys.
- Persisting the history in `localStorage`, because it is storage I/O plus JSON.
- Rendering: JSX, the navigation bar and the preview frame. The clipboard and `window.open` are out too. The `confirm` dialog's answer is a parameter.
- The progress-bar timer, because it is floating-point UI state.
- Image decoding, canvas drawing and JPEG encoding, because they are browser services. So are `fetch`, the Photoshop parser, `FileReader`, `setTimeout` and object URLs. Their results are parameters.
- In the Express app: routing, the upstream `fetch`, its headers and body, and static serving. So is reading the `.env` file from disk, since only its content string is parsed.
- The Firebase wrappers, the extension build script and the build configuration, because they are SDK calls, file I/O and configuration.
- The text of the default system prompt. The backend's default is a constant string. The client's long prompt is a parameter of `GeminiService.RequestBody`.
- `Date.now()`. The two readings in a generation are the parameters `idClock` and `stampClock`.
- React's scheduling: updater batching, stale closures, and interleaving while a generation is awaited. `Session.AppSession.HandleGenerate` takes the settled outcome in one call.
- `Templates.ApplyCustomizations`: the override pass treats a URL literally. It does not expand `$&`, `$1` and similar patterns in a JavaScript replacement string.
- `JsString.ToLower`: lower-cases ASCII letters only, because Unicode case mapping is not modelled. The suffixes compared against are ASCII.
- A Dafny `char` is a Unicode scalar value, while JavaScript's `.length`, `slice(-120)` and string indices count UTF-16 code units. So text with characters outside the Basic Multilingual Plane is measured and cut differently. This applies to `Terminal.ThoughtStepSpec`, `JsString.TrimStartSpec`, `JsString.TrimEndSpec`, and to the two-character minimum in `Templates.FragmentIsLeafText`.
- `GeminiService.ClampDimensions`: the model treats JavaScript numbers as exact reals; rounding to doubles is not modelled. The canvas's truncation of the height to an integer is not modelled.
- `Server.HandleSpec`: the catch-all 500 for exceptions thrown in the handler is not modelled.
  - The JSON parse of the upstream reply is a `parses` predicate, and a 200 body is the extracted text rather than the re-serialised parsed object.
  - The 502 error body's `details` and `message`, which come from parsing the upstream error text, are not modelled.
- JSON shapes other than the expected ones in a request's `userGuidance` and `previousCode` are not modelled. Those fields are taken as a string and as optional code. A non-string `text` in a reply part is read as absent.
- The client's JSON decoding of a successful reply is a parameter. Its `catch` block rethrows, so it changes no value and is not modelled.
- `Terminal.TerminalWindow.LogTick`, `Terminal.TerminalWindow.ThoughtTick`: the interval timing is not modelled. A tick is a method call, allowed only while the timers run. The effect's cleanup is the `ticking` flag.
