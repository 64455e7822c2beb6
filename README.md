# Project-field recovery, truncated-JSON repair, subtitle window and duration format

This Dafny project models four small computations from a video-creation web front end and proves properties of them.

- **Project-field recovery** (`src/utils/projectUtils.ts`). An AI back end stores a project's title, description and hashtags either as plain text or as JSON of varying shape. The code turns such a field into something displayable, or falls back.
  - `isValidTitle` is a placeholder filter.
  - `findTitleDeep` and `findValueDeep` are bounded depth-first key searches over the parsed value.
  - `extractProjectTitle`, `extractProjectDescription` and `extractProjectHashtags` tie these together.
  - The central promise: text that looks like JSON is never returned raw.
- **Truncated-JSON repair** (`src/utils/jsonRepair.ts`). One scan tracks a stack of expected closers, an in-string flag and an escape flag. The code then appends a closing quote if needed and the missing closers in last-in-first-out order.
- **Subtitle word window** (`src/components/SubtitleOverlay.tsx`). It picks the active word from the word timings and the playback time, then clamps a 12-word window around it.
- **Duration format** (`formatDuration` in `src/utils/format.ts`). Seconds are shown as minutes, a colon and two-digit seconds.

Layout:

| file | module | contents |
|---|---|---|
| `wrappers.dfy` | `Wrappers` | `Option` |
| `js_strings.dfy` | `JsStrings` | the JavaScript string built-ins used: `trim`, `startsWith`, `includes`, `split` (with `Join` as its inverse) |
| `json_value.dfy` | `JsonValue` | a parsed JSON value |
| `project_utils.dfy` | `ProjectUtils` | the recovery functions |
| `json_repair.dfy` | `JsonRepair` | the repair |
| `subtitle_overlay.dfy` | `SubtitleOverlay` | the subtitle window |
| `format.dfy` | `Format` | the duration format |

`JsonValue` covers:

- a parsed JSON value: `Null`, `Bool`, `Num`, `Str`, `Arr`, and `Obj` with its members in `for..in` order;
- JavaScript truthiness;
- `typeof v === 'object'`;
- property access.

Modelling choices:

- **Runtime built-ins.** `JSON.parse` and `String.prototype.toLowerCase` come from the JavaScript runtime. They are parameters: the fields of `ProjectUtils.Runtime`. A parse that throws is `None`.
- **Shared search.** The two searches have the same shape, so one function models both: `ProjectUtils.SearchDeep`, with a primary and a secondary key list and a value test.
  - The title search uses the priority keys, the fallback keys and "a string passing `isValidTitle`".
  - The value search uses one key list and accepts any value.
- **Reference predicate.** `ProjectUtils.FoundWithin` says what may be found. It is defined independently of the search's order, and both searches are proved sound and complete against it.
- **Repair.** The repair is a method with the source's two loops. It is proved equal to a fold, `JsonRepair.Repair`, and the properties are proved about that fold.
- **Backslash handling follows the code.** The code honours a backslash everywhere, including outside strings, because its backslash test comes before the in-string test (`src/utils/jsonRepair.ts:21-31`). A reading in which a backslash escapes only inside strings would disagree with it; the model follows the code (`JsonRepair.EscapeOutsideString`).

## Model

The title rows from `ProjectUtils.ExtractProjectTitle` on are about the corrected extraction, which differs from the code as written only in the schedule rule of `src/utils/projectUtils.ts:80` (see Findings). `ProjectUtils.ExtractProjectTitleAsWritten` is the code as written, and `ProjectUtils.TitleCorrectionIsNarrow` proves where the two agree.

| member | source | states |
|---|---|---|
| `ProjectUtils.IsValidTitle` | src/utils/projectUtils.ts:8-16 | the placeholder filter: a title is valid when it is non-empty, its lower-cased and trimmed form is non-empty, contains none of the three placeholder phrases and does not start with the hourglass; the three lemmas below state its rejections |
| `ProjectUtils.PlaceholderRejected` | src/utils/projectUtils.ts:10-14 | a title whose lower-cased form contains "untitled project", "projeto sem título" or "sem título" is not a valid title |
| `ProjectUtils.PendingRejected` | src/utils/projectUtils.ts:10-15 | a title whose lower-cased, trimmed form starts with the hourglass is not a valid title |
| `ProjectUtils.BlankTitleInvalid` | src/utils/projectUtils.ts:9-12 | a title whose lower-cased form is only whitespace is not a valid title |
| `ProjectUtils.FirstPassing` | src/utils/projectUtils.ts:32-36 | a key scan only returns a value that is truthy and passes the test (the `obj[key] && ...` guard) |
| `ProjectUtils.FirstPassingFound` | src/utils/projectUtils.ts:32-44 | the key scan finds nothing exactly when no key passes; otherwise it returns the value of a passing key with no passing key before it |
| `ProjectUtils.FirstPassingIs` | src/utils/projectUtils.ts:32-36 | the first passing key in list order decides the key scan |
| `ProjectUtils.SearchDeep` | src/utils/projectUtils.ts:21-55 | a found value is truthy and passes the test; a non-object, or a depth beyond 3, gives nothing |
| `ProjectUtils.SearchChildren` | src/utils/projectUtils.ts:47-52 | a value found among the children is truthy and passes the test; nothing is found below depth 3 |
| `ProjectUtils.SearchDeepExact` | src/utils/projectUtils.ts:21-55 | the search is sound and complete: a found value sits under one of the keys at most 3 levels below the root; when nothing is found, no such value exists |
| `ProjectUtils.SearchChildrenExact` | src/utils/projectUtils.ts:47-52 | a value found among the children is found within one of them; when nothing is found, no child holds one |
| `ProjectUtils.PrimaryKeyWins` | src/utils/projectUtils.ts:32-36 | the first passing primary key at a level is the result, before the secondary keys and the children |
| `ProjectUtils.SecondaryKeyWins` | src/utils/projectUtils.ts:39-44 | with no primary key passing, the first passing secondary key is the result, before the children |
| `ProjectUtils.NoKeyFallsThrough` | src/utils/projectUtils.ts:46-52 | with no key passing at a level, the result is that of the search of its children |
| `ProjectUtils.FirstChildWins` | src/utils/projectUtils.ts:47-52 | children are searched in enumeration order, and the first child with a result gives the result |
| `ProjectUtils.SingleMemberFound` | src/utils/projectUtils.ts:32-36 | an object with one passing member under a primary key yields that member |
| `ProjectUtils.SingleMemberRejected` | src/utils/projectUtils.ts:32-54 | an object with one non-object member that fails the test yields nothing |
| `ProjectUtils.WrapperSearchedThrough` | src/utils/projectUtils.ts:47-52 | an object whose one member is an object under an unlisted key yields what that member yields one level deeper |
| `ProjectUtils.NestedFound` | src/utils/projectUtils.ts:22-52 | a match nested `n` levels below a search started at `depth` is found when `n + depth <= 3` |
| `ProjectUtils.NestedTooDeep` | src/utils/projectUtils.ts:22-52 | a match nested deeper than that is never found |
| `ProjectUtils.FindTitleDeep` | src/utils/projectUtils.ts:21-55 | every title returned passes `isValidTitle` |
| `ProjectUtils.FindTitleDeepExact` | src/utils/projectUtils.ts:21-55 | the title search is sound and complete for strings passing `isValidTitle` under the title keys, 3 levels deep |
| `ProjectUtils.PriorityKeyWins` | src/utils/projectUtils.ts:25-36 | the first priority key holding a valid title decides, whatever the fallback keys and children hold |
| `ProjectUtils.FallbackKeyWins` | src/utils/projectUtils.ts:39-44 | with no priority key holding a valid title, the first fallback key holding one decides, whatever the children hold |
| `ProjectUtils.NestedTitleFoundWithinDepth` | src/utils/projectUtils.ts:22-52 | a valid title nested `n` levels deep is found exactly when `n + depth <= 3` |
| `ProjectUtils.ExtractProjectTitleAsWritten` | src/utils/projectUtils.ts:65-96 | `extractProjectTitle` as written, with a JSON value as its result: a missing or empty raw title gives the fallback |
| `ProjectUtils.DocumentTitleAsWritten` | src/utils/projectUtils.ts:76-80 | as written, the parsed-document branch returns a non-string only through the schedule rule: the raw "id_da_semana" of a document with a truthy "cronograma" |
| `ProjectUtils.ExtractProjectTitle` | src/utils/projectUtils.ts:66 | the corrected extraction: a missing or empty raw title gives the fallback |
| `ProjectUtils.IntegerText` | src/utils/projectUtils.ts:80 | the text of a whole number is its decimal digits, after a minus sign when negative, and reads back as that number |
| `ProjectUtils.IdText` | src/utils/projectUtils.ts:80 | the text of a week identifier: a string is itself, and a whole number is its decimal text |
| `ProjectUtils.ScheduleId` | src/utils/projectUtils.ts:80 | a week identifier is only taken from a document with a truthy "cronograma" and a truthy "id_da_semana"; it is that identifier's non-empty text |
| `ProjectUtils.DocumentTitle` | src/utils/projectUtils.ts:76-87 | corrected: with no title found and no schedule week identifier text, the parsed document gives the fallback |
| `ProjectUtils.TitleCorrectionIsNarrow` | src/utils/projectUtils.ts:65-96 | the corrected title extraction agrees with the code as written, except where the code returns a non-string "id_da_semana"; there the corrected one gives that identifier's text, or the fallback for an identifier with no text in the model |
| `ProjectUtils.ScheduleHoldsNothing` | src/utils/projectUtils.ts:21-55 | a schedule document whose week identifier is a number or a string holds nothing for a search that rejects that identifier |
| `ProjectUtils.NumericWeekIdIsReturned` | src/utils/projectUtils.ts:80 | as written, a schedule document with a non-zero whole-number "id_da_semana" makes `extractProjectTitle` return that number; the corrected version returns its decimal text |
| `ProjectUtils.ScheduleStringIdIsRejected` | src/utils/projectUtils.ts:25-36 | "id_da_semana" is a priority key, so when no title is found a truthy string under it is one `isValidTitle` rejects |
| `ProjectUtils.RejectedWeekIdIsReturned` | src/utils/projectUtils.ts:76-80 | a schedule whose week identifier is a string `isValidTitle` rejects, such as the hourglass, returns that string, as written and in the corrected version alike |
| `ProjectUtils.TitleFromJson` | src/utils/projectUtils.ts:73-88 | JSON-looking input gives the fallback, a title found in the parsed document, or the schedule week identifier; when any valid title lies within 3 levels, a found one is returned; a parse failure gives the fallback |
| `ProjectUtils.FoundWithinIsShorter` | src/utils/projectUtils.ts:21-55 | anything found in a document whose strings are all shorter than `n` is itself such a value |
| `ProjectUtils.TitleNeverRawJson` | src/utils/projectUtils.ts:85-87 | JSON-looking input never comes back as the title, whenever its parse holds only strings shorter than the input and the fallback differs from it |
| `ProjectUtils.AsWrittenNeverRawJson` | src/utils/projectUtils.ts:73-87 | the code as written never returns JSON-looking input as the title either, under the same assumption |
| `ProjectUtils.PlainTitle` | src/utils/projectUtils.ts:90-95 | plain text gives its trimmed form exactly when that passes `isValidTitle`, and the fallback otherwise; whitespace-only text gives the fallback |
| `ProjectUtils.PlainTitleIsFixedPoint` | src/utils/projectUtils.ts:90-95 | extracting the title of an extracted plain title changes nothing |
| `ProjectUtils.PriorityExample` | src/utils/projectUtils.ts:25-44 | `{"name": "Weak", "title": "Strong"}` has the title "Strong" |
| `ProjectUtils.PlaceholderExample` | src/utils/projectUtils.ts:73-87 | `{"title": "Untitled Project"}` gives the fallback |
| `ProjectUtils.TituloExample` | reproduce_issue.ts:4-8 | a document whose first member is a valid "titulo" has that title, whatever follows |
| `ProjectUtils.FindValueDeep` | src/utils/projectUtils.ts:101-119 | a found value is truthy |
| `ProjectUtils.FindValueDeepExact` | src/utils/projectUtils.ts:101-119 | the value search is sound and complete for truthy values under the keys, 3 levels deep |
| `ProjectUtils.ExtractProjectDescription` | src/utils/projectUtils.ts:125 | a missing or empty raw description gives the fallback |
| `ProjectUtils.DocumentDescription` | src/utils/projectUtils.ts:128-137 | the parsed-document branch returns the first value the search finds when that is a string, and otherwise the fallback: anything else it returns is that found string |
| `ProjectUtils.DescriptionFromJson` | src/utils/projectUtils.ts:128-137 | JSON-looking input gives the fallback or a non-empty string found under a description key within 3 levels; the first value found is returned whenever it is a string, so when something lies within reach and all of it is strings, a found string is returned; a parse failure gives the fallback |
| `ProjectUtils.DescriptionNeverRawJson` | src/utils/projectUtils.ts:136 | JSON-looking input never comes back as the description, under the same assumption as for titles |
| `ProjectUtils.PlainDescription` | src/utils/projectUtils.ts:139 | plain text gives its trimmed form with no filter; whitespace-only text gives "" |
| `ProjectUtils.NonStringDescriptionStopsSearch` | src/utils/projectUtils.ts:104-132 | a truthy non-string value under a description key stops the search, so a deeper string description is not used and the fallback is returned |
| `ProjectUtils.DescriptionExample` | src/utils/projectUtils.ts:131-132 | `{"description": "D"}` gives "D" |
| `ProjectUtils.NestedResumoExample` | src/utils/projectUtils.ts:131-132 | `{"data": {"resumo": "R"}}` gives "R": the last description key, one level down |
| `ProjectUtils.ExtractProjectHashtags` | src/utils/projectUtils.ts:146-149 | a missing or empty value gives no tags; an array is returned unchanged |
| `ProjectUtils.DocumentTags` | src/utils/projectUtils.ts:152-165 | the parsed-document branch of `extractProjectHashtags`: an array document as it is, otherwise the tags of what the value search finds; `ProjectUtils.TagsFromJson` states the array case and `ProjectUtils.TagsFromDocument` the others |
| `ProjectUtils.TagsOf` | src/utils/projectUtils.ts:160-161 | definition: a found array gives its items, a found string its comma-split pieces trimmed, anything else no tags; `ProjectUtils.SplitTagsPieces` states the string case and `ProjectUtils.TagStringExample` shows it on a document |
| `ProjectUtils.PlainTextTags` | src/utils/projectUtils.ts:169-174 | plain text without a comma gives at most one tag; `ProjectUtils.TagsFromPlainText` states every case |
| `ProjectUtils.SplitTagsPieces` | src/utils/projectUtils.ts:161 | splitting tags gives one trimmed tag per comma-separated piece, and the pieces join back to the text |
| `ProjectUtils.TagsFromDocument` | src/utils/projectUtils.ts:158-165 | a parsed non-array document with nothing under the hashtag keys gives no tags; otherwise the tags come from a value found under them: its items for an array, the comma-split pieces for a string, none otherwise |
| `ProjectUtils.TagsFromJson` | src/utils/projectUtils.ts:152-166 | JSON-looking text gives no tags when the parse fails, a parsed array as it is, and otherwise the tags of the parsed document |
| `ProjectUtils.TagsNeverRawJson` | src/utils/projectUtils.ts:152-166 | JSON-looking text never comes back as a tag, under the same assumption about the parse as for titles |
| `ProjectUtils.TagsFromPlainText` | src/utils/projectUtils.ts:169-174 | plain text with a comma is split; without one it is a single tag when shorter than 50 and no tag otherwise; whitespace-only text gives the single tag "" |
| `ProjectUtils.PlainTextTagsOfJoin` | src/utils/projectUtils.ts:169 | comma-joined pieces split back into those pieces, trimmed |
| `ProjectUtils.CommaTags` | src/utils/projectUtils.ts:169 | plain text made of comma-separated pieces gives exactly those pieces, trimmed, in order |
| `ProjectUtils.HashtagArrayExample` | src/utils/projectUtils.ts:159-160 | `{"hashtags": ["a", "b"]}` gives the tags `a`, `b` |
| `ProjectUtils.SplitTwoTags` | src/utils/projectUtils.ts:161 | "x, y" splits into the tags `x` and `y` |
| `ProjectUtils.TagStringExample` | src/utils/projectUtils.ts:159-161 | `{"tags": "x, y"}` gives the tags `x`, `y` |
| `JsonValue.Lookup` | src/utils/projectUtils.ts:33 | property access finds nothing exactly when no member has the key, and otherwise the value of a member with that key |
| `JsStrings.Trim` | src/utils/projectUtils.ts:70 | trimming never lengthens a string |
| `JsStrings.TrimParts` | src/utils/projectUtils.ts:70 | trimming removes exactly the leading and trailing whitespace |
| `JsStrings.TrimIdempotent` | src/utils/projectUtils.ts:70 | trimming twice is trimming once |
| `JsStrings.TrimAllWhitespace` | src/utils/projectUtils.ts:70 | whitespace-only text trims to "" |
| `JsStrings.Split` | src/utils/projectUtils.ts:169 | a split gives at least one piece, and no piece holds the separator |
| `JsStrings.SplitJoin` | src/utils/projectUtils.ts:169 | joining the pieces of a split with the separator gives back the text |
| `JsStrings.JoinSplit` | src/utils/projectUtils.ts:169 | splitting separator-free pieces joined by the separator gives back the pieces |
| `JsonRepair.Step` | src/utils/jsonRepair.ts:16-45 | one iteration of the scan loop: a pending escape skips the character, a backslash sets the escape, a quote toggles the string flag, and outside a string an opener pushes its closer and a matching closer pops it; `JsonRepair.ScanStackHoldsClosers` and `JsonRepair.RunAppend` state its properties |
| `JsonRepair.Repair` | src/utils/jsonRepair.ts:6-58 | the repair as a fold over the input: the input is a prefix of the output |
| `JsonRepair.RepairTruncatedJson` | src/utils/jsonRepair.ts:5-59 | the method's result is the fold `Repair` of its input |
| `JsonRepair.Reverse` | src/utils/jsonRepair.ts:54-56 | popping the stack to empty yields its elements last-pushed first |
| `JsonRepair.RunAppend` | src/utils/jsonRepair.ts:13-46 | scanning `a + b` is scanning `b` from the state after `a` |
| `JsonRepair.ScanStackHoldsClosers` | src/utils/jsonRepair.ts:32-35 | the stack only ever holds `}` and `]` |
| `JsonRepair.ClosersEmptyTheStack` | src/utils/jsonRepair.ts:36-56 | scanning the stack's closers in pop order empties the stack |
| `JsonRepair.ClosingCloses` | src/utils/jsonRepair.ts:48-56 | the appended quote and closers bring a scan state with no pending escape back to the start state |
| `JsonRepair.RepairAppends` | src/utils/jsonRepair.ts:48-56 | the input is a prefix of the output; the output adds one character for an open string and one per open bracket, each a quote or a closer |
| `JsonRepair.RepairCloses` | src/utils/jsonRepair.ts:48-58 | unless the input ends in a pending escape, the output scans as closed: outside any string, with no open bracket |
| `JsonRepair.CompleteUnchanged` | src/utils/jsonRepair.ts:48-58 | input that leaves no bracket and no string open is returned unchanged, even when it ends in a backslash |
| `JsonRepair.RepairIdempotent` | src/utils/jsonRepair.ts:48-58 | unless the input ends in a pending escape, repairing the output again changes nothing |
| `JsonRepair.BracketsInStringIgnored` | src/utils/jsonRepair.ts:26-31 | in `{"]"` the bracket inside the string leaves the stack alone |
| `JsonRepair.EscapeOutsideString` | src/utils/jsonRepair.ts:16-24 | in `[\[` the backslash outside a string skips the second bracket |
| `JsonRepair.MismatchedCloserKept` | src/utils/jsonRepair.ts:36-44 | a mismatched closer is kept and pops nothing: `{]` is repaired to `{]}` |
| `JsonRepair.TruncatedStringExample` | src/utils/jsonRepair.ts:49-56 | `["b` is repaired to `["b"]` |
| `JsonRepair.DanglingEscapeLeftOpen` | src/utils/jsonRepair.ts:16-51 | as written, a dangling backslash inside a string escapes the appended quote, so the output still scans as inside a string, and a second repair changes it |
| `JsonRepair.DanglingEscapeOutsideString` | src/utils/jsonRepair.ts:16-56 | as written, a dangling backslash outside a string swallows the appended closer: `[\` is repaired to `[\]`, which still expects a `]` |
| `JsonRepair.RepairClosedCloses` | src/utils/jsonRepair.ts:48-58 | the corrected repair always scans as closed, keeps the input as a prefix, and agrees with the source wherever no escape is pending |
| `JsonRepair.RepairClosedIdempotent` | src/utils/jsonRepair.ts:48-58 | repairing the corrected output again changes nothing |
| `JsonRepair.CorrectionExtendsClosedInput` | src/utils/jsonRepair.ts:48-58 | `{}\`, which the code returns unchanged, gets a second backslash from the corrected repair |
| `SubtitleOverlay.IsActive` | src/components/SubtitleOverlay.tsx:65 | a word is highlighted while `start <= time < end`, the test line 19 also uses to pick the active word; `SubtitleOverlay.HighlightShownIffSpoken` states what it shows |
| `SubtitleOverlay.FindIndex` | src/components/SubtitleOverlay.tsx:19 | `findIndex` returns the first index satisfying the test, and -1 exactly when none does |
| `SubtitleOverlay.ActiveWordIndex` | src/components/SubtitleOverlay.tsx:19-32 | with at least one word, the active index is a valid index |
| `SubtitleOverlay.VisibleWords` | src/components/SubtitleOverlay.tsx:53 | the visible run holds `min(words, 12)` words |
| `SubtitleOverlay.WindowBounds` | src/components/SubtitleOverlay.tsx:38-51 | the window clamping; `SubtitleOverlay.WindowWithinBounds` and `SubtitleOverlay.ActiveInWindow` state its bounds |
| `SubtitleOverlay.WindowWithinBounds` | src/components/SubtitleOverlay.tsx:35-51 | whatever the active index, the clamped window satisfies `0 <= start <= end <= length` and has length `min(length, 12)` |
| `SubtitleOverlay.ActiveInWindow` | src/components/SubtitleOverlay.tsx:38-51 | a valid active index lies inside the window |
| `SubtitleOverlay.SpokenWordIsActive` | src/components/SubtitleOverlay.tsx:19 | the first word being spoken is the active word |
| `SubtitleOverlay.BeforeFirstWord` | src/components/SubtitleOverlay.tsx:22-24 | with no word being spoken, a time before the first word's start makes the first word active |
| `SubtitleOverlay.AfterLastWord` | src/components/SubtitleOverlay.tsx:22-26 | with no word being spoken, a time after the last word's end (or the duration) makes the last word active |
| `SubtitleOverlay.GapShowsNextWord` | src/components/SubtitleOverlay.tsx:27-31 | in a gap, the next word to start is active |
| `SubtitleOverlay.GapAfterLastStart` | src/components/SubtitleOverlay.tsx:27-31 | in a gap with no word starting after the current time, the last word is active |
| `SubtitleOverlay.HighlightShownIffSpoken` | src/components/SubtitleOverlay.tsx:53-65 | some visible word is highlighted exactly when some word is being spoken |
| `SubtitleOverlay.WindowExample` | src/components/SubtitleOverlay.tsx:35-51 | with 30 words, word 20 shows 14..25, word 2 shows 0..11, word 27 shows 18..29; with 5 words all are shown |
| `Format.FormatDuration` | src/utils/format.ts:26-30 | a formatted duration is digits, a colon, then exactly two digits |
| `Format.PadStart` | src/utils/format.ts:29 | padding gives `max(length, width)` characters: fill characters, then the string itself |
| `Format.DecimalString` | src/utils/format.ts:29 | `toString` of a whole number is decimal digits with no leading zero |
| `Format.ParseDecimalString` | src/utils/format.ts:29 | the digits of a number read back as that number |
| `Format.SecondsField` | src/utils/format.ts:28-29 | the seconds field is exactly two digits and reads back as `seconds % 60`, at most 59 |
| `Format.FormatParseRoundTrip` | src/utils/format.ts:26-30 | reading a formatted duration back as `mins * 60 + secs` gives the seconds it was made from |
| `Format.FormatDurationInjective` | src/utils/format.ts:26-30 | different durations are formatted differently |
| `Format.FormatExamples` | src/utils/format.ts:27-29 | the minutes are neither padded nor capped: 600 gives "10:00", 65 gives "1:05" |

## Left out

- `JSON.parse` is a parameter (`ProjectUtils.Runtime.jsonParse`), not a parser. Duplicate keys, which `JSON.parse` resolves to the last one, are not modelled: property access takes the first member with the key. The engine's key order (integer-like keys first) is taken to be the given member order.
- `String.prototype.toLowerCase` is a parameter (`ProjectUtils.Runtime.toLowerCase`). Unicode case folding is not modelled.
- Strings are sequences of code points. JavaScript lengths count UTF-16 units, so the 50-character tag limit differs for characters outside the Basic Multilingual Plane.
- `ProjectUtils.ExtractProjectTitle` and `ProjectUtils.ExtractProjectDescription` take `Option<string>` for `string | null | undefined`. The `String(rawTitle)` branch for non-string arguments is not modelled. The default parameters are the callers' business (`ProjectUtils.UntitledProject` is the title default).
- `ProjectUtils.ExtractProjectHashtags` returns parsed JSON values, since the source returns parsed arrays as they are, whatever their elements.
- `ProjectUtils.TitleNeverRawJson` and `ProjectUtils.DescriptionNeverRawJson` assume that no string in the parsed document is as long as the input text. A parse always satisfies this, but `JSON.parse` is a parameter here.
- `SubtitleOverlay` takes the word timings as input: `getWordTimings` lives in a file that is not part of this model. Rendering and styling are left out. Times are reals, compared only.
- Format.FormatDuration: it takes a whole, non-negative number of seconds, computed on unbounded integers. Negative or fractional input (`Math.floor` on a float) is not modelled. JavaScript numbers are doubles: beyond 2^53 seconds the division and `Math.floor` are inexact, and from 1e21 minutes `toString` switches to exponent notation; neither is modelled.
- ProjectUtils.IdText: the text JavaScript gives a fractional number, a boolean, an array or an object is not modelled; for such a week identifier the corrected title extraction gives the fallback. Whole numbers from 1e21 up, which JavaScript writes in exponent notation ("1e+21"), are written in plain decimal here.
- The rest of the repository is not modelled: React components, hooks, API and authentication clients, audio management, and number and date formatting.

## Findings

| source | as written | input that shows it | evidently intended | confidence | as-written member | corrected member |
|---|---|---|---|---|---|---|
| src/utils/projectUtils.ts:80 | a schedule document with no title returns `json.id_da_semana` itself, from a function typed to return a string. Since "id_da_semana" is also a priority key, a string reaches this line only when `isValidTitle` rejected it: a placeholder, the hourglass, or whitespace comes back | `{"cronograma": 1, "id_da_semana": 7}` gives the number 7; `{"cronograma": [], "id_da_semana": "⏳"}` gives "⏳" | return the week identifier as text ("7"); whether a rejected placeholder identifier should come back is unclear, and the corrected version keeps it | not executed; the intent is uncertain | `ProjectUtils.NumericWeekIdIsReturned` | `ProjectUtils.DocumentTitle` |
| src/utils/jsonRepair.ts:16-51 | input ending in a dangling backslash gets a quote or closer appended that the pending escape swallows; inside a string this is the closing quote, outside one the first closer | `["\` is repaired to `["\"]`, which still scans as inside a string; `[\` is repaired to `[\]`, which still expects `]` | finish the pending escape before closing, so the output always scans as closed; this also adds a backslash to input the code returns unchanged, such as `{}\` | not executed | `JsonRepair.DanglingEscapeLeftOpen` | `JsonRepair.RepairClosedCloses` |
