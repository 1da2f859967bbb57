# Time-reporting marker protocol of an Outlook calendar add-in

The add-in lets a user tag a calendar event with four time-reporting values:

- project;
- PAE project code;
- prestation (type of service);
- an "include" flag.

It stores them invisibly in the event's HTML body as a *marker*: a sentinel, then a white `<span>` holding a record text such as `{projet:P;projet_pae:C;prestation:S;inclu:I}`.

Submitting the form does the following:

1. It reads the body.
2. It looks for an earlier marker.
3. It ends in one of these ways:
   - it reports that the values are already present;
   - it asks whether to replace a different marker, then replaces it or keeps it;
   - it inserts a new marker block;
   - it gives up;
   - it throws.

The add-in ships in two variants:

- **Production**, `scripts/TimeReporting.js`, modelled in `prod.dfy` as module `TimeReporting`. It uses a `---PAS EFFACER---` sentinel, always appends the block, and does not strip annotations.
- **Development**, `scripts/TimeReporting_dev.js`, modelled in `dev.dfy` as module `TimeReportingDev`. It differs from production in these ways:
  - it uses a sentinel of 53 dashes and a more tolerant lookup pattern;
  - before searching, it unwraps the spelling and grammar annotations (`<span class=SpellE>…</span>`) that Word-based clients insert;
  - it picks an insertion strategy by host client.

The development variant also has an export path, modelled in `export.dfy` as module `Export`. It checks a date range, writes the events of the range as CSV rows and names the download after the user and the dates.

Project layout:

| file | module | contents |
|---|---|---|
| `wrappers.dfy` | `Wrappers` | `Option` |
| `text.dfy` | `Text` | JavaScript string operations used by the handlers, plus occurrence lemmas (see below) |
| `regex.dfy` | `Regex` | the non-greedy, single-line group matcher behind the `\{projet:(.*?);…\}` decoders |
| `report.dfy` | `Report` | form values, outcomes and replies, shared by both variants |
| `spelling.dfy` | `SpellCheck` | `removeSpellCheckTags` |
| `dev.dfy` | `TimeReportingDev` | the development `handleSubmit` |
| `export.dfy` | `Export` | the pure parts of the development export |
| `prod.dfy` | `TimeReporting` | the production `handleSubmit` |

The string operations in `Text` are `indexOf`, `lastIndexOf`, `includes`, `replace` with a string pattern, `split`, `join`, `reverse` and `<` on strings. The occurrence lemmas are about where a pattern can start in a concatenation.

Two of the handlers take different forms:

- The development `handleSubmit` reassigns its local body, chooses the new body branch by branch and returns early. It is therefore the method `CalendarEvent.Submit` on a class holding the event `body`. Its contract ties the new `body` and the outcome to the function `Respond`, and the properties are proved about `Respond`.
- The production handler only binds constants. It is the function `SubmitWith`, which returns the outcome and the body that `setAsync` would receive. `Submit` calls it with the record text as written, and `SubmitClosed` with the record text closed by `}`.

Each regular expression is replaced by a scanner written for that one pattern. The scanners follow JavaScript's rules:

- the leftmost match wins;
- lazy groups take as little as they can and backtrack one character at a time;
- `.` does not match line terminators, while `[\s\S]` matches anything;
- `\s` is JavaScript's white-space set;
- `/i` is ASCII case folding;
- the undefined back-reference `\1?` matches nothing;
- a global replace resumes after each match.

## Model

| member | source | states |
|---|---|---|
| Text.LastIndexOf | scripts/TimeReporting_dev.js:157-159 | `lastIndexOf`: the result is the last position where the pattern starts, and it is none exactly when the pattern does not occur (`includes` is false) |
| Text.ReplaceFirst | scripts/TimeReporting_dev.js:144 | `replace` with a string pattern: only the first occurrence is replaced and the text before and after it is kept; with no occurrence the text is unchanged |
| Text.IndexOf | scripts/TimeReporting_dev.js:119 | the leftmost position where the pattern starts; none exactly when it does not occur |
| Text.UpTo | scripts/TimeReporting_dev.js:119 | the lazy group `([\s\S]*?)` before a closing text: the capture followed by the closing text is a prefix of the input, the capture holds no closing text, and there is none exactly when the closing text does not occur |
| Text.SplitJoin | scripts/TimeReporting_dev.js:238-239 | splitting parts joined by a character they do not hold gives back the parts |
| Text.JoinSplit | scripts/TimeReporting_dev.js:238-239 | joining the parts of a split with the same character gives back the text |
| Text.Reverse | scripts/TimeReporting_dev.js:238-239 | `reverse` keeps the length and puts position `k` at position `length - 1 - k` |
| Regex.MatchAt | scripts/TimeReporting_dev.js:133 | a match anchored at a position is the head followed by single-line groups interleaved with the literals |
| Regex.FirstMatch | scripts/TimeReporting_dev.js:133 | a match found by the lazy single-line groups is an occurrence, in the text, of the head followed by the groups interleaved with the literals |
| Regex.GroupsComplete | scripts/TimeReporting_dev.js:133 | the lazy groups, anchored at the start, match whenever some single-line groups interleaved with the literals start the text (they may capture less) |
| Regex.FirstMatchComplete | scripts/TimeReporting_dev.js:133 | whenever the head followed by single-line groups interleaved with the literals occurs at some position, there is a match; so no match means no such occurrence |
| Regex.FirstMatchLeftmost | scripts/TimeReporting_dev.js:133 | the match returned is the one anchored at the leftmost position where the pattern matches |
| Regex.FirstMatchRecover | scripts/TimeReporting_dev.js:133 | when no group holds its following literal and no group holds a line break, the leftmost lazy match of `head + groups/literals` gives back exactly those groups |
| SpellCheck.HeadAt | scripts/TimeReporting_dev.js:87 | a recognised opening is a well-formed `<span class=…>` opening (`SpellE` or `GramE`, quotes matching or absent) at the start of the text |
| SpellCheck.HeadAtRecognises | scripts/TimeReporting_dev.js:87 | every opening the pattern admits (no quote, or a matching or absent closing quote; `SpellE` or `GramE`) is recognised whatever follows |
| SpellCheck.TagAt | scripts/TimeReporting_dev.js:87 | a match is a well-formed opening, a single-line inner text and `</span>`, at the start of the text |
| SpellCheck.TagAtRecognises | scripts/TimeReporting_dev.js:87 | an annotation whose inner text is single-line and holds no `</span>` is matched up to its first `</span>` |
| SpellCheck.RemoveSpellCheckTags | scripts/TimeReporting_dev.js:86-93 | stripping never lengthens the body; what it keeps and what it unwraps is stated by the lemmas below |
| SpellCheck.RemoveSkipsPlainPrefix | scripts/TimeReporting_dev.js:86-93 | a prefix at none of whose positions the pattern matches passes through stripping unchanged, in front of the stripped rest, whatever follows |
| SpellCheck.RemoveKeepsUnannotated | scripts/TimeReporting_dev.js:86-93 | a body at none of whose positions the pattern matches is returned unchanged, whatever other spans (such as `<span class=MsoHyperlink>`) it holds |
| SpellCheck.RemoveKeepsHeadFree | scripts/TimeReporting_dev.js:86-93 | a body in which no annotation opening starts is returned unchanged |
| SpellCheck.RemoveUnwrapsTag | scripts/TimeReporting_dev.js:86-93 | after a text in which no annotation opening starts, an annotation is replaced by its inner text, and stripping goes on after it |
| TimeReportingDev.Encode | scripts/TimeReporting_dev.js:108 | the record text is the decoder's pattern with the four values in its groups: `{projet:`, then each value followed in turn by `;projet_pae:`, `;prestation:`, `;inclu:` and `}` |
| TimeReportingDev.Marker | scripts/TimeReporting_dev.js:109 | when the record text holds no `</span>`, the lookup pattern matches at the start of `customText` and captures exactly the record text |
| TimeReportingDev.Block | scripts/TimeReporting_dev.js:160-173 | when the record text holds no `</span>`, lookup on `<div>` + `customText` + `</div>` alone gives exactly the record text |
| TimeReportingDev.AfterOpeningOfMarker | scripts/TimeReporting_dev.js:109-119 | the opening the handler writes (dashes, `<br>`, `<span style="color:white;">`) is accepted by the lookup pattern and consumed exactly |
| TimeReportingDev.StyleValue | scripts/TimeReporting_dev.js:119 | what the style-value step consumes is always a quote, `color:`, at most one white-space character, `white`, at most one `;`, a quote and `>`, where each quote is `"` or `'` |
| TimeReportingDev.AfterDashes | scripts/TimeReporting_dev.js:119 | what follows the sentinel and is consumed is always white space, `<br>`, white space, `<span style=` and an admitted style value |
| TimeReportingDev.AfterOpening | scripts/TimeReporting_dev.js:119 | what the opening step consumes is always an admitted opening: sentinel, white space, `<br>`, white space, `<span style=`, admitted style value |
| TimeReportingDev.AfterOpeningRecognises | scripts/TimeReporting_dev.js:119 | every opening the lookup pattern admits is consumed exactly, whatever follows: any white space before and after `<br>`, either quote at either end, an optional white-space character after `color:`, an optional `;` |
| TimeReportingDev.AfterOpeningExactly | scripts/TimeReporting_dev.js:119 | both directions together: the opening step accepts the start of a text and leaves `rest` exactly when the text is an admitted opening followed by `rest` |
| TimeReportingDev.MarkerAt | scripts/TimeReporting_dev.js:119 | a match at a position starts with the dash sentinel; the capture, then `</span>`, comes right after the matched opening (an admitted one, see `AfterOpeningExactly`), and the capture holds no `</span>`; there is no match exactly when the opening does not match or no `</span>` follows it |
| TimeReportingDev.Lookup | scripts/TimeReporting_dev.js:119-128 | when found, the sentinel occurs in the text and the captured record text holds no `</span>` |
| TimeReportingDev.LookupIsFirst | scripts/TimeReporting_dev.js:119-128 | `exec` gives the capture at the leftmost position where the pattern matches |
| TimeReportingDev.LookupNoneIffNowhere | scripts/TimeReporting_dev.js:119-126 | `test` fails exactly when the pattern matches at no position |
| TimeReportingDev.MarkerAtMarker | scripts/TimeReporting_dev.js:109-119 | at a written marker, the capture is exactly the record text, up to the first `</span>` |
| TimeReportingDev.LookupSkips | scripts/TimeReporting_dev.js:119-128 | lookup passes over a prefix in which no sentinel starts |
| TimeReportingDev.LookupFindsBlock | scripts/TimeReporting_dev.js:119-128 | in a body without the sentinel, an inserted block is found wherever it was put, and its record text is captured exactly |
| TimeReportingDev.Decode | scripts/TimeReporting_dev.js:133 | a decoded record has single-line values and re-encodes to a text that occurs in the decoded text |
| TimeReportingDev.DecodeComplete | scripts/TimeReporting_dev.js:133 | a text holding, anywhere, the record text of single-line values decodes; with `Decode`, decoding fails exactly when no such record text occurs, which is when the destructuring throws |
| TimeReportingDev.DecodeEncode | scripts/TimeReporting_dev.js:133 | when the first three values have no `;`, the last has no `}`, and none has a line break, decoding gives back the four values |
| TimeReportingDev.ClientOf | scripts/TimeReporting_dev.js:70-80 | `Outlook` is the desktop client, `OutlookWebApp` the web client, and every other host name is unknown |
| TimeReportingDev.FindIgnoringCase | scripts/TimeReporting_dev.js:156 | the first position at or after the start where the pattern matches, ignoring ASCII case; none exactly when it matches at no such position |
| TimeReportingDev.LazyPair | scripts/TimeReporting_dev.js:156 | a literal, a lazy `[\s\S]*?`, then a second literal, ignoring ASCII case: the first occurrence of the first literal at or after the start, then the first occurrence of the second after it; none exactly when no such pair exists |
| TimeReportingDev.LazyTriple | scripts/TimeReporting_dev.js:156 | the leftmost match of `(<body>)[\s\S]*?(<!-- Converted … -->[\s\S]*?)(<\/body>)/i`: no match starts further left, the comment is the first after `<body>`, and `</body>` is the first after the comment; none exactly when the three do not occur in that order |
| TimeReportingDev.InsertDesktop | scripts/TimeReporting_dev.js:154-171 | If `</div></body></html>` occurs, the block goes right before its last occurrence, and deleting the block gives back the body. Only otherwise is the fallback tried: the body up to the end of `<body>` is kept, the block follows, and the body resumes at `</body>`. Without either, nothing is written |
| TimeReportingDev.DesktopSplit | scripts/TimeReporting_dev.js:154-171 | every desktop insertion puts the block between a prefix and a suffix of the body, and the suffix starts with a tag |
| TimeReportingDev.FallbackDropsContent | scripts/TimeReporting_dev.js:163 | the fallback loses what lay between `<body>` and `</body>`: a text that starts where `<body>` ends, holds the whole comment and ends where `</body>` starts |
| TimeReportingDev.Respond | scripts/TimeReporting_dev.js:113-180 | See "Respond, case by case" below the table |
| TimeReportingDev.NotInEncode | scripts/TimeReporting_dev.js:108 | a pattern absent from the four values cannot appear in the record text if it cannot straddle a key and a value |
| TimeReportingDev.NoSpellOpenInBlock | scripts/TimeReporting_dev.js:109 | a block written for values free of `<span class=` holds no annotation opening |
| TimeReportingDev.StripKeepsInserted | scripts/TimeReporting_dev.js:121 | stripping leaves a body with an inserted block unchanged when no annotation opening starts in the text around it and the values hold none |
| TimeReportingDev.FoundAfterInsert | scripts/TimeReporting_dev.js:119-131 | a block put between a prefix and a suffix of a stripped body, free of sentinels and with no annotation opening starting in it, is found again by strip and lookup, with its record text exact |
| TimeReportingDev.InsertionSplit | scripts/TimeReporting_dev.js:152-173 | every web or desktop insertion writes a prefix of the stripped body, the block, and a suffix of it that is empty or starts with a tag |
| TimeReportingDev.InsertedIsFound | scripts/TimeReporting_dev.js:119-131 | after any insertion into a stripped body free of sentinels and of annotation openings, strip and lookup give exactly the new record text |
| TimeReportingDev.ResubmitIsDuplicate | scripts/TimeReporting_dev.js:119-131 | Take a stripped body with no sentinel and no annotation opening, and values with no `<span class=` and no `</span>`. After an insertion, strip and lookup give exactly the new record text, so resubmitting the same values only reports them present and writes nothing |
| TimeReportingDev.DuplicateWhenFound | scripts/TimeReporting_dev.js:130-131 | a body whose first marker holds the submitted record text gets the "already present" notice and no write |
| TimeReportingDev.CalendarEvent.Submit | scripts/TimeReporting_dev.js:95-180 | The handler's outcome is that of `Respond` on the current body. The body changes only when `Respond` writes, and then becomes the written text |
| Export.Refused | scripts/TimeReporting_dev.js:294-297 | for two `yyyy-mm-dd` dates, comparing the strings refuses the export exactly when the start date lies after the end date |
| Export.LexLessIsNumeric | scripts/TimeReporting_dev.js:294 | on digit strings of equal length, string order is numeric order |
| Export.Num | scripts/TimeReporting_dev.js:294 | the decimal value of a digit string is below the next power of ten |
| Export.Row | scripts/TimeReporting_dev.js:252-260 | when no field holds `;` or a line feed, the row holds no line feed and splits back into `Start;End;Subject;BodyPreview;Location`, with an empty location when there is none |
| Export.Rows | scripts/TimeReporting_dev.js:252-261 | one row per event, in source order |
| Export.Csv | scripts/TimeReporting_dev.js:252-261 | when no field holds `;` or a line feed, the CSV splits back into one line per event, in order, and each line into that event's five fields |
| Export.ReformatDate | scripts/TimeReporting_dev.js:238-239 | `split("-").reverse().join("_")` turns `yyyy-mm-dd` into `dd_mm_yyyy` |
| Export.ReformatSwapsParts | scripts/TimeReporting_dev.js:238-239 | more generally, it turns `y-m-d` into `d_m_y` for parts without a dash |
| Export.UserNames | scripts/TimeReporting_dev.js:235 | the user name holds neither `.` nor `@` |
| Export.UserNamesOf | scripts/TimeReporting_dev.js:235 | `user.surname@domain` gives the user name and the surname |
| Export.MissingSurname | scripts/TimeReporting_dev.js:235 | an address with no dot before `@` gives the whole local part and the surname `undefined`; this is not an error |
| Export.ExportWith | scripts/TimeReporting_dev.js:226-267 | a download happens exactly when both dates are read under names that are in scope, and its content is the CSV of the events |
| Export.HandleExportAsWritten | scripts/TimeReporting_dev.js:226-267 | as written, every export ends in a `ReferenceError` before any download |
| Export.HandleExport | scripts/TimeReporting_dev.js:226-267 | reading its own parameters, the export always downloads the events' CSV |
| Export.ExportNamesFile | scripts/TimeReporting_dev.js:267 | reading its own parameters, the export names the file `TR_user_surname_dd_mm_yyyy_dd_mm_yyyy.csv` |
| Export.Confirm | scripts/TimeReporting_dev.js:290-301 | a refused range shows the date message and exports nothing; otherwise the export runs |
| TimeReporting.Encode | scripts/TimeReporting.js:82 | the record text holds `}` exactly when a value does, so as written it lacks the brace the decoder needs |
| TimeReporting.EncodeClosed | scripts/TimeReporting.js:82 | the record text closed by `}` is the decoder's pattern with the four values in its groups |
| TimeReporting.Block | scripts/TimeReporting.js:117 | when the record text holds no `</span>--------`, lookup on the block alone gives exactly the record text |
| TimeReporting.MarkerAt | scripts/TimeReporting.js:90 | a match at a position starts with the opening; the capture, then `</span>--------`, comes right after it, and the capture holds no `</span>--------`; there is no match exactly when the opening is absent or no closing run follows it |
| TimeReporting.Lookup | scripts/TimeReporting.js:90-93 | when found, the opening occurs and the capture, which may span lines, holds no closing run |
| TimeReporting.LookupIsFirst | scripts/TimeReporting.js:90-93 | `exec` gives the capture at the leftmost position where the pattern matches |
| TimeReporting.LookupNoneIffNowhere | scripts/TimeReporting.js:90-92 | `test` fails exactly when the pattern matches at no position |
| TimeReporting.Decode | scripts/TimeReporting.js:98 | a decoded record has single-line values and, with its closing brace, occurs in the decoded text; so a text without `}` never decodes |
| TimeReporting.DecodeComplete | scripts/TimeReporting.js:98 | a text holding, anywhere, the closed record text of single-line values decodes; with `Decode`, decoding fails exactly when no such text occurs |
| TimeReporting.SubmitWith | scripts/TimeReporting.js:85-123 | See "SubmitWith, case by case" below the table |
| TimeReporting.Submit | scripts/TimeReporting.js:85-123 | As written: a failed read writes nothing. The same record text found alerts and writes nothing. No marker appends the block. A found marker without `}` can only alert or throw, never reach the dialog |
| TimeReporting.SubmitClosed | scripts/TimeReporting.js:85-123 | With the brace: as `Submit` for a failed read, a duplicate or no marker. A different marker that decodes leads to the dialog with its values, and the answer decides between replacing and keeping |
| TimeReporting.LookupSkips | scripts/TimeReporting.js:90-93 | lookup passes over a prefix in which no opening starts |
| TimeReporting.LookupSkipsBody | scripts/TimeReporting.js:117 | an opening cannot run from a body free of it into the appended `<div>` |
| TimeReporting.MarkerAtMarker | scripts/TimeReporting.js:83-93 | at a written marker, the capture is exactly the record text |
| TimeReporting.LookupFindsBlock | scripts/TimeReporting.js:90-117 | in a body without the opening, the appended block is what lookup finds, with its record text captured exactly |
| TimeReporting.AppendKeepsBody | scripts/TimeReporting.js:116-119 | with no marker, the block is appended and the old body is an unchanged prefix of what is written |
| TimeReporting.ResubmitIsDuplicate | scripts/TimeReporting.js:90-96 | Take an old body without the opening, and a record text without `</span>--------`. Then lookup on the appended body gives exactly the record text, and resubmitting the same values only alerts and writes nothing |
| TimeReporting.ReplaceUnreachable | scripts/TimeReporting.js:82-98 | A different marker written by this handler, with no `}` in its values, never decodes. So the handler throws before any dialog and writes nothing |
| TimeReporting.DecodeEncodeClosed | scripts/TimeReporting.js:98 | the record text closed by `}` decodes back to values with no `;` in the first three, no `}` in the last and no line breaks |
| TimeReporting.ClosedReplaceReachable | scripts/TimeReporting.js:107-114 | With the brace, a different earlier marker leads to the dialog with the earlier values. Confirming writes the body with the first occurrence of the earlier record text replaced; cancelling writes nothing |

**Respond, case by case.** Each outcome below happens exactly when its condition holds. "The marker" is the first marker that lookup finds in the stripped body.

- `ReadFailed`: the read failed.
- "Already present": the marker holds the new record text.
- `Throws`: the marker differs and does not decode.
- `Replaced`: the marker differs, decodes and the dialog is confirmed. The write is the stripped body with the first occurrence of the marker's record text replaced, and the outcome carries the decoded earlier values.
- `Kept`: the same, but the dialog is cancelled. Nothing is written.
- `Inserted`: there is no marker, and the client is web, or desktop with an insertion point. Web appends the block to the stripped body; desktop writes what `InsertDesktop` gives.
- `NoInsertionPoint`: there is no marker, and the client is desktop without an insertion point.
- `UnknownClient`: there is no marker and the host is unknown.
- The body is written exactly on replace or insert.

**SubmitWith, case by case.**

- A failed read writes nothing.
- With the first marker equal to the record text, it alerts and writes nothing.
- With a different marker:
  - it throws exactly when decoding fails;
  - otherwise a confirm writes the body with only the first occurrence of the old record text replaced;
  - a cancel writes nothing.
- With no marker, the block is appended to the unstripped body.

## Left out

- Loading the CSV option lists (`loadProjects`, `loadPrestations`). They are fetch and DOM population.
- The form fields read from the DOM. The four values are parameters.
- Bootstrap dialogs and listener wiring. The confirmation dialog's answer is the `confirm` parameter.
  - Listeners added on every call accumulate. This is not modelled.
  - The undefined `onCancel` called by the export dialog's cancel button is not modelled.
- Office host calls. `getAsync`, `setAsync`, `saveAsync`, the token request, the REST `fetch`, `Blob` and the download link are left out.
  - The body read is an `Option<string>` input: `readOk` in the class.
  - The write is the returned or stored body.
  - A failed `setAsync` is only logged, so it is not modelled.
  - The events of the export are an input sequence.
- `new Date(...).toISOString()` and the CalendarView URL. Both are outside the model.
- Console logging.
- `removeSpellAndGramTags`, which is never called.
- The commented-out dialog blocks.
- A general regular-expression engine. Each pattern has its own scanner.
- `String.prototype.replace` expands `$&`, `$1`, … in its replacement text. The model inserts the replacement literally. This is why `Respond`, `CalendarEvent.Submit`, `Submit`, `SubmitClosed` and `SubmitWith` require that no form value, or no record text, holds `$`.
- Characters are Dafny `char`s. JavaScript compares and indexes UTF-16 code units, which differs only outside the Basic Multilingual Plane.
- `Export.Row`: `join` turns `undefined` and `null` into an empty text. An event without a subject or preview is modelled with an empty field. A location is either absent or its display name.
- The date check is the string comparison the code makes. `Refused` relates it to calendar order only for `yyyy-mm-dd` values, which are what a date input yields.

Two behaviours of the code worth noting:

- An address with no dot before `@` is not rejected. It yields the surname `undefined` (`MissingSurname`).
- The production decoder cannot read what the production encoder writes (see Findings).

## Findings

| source | as written | input that shows it | evidently intended | confidence | as-written member | corrected member |
|---|---|---|---|---|---|---|
| scripts/TimeReporting.js:82 | the record text ends after `include:I` with no `}`, but the decoder at line 98 requires `include:(.*?)\}` | a body holding a marker written for `{projet:A;projet_pae:B;prestation:C;include:on`, then a submission with any different values: the decode gives `null`, the destructuring throws, no dialog, nothing written | close the record text with `}`, as the development variant does | high (not executed) | TimeReporting.ReplaceUnreachable | TimeReporting.ClosedReplaceReachable |
| scripts/TimeReporting_dev.js:238-239 | reads `startDate` and `endDate`, which are not declared anywhere in the file | every export with valid dates, such as from `2024-03-01` to `2024-03-05`: reading an undeclared name throws a `ReferenceError` before the fetch, and no file is produced | read the parameters `fromDate` and `toDate` | high (not executed) | Export.HandleExportAsWritten | Export.ExportNamesFile |
