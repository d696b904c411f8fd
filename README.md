# Council agenda extraction, modelled in Dafny

This project models the extraction core of `src/Browser.js`, a scraper for the weekly agenda
pages of a city council. Given the HTML of a page, the year and the week number, `getTables`
returns one meeting table per `<caption>…</caption>…<tbody>…</tbody>` block. Each table holds:

- the caption's date, with its German month names rewritten through the `MONTH` table;
- the meeting number from the caption;
- one agenda item per `<tr>` row: the time, the agenda number, the topic title, the lettered
  topic details, the document references and the status;
- the page's pagination attributes, from `getPreviousNextData`.

Every regular expression of the core becomes its own scanner with the same matching rules:

- `.*?` is lazy and does not cross a line terminator without the `s` flag;
- a `/g` match collects every match from left to right;
- `[0]` is the first match;
- a `null` match that the source dereferences is an error.

JavaScript throws one `TypeError` at the first such `null`. The model instead returns a
`ParseError` that names which match failed. Errors come in the order in which the source
evaluates the matches.

Modules, one file each:

- `Wrappers` (`wrappers.dfy`): `Option`, `Result`, and `MapResult` (an `Array.prototype.map`
  that stops at the first failure).
- `JsString` (`jsstring.dfy`): the string built-ins the core calls. These are `replace` with a
  string pattern (first occurrence only), the global `replace(/<br\/>/g, ' ')`, `trim`, `split`
  and `parseInt`, with a left-to-right substring search that they are built on.
- `Tags` (`striptags.dfy`): `striptags`, taken as a remover of `<…>` spans.
- `Patterns` (`patterns.dfy`): lazy chains of literals (`A.*?B.*?C`), global and first matches,
  captures, and the document reference `\d{1,3}\/\d{1,10}`.
- `Months` (`months.dfy`): the `MONTH` table and the month-replace loop.
- `Pagination` (`pagination.dfy`): `getPreviousNextData`, and the check that `initialize` makes.
- `Topic` (`topic.dfy`): the `Thema` cell, meaning its title, its icon documents and the
  lettered-detail loop.
- `Rows` (`rows.dfy`): one agenda row, meaning its time, `TOP` cell, topic and status.
- `Tables` (`tables.dfy`): the caption's date and meeting number, the rows of a table, and
  `getTables`.

Where the behaviour of the code differs from what its documentation describes, the model
follows the code:

- **Month names.** `date.replace(string, fix)` rewrites only the first occurrence of each name.
  Normalising twice can therefore change a text again (`Months.FixedNotIdempotent`).
- **Tables without rows.** A `tbody` without any `<tr>` leaves `rows` at `null`, and
  `rows.map` throws. The whole call fails with `NoRows` instead of giving an empty table.
- **Status lines.** Tags are stripped before the status is split on `<br>`, so no `<br>` is left
  to split on. The status is always exactly one line (`Rows.StatusIsOneLine`, `Rows.StatusExample`).
- **Pagination values.** They are the captured digit strings, not numbers.
- **Meeting number.** It comes from the first `(` that has a digit after it, not necessarily
  from the first `(`.
- **Lettered details.** The scan for `a)`, `b)`, … starts at the first marker, so any text in
  the paragraph before it belongs to no detail (`Topic.LetteredScanDropsIntro`).
- **Document references.** `/\d{1,3}\/\d{1,10}/g` has no word boundaries. A longer number is
  not dropped: its last three digits before the slash and its first ten after it are taken
  (`Patterns.DocRefsInsideLongerNumber`, `Patterns.DocRefsCutLongTail`).
- **Time cell.** The leading `.*?` of the time pattern stops only at a line break, not at the
  `Uhrzeit` cell's `</td>`. A time cell without a time does not fail the row: the first time
  token of a later cell on the same line is taken (`Rows.TimeFromLaterCell`).

## Model

| member | source | states |
|---|---|---|
| Months.Fixed | src/Browser.js:70-72 | the date after all four table entries have been applied; a date text that holds none of the four German names comes back unchanged |
| Months.FixMonths | src/Browser.js:70-72 | the loop over the month table leaves exactly `Fixed(date)`, with the invariant that after `i` entries the text is `FixedUpTo(date, i)` |
| Months.StageReplacesFirst | src/Browser.js:71 | each entry of the month table replaces the first occurrence of its German name with its English name and keeps the text on either side of it |
| Months.FixesHoldNoLaterName | src/Browser.js:5-10 | no English replacement contains a German name that a later entry looks for, so one entry cannot feed the next |
| Months.MarchDate | src/Browser.js:5-10 | `15. März 2023` becomes `15. March 2023` |
| Months.FixedNotIdempotent | src/Browser.js:70-72 | only the first occurrence of each name is replaced: `Mai Mai` becomes `May Mai`, and a second pass gives `May May` |
| JsString.ReplaceFirst | src/Browser.js:71 | `replace` with a string pattern leaves a text without an occurrence of the pattern unchanged |
| JsString.ReplaceFirstAt | src/Browser.js:71 | when the first occurrence of the pattern is at `i`, the replacement takes exactly its place and the text on either side is kept |
| JsString.ReplaceAll | src/Browser.js:100 | `replace(/<br\/>/g, ' ')` is the text split at every occurrence of the pattern and joined again with the replacement |
| JsString.ReplaceAllLeavesNone | src/Browser.js:100 | replacing every occurrence of a pattern by a text that shares no character with it leaves no occurrence of the pattern |
| JsString.Split | src/Browser.js:118 | `split` gives at least one part, no part contains the separator, joining the parts with the separator gives the text back, and a text without the separator is one part |
| JsString.Trim | src/Browser.js:68 | `trim` gives a slice of the text that neither starts nor ends with white space, and everything cut off at either end is white space |
| JsString.DigitsValue | src/Browser.js:73 | `parseInt(d, 10)` of `n` decimal digits is below `10^n` |
| JsString.DigitsValueConcat | src/Browser.js:73 | digit strings are positional: the value of `a + b` is the value of `a` times `10^|b|` plus the value of `b` |
| Pagination.Capture | src/Browser.js:50-53 | `body.match(re)` is null exactly when the attribute pattern matches nowhere; otherwise it is the capture of the leftmost match, of between the pattern's minimum and maximum number of digits |
| Pagination.GetPreviousNextData | src/Browser.js:49-63 | `false` (None) exactly when none of the four attribute patterns matches anywhere in the page; otherwise each field is the capture of its own pattern, or null, a year being exactly four digits and a week one or two |
| Pagination.CheckInitialPage | src/Browser.js:25-27 | the first page is rejected with `Wrong initial data!` exactly when it has no pagination |
| Tags.StripTags | src/Browser.js:2 | stripped text holds no `<` and is no longer than its input |
| Tags.StripTagsIdempotent | src/Browser.js:2 | stripping tags twice is stripping them once |
| Tags.StripTagsText | src/Browser.js:2 | text before the next tag is kept unchanged |
| Tags.StripTagsTag | src/Browser.js:2 | a closed tag is dropped whole |
| Patterns.ScanSpansSpec | src/Browser.js:66 | a `/g` scan lists its matches left to right: the first starts at the first position where the pattern matches, each next one at the first such position at or after the end of the previous match, no match starts in the gaps, and none starts after the last |
| Patterns.GlobalScanUnique | src/Browser.js:66 | that description leaves no choice: two lists of matches that both meet it are equal |
| Patterns.AllMatches | src/Browser.js:66 | the global match is empty exactly when no occurrence of the first literal can be completed, and every element is a complete match of the pattern |
| Patterns.AllMatchesSpec | src/Browser.js:66 | element `k` of the global match is the text of the `k`-th match of the left-to-right scan, so the elements occur in the input, in document order, and no match is skipped |
| Patterns.LazyMatchComplete | src/Browser.js:66 | a lazy chain fails to match only when no occurrence of its first literal can be completed |
| Patterns.FirstMatch | src/Browser.js:74 | `match(...)[0]` is null exactly when the lazy match fails; otherwise it is the input's text from the start of the leftmost match to its lazy end, and a complete match of the pattern |
| Patterns.FirstMatchIsFirst | src/Browser.js:74 | `[0]` of the global match is the first match: it is null exactly when the global match is empty, and otherwise it is the global match's first element |
| Patterns.FirstPairMatch | src/Browser.js:74 | the first match of `<tbody>(.*?)<\/tbody>` runs from the first `<tbody>` to the end of the first `</tbody>` after it |
| Patterns.FirstPairAtStart | src/Browser.js:68 | in a text that begins with `<caption>`, the capture of `<caption>(.*?)<\/caption>` is the text up to the first `</caption>` |
| Patterns.Inner | src/Browser.js:68 | the capture of `<caption>(.*?)<\/caption>` is the text strictly between the two literals |
| Patterns.DocRefs | src/Browser.js:98 | every reference collected by `/\d{1,3}\/\d{1,10}/g` has one to three digits, a slash and one to ten digits |
| Patterns.DocRefsSpec | src/Browser.js:98 | the references are the texts of the left-to-right scan of the text, in order, with no reference starting in the gaps between them |
| Patterns.DocRefAtLongest | src/Browser.js:98 | at a position where a reference occurs, the greedy `\d{1,3}\/\d{1,10}` matches and takes at least that reference |
| Patterns.DocRefsInsideLongerNumber | src/Browser.js:98 | in `12345/6` the reference pattern finds `345/6`, the last three digits before the slash |
| Patterns.DocRefsCutLongTail | src/Browser.js:98 | in `1/12345678901` the reference pattern finds `1/1234567890`, the first ten digits after the slash |
| Patterns.DocRefsNeedSlash | src/Browser.js:98 | text without a `/` yields no document reference |
| Topic.Title | src/Browser.js:80-85 | the topic is the stripped, trimmed first title anchor, or the stripped, trimmed whole cell when there is no anchor; it holds no `<` and is already trimmed |
| Topic.IconMatches | src/Browser.js:87 | every element of the global icon match is a complete icon match: the icon markup, a document reference and `</a>` |
| Topic.IconMatchesSpec | src/Browser.js:87 | element `k` of the icon match is the text of the `k`-th match of the left-to-right scan of the cell, in document order, with no match skipped |
| Topic.IconMatchAtExact | src/Browser.js:87 | wherever an icon match occurs in the cell, the icon pattern matches there with exactly its length |
| Topic.CleanDoc | src/Browser.js:90-91 | removing the icon markup and the first `</a>` from an icon match leaves exactly the captured reference |
| Topic.TopicDocuments | src/Browser.js:87-92 | there is exactly one document per element of the global icon match |
| Topic.TopicDocumentsAreRefs | src/Browser.js:87-92 | document `k` is exactly the reference captured by icon match `k`, and a document identifier |
| Topic.LetterMatch | src/Browser.js:95 | a match starts at a lowercase letter followed by `)`, and its capture ends at a terminator (`\W[a-z])` or `</p>`) at least one character after the marker |
| Topic.LetterMatchSpec | src/Browser.js:95 | the lettered pattern fails exactly when no marker has a terminator after it; otherwise it reports the leftmost such marker, with its capture ending at the first terminator |
| Topic.BreaksReplaced | src/Browser.js:100 | replacing every `<br/>` of a fragment by a space leaves no `<br/>` in it |
| Topic.Detail | src/Browser.js:98-101 | a detail's text is the fragment with every `<br/>` replaced by a space, stripped of tags and trimmed, so it holds no `<`; its documents are the references of the stripped fragment, each a document identifier |
| Topic.SegmentDetails | src/Browser.js:95-105 | the scan yields no detail exactly when the paragraph has no lettered match |
| Topic.LetteredScanDropsIntro | src/Browser.js:95-104 | the paragraph `<p>Intro a) x</p>` gives the single detail `x`: the text before the first marker is in no detail |
| Topic.SegmentDetailsRefsOnly | src/Browser.js:98 | every document of every detail the scan collects is a document identifier |
| Topic.ScanResumesBeforeTerminator | src/Browser.js:103-104 | the text left for the next search is strictly shorter and starts two characters before the terminator, so the next marker (or the `</p>`) is still in it |
| Topic.ScanDetails | src/Browser.js:97-105 | the `while (multipleDocs)` loop ends and pushes exactly the details of the lettered scan |
| Topic.TopicDetails | src/Browser.js:86-113 | no paragraph gives no details; a first paragraph without a lettered match (no marker with a terminator after it) gives one detail for the whole paragraph; otherwise the details are those of the lettered scan of the first paragraph, at least one; all documents are identifiers |
| Topic.CollectTopicDetails | src/Browser.js:93-113 | the statements building `topicDetails` compute exactly `TopicDetails(cell)` |
| Rows.TimePosition | src/Browser.js:77 | the time match is null exactly when no `Uhrzeit` cell opening is followed by a complete match; otherwise the token is the first one after the first such cell opening, on the same line, that completes the pattern; it may lie past that cell's `</td>` |
| Rows.TimeFromLaterCell | src/Browser.js:77 | in the row `<td data-th="Uhrzeit">x</td><td>1:2</td>` the time cell ends before any token, yet the time match finds `1:2` in the next cell |
| Rows.RowTime | src/Browser.js:77 | the trimmed time capture is present exactly when the time pattern matches; it is the clock token of the row at the position the time match reports, one or two digits, a colon and one or two digits |
| Rows.StatusLines | src/Browser.js:114-119 | the status is never an empty list |
| Rows.StatusIsOneLine | src/Browser.js:114-119 | the status is exactly one line: the cell without its first toggle labels, stripped of tags and trimmed |
| Rows.StatusExample | src/Browser.js:114-119 | the status cell `Details einblenden<br>Closed<br>Approved` gives the single line `ClosedApproved` |
| Rows.ParseRow | src/Browser.js:76-130 | a row fails exactly when its time, `TOP`, `Thema` or status match is null, with each error pinned in evaluation order; a parsed row's time is the row's time token, `dateTime` is the date text, a space and the time, the agenda number is the stripped, trimmed `TOP` cell, the status is the status lines of the status cell, and topic, details and documents are those of its `Thema` cell |
| Tables.TableParts | src/Browser.js:68-74 | a table block always has its caption match and its tbody match, so neither dereference can fail |
| Tables.CaptionText | src/Browser.js:68 | the caption text is the trimmed text between the block's opening `<caption>` and the first `</caption>` |
| Tables.CaptionDate | src/Browser.js:69 | the date match is null exactly when a line break comes before every `(`; otherwise the date is the trimmed text before the first `(` |
| Tables.DateBeforeFirstParen | src/Browser.js:69 | when the first `(` has no line break before it, the date is the trimmed text before it |
| Tables.CaptionDateExample | src/Browser.js:68-69 | the caption `01.03.2023 (15. Sitzung` gives the date text `01.03.2023` |
| Tables.CaptionMeeting | src/Browser.js:73 | the meeting match is null exactly when no `(` is followed by a digit; otherwise the number is the value of the digits after the leftmost such `(`, and below 1000 |
| Tables.MeetingDigits | src/Browser.js:73 | the greedy `\d{1,3}` takes one to three digits right after the `(`, stopping only at three digits, the end of the caption or a non-digit |
| Tables.MeetingAfterFirstParen | src/Browser.js:73 | when the first `(` is followed by a run of one to three digits, the meeting number is the value of that run |
| Tables.CaptionMeetingExample | src/Browser.js:73 | the caption `01.03.2023 (15. Sitzung` gives meeting 15 |
| Tables.TableRows | src/Browser.js:74-75 | the rows are the global `<tr>` match within the block's first `<tbody>…</tbody>` |
| Tables.BuildTable | src/Browser.js:67-76 | a table fails exactly when its date or meeting match is null, it has no rows, or a row fails; the first of these decides the error. Otherwise it echoes year, week and pagination, its date is the month-fixed caption date, its meeting is the caption's number, and its rows are the parsed rows, one per `<tr>`, in order |
| Tables.RowsTable | src/Browser.js:74-76 | once date and meeting are known, the table fails exactly when there are no rows (`NoRows`) or a row fails, and then with the error of the first failing row; otherwise row `k` of the table is the parsed row `k` |
| Tables.ParseRows | src/Browser.js:76 | every row parses, in order and one item per row, or the error is that of the first failing row, which is always one of the four row-level errors |
| Tables.ParseTable | src/Browser.js:67-76 | a block's table carries the caller's year and week, the page's pagination and one row per `<tr>` of its first tbody; its error is never `NoTables` |
| Tables.ParseTables | src/Browser.js:67 | every block parses, in order and one table per block, or the error is that of the first failing block, and never `NoTables` |
| Tables.GetTables | src/Browser.js:65-67 | `NoTables` (the `null` global match that `tables.map` dereferences) exactly when no `<caption>` opening in the page can be completed to a caption/tbody block; otherwise the result is that of mapping the blocks of the global match, in document order |

## Left out

- `request`, `constructor`, `cookie` and the `request` method: HTTP and cookie jars are not
  modelled. Of `initialize`, only the check on the fetched page is kept (`CheckInitialPage`).
- `Date.parse` and `new Date(...)`: a table's `date` is the month-fixed date text that would be
  parsed. An item's `dateTime` is the text `date + " " + time` that would be parsed.
- `striptags`: the library is not part of this model. It is taken as a plain remover of
  `<…>` spans, with an unclosed tag dropping the rest of its input. A `<` followed by white
  space, which the library may keep as text, is treated as a tag opening here, and nested `<`
  inside a tag are not counted: the first `>` ends the tag. HTML comments, quoted `>` inside
  attributes and entity handling are not modelled either. So every "holds no `<`" statement
  (`Topic.Title`, `Topic.Detail`, `Rows.ParseRow`, `Rows.StatusIsOneLine`) is a statement
  about this remover.
- Regular expressions: there is no general engine. Each pattern of the core has its own scanner
  that follows that pattern's lazy and greedy choices.
- The spread `...this.getPreviousNextData(body)` adds the four pagination fields to the table
  object. The model keeps them together in one `pagination` field (None when the function
  gives `false`).
- `String.prototype.replace` expands `$&`, `$1` and the like in its replacement text. The model
  copies the replacement literally; no replacement text in the core contains a `$`.
- `export default Browser` and the module plumbing: nothing to model.
- JavaScript strings are UTF-16. The model works on Dafny `char` sequences, and `trim` uses the
  usual white-space and line-terminator set.
