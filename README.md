# Cronograma AFYA: the event display, modelled in Dafny

This project models the core of `components/EventDisplay.tsx`. That component shows a schedule's events and exports them to a PDF:

- **Date formatting.** Each event card formats its start and end dates with `formatDate`. It shows either the start date alone or the range `de <start> à <end>`.
- **Type filter.** The type selector offers `Todos`, then every event type once, in ascending order. `filteredEvents` keeps the events of the selected type.
- **Month grouping.** `groupedByMonth` reduces the filtered events into a record keyed `YYYY-MM`, by the month of their start date. Events whose start date is invalid or before 1971 are skipped. `sortedMonthKeys` sorts the record's keys.
- **PDF export.** `handleViewPdf` lays each month group out in a hidden wrapper as pages of at most twelve cards. A month with more than one page gets numbered titles, and every page after the month's first gets a continuation header. The pages are then captured one at a time into a landscape A3 jsPDF document. Each capture after the first goes on a new page. The document is opened, or an alert is shown if anything in the rendering step throws. Either way the wrapper is removed and the busy flag is lowered.

Modules:

| file | module | contents |
|---|---|---|
| `Options.dfy` | `Options` | the `Option` type |
| `Strings.dfy` | `Strings` | the JavaScript string built-ins the component uses (`trim`, `split`, `Number`, template-literal rendering of integers, `padStart`) |
| `Seqs.dfy` | `Seqs` | `Array.prototype.filter` and flattening |
| `Sorting.dfy` | `Sorting` | the default `Array.prototype.sort` order on strings, and sorting a set of strings |
| `Events.dfy` | `Events` | the event record, the selector options and the type filter |
| `DateFormat.dfy` | `DateFormat` | `formatDate` and a card's period line |
| `MonthGrouping.dfy` | `MonthGrouping` | the reducer behind `groupedByMonth`, and `sortedMonthKeys` |
| `Pagination.dfy` | `Pagination` | how the export cuts months into pages, with their titles and headers |
| `PdfExport.dfy` | `PdfExport` | document assembly, and the export session as a class whose fields are the busy flag, the hidden wrapper and its pages, the opened documents and the alerts shown |

The reducer, the page layout loop and the capture loop are imperative in the source, so the model writes them as methods with loops:

- `MonthGrouping.GroupByMonth` and `MonthGrouping.AddEvent`;
- `PdfExport.ExportSession.LayOutMonth`;
- `PdfExport.RenderPages`.

Each method is proved against a specification function (`Seqs.Keep`, `Pagination.MonthPages`, `PdfExport.CaptureAll`, `PdfExport.Assembled`). The lemmas beside each function prove what it promises.

Collaborators outside the component are parameters:

- `parseBrDate` is a `DateParser`;
- `new Date(...)` formatted by `Intl.DateTimeFormat` is a `Renderer`;
- the `Intl` month heading of a group is `monthName`;
- `html2canvas` followed by `toDataURL` is a `Capture`.

There are two year thresholds, and the model keeps both:

- `formatDate` hands back years below **1970** as raw text (`DateFormat.MinDisplayYear`);
- the grouping skips years below **1971** (`MonthGrouping.MinGroupYear`).

`formatDate` does not call `parseBrDate`; it parses the text itself:

- it splits on `/`;
- it applies `Number` to each piece;
- it has no round-trip check, so a day such as 31/02 reaches the renderer;
- it uses the 1970 threshold.

Only the grouping calls `parseBrDate`.

## Model

| member | source | states |
|---|---|---|
| Strings.TrimEmptyIffBlank | components/EventDisplay.tsx:27 | `trim()` gives the empty string exactly when the string is all white space |
| Strings.TrimUnchanged | components/EventDisplay.tsx:27 | trimming leaves unchanged a string with no white space at either end |
| Strings.Split | components/EventDisplay.tsx:28 | `split('/')` always yields at least one piece |
| Strings.SplitCount | components/EventDisplay.tsx:28-29 | `split` yields exactly one more piece than the string has separators |
| Strings.SplitPiecesFree | components/EventDisplay.tsx:28 | no piece of a split contains the separator |
| Strings.JoinSplit | components/EventDisplay.tsx:28 | joining the pieces of a split with the separator gives back the string |
| Strings.SplitJoin | components/EventDisplay.tsx:28 | splitting a join of separator-free pieces gives back the pieces |
| Strings.ToNumber | components/EventDisplay.tsx:30 | `Number` of a blank string is 0 |
| Strings.PaddedDecimalToNumber | components/EventDisplay.tsx:30 | `Number` reads a zero-padded decimal rendering of n back as n |
| Strings.Decimal | components/EventDisplay.tsx:95 | a non-negative integer's template-literal text is a non-empty run of digits without a leading zero |
| Strings.DecimalValue | components/EventDisplay.tsx:95 | the digits of that text have the integer as their value |
| Strings.PadStart | components/EventDisplay.tsx:95 | `padStart(w, '0')` gives length max(len, w): fill characters, then the original text |
| Strings.PaddedDecimalDigits | components/EventDisplay.tsx:95 | the zero-padded month text is a non-empty run of digits |
| Strings.DecimalIsDigits | components/EventDisplay.tsx:95 | the text of a w-digit number is its w-digit fixed-width rendering |
| Strings.PaddedTwoDigits | components/EventDisplay.tsx:95 | a month number padded to two places is its 2-digit fixed-width rendering |
| Seqs.KeepIsSubsequence | components/EventDisplay.tsx:85 | `filter` keeps a subsequence of the array, in order |
| Seqs.KeepCount | components/EventDisplay.tsx:85 | `filter` keeps each passing element as often as it occurs, and no failing element |
| Seqs.KeepMembers | components/EventDisplay.tsx:85 | an element is in the filtered array exactly when it is in the array and passes |
| Seqs.KeepSnoc | components/EventDisplay.tsx:91-100 | filtering one more element appends it exactly when it passes |
| Seqs.KeepAll | components/EventDisplay.tsx:85 | when every element passes, `filter` gives back the array |
| Seqs.KeepNone | components/EventDisplay.tsx:85 | when no element passes, `filter` gives the empty array |
| Sorting.LessIrreflexive | components/EventDisplay.tsx:77 | no string sorts before itself |
| Sorting.LessAsymmetric | components/EventDisplay.tsx:77 | of two strings, at most one sorts before the other |
| Sorting.LessTransitive | components/EventDisplay.tsx:77 | the default sort order on strings is transitive |
| Sorting.LessTrichotomy | components/EventDisplay.tsx:77 | any two different strings are ordered one way or the other |
| Sorting.Insert | components/EventDisplay.tsx:77 | inserting into an ascending sequence keeps it strictly ascending and adds exactly the new string |
| Sorting.SortedDistinct | components/EventDisplay.tsx:76-77 | `Array.from(new Set(xs)).sort()` is strictly ascending and holds exactly the strings of xs |
| Sorting.SortedUnique | components/EventDisplay.tsx:77 | two strictly ascending sequences with the same members are equal, so the result does not depend on input order |
| Sorting.SortedDistinctPermutes | components/EventDisplay.tsx:105 | sorting an array without repetitions only rearranges it |
| Sorting.DigitsOrder | components/EventDisplay.tsx:95 | fixed-width digit strings compare, and coincide, as their values do |
| Events.FilteredEvents | components/EventDisplay.tsx:80-86 | `filteredEvents` is null exactly when `events` is null |
| Events.Types | components/EventDisplay.tsx:76 | `events.map(e => e.tipo)` has one entry per event: that event's type |
| Events.EventTypesOptions | components/EventDisplay.tsx:74-78 | no options without events; otherwise `Todos` first, then each occurring type exactly once, strictly ascending, and nothing else |
| Events.FilterAllKeepsEvents | components/EventDisplay.tsx:82-84 | selecting `Todos` leaves the event list as it is |
| Events.FilterSelectsType | components/EventDisplay.tsx:85 | any other selection keeps, in order, each event of that type as often as it occurs, and no other event |
| Events.FilterUnmatched | components/EventDisplay.tsx:85 | a type no event has gives an empty, present list |
| DateFormat.FormatDateNull | components/EventDisplay.tsx:26-27 | `formatDate` returns null exactly for an absent or all-white-space string |
| DateFormat.FormatDateWrongShape | components/EventDisplay.tsx:28-29 | text without exactly two `/` comes back unchanged |
| DateFormat.FormatDateInvalidParts | components/EventDisplay.tsx:30-33 | three pieces with a non-number among them, or a year below 1970, come back unchanged |
| DateFormat.FormatDateOfNumbers | components/EventDisplay.tsx:30-38 | three numbers with a year from 1970 on give the rendering of that year, month and day, or the text unchanged when the date is invalid |
| DateFormat.FormatDateOfDigitRuns | components/EventDisplay.tsx:28-38 | three digit runs joined by `/`, empty ones included, reach the renderer as their numeric values |
| DateFormat.FormatDateReadsComponents | components/EventDisplay.tsx:28-38 | a well-formed `DD/MM/YYYY` date from 1970 on reaches the renderer as exactly its own day, month and year |
| DateFormat.DateDisplayRangeIff | components/EventDisplay.tsx:44-47 | the range text replaces the start date exactly when the end is present, non-empty and different; the range names both dates |
| DateFormat.NoEndShowsStart | components/EventDisplay.tsx:41-47 | with no end date, or a blank one, the card shows the formatted start date alone |
| MonthGrouping.PushKeys | components/EventDisplay.tsx:97-100 | pushing under a key keeps the record's keys listed without repetition; a new key is listed last |
| MonthGrouping.GroupStep | components/EventDisplay.tsx:91-101 | one reducer step keeps every group equal to the filter of the events seen into that month, non-empty, with a key for every month seen |
| MonthGrouping.AddEvent | components/EventDisplay.tsx:91-101 | an invalid or pre-1971 start date leaves the record unchanged; any other event is pushed onto its month's array, which is created (as the newest key) if missing |
| MonthGrouping.GroupByMonth | components/EventDisplay.tsx:88-103 | the record (null filtered list: empty) has, under each key, exactly the events of that month in their order, no empty group, a key for every month that occurs; its keys are listed without repetition in insertion order, each month in the order of its first event |
| MonthGrouping.FirstSeenMembers | components/EventDisplay.tsx:91-101 | the insertion-ordered key list holds every month that occurs among the events and nothing else, each once |
| MonthGrouping.FirstSeenOrder | components/EventDisplay.tsx:97-99 | a key listed before another has an event earlier than every event of the other: keys come in the order of their months' first events |
| MonthGrouping.GroupMembership | components/EventDisplay.tsx:92-100 | an event is in month k's group exactly when it is one of the events and its start date falls in month k |
| MonthGrouping.EachEventInOneGroup | components/EventDisplay.tsx:92-100 | an event with an invalid or pre-1971 date is in no group; any other is in its own month's group and no other |
| MonthGrouping.GroupKeepsOrder | components/EventDisplay.tsx:100 | each group is a subsequence of the events, in their order |
| MonthGrouping.ConcatGroupsCount | components/EventDisplay.tsx:91-101 | over distinct keys, the groups hold an event as often as the events do when its key is among them, otherwise not at all |
| MonthGrouping.GroupsPartition | components/EventDisplay.tsx:88-103 | groups over keys covering every month that occurs partition exactly the events that have a month |
| MonthGrouping.SortedKeysPermute | components/EventDisplay.tsx:105 | `sortedMonthKeys` is strictly ascending, a permutation of the record's keys, and without repetition |
| MonthGrouping.MonthKeyDigits | components/EventDisplay.tsx:95 | for a 4-digit year the key is four year digits, `-`, two month digits |
| MonthGrouping.DashJoinOrder | components/EventDisplay.tsx:95 | `year-month` texts with equal-length years compare by year, then by month, and are equal only part by part |
| MonthGrouping.MonthKeyOrder | components/EventDisplay.tsx:95-105 | for 4-digit years, ascending key order is chronological order, and distinct months have distinct keys |
| MonthGrouping.SortThree | components/EventDisplay.tsx:105 | three ascending keys come out of the sort in order, whatever order they went in |
| MonthGrouping.SortedKeysExample | components/EventDisplay.tsx:105 | 2025-01, 2024-03 and 2024-11 sort to 2024-03, 2024-11, 2025-01 |
| Pagination.PageCount | components/EventDisplay.tsx:173 | `Math.ceil(n / 12)` is the fewest pages of twelve that hold n cards |
| Pagination.Chunks | components/EventDisplay.tsx:171-178 | a month's cards are cut into exactly `ceil(n / 12)` chunks |
| Pagination.SliceShift | components/EventDisplay.tsx:178 | slicing past a dropped prefix equals slicing the whole further on |
| Pagination.ChunkIsSlice | components/EventDisplay.tsx:175-178 | chunk i is `cards.slice(i * 12, i * 12 + 12)` |
| Pagination.FlattenChunks | components/EventDisplay.tsx:175-178 | the chunks concatenated are the cards, in order: nothing dropped or repeated |
| Pagination.ChunkSizes | components/EventDisplay.tsx:173-178 | every chunk but the last has twelve cards; the last has one to twelve |
| Pagination.ChunkExamples | components/EventDisplay.tsx:173-178 | 0 cards give no pages, 12 give one, 25 give pages of 12, 12 and 1 |
| Pagination.PageTitleNumbered | components/EventDisplay.tsx:190-193 | every title starts with the prefix and the period, and has the `(i+1/total)` suffix exactly when the month spans more than one page |
| Pagination.MonthHeaderContinues | components/EventDisplay.tsx:204 | the header is the month title alone exactly on the month's first page; after that the title plus ` (Continuação)` |
| Pagination.MonthPages | components/EventDisplay.tsx:173-219 | a month with n cards gets `ceil(n / 12)` pages |
| Pagination.MonthPage | components/EventDisplay.tsx:175-216 | page i of a month has the numbered title, the header for page i and slice i of the cards |
| Pagination.CardsOfAppend | components/EventDisplay.tsx:163-219 | the cards of two runs of pages are those of the first, then the second |
| Pagination.MonthPagesCards | components/EventDisplay.tsx:171-216 | a month's pages hold exactly its cards, in order |
| Pagination.ExportPagesCards | components/EventDisplay.tsx:163-219 | the export's pages hold the month groups in the order of the keys, one after another |
| Pagination.ExportHoldsGroupedEvents | components/EventDisplay.tsx:159-220 | with the sorted keys, the export holds every event with a valid 1971+ start date exactly as often as it occurs, and nothing else |
| Pagination.ThirteenCards | components/EventDisplay.tsx:173-204 | 13 cards give two pages: 12 cards titled `(1/2)` under the month title, then 1 card titled `(2/2)` under the continuation header |
| PdfExport.AddPage | components/EventDisplay.tsx:249 | `addPage` appends one blank page and leaves the others |
| PdfExport.AddImage | components/EventDisplay.tsx:252 | `addImage` draws on the current last page only |
| PdfExport.Assembled | components/EventDisplay.tsx:226-253 | the assembled document always has a page |
| PdfExport.AssembledPages | components/EventDisplay.tsx:226-253 | no images give one blank page; otherwise one page per image, page i holding exactly image i |
| PdfExport.CaptureAllMeaning | components/EventDisplay.tsx:234-243 | capturing succeeds exactly when every page can be captured, and then gives one image per page, in page order |
| PdfExport.AssembledSnoc | components/EventDisplay.tsx:248-252 | one more image is drawn on a new page, except the first image |
| PdfExport.CaptureStep | components/EventDisplay.tsx:234-243 | a successful capture extends the images; a failed one fails the whole capture |
| PdfExport.ExportPagesStep | components/EventDisplay.tsx:163-220 | one more month's pages follow the pages of the months before it |
| PdfExport.OpenedDocumentPages | components/EventDisplay.tsx:226-256 | when every capture succeeds, the document has one page per container (one blank page with none), page i showing capture i |
| PdfExport.EmptyExportOpensBlank | components/EventDisplay.tsx:226-256 | an export with no month group opens a document of one blank page |
| PdfExport.RenderPages | components/EventDisplay.tsx:224-253 | the capture loop gives a document exactly when every capture succeeds, and it is the assembled document of the captures |
| PdfExport.ExportSession.constructor | components/EventDisplay.tsx:72 | a new session is idle, with no wrapper, nothing opened and no alert |
| PdfExport.ExportSession.BeginExport | components/EventDisplay.tsx:107-220 | without the content region nothing changes; otherwise the flag is raised and the wrapper is attached, holding exactly the export's pages |
| PdfExport.ExportSession.LayOutMonth | components/EventDisplay.tsx:163-219 | run only while the wrapper is attached (lines 117-119 come first): the wrapper gains exactly the month's pages, after those already there; nothing else changes and the session stays consistent |
| PdfExport.ExportSession.RenderDocument | components/EventDisplay.tsx:223-265 | on success, the document assembled from the captures is opened; on failure, one alert is shown instead; either way the wrapper is removed and the flag lowered |
| PdfExport.ExportSession.ViewPdf | components/EventDisplay.tsx:107-265 | a started export ends idle, having opened the assembled document of all the export's pages, or shown one alert when a capture fails |

## Left out

- `components/ScheduleForm.tsx` is not part of this model.
- `parseBrDate` (services/scheduleService) is not part of this model. It is the `DateParser` parameter, and `None` stands for its invalid-date result.
- `new Date(...)` with `Intl.DateTimeFormat` (pt-BR, America/Sao_Paulo) is the `Renderer` parameter, and the month heading of a group is the `monthName` parameter. Calendar normalisation and time zones are not modelled.
- Strings.ToNumber: recognises only an optionally signed run of decimal digits, with blank text as 0. Decimal points, exponents, hexadecimal, binary and octal literals and `Infinity` are read as NaN.
- Sorting.Less: compares Unicode code points. JavaScript compares UTF-16 code units, which differ only for characters outside the Basic Multilingual Plane.
- MonthGrouping.MonthKeyOrder: proved only for 4-digit years. Keys with years of different widths do not sort chronologically.
- `Object.keys` order is modelled as insertion order. That is exact here, because a month key contains `-` and so is never an array index.
- `stringToColor`, the React rendering, hooks and memoisation are not modelled. Neither are the view for no events and the rule that the selector shows only with more than one type (line 284). None of these changes the data.
- The watermark, the standard header, `cloneNode`, CSS classes and the 3-column grid are DOM presentation only.
- A page is its title, month header and cards.
- The export reads the month groups back from the rendered DOM (lines 158-169). The model pages the grouped data directly, because the rendered groups are `sortedMonthKeys` with each group's events (lines 330-351). So the branches for a missing `h3` or grid (lines 165 and 169) cannot occur, and they are left out.
- The `scale`, `useCORS` and background options of the capture are not modelled. Neither are the page width, the floating-point image height and the `a3` landscape format.
- A failure of `getImageProperties` or `addImage` is folded into a failed capture. A missing jsPDF global (line 225), which throws before any capture, is not modelled separately.
- `pdf.output('bloburl')` and `window.open` together are "open the document".
- `requestAnimationFrame` and `await` are sequential steps in the model, and there is no concurrency. `BeginExport` requires that no export is in flight, because the button is disabled while one is (line 306).
- `console.error` messages are not modelled.
- The page layout (lines 114-220) runs outside the `try`/`finally` of lines 224-264. A throw there would leave the busy flag raised and the wrapper attached. The model's layout step cannot fail, so this path is not modelled, and the cleanup that the model proves covers only the rendering step.
- PdfExport.ExportSession.LayOutMonth: appends a month's pages to the wrapper together, after building them in order, rather than one by one.
- PdfExport.ExportSession.RenderDocument: models removing the wrapper by emptying its pages.
