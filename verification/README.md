# Spreadsheet-prefill widget: a verified model of its data core

`app.js` is a browser widget for a form builder. It fetches a published
spreadsheet as CSV, lets the user search the rows by a key column and pick
one, and maps the picked row's columns onto form fields through a mapping
table. Each mapping entry is `{source, target, required, transform}`. This
project models the pure functions behind that workflow and proves what they
do:

- the CSV reader `parseCsv`, as a two-mode character state machine
  (`Csv.Step`, `Csv.Scan`, `Csv.Records`) followed by the header/row zip
  (`Csv.ZipRow`, `Csv.ParseCsv`);
- the row search: `normalizeKey` and the reordering and filtering done by
  `doSearch` (module `Search`);
- the value transforms `titleCase` and `applyTransform` (module
  `Transforms`), on top of JavaScript's `trim`, `toLowerCase`,
  `toUpperCase` and `includes`, and the prefix test of a regex anchored with
  `^` (module `Text`);
- `buildMapped`, `requiredMissing`, and the rewrite of unknown sources that
  `renderMapping` applies to the mapping on every render (module `Mapping`);
- `autoMap`, with its concrete guess table and its merge step (module
  `AutoMap`);
- `sanitizeMapping` and the sanitiser inside `importMapping`. Both read an
  array that `JSON.parse` produced, which the model represents as the `Json`
  datatype (module `Sanitize`);
- `escapeHtml` (module `Html`).

Generic list facts live in `Seqs`: the subsequence order, `filter`,
`findIndex` and move-to-front. `Option` and `Result` live in `Wrappers`.

Partners used for round trips are not part of `app.js`:

- `Csv.Serialize` is a reference CSV writer that quotes every field and ends
  every record with `\n`.
- `Html.UnescapeHtml` decodes exactly the five entities `escapeHtml` writes.
- `Sanitize.Export` is the value `exportMapping` writes with
  `JSON.stringify`, as `JSON.parse` reads it back.

Later variants in the repository describe a richer rule engine: several
sources, fixed and multi-choice values, free text, and label-based
auto-mapping. `app.js` implements none of that. It has only single-source
column entries and a fixed header-pattern table for auto-mapping. This model
follows `app.js`.

The merge step of `autoMap` builds its set of used targets once, before the
loop. So two new guesses with the same target are both appended: a `Phone`
and a `Mobile` column both become target `Phone`. `AutoMap.AutoMapMayRepeatTargets`
proves this on that input. The merge never overwrites a target the mapping
already had (`AutoMap.AutoMapKeepsMappedValues`).

## Model

| member | source | states |
|---|---|---|
| Text.Lower | app.js:211 | lower-casing keeps the length, leaves no upper-case letter, and leaves text without upper-case letters unchanged |
| Text.Upper | app.js:212 | upper-casing keeps the length, leaves no lower-case letter, and leaves text without lower-case letters unchanged |
| Text.Trim | app.js:210 | the result is the input with an all-white-space margin cut from each end, and neither end of the result is white space |
| Text.TrimUnique | app.js:210 | any cut of all-white-space margins that leaves unpadded text is exactly what `trim` returns, so `IsTrimOf` characterises `trim` |
| Text.TrimIdempotent | app.js:210 | trimming trimmed text changes nothing |
| Text.LeadingSpace | app.js:300 | the count of leading white-space characters that `\s*` consumes: all of them are white space and the next one is not |
| Text.Includes | app.js:174 | `includes` holds exactly when the needle occurs at some index of the text |
| Transforms.TitleCase | app.js:203-205 | the result has the input's length and letters (equal after lower-casing), and a letter is upper-case exactly when no word character precedes it |
| Transforms.TitleCasedUnique | app.js:203-205 | two title-cased strings with the same lower-case form are equal, so the title-casing of a text is unique |
| Transforms.TitleCaseIdempotent | app.js:203-205 | title-casing twice is the same as title-casing once |
| Transforms.ApplyTransform | app.js:207-216 | `none`, an empty or an unknown name leaves the value unchanged; `trim` cuts the white-space margins; `lowercase`/`uppercase` leave no letter of the other case and keep the case-folded text; `titlecase` gives a title-cased string with the same letters |
| Transforms.TransformIdempotent | app.js:207-216 | every transform, applied twice, gives what it gives once |
| Csv.Step | app.js:52-62 | one pass of the loop body consumes one character, or two exactly when a `"` inside quotes is followed by another `"`, and pushes at most the pending record |
| Csv.StepEffects | app.js:52-62 | the quote mode flips exactly on a lone `"`, and a record is pushed exactly on a `\n` outside quotes |
| Csv.Scan | app.js:51-64 | the loop only ever pushes records that hold at least one field |
| Csv.Records | app.js:47-65 | every collected record holds at least one field, and empty input gives no record |
| Csv.ScanAppend | app.js:51-64 | the loop over `s + t` is the loop over `t` started from the state after `s`, unless the state after `s` is unquoted, `s` ends in `"` (a closing quote, decided by looking one character ahead) and `t` starts with `"` |
| Csv.QuotedDoubleQuote | app.js:55 | inside quotes, `""` appends a single `"` to the field and the reader stays inside quotes |
| Csv.QuotedCharKept | app.js:56 | inside quotes, every character other than `"` (commas, `\n` and `\r` included) is appended to the field literally |
| Csv.CarriageReturnIgnored | app.js:61 | outside quotes, deleting a `\r` changes no record, unless the text before it ends in a closing quote and the text after it starts with `"` |
| Csv.TrailingNewline | app.js:60-65 | a final `\n` adds no record exactly when a field or record is pending; after a completed record it adds one record holding a single empty field |
| Csv.ZipRow | app.js:69-71 | the row object's keys are exactly the header names, and each name takes the cell of its rightmost column, or `''` past the end of the record |
| Csv.ParseCsv | app.js:46-74 | the headers are the first record (none for empty input), there is one row per later record, each row's keys are exactly the header names, and each cell comes from the rightmost column of that name, `''` when the record is short |
| Csv.ScanEscaped | app.js:53-56 | inside quotes, a field body with every `"` doubled reads back as exactly the field's text, and the reader stays inside quotes |
| Csv.RecordsRoundTrip | app.js:46-65 | reading what the reference writer wrote gives back the same records, whatever quotes, commas or line breaks the fields hold |
| Csv.ParseCsvRoundTrip | app.js:46-74 | a written table with distinct headers and full-width records parses to the same headers, one row per record and every cell in place |
| Search.NormalizeKey | app.js:76 | the key is the lower-cased input with its white-space margins cut, and holds no upper-case letter |
| Search.NormalizeKeyIdempotent | app.js:76 | normalising a normalised key changes nothing |
| Search.ExactIsContained | app.js:169-174 | a row whose key matches the query exactly also matches it as a substring |
| Search.FirstExact | app.js:169 | the position `rows.find` stops at: that row matches exactly, no earlier row does, and the position is the number of rows when no row matches |
| Search.FilterContaining | app.js:174 | the rows whose normalised key contains the normalised query, each as often as in the input, in input order |
| Search.Search | app.js:165-179 | without a key column nothing changes; with an exact match the first matching row is selected and moved to the front, the rest keeping their order; otherwise the substring hits, or every row plus a no-match notice when there are none |
| Search.SearchSelectsExactly | app.js:167-170 | a row is selected exactly when some row's key equals the trimmed query after normalising both |
| Search.SearchKeepsRows | app.js:170-176 | an exact match only permutes the rows, and a filter never adds or duplicates a row |
| Mapping.BuildMapped | app.js:218-226 | the keys are exactly the targets of entries with non-empty source and target, and each such target holds the transformed cell of the last entry that writes it |
| Mapping.BuildMappedSnoc | app.js:220-224 | one more active entry writes its transformed cell over its target and leaves the other keys alone, and an inactive one changes nothing |
| Mapping.RequiredMissing | app.js:228-236 | the report is no longer than the mapping, lists the label (target, else source) of every required entry whose cell is missing or blank, and lists nothing else |
| Mapping.RequiredMissingAppend | app.js:228-236 | the report follows mapping order: the report for `a + b` is the report for `a` followed by the report for `b` |
| Mapping.RequiredMissingEmpty | app.js:228-236 | nothing is reported exactly when every required entry finds a non-blank cell; entries that are not required never matter |
| Mapping.RebindSources | app.js:247 | the render keeps every entry in place with its target, flag and transform; a source that is a loaded header is kept, any other becomes the first header (`''` when none), so afterwards every source is a loaded header or there are no headers |
| Mapping.RebindKnownSources | app.js:247 | a mapping whose sources are all loaded headers renders unchanged |
| Mapping.RebindIdempotent | app.js:247 | rendering a second time rewrites nothing more |
| AutoMap.GuessTarget | app.js:298-309 | a header gets a target from the guess table, or none |
| AutoMap.Proposals | app.js:307-311 | every proposal is `{header, guessed target, not required, none}` for a header, and the proposals' sources are exactly the guessable headers, in header order, one per header position (duplicate headers included) |
| AutoMap.Fresh | app.js:314-315 | exactly the proposals whose target was not used before the merge, each copy of them, in order |
| AutoMap.MergeGuesses | app.js:313-315 | the existing mapping is kept as a prefix; appended entries are proposals in order, none reuses a pre-merge target, and every proposal with an unused target is appended as often as it was proposed |
| AutoMap.MergeAgain | app.js:313-315 | merging the same proposals into the merged mapping appends nothing |
| AutoMap.AutoMap | app.js:296-315 | no headers leaves the mapping alone; no guessable header gives the no-match notice; otherwise the mapping becomes the merge of its old entries with the proposals |
| AutoMap.BuildMappedAppendFresh | app.js:313-315 | appending entries whose targets the mapping does not use leaves every value it already produced unchanged |
| AutoMap.AutoMapKeepsMappedValues | app.js:313-315 | auto-mapping never changes a value the existing mapping produces for any row |
| AutoMap.AutoMapIdempotent | app.js:307-315 | auto-mapping its own result again appends nothing |
| AutoMap.AutoMapMayRepeatTargets | app.js:313-315 | headers `Phone` and `Mobile` on an empty mapping give two entries with target `Phone` |
| Sanitize.EntrySource | app.js:382 | a stored source is kept only when it is a loaded header, otherwise it becomes the first header (`''` when there is none); an imported source is the text of the value |
| Sanitize.NormalizeEntry | app.js:381-386 | a listed transform name is kept and anything else becomes `none`; a string target is kept and a falsy one becomes `''`; the flag is the truthiness of `required`; the source follows the policy, and a non-empty stored source names a loaded header |
| Sanitize.SanitizeItems | app.js:381-386 | the map throws exactly when some element is `null` or has a source (imports) or target that `String` cannot convert, with the error of the first such element; otherwise the output is no longer than the input, in input order, holds every normalised entry with non-empty source and target as often as the input does and nothing else, each well-formed and (stored mappings) with a loaded-header source |
| Sanitize.SanitizeMapping | app.js:380-387 | a non-array counts as empty; it throws exactly when some element is `null` or has a target `String` cannot convert; every output entry is well-formed and its source is a loaded header |
| Sanitize.ImportMapping | app.js:337-344 | a non-array is rejected with "JSON must be an array"; otherwise it throws exactly when some element is `null` or has a source or target `String` cannot convert; every imported entry is well-formed |
| Sanitize.ImportRejectsToStringKey | app.js:340-341 | an import whose target is an object with its own `toString` key fails, because `String` cannot convert that object |
| Sanitize.ImportExportRoundTrip | app.js:337-344 | importing an exported well-formed mapping gives the same mapping |
| Sanitize.SanitizeExportRoundTrip | app.js:380-387 | reloading a stored well-formed mapping whose sources are loaded headers gives the same mapping |
| Sanitize.SanitizeIdempotent | app.js:380-387 | sanitising what the sanitiser returned changes nothing |
| Sanitize.ImportIdempotent | app.js:339-344 | importing what an import returned changes nothing |
| Sanitize.SanitizedRendersUnchanged | app.js:380-387 | a sanitised stored mapping already names loaded headers, so the render after a load rewrites none of its sources |
| Html.EscapeHtml | app.js:438 | the escaped text holds no `<`, `>`, `"` or `'`, every `&` in it starts one of the five entities (no bare `&` survives), and it is at least as long as the input |
| Html.EscapeRoundTrip | app.js:438 | decoding the five entities in the escaped text gives back the input, so escaping loses nothing |
| Html.EscapeIdentity | app.js:438 | escaping leaves text unchanged exactly when it holds none of the five special characters |

## Left out

- DOM rendering and event wiring are not modelled. This covers `renderList`, `renderDetails`, `renderMapping`, `fillHeaderSelectors`, `addMappingRow` and `wire`, which are user-interface code. The model returns a search outcome; it does not render it.
  - The one data change `renderMapping` makes, the rewrite of unknown sources, is modelled as `Mapping.RebindSources`. `Sanitize.ImportMapping` and its round trips describe the sanitiser alone; what the user sees after an import is that result passed through `RebindSources`. On import, `persistMapping` runs before the render, so storage keeps the sources as imported. Storage is not modelled.
- `fetchCsv` and `loadCsv` are not modelled. They do network I/O and run asynchronously.
- `persistMapping`, `mapStorageKey` and the storage lookup of `loadMappingForUrl` are not modelled. They use `localStorage`, `btoa` and `encodeURIComponent`, which are foreign calls.
  - `loadMappingForUrl` catches an error that `sanitizeMapping` throws on the widget setting and falls back to storage. An error on the stored array is not caught there and ends `loadCsv` with "Load failed". Both are left out with it; `SanitizeMapping` returns the error.
- `JSON.parse`, `JSON.stringify` and file handling are not modelled. The sanitisers take the parsed value as a `Json` value. `Export` stands for what a stringify/parse round trip yields.
- The host lifecycle is not modelled: `ready`, `submit`, `sendToForm` and the payload with `Date.now`.
- Case mapping covers ASCII letters only (`Text.Lower`, `Text.Upper`). Full Unicode `toLowerCase` can change a string's length, and that is not modelled. The regex patterns (`/i`, `[a-z]`, `\b`) are exact for ASCII.
- Strings are sequences of Unicode scalar values, not of UTF-16 code units. A lone surrogate and the length of astral characters are not modelled.
- Sanitize.ToText: JSON numbers are integers. Conversion failure is modelled only for what `JSON.parse` can produce: an object with its own `toString` key, directly or inside arrays. `String(n)` is decimal digits with a leading `-`, so fractions, exponents and magnitudes of `10^21` and above are not modelled.
- Rows are maps, so property names that the prototype defines are not modelled. In the widget, reading `constructor` from a row without that column, or writing `__proto__` as a header or target, touches the prototype.
- Search.Search: row objects are compared by reference (`r !== exact`). The model uses the position of the first exact match. In the widget every row is a distinct object, so removing that one object is the same as removing that position.
- Csv.CarriageReturnIgnored: deleting a `\r` that separates a closing quote from a following `"` is not transparent, since the loop's look-ahead then sees the `"` and reads `""` as a literal quote. The lemma excludes exactly that case: text before the `\r` that ends in `"` while the reader is outside quotes, followed by `"`.
