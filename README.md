# Z-test calculator: report builder and page state

This project models the client side of the z-test calculator page in
`frontend/src/app/page.js`:

- `downloadReport`, which turns the loosely shaped results payload of the
  calculation service into an ordered list of document blocks. The blocks are
  a title, an optional "Provided Information:" table with per-cell fallbacks,
  up to nine heading/paragraph pairs, and an optional graph image decoded from
  base64. The report then ends in one of three ways: refused (no results),
  failed (an exception was thrown and caught) or saved as
  `Z-Test-Results.docx`.
- `handleChange` and `handleSubmit`, which update the form values, the
  `submitted` flag and the stored results.

Modules:

- `Wrappers` (Wrappers.dfy): `Option` for missing/`null` JSON fields, `Result`
  for a computation that may throw.
- `Base64` (Base64.dfy): Python's `base64.b64encode`, which the service uses
  to send the plot, and the forgiving-base64 decode of the WHATWG Infra
  standard, which the browser's `atob` runs. Both use the alphabet of
  section 4 of RFC 4648. Includes the round trip and the failure cases.
- `Report` (Report.dfy): the payload schema (`Results`, every field an
  `Option`), the blocks (`Section = Title | Heading2 | Para | Table | Image`),
  the specification function `Sections` and the method `BuildChildren`. The
  method pushes the blocks step by step, as the `try` block does, and is
  proved equal to `Sections`. Also holds the `Outcome` of a download.
- `Calculator` (Calculator.dfy): the page state as a class `Page` with
  `formData`, `results` and `submitted`. Two logs record the outside effects:
  `alerts` for the alerts shown, `saved` for the `saveAs` calls.

Behaviour of `page.js` worth knowing:

- A table entry whose `Parameter` is missing or empty gets no row label. The
  fallback `` `Row ${index + 1}` `` names `index`, which the
  `map((item) => ...)` callback never binds. Evaluating it throws a
  `ReferenceError`, and the `catch` aborts the whole export
  (`Report.UnnamedRowFails`).
- When `graph_image` is not valid base64, `atob` throws and the whole export
  fails (`Report.UndecodableGraphFails`).
- The service's own payload (`app.py:121-148`) gives a 7-entry table, which is
  8 rows with the header, and nine labelled pairs
  (`Report.ServicePayloadReport`).
- A graph that encodes zero bytes is the empty string. That string is falsy,
  so it produces no graph blocks (`Report.GraphRoundTrip`).

Building the report is a function of the results alone (`Sections`), so two
builds from the same results give the same blocks.

## Model

| member | source | states |
|---|---|---|
| `Base64.SplitAllLength` | app.py:74 | exactly 4·(n div 3) 6-bit groups for n bytes, plus three for a final two bytes or two for a final byte; none only for no bytes |
| `Base64.Encode` | app.py:74 | `base64.b64encode`: the padded encoding has a length that is a multiple of four and is empty exactly for no bytes |
| `Base64.EncodeUnpadded` | app.py:74 | every character of the encoding before padding is from the RFC 4648 alphabet |
| `Base64.RemoveWhitespace` | frontend/src/app/page.js:99 | atob's first step: the result has no ASCII whitespace and is no longer than the input |
| `Base64.RemoveWhitespaceMembers` | frontend/src/app/page.js:99 | the characters left are exactly the input's characters that are not ASCII whitespace |
| `Base64.RemoveWhitespaceAppend` | frontend/src/app/page.js:99 | the removal works character by character (it distributes over concatenation), so it keeps the order and number of the other characters |
| `Base64.BinaryString` | frontend/src/app/page.js:99 | atob's result has one character per decoded byte, whose code is that byte |
| `Base64.CharCodes` | frontend/src/app/page.js:99 | `Uint8Array.from(str, c => c.charCodeAt(0))` on a binary string gives one byte per character, holding its code |
| `Base64.CharCodesOfBinaryString` | frontend/src/app/page.js:99 | the image buffer built from atob's output is exactly the decoded bytes |
| `Base64.SextetsOfChars` | frontend/src/app/page.js:99 | reading alphabet characters back as 6-bit values inverts writing them |
| `Base64.JoinAllSplitAll` | frontend/src/app/page.js:99 | regrouping into bytes the 6-bit groups of any bytes, leftover bits dropped, gives those bytes back |
| `Base64.RemovePadding` | frontend/src/app/page.js:99 | atob's second step: on a length that is a multiple of four, one trailing `=` is removed, and both when there are two; nothing is cut otherwise; the result is a prefix at most two shorter, everything cut off is `=`, and every other character is kept |
| `Base64.ForgivingDecode` | frontend/src/app/page.js:99 | a successful decode gives three bytes per four characters of the cleaned input, leftover bits dropped |
| `Base64.Atob` | frontend/src/app/page.js:99 | `atob` throws exactly when the forgiving decode fails; otherwise one character per decoded byte, character i having decoded byte i as its code |
| `Base64.ForgivingDecodeOfEncode` | frontend/src/app/page.js:99 | atob decodes every `base64.b64encode` output back to the original bytes |
| `Base64.ImageBytesRoundTrip` | frontend/src/app/page.js:99 | the image bytes built from an encoded plot are the plot's bytes |
| `Base64.ForeignCharacterFails` | frontend/src/app/page.js:99 | a character that is not whitespace, `=` or in the alphabet makes atob throw |
| `Base64.DanglingCharacterFails` | frontend/src/app/page.js:99 | a string without whitespace and `=` whose length is one more than a multiple of four makes atob throw |
| `Report.ToJsString` | frontend/src/app/page.js:62-66 | `toString()` of a cell value is empty exactly for the empty string; numbers and booleans never give "" |
| `Report.DigitsValueOfDigits` | frontend/src/app/page.js:62-66 | the decimal text of a non-negative integer cell reads back as that integer |
| `Report.ValueCell` | frontend/src/app/page.js:66 | the value cell is never empty: it is the value's text or "N/A" |
| `Report.ValueCellFallback` | frontend/src/app/page.js:66 | the value cell is "N/A" exactly when the value is missing, "" or the text "N/A"; a numeric 0 gives "0" |
| `Report.DataRows` | frontend/src/app/page.js:58-71 | the `map` over `table_data`, stopping at the first `ReferenceError`; its contract is stated by `Report.DataRowsSpec` |
| `Report.DataRowsSpec` | frontend/src/app/page.js:58-71 | one row per entry in order, with the parameter text and the value cell; it throws exactly when some entry's parameter is missing or empty |
| `Report.TableBlocks` | frontend/src/app/page.js:36-75 | no blocks without a non-empty `table_data`; otherwise the "Provided Information:" heading and a table that starts with the header row |
| `Report.LabelledFields` | frontend/src/app/page.js:78-88 | the nine titled fields in their fixed order, with optional chaining on the three parent objects |
| `Report.MissingParentObjects` | frontend/src/app/page.js:82-87 | a missing `z_statistic_computation`, `decision` or `confidence_interval` makes its sub-texts absent, with no exception |
| `Report.Contribution` | frontend/src/app/page.js:91-94 | one field's heading and paragraph when its text is truthy, nothing otherwise; used by `Report.LabelledBlocksArePairs` |
| `Report.LabelledBlocks` | frontend/src/app/page.js:90-95 | the blocks of the `forEach`; characterized by `Report.LabelledBlocksArePairs` and `Report.HeadingShownIff` |
| `Report.LabelledBlocksArePairs` | frontend/src/app/page.js:90-95 | the labelled blocks are a heading and a paragraph for each truthy field, in field order, and nothing else |
| `Report.LabelledBlocksKinds` | frontend/src/app/page.js:90-95 | every labelled block is a second-level heading or a paragraph |
| `Report.LabelledBlocksEmptyIff` | frontend/src/app/page.js:90-95 | no labelled blocks exactly when no field's text is truthy |
| `Report.PushLabelled` | frontend/src/app/page.js:90-95 | the `forEach` appends to the blocks so far exactly the labelled blocks of the fields |
| `Report.HeadingShownIff` | frontend/src/app/page.js:90-95 | a title's heading appears exactly when some field with that title has a truthy text |
| `Report.FieldShownIff` | frontend/src/app/page.js:78-95 | field j's heading appears exactly when field j's own text is truthy, whatever the other fields hold |
| `Report.GraphBlocks` | frontend/src/app/page.js:98-112 | throws exactly for a truthy `graph_image` that atob rejects; no blocks for a falsy one; otherwise the "Graph:" heading and a 500x300 image holding exactly the forgiving-base64 decode of `graph_image` |
| `Report.GraphRoundTrip` | frontend/src/app/page.js:98-112 | an encoded plot becomes the "Graph:" heading and a 500x300 image of exactly its bytes; an empty plot adds nothing |
| `Report.Sections` | frontend/src/app/page.js:26-112 | the blocks in order, or the first exception; characterized by `Report.SectionOrder`, `Report.SectionCount`, `Report.TableRows` and `Report.BuildFailsIff` |
| `Report.BuildChildren` | frontend/src/app/page.js:26-112 | the step-by-step build of `children` gives exactly `Sections(r)`, or the exception it throws |
| `Report.SectionCount` | frontend/src/app/page.js:27-112 | a built report has 1 + 2·[table] + 2·(truthy labelled fields) + 2·[graph] blocks |
| `Report.SectionOrder` | frontend/src/app/page.js:27-112 | the title comes first and only there; the table heading and table at 1 and 2; the graph heading and 500x300 image last; every block between is a labelled heading or paragraph |
| `Report.TableRows` | frontend/src/app/page.js:36-75 | the table has one more row than `table_data` has entries: the header, then the entries in order |
| `Report.BuildFailsIff` | frontend/src/app/page.js:58-112 | building throws exactly when a shown table has an entry without a usable parameter or a truthy graph is not valid base64 |
| `Report.EmptyResultsGiveTitle` | frontend/src/app/page.js:27-33 | results with no fields give exactly the title block |
| `Report.ConclusionOnlyReport` | frontend/src/app/page.js:27-112 | results with only a conclusion give the title, the "Conclusion" heading and the conclusion |
| `Report.ServicePayloadReport` | app.py:121-148 | the service's payload gives 23 blocks: title, table heading, an 8-row table, nine pairs in order, graph heading and the plot |
| `Report.DownloadOutcome` | frontend/src/app/page.js:20-124 | refused, failed or saved; characterized by `Report.SaveConditions` |
| `Report.SaveConditions` | frontend/src/app/page.js:20-125 | refused exactly without results, failed exactly when building throws, otherwise saved as "Z-Test-Results.docx" with the built blocks |
| `Report.UndecodableGraphFails` | frontend/src/app/page.js:98-124 | an undecodable graph makes the whole download fail instead of saving a partial document |
| `Report.UnnamedRowFails` | frontend/src/app/page.js:62 | an entry without a usable parameter makes the whole download fail, because `index` is unbound |
| `Calculator.UpdateField` | frontend/src/app/page.js:130-136 | the changed key holds the new value; every other key keeps its value; no key is dropped |
| `Calculator.SavesOf` | frontend/src/app/page.js:114-120 | at most one `saveAs` call, and one exactly when the outcome is a save |
| `Calculator.AlertsOf` | frontend/src/app/page.js:20-124 | at most one alert, and one exactly when the outcome is not a save |
| `Calculator.AtMostOneSave` | frontend/src/app/page.js:20-124 | a download saves at most one file, always "Z-Test-Results.docx", and shows an alert exactly when it saves nothing |
| `Calculator.Page.constructor` | frontend/src/app/page.js:10-18 | the initial form values, no results, not submitted |
| `Calculator.Page.HandleChange` | frontend/src/app/page.js:130-136 | `formData` becomes `UpdateField(old formData, name, value)`; `submitted` and `results` are untouched |
| `Calculator.Page.HandleSubmit` | frontend/src/app/page.js:138-150 | `submitted` becomes true; a received body replaces `results` wholesale; a rejected request leaves it as it was |
| `Calculator.Page.DownloadReport` | frontend/src/app/page.js:20-125 | appends exactly the outcome's save (at most one, named "Z-Test-Results.docx") and alert; never saves without results; `submitted` is unchanged |

## Left out

- The JSX form and results panel (`frontend/src/app/page.js:152-458`): UI markup. The on-screen panel also reads `table_data`, `z_statistic_computation`, `decision` and `confidence_interval` without optional chaining, so it is less tolerant than the report.
- The `fetch` and `response.json()` round trip: network I/O. The response is the abstract value `Calculator.Response`. The `submitted` flag is set before the request, so it is true even when the request is rejected.
- The asynchrony of React state setters and of `Packer.toBlob`: each handler is modelled as one atomic step.
- The docx library: spacing, table and cell widths, `HeadingLevel` values, the `bold` option of the header cells, and serialization. Blocks are the abstract `Section` values, and `Packer.toBlob` is assumed not to throw. If it did throw, the `catch` would end the download as failed too.
- file-saver's `saveAs` and the browser's `alert` are abstract events, recorded in `Page.saved` and `Page.alerts`. `console.error` is not modelled.
- Report.ToJsString: numbers are unbounded integers rendered in plain decimal. JavaScript's numbers are doubles: integers above 2^53 are not held exactly, magnitudes of 10^21 and more print in exponent form ("1e+21"), and non-integers print in shortest round-trip form (as for `0.05`). None of that is modelled, and neither are nested objects or arrays as cell values. A number (or boolean) still never renders as the empty string, which is what decides the "N/A" fallback.
- CharCodes: modelled only for strings whose character codes are below 256, which is all `atob` can return. For a character above U+FFFF, `Uint8Array.from` iterates by code point and `charCodeAt(0)` gives the high surrogate; that case cannot reach page.js:99 and is not modelled.
- Labelled texts and `graph_image` are modelled as strings or missing. A non-string JSON value there is not modelled.
- A results payload that is a JSON value other than an object or `null` is not modelled. Neither is a `table_data` that is not an array (a string, say, whose `.map` is missing and throws a `TypeError`), nor parent objects or table entries that are JSON values other than objects or `null`.
- All of `app.py` apart from its role as producer: the normal-distribution arithmetic, float formatting, plotting and the Flask route. `base64.b64encode` (app.py:74) is modelled as `Base64.Encode`, and the table shape (app.py:122-130) is the premise of `Report.ServicePayloadReport`.
- The older page variant `frontend/src/app/page copy.js` is not part of this model.
