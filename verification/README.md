# Transcript viewer core, modelled in Dafny

This project models the logic of the transcript component of the Insights web
application, `insights/src/components/Transcript.tsx`. The component
fetches the transcript of one video of one module. It picks the list of
segment records out of the response body and cleans each record into a
`{text, start, duration}` segment. It then renders one of four views:
loading, error, the segment list with a clock label per segment, or "No
transcript available.".

Modules, one per concept of the component:

- `Clock` (`clock.dfy`) models `formatTime`. The input is a JavaScript
  number (`Finite(real)`, `NaN` or ±infinity). The fields are computed as the
  code computes them: real division, `Math.floor`, and JavaScript's `%`,
  which truncates toward zero. The mixed array of padded strings and plain
  numbers is modelled too, with the filter `v !== "00" || i > 0` and the join.
  `ParseLabel` is an independent reader of clock labels. It serves as the
  partner of `FormatTime` in the round-trip lemma.
- `Decimal` (`decimal.dfy`) holds `String(n)` for non-negative integers and
  its inverse. `Strings` (`strings.dfy`) holds `join` and `split` for a
  one-character separator.
- `Json` (`json.dfy`) holds the loosely typed values of a response body. It
  defines JavaScript truthiness, `a || b`, and property access, which
  throws on null and undefined.
- `Segments` (`segments.dfy`) covers the choice between an array and a
  string `transcript` field, plus the per-record cleaning map.
- `Transcript` (`transcript.dfy`) covers the request address, the try/catch
  around one fetch, the `loading`/`error`/`transcript` state, its
  transitions, and the view priority.

An exception in the source is `None` in the model (`Wrappers.Option`).

Behaviour worth noting:

- The hour field is padded like the others, so 3665 s is `"01:01:05"`, not
  `"1:01:05"`.
- `seg.text || ""` keeps any truthy value, including numbers and objects,
  and replaces any falsy one (undefined, null, false, 0, NaN, `""`) by
  `""`. `Segment.text` is therefore a `Json.Value`.
- A numeral too large for a double, such as `1e400`, decodes to an
  infinity, and `typeof` still says `"number"`. Such a start is kept, and
  `formatTime` prints `"Infinity:NaN:NaN"` for it (`"00:00:00"` for the
  negative one).
- A transcript string that does not parse does not get an error of its own.
  The exception reaches the catch, and the component shows "Failed to fetch
  transcript.".
- A null record inside the transcript array also throws, at `seg.text`, and
  ends in that same message.

## Model

| member | source | states |
|---|---|---|
| Decimal.ValueOfShow | insights/src/components/Transcript.tsx:69 | reading back the decimal numeral that `String(v)` prints gives `v` |
| Strings.SplitJoin | insights/src/components/Transcript.tsx:71 | splitting a colon-join of colon-free fields at the colons gives exactly those fields back |
| Decimal.Show | insights/src/components/Transcript.tsx:69-71 | `String(v)` of a whole number: a numeral of one digit exactly below 10, starting with `0` only for 0, and read back as `v` by `Decimal.ValueOfShow` |
| Clock.Trunc | insights/src/components/Transcript.tsx:66-67 | rounding toward zero: the result is the integer within 1 of `r` on the side of zero |
| Clock.JsRem | insights/src/components/Transcript.tsx:66-67 | JavaScript's `%`, `a - b * trunc(a / b)`; stated by `Clock.JsRemSign`, `Clock.JsRemOdd` and `Clock.FloorOfRem` |
| Clock.JsRemSign | insights/src/components/Transcript.tsx:66-67 | for a positive divisor `b` the remainder lies in `[0, b)` for a non-negative dividend and in `(-b, 0]` for a negative one |
| Clock.JsRemOdd | insights/src/components/Transcript.tsx:66-67 | negating the dividend negates the remainder |
| Clock.FloorOfQuotient | insights/src/components/Transcript.tsx:65 | `Math.floor(x / d)` for `x >= 0` and a whole `d` is the integer quotient of `floor(x)` by `d` |
| Clock.FloorOfRem | insights/src/components/Transcript.tsx:66-67 | for `x >= 0`, JavaScript's `x % d` is non-negative and its floor is `floor(x) mod d` |
| Clock.Fields | insights/src/components/Transcript.tsx:65-67 | `[hrs, mins, secs]` are the integer hours, minutes and seconds of `floor(x)`: `hrs*3600 + mins*60 + secs == floor(x)`, `mins < 60`, `secs < 60` |
| Clock.DecompositionUnique | insights/src/components/Transcript.tsx:65-67 | any hours, minutes below 60 and seconds below 60 that add up to `n` seconds are `n / 3600`, `(n % 3600) / 60` and `n % 60` |
| Clock.FieldsUnique | insights/src/components/Transcript.tsx:65-67 | the fields of `formatTime` are the only such split of the whole seconds |
| Clock.Pad | insights/src/components/Transcript.tsx:68-69 | a printed field has at least two digits and reads back as its value; it starts with `0` iff the value is below 10, and then it is exactly two characters |
| Clock.ZeroCell | insights/src/components/Transcript.tsx:69-70 | a mapped field is the string `"00"` iff the field is zero; a field of 10 or more is a number and never equals `"00"` |
| Clock.ToCell | insights/src/components/Transcript.tsx:69 | the map step gives the two-character string `"0"` + digit iff the field is below 10, and the number itself otherwise |
| Clock.MapCells | insights/src/components/Transcript.tsx:69 | the `.map` gives one cell per field, in order, each the cell of its field |
| Clock.KeepCells | insights/src/components/Transcript.tsx:70 | the filter keeps every cell from index 1 on, and drops the cell at index 0 iff it is the string `"00"` |
| Clock.CellText | insights/src/components/Transcript.tsx:71 | how `join` prints a cell: a padded string as it is, a number as `String(n)`; stated by `Clock.Pad` |
| Strings.Join | insights/src/components/Transcript.tsx:71 | joining a single field gives that field; `Strings.SplitJoin` states that splitting at the separator undoes it |
| Clock.Label | insights/src/components/Transcript.tsx:68-71 | the map/filter/join pipeline on `[hrs, mins, secs]`; its result is stated by `Clock.LabelIsParts` |
| Clock.FormatTime | insights/src/components/Transcript.tsx:63-72 | `formatTime`; stated by `Clock.FallbackExactlyWhenInvalid` (the `"00:00:00"` cases), `Clock.LabelFields` and `Clock.ParseFormatTime` (the label of a valid time and its read-back) |
| Clock.LabelOf | insights/src/components/Transcript.tsx:63-72 | a time whose whole seconds are `h` hours, `m < 60` minutes and `s < 60` seconds is shown as the colon-join of the padded parts |
| Clock.ParseParts | insights/src/components/Transcript.tsx:68-71 | reading the printed parts of `h`, `m`, `s` back gives `h*3600 + m*60 + s` |
| Clock.ParseShown | insights/src/components/Transcript.tsx:63-72 | a label joined from the fields of `n` seconds reads back as `n` |
| Clock.LabelIsParts | insights/src/components/Transcript.tsx:68-71 | the map/filter/join pipeline prints `[hh:]mm:ss`, with the hour field only when the hours are non-zero |
| Clock.LabelFields | insights/src/components/Transcript.tsx:63-72 | the label of a non-negative time is the colon-join of the padded fields, and splitting it at the colons gives those fields |
| Clock.FieldCount | insights/src/components/Transcript.tsx:70 | a valid label has 2 fields when `floor(x) < 3600` and 3 otherwise |
| Clock.ParseFormatTime | insights/src/components/Transcript.tsx:63-72 | round trip: reading the label of a non-negative `x` back gives `floor(x)` seconds |
| Clock.FallbackExactlyWhenInvalid | insights/src/components/Transcript.tsx:64 | the label is `"00:00:00"` iff the input is NaN, negative or negative infinity; no valid time is shown as `"00:00:00"` |
| Clock.ExampleZero | insights/src/components/Transcript.tsx:63-72 | 0 s is shown as `"00:00"` |
| Clock.ExampleMinutes | insights/src/components/Transcript.tsx:63-72 | 75 s is shown as `"01:15"` |
| Clock.ExampleHours | insights/src/components/Transcript.tsx:63-72 | 3665 s is shown as `"01:01:05"`, with the hour field padded |
| Clock.ExampleTenHours | insights/src/components/Transcript.tsx:63-72 | 36000.5 s is shown as `"10:00:00"`; the fraction is dropped, and a field of 10 or more is not padded |
| Json.Truthy | insights/src/components/Transcript.tsx:43 | JavaScript truthiness as used by `\|\|` (line 43) and by the error test (line 79): null and undefined are falsy, arrays and objects are truthy |
| Json.Or | insights/src/components/Transcript.tsx:43 | the `or` operator on values returns one of its operands, and it is truthy iff either operand is |
| Json.Get | insights/src/components/Transcript.tsx:43-45 | property access throws exactly on null and undefined; it gives the own property of an object, and undefined otherwise |
| Segments.NumberOrZero | insights/src/components/Transcript.tsx:44-45 | `typeof v === "number" ? v : 0`; stated by the start and duration clauses of `Segments.CleanSegment` |
| Segments.CleanSegment | insights/src/components/Transcript.tsx:42-46 | a record is cleaned unless it is null or undefined. The text is kept iff it is truthy, otherwise it becomes `""`. Start and duration are kept iff they are numbers, negative and infinite ones included, otherwise they become 0 |
| Segments.CleanSegmentFixes | insights/src/components/Transcript.tsx:42-46 | cleaning the record of a clean segment gives that segment unchanged |
| Segments.CleanSegmentIdempotent | insights/src/components/Transcript.tsx:42-46 | cleaning twice is the same as cleaning once |
| Segments.Clean | insights/src/components/Transcript.tsx:42-46 | the map succeeds iff no record is null or undefined; it then has one segment per record, in the same order, each the cleaning of its record |
| Segments.CleanFixes | insights/src/components/Transcript.tsx:42-46 | cleaning a list of clean records gives the same segments back |
| Segments.CleanAppend | insights/src/components/Transcript.tsx:42 | cleaning a concatenation succeeds iff both halves clean, and it gives the concatenated results |
| Segments.TranscriptItems | insights/src/components/Transcript.tsx:38-40 | null data throws; an array `transcript` is used as it is; a falsy one (missing, null, `""`, 0, false) gives the empty list; a non-empty string that parses to an array gives that array's items; in every other case (a string that does not parse or parses to a non-array, a truthy number, boolean or object) the selection throws |
| Segments.StringOrArraySame | insights/src/components/Transcript.tsx:38-40 | a transcript sent as an array and the same transcript sent as a JSON string select the same records |
| Transcript.RequestUrl | insights/src/components/Transcript.tsx:33 | the request address; stated by `Transcript.RequestUrlInjective` and `Transcript.RequestUrlCollision` |
| Transcript.RequestUrlInjective | insights/src/components/Transcript.tsx:33 | distinct identifier pairs without `&` get distinct request addresses |
| Transcript.RequestUrlCollision | insights/src/components/Transcript.tsx:33 | a module id containing `&videoId=` can collide with another pair, because the ids are not URL-encoded |
| Transcript.Settle | insights/src/components/Transcript.tsx:32-53 | a fetch loads segments iff the response is ok, its body is JSON, and its transcript is chosen and cleaned without an exception. It is rejected iff the response is not ok and the body is non-null JSON; the message is then `data.error` when truthy, else "Unknown error". Every other case crashes |
| Transcript.LoadedRoundTrip | insights/src/components/Transcript.tsx:32-53 | an ok response whose transcript holds clean records loads exactly those segments, whether the transcript is an array or a JSON string of it |
| Transcript.InitialValid | insights/src/components/Transcript.tsx:23-25 | the initial state (loading, no error, no transcript) is valid and shows the loading notice |
| Transcript.Begin | insights/src/components/Transcript.tsx:29-30 | starting a fetch sets loading, clears the error, leaves the transcript untouched, and keeps a valid state valid |
| Transcript.Finish | insights/src/components/Transcript.tsx:47-55 | every completion clears loading; only success replaces the transcript and it keeps the error; a rejection sets its message; an exception sets "Failed to fetch transcript." |
| Transcript.FinishKeepsValid | insights/src/components/Transcript.tsx:36-55 | after any completion the error is absent or truthy, and every kept segment is clean |
| Transcript.RowsOf | insights/src/components/Transcript.tsx:83 | `transcript.map(...)` gives one row per segment, in order, each the row of its segment |
| Transcript.Render | insights/src/components/Transcript.tsx:77-94 | view priority: loading, then a truthy error, then a non-empty transcript (one row per segment, in order, labelled by `formatTime(start)`), then "No transcript available." |
| Transcript.ValidErrorShown | insights/src/components/Transcript.tsx:77-80 | once loading is over, a valid state shows an error message exactly when it holds an error, and the message is that error |
| Transcript.ViewAfterFetch | insights/src/components/Transcript.tsx:29-94 | after a fetch starts and ends, the view depends on the outcome alone: rows or the empty notice on success, the message on rejection, "Failed to fetch transcript." on an exception |
| Transcript.NoStaleView | insights/src/components/Transcript.tsx:29-94 | two states that run the same fetch to the same end render the same view, so no earlier segments or error show through |
| Transcript.LateFailureHidesSuccess | insights/src/components/Transcript.tsx:47-53 | when two fetches overlap and the older one fails last-but-one, the newer one's success still shows the failure message |
| Transcript.RowOf | insights/src/components/Transcript.tsx:83-88 | one rendered block: the label of the segment's start and its text; stated by `Transcript.RowTimes` |
| Transcript.RowTimes | insights/src/components/Transcript.tsx:83-87 | every rendered row's label reads back as the whole seconds of its segment's start; it is `"00:00:00"` for a NaN, negative or negative infinite start, and `"Infinity:NaN:NaN"` for positive infinity |
| Transcript.ErrorMessages | insights/src/components/Transcript.tsx:49-53 | a non-ok response without an error field shows "Unknown error"; a null body, or a body that is not JSON, shows "Failed to fetch transcript." |

## Left out

- `insights/src/app/api/scraping-summary/route.ts` is not part of this model. It is a thin wrapper: it calls the Gemini SDK, reads an environment key, uses `JSON.parse`/`JSON.stringify`, and returns `NextResponse` objects. Once those foreign calls are abstracted, the only branching left is "empty content gives 400, a thrown error gives 500", and the prompt is fixed text.
- `insights/src/components/articlesumarry.tsx` is not part of this model. It is markup, and its submit handler only logs.
- `decodeHtml` (lines 5-9) needs the browser DOM. A `Row` carries the segment's text undecoded.
- The HTTP `fetch` and `res.json()` are not modelled. They appear only as their results in `Response`: a network failure, or a body that is not JSON (`None`).
- React's effect scheduling is not modelled. `Begin` is an event the caller applies on mount and on each identifier change. The dependency comparison itself is not modelled.
- Overlapping fetches are not modelled as a trace semantics, because the source neither cancels nor orders them. `LateFailureHidesSuccess` shows one consequence.
- `JSON.parse` on a string is the uninterpreted parameter `parse`. `JSON.parse("[]")` is taken to be the empty array.
- The `console.error` logging in the catch block is not modelled.
- IEEE-754 arithmetic is replaced by exact reals for finite numbers; NaN and the two infinities are kept as values of `Clock.JsNumber`. Rounding of `seconds / 3600` for huge inputs and the loss of precision above 2^53 are not modelled.
- `Decimal.Show` prints every hour count as plain digits. JavaScript switches to exponent notation from 10^21 hours on, so for such inputs `FormatTime`'s hour field differs from the browser's.
- A JSON number `-0` is the same as `0` in the model. Both print as `0`, so no label changes.
- How React renders an `error` value that is not a string is not modelled: a truthy `data.error` that is an object reaches line 80 as a child, and React throws on it. The model keeps the value as the code stores it.
- `decodeHtml` turns a `text` that is not a string into one (an object becomes `"[object Object]"`) before React sees it; like the rest of `decodeHtml`, this is not modelled.
