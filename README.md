# Data-URI analyser of atlas-guide, modelled in Dafny

atlas-guide builds a style-guide page for each stylesheet component. Each
page shows statistics about the component. One of them is the list of
embedded `data:` assets, which comes from `dataUri(background,
backgroundImage, fontFaces)` in `viewmodels/statproject/dataUri.js`. This
project models that function and proves what it returns.

The function takes the component's `background`, `background-image` and
`@font-face src` values and works in four steps:

1. It concatenates the three groups of values into one list.
2. It keeps each value that mentions `data:` and pushes one entry for it.
   The entry is built from the URI string, which is the text inside the
   first `(...)` on one line. The entry holds:
   - its UTF-8 byte size and the formatted size;
   - `type`: the text between `data:` and the next `/`;
   - `typeRaw`: the text between `data:` and the next `,`;
   - a display value, which is the URI string for `data:image` URIs and
     empty otherwise.
3. It sorts the entries by size, largest first. The sort is stable.
4. It sums the sizes into `total.raw` and formats that sum into `total.fmt`.

Layout, one module per file:

- `wrappers.dfy` (`Wrappers`): the `Option` and `Result` types.
- `utf8.dfy` (`Utf8`): the UTF-8 encoding of a string. Its length is the
  model of `Buffer.byteLength(s, 'utf8')`.
- `regex_scan.dfy` (`RegexScan`): the regular expressions the function uses.
  Each has the same shape: a literal, a lazy group `(.*?)` and a closing
  character. Each is written as a leftmost, lazy scanner with an explicit
  "no match" result. `.` does not match the four ECMAScript line
  terminators.
- `entry.dfy` (`DataUriEntry`): one entry, and the `TypeError` thrown when
  one of the captures returns `null`.
- `size_sort.dfy` (`SizeSort`): the sort. It has two parts:
  - a reference stable insertion sort on sequences, with its lemmas;
  - an in-place insertion sort on an `array`, which the `DataUri` method runs.

  The source calls `Array.prototype.sort`, whose algorithm is not insertion
  sort. `SortBySizeIsTheStableSort` shows that every stable sort by size,
  largest first, gives the same result, so the choice of algorithm does not
  change what the analyser returns.
- `data_uri.dfy` (`DataUri`): the analyser. The `DataUri` method:
  - pushes entries onto a sequence in a loop (`PushEntries`);
  - copies them into an array and sorts the array in place;
  - sums the sizes in a second loop (`SumSizes`).

  The method is proved equal to the specification function `Analyze`. The
  lemmas about `Analyze` state what a caller gets back.

Names: the source's `type` and `typeRaw` are called `mediaType` and
`mediaTypeRaw` here, because `type` is a reserved word in Dafny.
`formatBytes` is passed in as a parameter of type `nat -> string`.

A value that mentions `data:` but whose URI is malformed is not recorded
with empty fields. When one of the three captures finds nothing, `exec`
returns `null` (`dataUri.js` lines 20, 25 and 26). Indexing that `null` with
`[1]` throws a `TypeError`, and the whole call ends. The model returns
`Failure(TypeError(...))` for such a value. The capture tag and the searched
string in that error are the model's own bookkeeping: JavaScript's message
is the same at all three lines. `DataUriEntry.DataUrlWithoutSlashThrows`
shows the failure for `data:,text`, a form that RFC 2397 allows.
`DataUri.AnalyzeThrows` shows that the first such value decides the error.

## Model

| member | source | states |
|---|---|---|
| `Utf8.ByteLength` | viewmodels/statproject/dataUri.js:21 | reference definition of `Buffer.byteLength(s, 'utf8')` as the length of the UTF-8 encoding; its contract bounds it between the number of characters and four times that number, and `ByteLengthByRange`, `ByteLengthAppend` and `AsciiByteLength` specify it |
| `Utf8.EncodeChar` | viewmodels/statproject/dataUri.js:21 | each scalar is encoded in 1 to 4 bytes, as many as its code-point range needs, and every byte after the first is a continuation byte |
| `Utf8.EncodeCharDecodes` | viewmodels/statproject/dataUri.js:21 | the lead byte of an encoded scalar gives the sequence length, and decoding the bytes gives back the scalar |
| `Utf8.ByteLengthByRange` | viewmodels/statproject/dataUri.js:21 | the byte length is the sum of per-scalar widths by code-point range, so it is between the number of characters and four times that number |
| `Utf8.ByteLengthAppend` | viewmodels/statproject/dataUri.js:21 | the byte length of a concatenation is the sum of the byte lengths |
| `Utf8.AsciiByteLength` | viewmodels/statproject/dataUri.js:21 | an ASCII-only URI (base64 or percent-encoded) takes one byte per character |
| `RegexScan.ContainsFrom` | viewmodels/statproject/dataUri.js:19 | the literal test is true exactly when the literal occurs at some index at or after the start |
| `RegexScan.Contains` | viewmodels/statproject/dataUri.js:27 | `/data:image/.test` (and `/data:/.test`) is true exactly when the literal occurs somewhere in the string |
| `RegexScan.GroupEnd` | viewmodels/statproject/dataUri.js:20 | the lazy group stops at the nearest close character, and fails when a line terminator or the end of the string comes first |
| `RegexScan.FirstMatch` | viewmodels/statproject/dataUri.js:20 | the match found is a real match (literal, then a lazy group, then the close character), and no match starts earlier |
| `RegexScan.Capture` | viewmodels/statproject/dataUri.js:20-26 | `exec(...)` is null exactly when the pattern matches nowhere; a capture never contains its close character or a line break |
| `RegexScan.FirstMatchAtFirstOccurrence` | viewmodels/statproject/dataUri.js:25-26 | in a one-line string, a match starts at the first occurrence of `data:` |
| `RegexScan.CapturesShareStart` | viewmodels/statproject/dataUri.js:25-26 | two captures after the same literal with different close characters start at the same place, so one is a prefix of the other |
| `RegexScan.CaptureOfBuilt` | viewmodels/statproject/dataUri.js:20-26 | if a string is built as literal, then a body without the close character or line breaks, then the close character, the capture returns exactly that body |
| `DataUriEntry.UriString` | viewmodels/statproject/dataUri.js:20 | `/\((.*?)\)/.exec(value)`: null exactly when no `(...)` group closes on one line; the URI string has no `)` and no line break; `UrlArgumentOfWrapped` gives its value for `pre(uri)rest` |
| `DataUriEntry.MakeEntry` | viewmodels/statproject/dataUri.js:22-28 | the formatted size of a built entry is `formatBytes(sizeRaw)` |
| `DataUriEntry.MakeEntryOutcome` | viewmodels/statproject/dataUri.js:20-28 | which capture throws, with which string; when all three captures match, the entry is built with `type` and `typeRaw` equal to the captures, so only a null capture throws; and for a built entry: the size is the URI's UTF-8 length, the URI has no `)` and no line break, `type` has no `/`, `typeRaw` has no `,`, and the display value is the URI exactly when it contains `data:image` |
| `DataUriEntry.MediaTypesShareMarker` | viewmodels/statproject/dataUri.js:25-26 | `type` and `typeRaw` are read after the same `data:` marker, so one is a prefix of the other |
| `DataUriEntry.UrlArgumentOfWrapped` | viewmodels/statproject/dataUri.js:20 | for `pre(uri)rest` with no `(` in `pre`, the URI string is `uri` |
| `DataUriEntry.MediaTypesOfDataUrl` | viewmodels/statproject/dataUri.js:25-26 | for `data:top/sub,payload`, `type` is `top` and `typeRaw` is `top/sub` |
| `DataUriEntry.EntryOfDataUrl` | viewmodels/statproject/dataUri.js:20-28 | a value `pre(data:top/sub,payload)rest` yields the entry with the UTF-8 size of the URI, `type` = `top`, `typeRaw` = `top/sub`; the URI is kept for display when `top` starts with `image` |
| `DataUriEntry.NoParenthesisThrows` | viewmodels/statproject/dataUri.js:20 | a value without `(` throws `TypeError` at the URI capture |
| `DataUriEntry.DataUrlWithoutSlashThrows` | viewmodels/statproject/dataUri.js:25 | a URI `data:body` with no `/` throws `TypeError` at the `type` capture |
| `SizeSort.SortBySize` | viewmodels/statproject/dataUri.js:32 | reference definition of the stable sort, inserting each entry in encounter order; it keeps the length, and `SortBySizeSorted`, `SortBySizeStable` and `SortBySizeIsTheStableSort` specify it |
| `SizeSort.InsertSorted` | viewmodels/statproject/dataUri.js:32 | inserting into a list sorted by size keeps it sorted and adds exactly the one entry |
| `SizeSort.InsertWithSize` | viewmodels/statproject/dataUri.js:32 | insertion appends the entry at the end of its own size class and leaves every other size class unchanged |
| `SizeSort.SortBySizeSorted` | viewmodels/statproject/dataUri.js:32 | the sorted entries do not increase in size and are a permutation of the input |
| `SizeSort.SortBySizeStable` | viewmodels/statproject/dataUri.js:32 | stability: the entries of each size keep their input order |
| `SizeSort.SortedBySizeClassesUnique` | viewmodels/statproject/dataUri.js:32 | two lists sorted by size with the same size classes in the same order are equal |
| `SizeSort.SortBySizeIsTheStableSort` | viewmodels/statproject/dataUri.js:32 | any list sorted by size that keeps each size class in input order is exactly this sort's result, so it is what a stable `sort` with `b.sizeRaw - a.sizeRaw` returns |
| `SizeSort.InsertLast` | viewmodels/statproject/dataUri.js:32 | one in-place insertion step leaves the sorted insertion of the new entry in the array prefix, and the rest of the array unchanged |
| `SizeSort.SortInPlace` | viewmodels/statproject/dataUri.js:32 | after sorting in place, the array holds the reference stable sort of its old contents |
| `DataUri.Analyze` | viewmodels/statproject/dataUri.js:7-38 | reference definition of the whole call; on success there are no more entries than input values and `total.fmt` is `formatBytes(total.raw)`; `AnalyzeSummary`, `AnalyzeThrows` and `NoDataUriSummary` specify it, and the method `DataUri` is proved equal to it |
| `DataUri.Props` | viewmodels/statproject/dataUri.js:8 | reference definition of the `concat` chain: it holds every value of the three inputs and nothing else, and its length is the sum of theirs; `PropsOrder` gives the order |
| `DataUri.DataValues` | viewmodels/statproject/dataUri.js:19 | reference definition of the `data:` filter; it is never longer than its input, and `DataValuesMembers` and `DataValuesAppend` specify it |
| `DataUri.Collect` | viewmodels/statproject/dataUri.js:18-30 | reference definition of the push loop; on success there are no more entries than values, and `CollectOnePerDataValue`, `CollectFirstError` and `CollectFailurePersists` specify it |
| `DataUri.TotalSize` | viewmodels/statproject/dataUri.js:34 | reference definition of the sum of the sizes; no entry is larger than the total, and `TotalSizePermutation` shows the order does not matter |
| `DataUri.DataUri` | viewmodels/statproject/dataUri.js:7-38 | the result equals `Analyze`; on success the data do not increase in size, `total.raw` is the sum of their sizes, and `total.fmt` is `formatBytes(total.raw)` |
| `DataUri.PushEntries` | viewmodels/statproject/dataUri.js:18-30 | the push loop returns the collected entries, or the first `TypeError` thrown |
| `DataUri.SumSizes` | viewmodels/statproject/dataUri.js:34 | the summing loop returns the sum of the sizes in the array |
| `DataUri.CollectFailurePersists` | viewmodels/statproject/dataUri.js:18-30 | once a value throws, the whole call throws the same error |
| `DataUri.DataValuesAppend` | viewmodels/statproject/dataUri.js:18-19 | the `data:` filter distributes over concatenation |
| `DataUri.PropsOrder` | viewmodels/statproject/dataUri.js:8 | values are considered in this order: background, then background-image, then font-face src |
| `DataUri.DataValuesMembers` | viewmodels/statproject/dataUri.js:19 | the filter keeps exactly the values that contain `data:` |
| `DataUri.CollectOnePerDataValue` | viewmodels/statproject/dataUri.js:18-30 | the loop completes exactly when every value with `data:` yields an entry; the j-th such value gives the j-th pushed entry, and there are no other entries |
| `DataUri.CollectFirstError` | viewmodels/statproject/dataUri.js:18-30 | a failing loop reports the error of the first value with `data:` whose entry cannot be built; every earlier such value succeeded |
| `DataUri.TotalSizePermutation` | viewmodels/statproject/dataUri.js:34 | the total does not depend on the order of the entries |
| `DataUri.NoMarkerNoEntries` | viewmodels/statproject/dataUri.js:18-19 | values that never mention `data:` give no entries |
| `DataUri.NoDataUriSummary` | viewmodels/statproject/dataUri.js:9-35 | with no `data:` value, the result has empty `data`, `total.raw` = 0 and `total.fmt` = `formatBytes(0)` |
| `DataUri.AnalyzeSummary` | viewmodels/statproject/dataUri.js:22-35 | on success there is one entry per `data:` value; the entries are sorted non-increasingly by size, are a permutation of the pushed entries and keep each size class in encounter order; `total.raw` is the order-independent sum; the total and every entry size are formatted with `formatBytes` |
| `DataUri.DistinctSizesStrictlyDescending` | viewmodels/statproject/dataUri.js:32 | when all sizes differ, the entries are strictly descending by size |
| `DataUri.AnalyzeThrows` | viewmodels/statproject/dataUri.js:18-30 | the call throws exactly when some `data:` value cannot be made into an entry, and then with the error of the first such value |

## Left out

- `formatBytes` (imported from `viewmodels/utils/format`): this file is not
  part of this model. It is a parameter of type `nat -> string`. The model
  proves only that the same routine formats every entry and the total. It
  does not model units or rounding.
- UTF-16 strings: JavaScript strings are UTF-16. Dafny's `char` is a Unicode
  scalar value, so lone surrogates cannot occur in the model. Node encodes a
  lone surrogate as the 3-byte U+FFFD; that case is not modelled.
- JavaScript coercions in the flattening step are not modelled. These are
  a bare string argument passed to `concat`, a missing `fontFaces.src`
  read by the `data:` test as the text `"undefined"`, and non-string values. The three inputs
  are sequences of strings, and `fontFaces` is a record holding `src`.
- General regular-expression semantics are not modelled. Only the
  literal-lazy-group-close shape the source uses is modelled. The `g` flag on
  the `/data:/g` literal has no effect, because a regex literal evaluated
  inside the callback is a fresh object each time, so its `lastIndex` starts
  at 0.
- Number limits are not modelled: sizes and the total are unbounded `nat`.
  JavaScript numbers are exact only up to 2^53 bytes, far beyond any
  stylesheet.
- The caller's arrays are not modified, because `concat` builds a fresh array.
  In the model this holds trivially, because the inputs are immutable
  sequences, so it has no lemma of its own.
- The initial `total.fmt: 0` is not kept. It is always overwritten before the
  function returns, so the model stores only the final formatted string.
- The rest of the build pipeline is not part of this model: discovery,
  compilation, template rendering and the incremental writer. The test file
  `test/build.component.test.js` exercises that pipeline end to end through
  code that is not among the modelled sources.
