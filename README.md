# Coverage report formatter, modelled in Dafny

This project models the formatting core of a small code-coverage reporter
(`index.js`). The reporter turns per-file coverage counts for statements,
branches and functions into markdown tables. It has two reports:

- the **change report** covers a list of changed files. Each file is looked
  up by `<working directory>/<filename>` in the coverage dataset. A file with
  no entry gets a row of `Excluded` cells. A file with an entry gets three
  percent labels. An empty list gives the text `No files`.
- the **overall report** renders three aggregate values as a one-row table.

A percent label is `"<emoji> <floor(n)>%"`. The emoji comes from the
*unfloored* percentage:

- below 1 gives 😱
- 1 to 60 gives ⚠️
- above 60 up to 90 gives ✅
- above 90 gives 🎉

A zero total counts as 100%.

Files and modules:

- `wrappers.dfy` (`Wrappers`): the `Option` type.
- `js_text.dfy` (`JsText`): the JavaScript built-ins the formatter uses, on
  Dafny strings. These are `Array.prototype.join`, `String.prototype.split`
  with a one-character separator, and the decimal text of an integer. The
  module also has readers for these and the round-trip lemmas between them.
- `percent.dfy` (`Percent`): the emoji bands, `formatPercent`,
  `multiplyBy100` and `getCoveragePercent`. It also has `ParseLabel`, an
  independent reader of labels. Contracts are stated as round trips through
  that reader.
- `markdown_table.dfy` (`MarkdownTable`): `generateMarkDownTable` and its
  line structure.
- `coverage_report.dfy` (`CoverageReport`): the dataset entries, the lookup
  table built by the `reduce`, the change report and the overall report.

Percentages are exact `real` numbers. `Math.floor` is `.Floor`. The
`reduce` that fills the path-keyed lookup object by mutation is modelled as
a method with a loop over a `map`, `BuildLookup`. Later entries overwrite
earlier ones with the same path. `BuildLookup` is proved against `Lookup`,
which reads the last entry with a path straight off the dataset.
`GenerateChangeCoverage` is a method that calls `BuildLookup`. It is proved
equal to the value-level `ChangeReport`, and the lemmas about the report's
lines and rows are stated about `ChangeReport`.

`formatPercent` takes a value that is already a percentage.
`getCoveragePercent` multiplies the ratio by 100 before calling it. The
overall report passes its three values to `formatPercent` unchanged.

The label reader accepts only the spelling a template literal prints: no
leading zeros and no "-0". So a label's text is fixed by what it reads as.

## Model

| member | source | states |
|---|---|---|
| `Percent.CoverageEmoji` | index.js:23-33 | the chosen band is the range the value lies in: below 1, 1 to 60, above 60 up to 90, above 90 |
| `Percent.BandsPartition` | index.js:23-33 | the four ranges partition the reals: a value lies in a band exactly when that band is the one chosen |
| `Percent.SeverityMonotone` | index.js:23-33 | a larger percentage never gets a worse band |
| `Percent.BandBoundaries` | index.js:23-33 | 0.99 is critical, 1 and 60 are warnings, 90 is acceptable, just above 90 is celebratory |
| `Percent.FormatPercent` | index.js:19 | reading the label back gives the band of the unfloored value and its floor, so by ParseLabelExact the label is exactly that emoji, a space, the floor as printed, and "%"; the label holds no newline |
| `Percent.LabelRoundTrip` | index.js:19 | a label built from a band and an integer reads back as exactly that band and integer |
| `Percent.ParseLabelExact` | index.js:19 | a text that reads as a band and an integer is exactly the emoji, a space, the integer as printed, and "%"; with FormatPercent this fixes the label text |
| `Percent.FormatPercentExamples` | index.js:19 | 60.5 renders as "✅ 60%" and 0.5 as "😱 0%": the emoji is chosen before flooring |
| `Percent.MultiplyBy100` | index.js:21 | dividing the result by 100 gives the ratio back; a ratio in [0, 1] gives a percentage in [0, 100] |
| `Percent.CoveragePercent` | index.js:35-40 | a zero total renders "🎉 100%"; for a positive total the label reads back as the integer band of covered/all and the quotient covered*100 div all, which lies in 0..100 when 0 <= covered <= all, so by ParseLabelExact the text is exactly that label; no newline |
| `Percent.FullCoverageLabel` | index.js:36-38 | a ratio of 1 renders as exactly "🎉 100%" |
| `Percent.RatioBand` | index.js:39 | the emoji of covered/all*100 is decided by integer comparisons: covered*100 against all, 60*all and 90*all |
| `Percent.RatioFloor` | index.js:39 | the floor of covered/all*100 equals the integer quotient covered*100 div all when all > 0 |
| `Percent.QuotientInRange` | index.js:39 | when 0 <= covered <= all and all > 0 the displayed integer lies in 0..100 |
| `Percent.CountsLabel` | index.js:39 | for a positive total, the label of covered/all*100 reads as the integer band and the quotient covered*100 div all, and that quotient lies in 0..100 when 0 <= covered <= all |
| `JsText.IntToDecimal` | index.js:19 | the decimal text of an integer reads back as that integer and holds only digits and a minus sign; it is canonical (no leading zeros, no "-0"), so by ParseIntExact it is the only text that reads as that integer |
| `JsText.ParseIntExact` | index.js:19 | every integer has exactly one accepted spelling, the one a template literal prints: no leading zeros, no "-0" |
| `MarkdownTable.Separators` | index.js:45 | one " ---: " marker per column |
| `MarkdownTable.RowLines` | index.js:48 | one line per body row, each the row's cells joined by the cell separator |
| `MarkdownTable.GenerateMarkDownTable` | index.js:42-50 | the text starts with the header line and the separator line, each followed by a newline; with no body rows that is the whole text, so it ends with a newline after the separator |
| `MarkdownTable.TableLines` | index.js:42-50 | split on newlines, the table is the header line, the separator line, then the body lines in order; an empty body leaves one empty last line |
| `MarkdownTable.TableLineCount` | index.js:42-50 | a non-empty body gives exactly rows + 2 lines, whatever the column count, and line i + 2 is row i |
| `CoverageReport.LastIndex` | index.js:74-77 | the index found holds the last entry with that path, and nothing is found exactly when no entry has that path |
| `CoverageReport.BuildLookup` | index.js:74-77 | the lookup table has a key exactly for each path in the dataset and maps it to the last entry with that path |
| `CoverageReport.ResolvePath` | index.js:82 | the resolved path is the working directory, one slash, then the filename as given |
| `CoverageReport.ResolvePathInjective` | index.js:82 | under one working directory, different filenames resolve to different paths |
| `CoverageReport.FileRow` | index.js:84-92 | four cells led by the filename; three Excluded cells exactly when the lookup found nothing, otherwise the found entry's statements, branches and functions labels |
| `CoverageReport.ChangeRows` | index.js:81-93 | one four-cell row per changed file in input order, led by the filename as given; the row is Excluded exactly when no entry has path cwd + "/" + filename, and otherwise holds the three percentages of the last such entry |
| `CoverageReport.ChangeReport` | index.js:71-94 | the report is the text "No files" exactly when there are no changed files; a table is never that text |
| `CoverageReport.GenerateChangeCoverage` | index.js:68-95 | no changed files gives exactly "No files" whatever the dataset; otherwise the report equals the value-level change report built from the last-writer lookup |
| `CoverageReport.ChangeReportLines` | index.js:79-94 | for newline-free filenames the report has files + 2 lines: the fixed four-column header, the four-marker separator, then each file's row in order |
| `CoverageReport.GenerateOverallCoverage` | index.js:52-66 | the overall report is three lines: the header line, the separator line, and the three percent labels of the given values |
| `CoverageReport.OverallTableLines` | index.js:54-63 | a one-row table under statements, branches, functions has exactly three lines: headers, three markers, the three cells joined by the cell separator |

## Left out

- Reading `coverage/coverage-final.json` and parsing it as JSON, with any failure read as an empty object (index.js:5-15), is file I/O. The dataset is a parameter of the change report instead.
- `parse` and `aggregate` of the `byzantine` package (index.js:1-2, 17, 53) are foreign code and not part of this model. The overall report is modelled from the three values `aggregate` would yield. Whether those are ratios or percentages, and how empty totals are aggregated, is not modelled.
- `process.cwd()` and the module-level dataset (index.js:17, 69) are parameters.
- Floating point: the source divides and multiplies in IEEE doubles, so for example 29/100*100 floors to 28 there. The model uses exact reals and gives 29.
- JavaScript renders very large or very small numbers in exponent notation inside a template literal. The model always writes plain decimal digits.
- The four emoji are opaque distinct strings. Their byte encoding is not modelled.
- The lookup object of index.js is a plain object, modelled as a `map`. In JavaScript, storing an entry under the path `__proto__` sets the object's prototype instead of adding a key, so for that one path `BuildLookup`'s "a key for each path" does not hold in index.js. Inherited property names could also be found by a lookup. Neither affects the report: every looked-up key contains "/", and neither `__proto__` nor any inherited property name does.
- `exports` (index.js:97-98) is module plumbing.
- Percent.CoveragePercent: for a negative total the contract only says the label holds no newline. The band and integer it computes for that case are not stated, because counts are never negative in a coverage dataset.
- MarkdownTable.TableLines: the line structure is stated only for cells without newlines. The source does not escape cells, so a newline inside a cell splits its line.
- CoverageReport.ChangeReportLines: stated only for filenames without newlines, for the same reason.
