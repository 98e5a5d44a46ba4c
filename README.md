# Output layer of the bundle size analyzer, in Dafny

This project models four pieces of the analyzer's output layer and proves what they do:

- **`parseOutput`**: validates the `--output-github` value `format:key`. Module `OutputParser`, file `parse_output.dfy`.
  - The untyped argument is a datatype `Input`: a string, or any other value.
  - Each of the four checks has its own error constructor: `NotAString`, `MissingSeparator`, `InvalidFormat(format)` and `EmptyKey`. `Message` gives each one's text.
  - `value.split(":", 2)` is modelled literally: `Strings.SplitLimit` over `Strings.Split`. So text after a second `:` is dropped, as in the source.
  - The supported formats are the three that `formatDiff` dispatches on: `json`, `markdown` and `text` (module `Formats`).
- **`prettySize`**: renders a byte count in B, KiB or MiB. Module `Sizes`, file `pretty_size.dfy`.
  - Sizes are natural numbers. The units are powers of two, so the quotient is exact.
  - `toFixed(1)` is integer arithmetic on tenths: `NearestTenths(size, unit) = (20·size + unit) div (2·unit)`. This is the nearest tenth, with ties going up. It is proved to meet that definition.
  - `String(n)` is `Strings.NatToString`. `Strings.ParseNat` reads it back.
- **The Markdown diff renderer**: module `MarkdownDiff`, file `format_diff_markdown.dfy`. It holds `num`, `sign`, `diff`, the space escaping, one row renderer per status and `markdownFormat`.
  - Each row is built from its five cells by `Row`, which writes `| c1 | c2 | c3 | c4 | c5 |`.
  - For each status, a lemma proves that the row equals the source's template text.
  - `formatSize` and `formatPercent` are not part of this model. They enter as arbitrary functions: the two fields of `Collaborators`.
  - `BundleDiff` and `FileResult` are datatypes in module `Bundles` (`bundles.dfy`), shaped by how the renderer uses them.
- **`writeGithub`**: module `GithubOutput`, file `write_github.dfy`.
  - The file system is a class `FileSystem` whose field `files: map<string, string>` maps paths to contents. `AppendFile` creates a missing file, as `fs.appendFile` does.
  - The environment is a `map<string, string>`.
  - `WriteGithub` is a method that changes only `fs`. Its new state is `AfterWrite(old files, env, key, content)`, and the lemmas about `AfterWrite` state its effect.

## Model

| member | source | states |
|---|---|---|
| `Strings.Split` | src/utils/parse-output.ts:13 | `split(":")` yields at least one piece; exactly one when the input has no `:`; no piece contains a `:` |
| `Strings.SplitLimit` | src/utils/parse-output.ts:13 | `split(":", 2)` keeps at most two pieces; they are the first pieces of the full split, and all of it when it has fewer than two |
| `Strings.JoinSplit` | src/utils/parse-output.ts:13 | joining the pieces with the separator gives back the input, so splitting loses only the separators |
| `Strings.SplitJoin` | src/format/format-diff-markdown.ts:71 | splitting a `join("\n")` of pieces without line breaks gives back the pieces |
| `Strings.JoinAppend` | src/format/format-diff-markdown.ts:71 | joining two non-empty lists is joining the first, the separator, and joining the second |
| `Strings.JoinExcludes` | src/format/format-diff-markdown.ts:71 | a character that is in neither the pieces nor the separator is not in the join |
| `Strings.NatToString` | src/utils/pretty-size.ts:11 | `String(n)` is a non-empty string of digits with no leading zero; it is `"0"` exactly for 0 |
| `Strings.ParseNatToString` | src/utils/pretty-size.ts:11 | reading the digits of `String(n)` back gives `n` |
| `Formats.FromName` | src/format/format-diff.ts:22-29 | a name selects a format exactly when it is `json`, `markdown` or `text`, and the selected format bears that name |
| `Formats.NameSelects` | src/format/format-diff.ts:22-29 | every format is selected by its own name, and no format name contains `:` |
| `OutputParser.Message` | src/utils/parse-output.ts:9-27 | the invalid-format message starts with `Invalid format for --output-github: ` followed by the offending format text; every other message starts with `--output-github ` |
| `OutputParser.ParseOutput` | src/utils/parse-output.ts:8-16 | a non-string is rejected with the not-a-string error and nothing else is; a string is rejected as missing the separator exactly when it has no `:`, including the empty string |
| `OutputParser.ParseOutputSound` | src/utils/parse-output.ts:13-29 | success means the format is the text before the first `:` and the key is the non-empty text after it, up to the next `:` or the end; an invalid format error carries the text before the first `:`, which is not a supported name; an empty-key error means the format was supported and nothing stands between the first `:` and the next `:` or the end |
| `OutputParser.ParseOutputComplete` | src/utils/parse-output.ts:18-29 | given the text before the first `:` and the field after it: an unsupported format is reported whatever the key, then an empty key is, and otherwise the value parses to that format and key |
| `OutputParser.ParseOutputRoundTrip` | src/utils/parse-output.ts:13-29 | a supported format name, `:`, and a non-empty key without `:` parse back to that format and key, whatever follows a further `:` |
| `OutputParser.FormatCheckedBeforeKey` | src/utils/parse-output.ts:19-27 | `"xml:"` is reported as the invalid format `xml`, not as an empty key |
| `OutputParser.MessagesDistinct` | src/utils/parse-output.ts:9-27 | different errors have different messages |
| `Sizes.NearestTenths` | src/utils/pretty-size.ts:15 | the tenths count lies within half a tenth of size/unit, and an exact half rounds to the larger tenth, as `toFixed(1)` does |
| `Sizes.ToFixed1Reads` | src/utils/pretty-size.ts:15 | the `toFixed(1)` text has digits, a point and exactly one digit after it, reads back as the tenths count, and has a leading zero only as `0.d` |
| `Sizes.PrettySize` | src/utils/pretty-size.ts:6-19 | the result starts with a digit and ends with `B` (the last letter of every unit) |
| `Sizes.PrettySizeBytes` | src/utils/pretty-size.ts:10-12 | below 1024, the result is the decimal digits of the size followed by `B`, with no point and with a leading zero only for `0B` |
| `Sizes.PrettySizeKibibytes` | src/utils/pretty-size.ts:14-16 | from 1024 to 1048575, the result ends in `KiB` and before that is a one-decimal number with no leading zero: size/1024 rounded to the nearest tenth, ties going up |
| `Sizes.PrettySizeMebibytes` | src/utils/pretty-size.ts:18 | from 1048576 on, the result ends in `MiB` and before that is a one-decimal number with no leading zero: size/1048576 rounded to the nearest tenth, ties going up |
| `Sizes.PrettySizeUnit` | src/utils/pretty-size.ts:10-18 | exactly one unit suffix appears: `MiB` iff size ≥ 1048576, `KiB` iff 1024 ≤ size < 1048576, and a bare `B` iff size < 1024 |
| `Sizes.UnitMonotone` | src/utils/pretty-size.ts:10-18 | a larger size never gets a smaller unit |
| `Sizes.PrettySizeChars` | src/utils/pretty-size.ts:10-18 | the result holds only digits, `.` and the letters of the units, so it has no sign and no line break |
| `Sizes.PrettySizeBelowMebibyte` | src/utils/pretty-size.ts:14-15 | the unit is chosen on the unrounded count: 1048575 bytes print as `1024.0KiB` |
| `MarkdownDiff.Num` | src/format/format-diff-markdown.ts:6-8 | a size in the table starts with a digit and ends with `B` |
| `MarkdownDiff.Sign` | src/format/format-diff-markdown.ts:10-12 | the sign is `+` exactly when the value is not negative, zero included, and `-` exactly when it is negative |
| `MarkdownDiff.Diff` | src/format/format-diff-markdown.ts:14-16 | `diff(v)` starts with `+` exactly when v ≥ 0 and with `-` exactly when v < 0, followed by `prettySize(abs(v))` |
| `MarkdownDiff.DiffShape` | src/format/format-diff-markdown.ts:14-16 | what follows the sign holds no sign of its own, and `diff(v)` and `diff(-v)` print the same magnitude |
| `MarkdownDiff.EscapeName` | src/format/format-diff-markdown.ts:19 | no space is left in an escaped name, a name without spaces is unchanged, and escaping never shortens a name |
| `MarkdownDiff.EscapeNameAppend` | src/format/format-diff-markdown.ts:19 | escaping distributes over concatenation, so it works one character at a time, in order |
| `MarkdownDiff.EscapeNameChar` | src/format/format-diff-markdown.ts:19 | a space becomes `&nbsp;` and any other character is kept |
| `MarkdownDiff.Row` | src/format/format-diff-markdown.ts:28 | a row starts with `\| ` and ends with ` \|` |
| `MarkdownDiff.RowOfFive` | src/format/format-diff-markdown.ts:28 | a row of five cells is the template `\| a \| b \| c \| d \| e \|` |
| `MarkdownDiff.AddedCells` | src/format/format-diff-markdown.ts:18-28 | an added row has the header's five cells: the name ends in ` (added)`, the size cell starts with `N/A →`, and the change is `+0.00%` |
| `MarkdownDiff.RemovedCells` | src/format/format-diff-markdown.ts:31-34 | a removed row has the header's five cells: the name ends in ` (removed)`, the size cell ends in `→ N/A`, and files, compressed and change are `N/A` |
| `MarkdownDiff.UpdatedCells` | src/format/format-diff-markdown.ts:37-49 | an updated row has the header's five cells: the escaped name with no mark, the file count ending in ` file(s)`, the size cell closing the parenthesised difference, and the change as `formatPercent` prints it |
| `MarkdownDiff.Cells` | src/format/format-diff-markdown.ts:56-70 | every status has a row, with as many cells as the header |
| `MarkdownDiff.RenderRow` | src/format/format-diff-markdown.ts:56-70 | every row starts with `\| ` and ends with ` \|` |
| `MarkdownDiff.AddedRowColumns` | src/format/format-diff-markdown.ts:18-29 | an added row is the source template: the escaped name with ` (added)`, the count of new files, `N/A → **new size**`, the gzip and brotli cells, and always `+0.00%` |
| `MarkdownDiff.AddedRowIgnoresOldSide` | src/format/format-diff-markdown.ts:18-29 | an added row does not depend on the old files, the old size or the difference |
| `MarkdownDiff.RemovedRowColumns` | src/format/format-diff-markdown.ts:31-35 | a removed row is the source template: the escaped name with ` (removed)`, `old size → N/A`, and `N/A` for files, compressed and change |
| `MarkdownDiff.RemovedRowDependsOnNameAndOldSize` | src/format/format-diff-markdown.ts:31-35 | two removed rows with the same name and old raw size are equal, whatever else differs and whatever the formatters do |
| `MarkdownDiff.UpdatedRowColumns` | src/format/format-diff-markdown.ts:37-50 | an updated row is the source template: the escaped name, the count of new files, `old → **new** (diff(difference))`, the compressed cells and `formatPercent(raw)` |
| `MarkdownDiff.RowSingleLine` | src/format/format-diff-markdown.ts:18-50 | a row has no line break when the name and the formatters' cells have none |
| `MarkdownDiff.MarkdownFormat` | src/format/format-diff-markdown.ts:52-74 | the output starts with the `## Bundle sizes` heading and a blank line, and ends with a line break |
| `MarkdownDiff.MarkdownLines` | src/format/format-diff-markdown.ts:52-74 | the output's lines are: the heading, a blank line, the header row, the alignment row, one row per diff in input order (or a blank line when there are none), and the empty text after the final line break |
| `GithubOutput.StripCR` | src/utils/write-github.ts:23 | the value holds no carriage return, only characters of the content, and is no longer than it |
| `GithubOutput.Payload` | src/utils/write-github.ts:24 | the entry starts with `key<<EOF\n` and ends with `\nEOF\n`, and what lies between them is exactly the stripped content |
| `GithubOutput.OutputFile` | src/utils/write-github.ts:18-21 | a target file is named exactly when `GITHUB_OUTPUT` is set to a non-empty value, and it is that value |
| `GithubOutput.AfterWrite` | src/utils/write-github.ts:18-25 | a write adds at most the target file, and every file still starts with what it held before |
| `GithubOutput.FileSystem.AppendFile` | src/utils/write-github.ts:25 | appending adds the data to the end of the file's contents, creating a missing file; no other file changes |
| `GithubOutput.WriteGithub` | src/utils/write-github.ts:15-26 | the new file system is `AfterWrite` of the old one, the environment, the key and the content |
| `GithubOutput.WriteDisabled` | src/utils/write-github.ts:18-21 | with `GITHUB_OUTPUT` absent or empty, the file system is unchanged |
| `GithubOutput.WriteAppends` | src/utils/write-github.ts:23-25 | otherwise the named file becomes its old contents followed by `key<<EOF\n`, the value and `\nEOF\n`; it is created if missing, and every other file keeps its contents |
| `GithubOutput.WritesAccumulate` | src/utils/write-github.ts:25 | two writes leave both entries in the target file, in call order, after its old contents |
| `GithubOutput.StripCRAppend` | src/utils/write-github.ts:23 | stripping carriage returns distributes over concatenation |
| `GithubOutput.StripCRChar` | src/utils/write-github.ts:23 | a carriage return is dropped and any other character is kept |
| `GithubOutput.StripCRKeepsOrder` | src/utils/write-github.ts:23 | every character other than a carriage return survives, in its original order |
| `GithubOutput.StripCRNoCR` | src/utils/write-github.ts:23 | content with no carriage return passes through unchanged |
| `GithubOutput.StripCRIdempotent` | src/utils/write-github.ts:23 | stripping twice gives the same result as stripping once |

## Left out

- The `formats` list is defined in `src/format/formats.ts`, which is not part of this model. Its order is taken to be `json`, `markdown`, `text`, the order in which `formatDiff` handles the formats. The order matters only for the "Supported formats" text of the invalid-format message.
- `formatSize` and `formatPercent` are not part of this model. The renderer takes them as arbitrary functions, so no property depends on what they print. For the same reason, `RowSingleLine` and `MarkdownLines` require that their cells hold no line break.
- Sizes are natural numbers, not IEEE doubles. Fractional or negative sizes, and the exponent form that `toFixed` uses for values of 1e21 and more, are not modelled. `diff` passes `Math.abs` of the difference, so `prettySize` always receives a non-negative value.
- `writeGithub` is asynchronous, and `appendFile` can fail with a file-system error, which would propagate. The model has no failures and runs the append to completion. The `"utf8"` encoding is not modelled: contents are character strings.
- The source treats an empty `GITHUB_OUTPUT` as unset, because the empty string is falsy, and the model does the same. The program's own test (tests/integration/output.spec.ts:66) names only the unset case.
- The `paramName` and `requireFormat` options exercised by the tests of `parseOutput` are not modelled. The function as written takes one argument, with the parameter name fixed to `--output-github`.
- `src/file-result.ts` and `src/config/normalized-config.ts` hold only type declarations. `FileResult` is a datatype; the normalized configuration is not used by the modelled code.
- `compareBundles`, `getBundleSize`, the other formatters, configuration loading and the command-line wiring are not part of this model.
