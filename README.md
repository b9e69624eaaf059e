# Structure-file parsing and page generation, modelled in Dafny

This project models two sequential pieces of the gitbook build pipeline.

- **Structure-file parsing** (`parseStructureFile` and `parseFile`). The
  book looks up a structure file of a kind (`readme`, `glossary`, `summary`,
  `langs`). When there is none, the result is the pair `[undefined, undefined]`.
  Otherwise the path to read is chosen: a non-empty `summary` option
  overrides the file's own path, whatever the kind. A file without a parser
  fails with `FileNotParsableError`. For the `summary` kind, every
  `{% include <path> %}` marker is replaced by the contents of `<path>`
  joined to the working directory. The text then goes to the parser method
  of the kind, and any other kind is rejected. The result pairs the file
  handle with the parsed value.
- **Page generation** (`generatePages`). A generator without `onPage`
  leaves the output unchanged. With a target path, the page list is
  narrowed to the first page whose path ends with it, or cut to its first
  page when none matches. The pages are then folded left to right: each one
  is logged, rendered against the current output and handed to `onPage`,
  whose value becomes the next output. The first failure logs the page's
  path and ends the run with that error.

Files:

- `wrappers.dfy` (module `Wrappers`): `Option`, `Result` and the `Error`
  type. A resolved promise becomes `Success` and a rejection becomes `Failure`.
- `parse_structure_file.dfy` (module `ParseStructureFile`): pure functions
  that return `Result`. The content file system (`fs`), the host file system
  used for includes (`native`), the working directory (`cwd`), the
  structure-file lookup (`lookup`) and the parser methods are all
  parameters.
- `generate_pages.dfy` (module `PageGeneration`): the recursive
  specification `Fold` and lemmas about it. The method `ReducePages` runs
  the fold as a loop proved equal to `Fold`. The method `GeneratePages` does
  the no-`onPage` exit and the target narrowing on a local page list, then
  calls `ReducePages`. The renderer (`generatePage`) and `onPage` are
  parameters over an abstract output type `O` and rendered-page type `R`.

Reading an include marker uses a simplified grammar:
`{%` ws* `include` ws+ PATH ws+ `%}`. Here ws is JavaScript's `\s`, and
PATH is a non-empty run of characters that are not whitespace. The
include substitution is a single left-to-right pass, as the one
`String.replace` in lib/parse/parseStructureFile.js:36 does it.
lib/parse/parseStructureFile.js has no repeated expansion, no cycle guard
and no hidden-pages section, so none is modelled.

A summary text is described, for the round trip, as a list of segments:
plain text, or a marker `{%` w1 `include` w2 PATH w3 `%}` with its three
whitespace runs w1 (possibly empty), w2 and w3 (non-empty). A list reads
back as itself when no marker starts inside a text segment, even together
with what follows it. A text segment may therefore hold any `{%` that does
not start a marker, such as `{% raw %}`. Every text is spelled by such a
list (`EveryTextReadsBack`).

## Model

| member | source | states |
|---|---|---|
| `ParseStructureFile.SummaryOverridesPath` | lib/parse/parseStructureFile.js:17-28 | when the `summary` option is given and non-empty, the file's own path plays no part, for every kind: two handles that differ only in their path give the same outcome, up to the handle returned in the pair |
| `ParseStructureFile.ExpandWithoutMarkers` | lib/parse/parseStructureFile.js:36-38 | a text with no `{%` in it comes out of the include substitution unchanged, whatever the include reader does |
| `ParseStructureFile.MatchMarkerSpelled` | lib/parse/parseStructureFile.js:36 | every marker `{%` w1 `include` w2 p w3 `%}`, whatever its whitespace runs and whatever follows it, is recognised, capturing exactly `p` and spanning exactly the marker |
| `ParseStructureFile.MarkerParts` | lib/parse/parseStructureFile.js:36 | conversely, whatever is recognised is such a marker: the text it spans is `{%` w1 `include` w2 p w3 `%}` with whitespace runs w1, w2 and w3 (the last two non-empty), and the captured `p` is non-empty with no whitespace |
| `ParseStructureFile.ExpandPrinted` | lib/parse/parseStructureFile.js:36-38 | round trip: expanding the text spelled by a list of plain pieces and markers (with any whitespace runs) that reads back as itself gives the reference resolution of that list. A plain piece may hold `{%` that starts no marker, and it is kept as it is. Each marker is replaced by the contents of the cwd-joined path, reads happen left to right, and the first failing read fails the whole substitution with its error |
| `ParseStructureFile.EveryTextReadsBack` | lib/parse/parseStructureFile.js:36-38 | every text is spelled by a list of segments that reads back as itself, so the round trip above covers every summary text: recognised markers become includes, and every other character stays text |
| `ParseStructureFile.IncludeIsNotRescanned` | lib/parse/parseStructureFile.js:36-38 | text spliced in by an include is not scanned again: a marker inside included contents stays in the result as it is |
| `ParseStructureFile.ParseContent` | lib/parse/parseStructureFile.js:30-44 | a kind other than readme, glossary, summary and langs fails with the invalid-type error naming that kind |
| `ParseStructureFile.ParseFile` | lib/parse/parseStructureFile.js:15-52 | a file without a parser fails with `FileNotParsable` carrying the chosen path. A file with a parser whose chosen path cannot be read fails with that read's own error, for every kind. On success the pair holds the original file handle (not the override path), the kind is a known one, and the read of the chosen path succeeded |
| `ParseStructureFile.ParseStructureFile` | lib/parse/parseStructureFile.js:63-72 | a failing lookup fails with its own error. When the lookup finds no file, the result is the absent pair, whatever the readers do. When the lookup finds a file, the outcome is exactly that of `parseFile` on it: its error, or its pair. A parsed pair always holds the file the lookup returned |
| `ParseStructureFile.ReadsOnlyChosenPath` | lib/parse/parseStructureFile.js:17-28 | the content file system is consulted at the chosen path only: two readers that agree there give the same outcome |
| `ParseStructureFile.NotParsableReadsNothing` | lib/parse/parseStructureFile.js:18-26 | without a parser the outcome is the same for any readers, so nothing is read, and the error's filename is the chosen path |
| `ParseStructureFile.VerbatimKinds` | lib/parse/parseStructureFile.js:28-41 | for readme, glossary and langs, the parser method of the kind receives the text exactly as read, and the include reader plays no part |
| `ParseStructureFile.SummaryWithoutMarkers` | lib/parse/parseStructureFile.js:34-39 | a summary text with no `{%` reaches `parseSummary` unchanged |
| `ParseStructureFile.SummaryIncludesResolved` | lib/parse/parseStructureFile.js:34-39 | for a summary text spelled by a list that reads back as itself (every text is, by `EveryTextReadsBack`), `parseSummary` receives the reference resolution of the includes, and an unreadable include fails the parse with the read's error |
| `ParseStructureFile.InvalidKindRejected` | lib/parse/parseStructureFile.js:28-44 | for an unknown kind the file is still read first: a failing read returns its own error, otherwise the parse fails with the invalid-type error |
| `PageGeneration.FindPage` | lib/output/generatePages.js:21-24 | finds the first page, in list order, whose path ends with the target, or reports that no page's path does |
| `PageGeneration.ReducePages` | lib/output/generatePages.js:33-46 | the loop's outcome and log equal the specification `Fold`: one debug line per page before its step, the output threaded from page to page, and a stop at the first failure with an error line and that error |
| `PageGeneration.GeneratePages` | lib/output/generatePages.js:11-47 | without `onPage` the result is `output` and nothing is logged, whatever the pages. Without a target the whole list is folded in order. With a target, only the first page whose path ends with it is folded, or only the first page when none matches |
| `PageGeneration.FoldAppend` | lib/output/generatePages.js:33-46 | folding `xs + ys` is folding `xs`, then, if that succeeded, folding `ys` from the output `xs` produced. The accumulator after one page is exactly the input of the next |
| `PageGeneration.FoldSucceeds` | lib/output/generatePages.js:33-46 | when every step succeeds along a chain of outputs starting at `output`, the result is the last output of the chain, and the log has exactly one debug line per page, in list order |
| `PageGeneration.FoldAbortsAt` | lib/output/generatePages.js:38-45 | when page k fails, the run returns that error, and its log is the debug lines of pages 0..k followed by one error line naming page k. The outcome does not depend on any later page |
| `PageGeneration.FoldOutcome` | lib/output/generatePages.js:33-46 | conversely, every successful run threads such a chain through all pages, and every failed run fails at some page k after a successful chain through the pages before it |
| `PageGeneration.SinglePageRun` | lib/output/generatePages.js:28-46 | a one-page list is a single step from `output`: one debug line, plus an error line only if the step fails |

## Left out

- Real I/O is not modelled: `fs.readAsString`, `nativeFS.readFileSync`, `process.cwd()` and `nativePath.join`. The two readers are total functions returning `Result`, and the working directory is a parameter. Joining is concatenation with `/`, with no normalisation of `..`, `.` or repeated separators. The Buffer returned by `readFileSync` is taken to be its text.
- `lookupStructureFile`, the parser implementations (`parseReadme`, `parseGlossary`, `parseSummary`, `parseLanguages`), `generatePage` and the generator's `onPage` are not shown. They are uninterpreted function parameters that may fail. Their errors are passed on unchanged as `Raised`.
- The promise library and asynchrony are not modelled. Every step is awaited before the next, so a `Result` captures the order fully.
- Log lines keep only their level and the page path, not the message text.
- `kwargs.summary` is modelled as an optional string. Non-string values of that option are not modelled, and neither is a missing `kwargs` object beyond "not given".
- `MatchMarker`, `ExpandIncludes`: the source regular expression captures the path with a greedy `(.*)`, which cannot cross a line break (`\n`, `\r`, U+2028, U+2029), followed by `\s+%}`, whose whitespace run can. So the source's capture runs from the path to the last point on the path's line, its end included, from which a non-empty whitespace run, possibly across line breaks, reaches `%}`. The model approximates this by a path with no whitespace, followed by the first whitespace run and `%}`. For a marker whose path has no whitespace, the two capture the same path in two cases:
  - The run before `%}` starts with a line break (`{% include a\n %}`).
  - The run is one character, and no whitespace run that starts later on the marker's line, or at its end, reaches a `%}`.

  They differ on these inputs:
  - A path with whitespace inside other than a line break (`{% include my file %}`), and an empty path (`{% include  %}`). The source captures them. The model does not recognise them and leaves the text unchanged.
  - A run before `%}` of two or more characters that does not start with a line break, when nothing later on the line qualifies (`{% include a  %}`, `{% include a \n%}`). The source keeps in the captured path the part of the run before its first line break, or all of the run but its last character when the run holds no line break (`a ` in both examples). The model substitutes the file `a`.
  - A run before `%}` with no line break, when a whitespace run that starts later on the marker's line, or at its end, reaches a `%}`. Examples: `{% include a %}{% include b %}`, `{% include a %}\n%}`, `{% include a  %}\n%}` and `{% include a %}{% include b %}\n %}`. The source captures up to the last such starting point and reads one file: `a %}{% include b`, `a %}`, `a  %}` and `a %}{% include b %}` respectively. The model reads `a` and keeps the rest of the text, reading `b` too where a second marker follows.
- `ExpandPrinted`, `SummaryIncludesResolved`: `Resolve` describes the model's reading of a marker. On the inputs listed above, where the model's reading differs from the source's, these lemmas state what the model does, not what the source does.
- `GeneratePages`: requires a non-empty page list when the generator has an `onPage` and a target path is given. With an empty list, `pages.length = 1` leaves a hole in the array. What happens next depends on `lib/utils/promise`, which is not part of this model.
- `GeneratePages`: the page list from `getPages()` is taken to be a plain array, so `pages.length = 1` truncates it to its first page. The truncation happens on a local copy (`selected := selected[..1]`), not on the book's own list.
- `ReducePages`, `GeneratePages`: a failure of the renderer is taken to be a rejected promise. A synchronous throw from `generatePage` (lib/output/generatePages.js:38) would bypass the `.fail` handler at line 42, so no error line would be logged for that page. The model always logs it.
- A page is reduced to its source file's path. The calls to the renderer are not traced apart from the log lines. "Debug line before rendering" is the order inside one step of `Fold` and `ReducePages`.
