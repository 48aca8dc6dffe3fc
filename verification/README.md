# Copyright header checker — a Dafny model of its reconciliation core

This project models the core of a Deno library that checks, and in update
mode rewrites, the copyright/license header of every source file under a
directory (`mod.ts`). Stripped of the directory walk and the file calls, that
core is a handful of string functions:

- **Option validation** (`validateOptions`): four checks in a fixed order;
  the first one that fails decides the error message.
- **Header rendering**: the timeframe (`firstYear-currentYear` or just
  `currentYear`), the template with its first `{TIMEFRAME}` replaced by it,
  and the two template fragments around the placeholder.
- **Classification** of each file as *current* (holds the rendered header),
  *stale* (holds both fragments, anywhere, in any order) or *missing*.
- **Rewriting** in update mode: a missing header is prepended on its own
  line; a stale one is overwritten from the first occurrence of the start
  fragment to the end of the first occurrence of the end fragment.
- **The walk** (`walkFiles`) as a fold over the visited `(path, content)`
  entries, collecting the missing and stale paths in visitation order, and
  the boolean result of `checkCopyrightHeaders`.

Modules, in dependency order: `Wrappers` (Option, Result), `Strings`
(`indexOf` as "first index of a subsequence, or -1"), `Decimal` (integer
rendering and a parser that reads it back), `Config` (options and
validation), `Header` (timeframe, template split, rendered header),
`Reconcile` (classification and rewrite of one file) and `Scan` (the walk
and the two entry points).

Modelling choices:

- The template field is called `headerText`, the name the tests, the driver
  scripts and the JSON configuration use; the `Options` type in mod.ts:12
  declares it as `licenseText`. The model uses one name throughout.
- The current year is a parameter instead of `new Date().getFullYear()`.
- `firstYear` is an optional integer. As in the code (and unlike a plain
  reading of "when present"), a first year of `0` counts as unset, because
  the code tests the number's truthiness (mod.ts:127, mod.ts:44).
- The checks run in the code's fixed order (first year, extensions, root
  directory, template); the model states the "earliest failing check wins"
  rule explicitly.
- The walk's output is given as a sequence of entries that already passed
  the extension filter and the exclusion patterns. Writes are modelled as
  the returned `after` sequence: every visited entry as it stands after the
  walk.
- The stale rewrite is taken literally: both searches are independent, so
  when the end fragment's first occurrence precedes the start fragment's,
  the splice keeps the text between them twice. Because both indices lie
  within the content, the result always contains the rendered header, so
  update followed by check succeeds unconditionally.

## Model

| member | source | states |
|---|---|---|
| `Config.Validate` | mod.ts:126-133 | Succeeds exactly when none of the four checks is violated; otherwise fails with a violated check such that every check earlier in the fixed order holds (first year, extensions, root directory, template) |
| `Config.UnsetFirstYearSkipsCheck` | mod.ts:127-128 | An absent first year or a first year of 0 never yields "Invalid first year", whatever the current year |
| `Config.ValidFirstYearInRange` | mod.ts:127-128 | After successful validation, a set first year lies strictly above 1900 and at most the current year |
| `Config.MessagesDistinct` | mod.ts:128-132 | The four error messages are pairwise different, so the message identifies the failing check |
| `Decimal.NatToString` | mod.ts:44 | The decimal rendering of a natural number is non-empty, all digits, and has no leading zero |
| `Decimal.ParseIntToString` | mod.ts:44 | Parsing the rendering of any integer (minus sign for negatives) gives the integer back |
| `Decimal.CanonicalRoundTrip` | mod.ts:44 | Every canonical decimal string parses, and rendering its value gives the same string back |
| `Header.ValidatedSpan` | mod.ts:41-44 | Once the options validate, the timeframe is the current year alone, or a range whose first year lies after 1900 and strictly before the current year, ending at the current year |
| `Header.ParseRenderSpan` | mod.ts:44 | Rendering a span (`first-last` or `year`) and reading it back yields the same span, negative years included |
| `Header.Timeframe` | mod.ts:44 | The timeframe string is in canonical form (no leading zeros, no `-0`) and reads back as exactly the span the first and current year determine |
| `Header.RenderParseSpan` | mod.ts:44 | A canonical timeframe text is the rendering of the span it reads back as |
| `Header.ParseSpanInjective` | mod.ts:44 | Two canonical timeframe texts that read back as the same span are the same text, so the timeframe string of a run is unique |
| `Header.ReplaceFirst` | mod.ts:45 | `replace` with a string pattern leaves the string unchanged when the pattern is absent, and otherwise puts the replacement at the first occurrence, keeping the text before it and after it |
| `Header.SplitFirstTwo` | mod.ts:46 | The two destructured elements of `split`: the whole string and nothing when the separator is absent; otherwise the first piece ends at the first occurrence, and the second piece runs from there to the next occurrence (first occurrence in the remainder) or to the end; neither piece holds the separator |
| `Header.MakeHeader` | mod.ts:45-46 | For a template holding `{TIMEFRAME}` exactly once, the first two split pieces are fragments with `template == start + token + end`, neither holding the token, and the replaced template is `start + timeframe + end` |
| `Strings.IndexOf` | mod.ts:57-58 | `indexOf` returns the first index at which the pattern occurs, and -1 exactly when it occurs nowhere |
| `Reconcile.Classify` | mod.ts:57-58 | Current iff the content contains the rendered header; stale iff not current and both fragments occur; missing iff not current and not both fragments occur |
| `Reconcile.Prepend` | mod.ts:69 | The missing-header rewrite starts with the rendered header, then a newline, then the original content unchanged |
| `Reconcile.Splice` | mod.ts:61-63 | The stale rewrite keeps the content before the first start-fragment occurrence, puts the rendered header there, and keeps the content after the end of the first end-fragment occurrence |
| `Reconcile.Fix` | mod.ts:57-71 | A current file is left unchanged, missing and stale files get the corresponding rewrite, and every result is classified current |
| `Reconcile.FixIdempotent` | mod.ts:57-71 | Rewriting an already rewritten content changes nothing |
| `Reconcile.HeaderLineIsCurrent` | mod.ts:57 | A file starting with the rendered header on its own line is current |
| `Reconcile.ReplacesOldHeader` | mod.ts:58-63 | A file starting with `start + oldTimeframe + end` (end fragment not earlier, rendered header absent) is stale, and its rewrite is the rendered header followed by the rest of the file |
| `Scan.Walk` | mod.ts:39-76 | A validation failure ends the run with that error before any entry is considered; check mode leaves every entry unchanged; update mode keeps each path in place, leaves current files alone, and leaves every file current |
| `Scan.VisitFile` | mod.ts:56-71 | The loop body's searches and rewrites, in the source's order, yield the file's class and exactly the content `Reconcile.Fix` gives in update mode (the original content in check mode) |
| `Scan.VisitFiles` | mod.ts:48-73 | The loop appends each stale or missing path in visitation order and leaves the lists and the visited entries equal to those the fold describes |
| `Scan.WalkFiles` | mod.ts:39-75 | Validation followed by the loop computes exactly the fold `Scan.Walk` |
| `Scan.NoneListedIffAllCurrent` | mod.ts:27 | Both lists are empty exactly when every visited entry is current |
| `Scan.CheckCopyrightHeaders` | mod.ts:24-28 | Fails exactly when validation fails; otherwise returns true iff every visited file contains the rendered header |
| `Scan.UpdateCopyrightHeaders` | mod.ts:34-37 | Fails exactly when validation fails, with the validation error; otherwise each visited file keeps its path and gets the content `Reconcile.Fix` gives it (unchanged if current, header prepended if missing, header spliced in if stale), so every file is current afterwards |
| `Scan.UpdateThenCheck` | mod_test.ts:156-157 | Update followed by check with the same options and year returns true |
| `Scan.UpdateIdempotent` | mod.ts:57-71 | A second update lists no file and changes no content |
| `Scan.PathsWithMembership` | mod.ts:57-71 | A path is listed under a class exactly when some visited entry with that path has that class |
| `Scan.PathsWithAppend` | mod.ts:48-73 | The lists follow visitation order: entries visited first contribute their paths first |
| `Scan.PathsWithPartition` | mod.ts:57-71 | Current, stale and missing counts add up to the number of visited entries |
| `Scan.ClassesExclusive` | mod.ts:57-71 | With distinct paths, each entry is listed under its own class and under no other, so a current file is in neither list |

## Left out

- Directory walk, extension filter and exclusion globs: done by the Deno standard library's `walk` and `globToRegExp` (mod.ts:1-2, 51-55), which are not part of this model; the walk's filtered output is an input.
- File reads and writes (`Deno.readTextFile`, `Deno.writeTextFile`): the content of each entry is given and writes become the `after` sequence; I/O failures, the abort on the first failure and the lack of rollback are therefore not modelled.
- The current year: a parameter rather than a clock read.
- Console reporting (`outputCheckResult`, `outputUpdateResult`, the `quiet` flag): presentation only.
- The CLI entry points (checker.ts, updater.ts) and the configuration scripts (headerUpdater.ts, project_utils/headerUpdater.ts, dependencyUpdater.ts): argument checks, JSON loading and a call into the core.
- Async/await: the loop is sequential in effect.
- Non-integral or NaN first years: JavaScript numbers are floating point; the model takes `firstYear` as an integer.
- `Scan.Walk`: requires the template to hold `{TIMEFRAME}` exactly once whenever validation passes (so does every member built on it). With no placeholder the code destructures an undefined end fragment and searches for the text "undefined"; with several, the replaced header keeps the later placeholders. Neither behaviour is modelled.
- `Header.MakeHeader`: requires the placeholder exactly once, for the same reason; `SplitFirstTwo` and `ReplaceFirst` themselves follow the code for any number of occurrences, zero included (the missing second element is `None`).
- UTF-16 code units: JavaScript strings, and the indices and lengths of `indexOf`, `substring` and `.length` (mod.ts:57-63, mod.ts:132), count UTF-16 code units, while the model's strings are sequences of Unicode scalar values. The two agree on well-formed text; a lone surrogate, which a JavaScript or JSON literal can hold, cannot be represented.
- `String.prototype.replace` special `$` patterns: the replacement is a timeframe of digits and `-`, so they never arise.
