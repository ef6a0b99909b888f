# A model of the Lophilo packaging crawl, its format compiler and its sample display

Four algorithmic cores of the repository, and one small printer beside them, as Dafny models
with proofs over every input, every schedule and every run.

**The dependency crawl and the build file** (`npm2debian/dumpversion.js`). A crawl fetches
package descriptors, records each at a level of a tree, and fetches every name that is listed
for the first time. Fetches resolve in any order and callbacks run one at a time, to the end
(section 2.2.4 of Promises/A+). `CrawlModel` is that step system: the fetches in flight, the
tables, and the one shared `currentDepth` variable, which is assigned when a name is queued and
read again when a callback fires. `Crawling.Crawler` is the same code on mutable fields, tied to
it method by method. `CrawlTheorems` proves what holds for every finite package graph and every
schedule, and `CrawlDepth` for which graphs every crawl records what a package lists below
it. `BuildOrder`, `BuildFile` and `BuildTheorems` take the recorded tree through
`debianizeTree`, `updatePkgNames` and `writeMakefile`; `MakefileText` is a small reader of
makefiles, written independently, that the generated text is put through, and `Recipes` reads
what `make` would carry out. `Naming` is the table
of outside names that the builds fill (`npm2debian/lib/cli.js`), and `Execution` joins all of it,
with whatever earlier results are on disk.

**The format compiler** (`demos/oscilloscope/public/String.js`). `FormatRegex` gives the
specification pattern of `sprintf.re` twice: as the list of matches in the order a backtracking
matcher tries them, and as one deterministic scan. `FormatTokens` cuts a format into pieces and
relates the cutting to escaping. `FormatCompiler` has the interpreter, the compiler, which
produces source text, and a reader of that text: string literals with their escapes, handler
calls, one array, joined. `FormatTheorems` proves that compiled text means what the interpreter
does, `FormatExactness` exactly for which formats, and with which handlers it shows;
`FormatMethods` has the loops. `FormatItems` describes formats without the pattern, as lists of
characters and of specifications by their parts; `FormatMeaning` says what such a list means, with
the arguments each handler gets, and `FormatSource` which source text it compiles to.
`HumanNumbers` and `CamelCase` are the printer and parser pairs of the same file, and `CamelLaws`
what each half of the second does to a name.

**The sample pipeline** (`cdev/lophilo.c`, `lophilo-node/lophilo.js`,
`demos/oscilloscope/public/client.html`). `Driver` is the timer callback with its triangle wave
and its 32-slot queue, `RecordCodec` the byte records and their decoder, `Clients` the page's
reader. `Pipeline` runs them together over any interleaving of ticks, reads and page openings.
`PipelineWindows` proves what a page plots of any stretch of the stream, `PipelineRuns` what
every run keeps, and `PipelineTheorems` what the plotted points and the estimate of skipped
samples are worth; `PipelineTimes` sets the times of the points against the ticks' clock.
`Sessions` carries whole runs out on the device and page objects.

**The scrolling chart** (`demos/oscilloscope/public/smoothie.js`). `SeriesModel` is a series as a
function of the events it sees, `Charts` the classes that update it in place, and `Edges` the left
edge of the visible part, with the arithmetic in `Reals`.

**Version relations** (`npm2debian/lib/cli.js`). `DebianRelations` prints comparator lists and
reads the text back by section 7.1 of the Debian Policy Manual.

Texts are sequences of characters and numbers are unbounded integers or exact reals, except
where the width matters: the device's fields are unsigned 32-bit numbers whose sums wrap, and
the decoder sees them as signed 32-bit numbers. Fetch results, timestamps, read sizes, the
registry, the versions npm's cache adds and the type handlers of `sprintf` are parameters.

## What turned out not to hold

Each of these is kept as the code has it; the condition under which the promise is met is proved
in both directions, and a lemma or method named with it has an input on which it fails
(`Counterexamples`, `FormatExamples`, `SampleExamples`).

- A listed package is not always recorded deeper than every package that lists it. Every crawl
  of a graph does so exactly when nothing reachable lists the target and no name is listed by
  two reachable packages (`AlwaysDeeperExactly`); within one crawl it is so exactly for packages
  processed later (`DeeperIffLater`). `NotAlwaysDeeper` is a run without cycles in which it is
  not. A package is always deeper than the one that queued it.
- Not every package is built once: exactly when some reachable package lists the crawl's own
  target, the target is fetched, recorded and built twice, and the Makefile has two rules for it
  (`FetchedOnce`, `TargetsUnique`). A package that lists itself is enough (`ListedTargetTwice`).
- A first run does not get past the names when `serve` is reachable. No build is ever started for
  `serve`, so none records its name, and yet a name is asked for every recorded package. If no
  build fails, the run ends with the error that `serve` has no name exactly when `serve` is
  reachable (`ServeUnnamed`, `ServeBreaksRun`); in general a run gets past the names exactly when
  every reachable package was named before, or is not `serve` and is built (`OwnNames`).
- A Makefile made for the target `serve` names a prerequisite of `all` that, unless another
  package has the same archive, no rule builds (`MakefileClosed`, `ServeNotBuilt`). This takes
  names from disk or an injected look-up, because the code's own table never has `serve`.
- The removal commands stop at the first package without a logical name; exactly when every
  package built has one they are the reverse of the build order (`UninstallReversed`,
  `RemovalLost`). Only names from disk or an injected look-up can lack one: what builds record is
  a prefix and the package's name in lower case (`FirstRunSucceeds`).
- `compile` and `sprintf` disagree on formats with a line terminator, a quoted padding character
  `"` or `\`, or an explicit index of zero, and on no others (`CompileCorrect`). A line
  terminator spoils every call (`BreakDiffers`); of the other two, `TellingDiffers` says for any
  handlers when a call shows it. `LineBreakFormat`, `QuotedPadFormat` and `ZeroIndexFormat` are
  calls of one format each.
- `uncamelize` does not undo `camelize` on names in which two dashes precede a letter; the
  repetition is lost, and nothing else is (`ThereAndBack`, `RoundTripExactly`, `DashLost`). Nor does
  `camelize` take out every dash before two letters: one is left exactly where two were
  (`DashesLeft`).
- A page that opens while the records of a tick are being read plots its first point with only
  the part of the tick's time that was still to come (`PointsPairOwnTick`, `OpenedInside`).
- The page's estimate of skipped samples is a lower bound. It is right exactly when every
  received sample is the next one, or is on the same slope of the wave as its predecessor and
  that one is not 0 (`SkippedAtMostLost`). In one run 699 samples are lost and the estimate is
  minus one (`CornerCountsBackwards`).
- Pruning can delete a point that is not before the cutoff: only the first point ever appended,
  and exactly when the second one is before the cutoff and the first is not
  (`NothingCurrentLost`, `CurrentPointLost`).
- `human` has no number to print once a divisor of 0 has been added, for numbers below every
  positive divisor and for no others (`ZeroDivisor`, `ZeroAdded`).
- A range with several comparators in one list is printed as alternatives and so may accept more
  than npm does. Nothing is ever refused (`NothingRefused`). A range keeps its meaning in every
  order of versions exactly when its lists cover for each other, which takes trying a version
  before, at and after each version named (`RangeExact`); a single list does exactly when it
  repeats one comparator (`OneListExact`); an interval comes out accepting everything
  (`IntervalAcceptsAll`).

## Model

| member | source | states |
|---|---|---|
| `CrawlTheorems.CrawlFindsReachable` | npm2debian/dumpversion.js:158-220 | For every finite package graph, cycles included, every order in which fetches resolve and every leftover value of the shared variable: when nothing is in flight, the table's keys are exactly the packages reachable from the target, each with its own record |
| `CrawlTheorems.EveryScheduleEnds` | npm2debian/dumpversion.js:184-220 | No schedule resolves more than one fetch plus one per listed reachable name, and it has resolved exactly that many if and only if nothing is in flight |
| `CrawlTheorems.FetchedOnce` | npm2debian/dumpversion.js:184-220 | In a finished crawl each reachable package was fetched and recorded once, the target a second time exactly when some reachable package lists it, nothing else ever |
| `CrawlTheorems.TreeAlwaysContiguous` | npm2debian/dumpversion.js:158-164 | After every step of every crawl the levels present are exactly 0 to `maxDepth`, none is empty, and the target is the first name of level 0 |
| `CrawlTheorems.DeeperThanQueuer` | npm2debian/dumpversion.js:184-203 | In every run, every package fetched as a dependency is recorded strictly deeper than the first package that listed it, the one that queued it |
| `CrawlDepth.AlwaysDeeperExactly` | npm2debian/dumpversion.js:184-203 | For every package graph: all crawls record each listed package strictly deeper than every package listing it, if and only if no reachable package lists the target and no name is listed by two reachable packages |
| `CrawlDepth.TwoListersNotDeeper` | npm2debian/dumpversion.js:184-203 | Whenever two packages list one name there is a finished crawl in which that name is not deeper than one of them |
| `CrawlDepth.FinishRun` | npm2debian/dumpversion.js:184-220 | Every run, from any point, goes on to a finished crawl |
| `CrawlTheorems.DeeperIffLater` | npm2debian/dumpversion.js:184-203 | In one crawl a listed package is strictly deeper than one that lists it if and only if it was processed after it |
| `CrawlTheorems.NotAlwaysDeeper` | npm2debian/dumpversion.js:184-203 | A finished run of three packages without a cycle in which a package and one it lists share a level |
| `CrawlTheorems.LevelOrder` | npm2debian/dumpversion.js:184-203 | In every run recorded levels never decrease in processing order, and only the last package of a level can list anything |
| `CrawlTheorems.QueuedIsMaximum` | npm2debian/dumpversion.js:186-196 | At every moment of every crawl `alreadyQueued` has exactly the names listed so far, each with the maximum of level + 1 over the processed packages listing it, hence at least 1, so that its truthiness is membership |
| `BuildOrder.TreeCounts` | npm2debian/dumpversion.js:158-220 | The finished tree, read level by level, is the processing order: each reachable package once, a listed target twice, as many entries as fetches |
| `CrawlModel.RunInv` | npm2debian/dumpversion.js:158-220 | Every state of every run keeps the invariant: one fetch per queued name, in flight or done; `alreadyQueued[k]` is the maximum of level + 1 over the processed packages listing `k`; each level is the number of dependency-bearing packages processed before; table and tree hold exactly what was processed |
| `CrawlModel.StepInv` | npm2debian/dumpversion.js:184-204 | One callback, of any fetch in flight, keeps every part of that invariant |
| `CrawlModel.CellIsCurrent` | npm2debian/dumpversion.js:188-199 | The depth a callback reads from the shared variable is the number of dependency-bearing packages processed so far, whoever assigned it last |
| `CrawlModel.ReadyOrigin` | npm2debian/dumpversion.js:197-215 | A fetch that can resolve is the target's own, first of all, or that of a name an earlier package listed, so the shared variable was assigned before it is read |
| `Packages.AllDepsMeaning` | npm2debian/dumpversion.js:172-182 | The merged table maps a name to its run-time version if it has one and otherwise to its development version, and each name occurs in it once |
| `Packages.RecordMeaning` | npm2debian/dumpversion.js:172-182 | A package's entry has the two tables of its published version under their own names, and a merged one that lists the development names first, in their order, and then the run-time names that are new, in theirs |
| `Crawling.Crawler.constructor` | npm2debian/dumpversion.js:206-213 | A new crawl has empty tables and the target's fetch in flight; the shared variable keeps what an earlier crawl left |
| `Crawling.Crawler.UpdateTree` | npm2debian/dumpversion.js:158-183 | The new state is the old one with the package entered at the level; without a usable latest version it fails with the name already on the tree and the table untouched |
| `Crawling.Crawler.ProcessDesc` | npm2debian/dumpversion.js:184-204 | The new state is the model's processing step of the old one: recorded, listed names raised or fetched, the shared variable set only if something is listed |
| `Crawling.Crawler.OnDep` | npm2debian/dumpversion.js:197-200 | A callback takes its depth from the shared variable as it stands when it fires, and is one delivery of the step system |
| `Crawling.Crawler.Crawl` | npm2debian/dumpversion.js:158-220 | Whichever fetch resolves next, the crawl ends, its history is a run of the step system, and its table answers for exactly the reachable packages; under each name are the run-time table, the development table and their merger of that package's latest published version |
| `Crawling.QueueEachIs` | npm2debian/dumpversion.js:187-202 | Queueing a table name by name equals queueing it at once: levels raised to the maximum, exactly the unseen names fetched |
| `BuildOrder.BuildOrderIsReverse` | npm2debian/dumpversion.js:81-96 | After a crawl no level is missing, and walking the tree deepest level first, each from its end, is the processing order backwards without `serve`, if and only if no package has an empty name |
| `BuildOrder.BuildOrderCounts` | npm2debian/dumpversion.js:81-107 | After every finished crawl the walk, which both consumers make, visits every reachable package but `serve` once, a listed target twice, nothing else, and meets no missing level |
| `BuildFile.DebianizeTree` | npm2debian/dumpversion.js:76-107 | Starts one build per name of the walk, in its order and with that name's tables; stops at the first unrecorded name or missing level with just the jobs before it |
| `BuildFile.UpdatePkgNames` | npm2debian/dumpversion.js:295-306 | Names exactly the recorded packages, each as looked up, or fails with the first package in the table's order that has no name |
| `BuildFile.WriteMakefile` | npm2debian/dumpversion.js:226-283 | The text is the lines of the file the same walk prescribes, whose recipes `Recipes.RecipesOfCrawl` reads back, or the error of the first package, dependency or level on which it fails |
| `BuildFile.WriteUninstall` | npm2debian/dumpversion.js:274-277 | The removal commands are those of the names popped off the stack of built names up to the first empty one |
| `BuildTheorems.MakefileClosed` | npm2debian/dumpversion.js:226-272 | After a finished crawl, with every reachable package named: the file is written, and read back as a makefile every prerequisite in it is the target of a rule in it if and only if the target's archive is built, which it is for every target but `serve` |
| `BuildTheorems.FileReadsBack` | npm2debian/dumpversion.js:233-277 | Splitting the text into lines, headers, targets and prerequisites gives back the rules, with their dependency archives in order, and the three fixed targets |
| `MakefileText.HeaderReads` | npm2debian/dumpversion.js:266 | Splitting a printed rule header gives back its archive and its dependency archives, all of them and in order |
| `Recipes.RecipesOfCrawl` | npm2debian/dumpversion.js:226-283 | After a finished crawl, with every reachable package named, an independent reader of recipes finds in the text: `.PHONY` and `all`, then for each package of the walk, in order, its archive's file waiting for the files of its listed packages but `serve`, in order, with the commands to say its name, to build in its own recorded directory, and to install the target, and last the removals; the directory reads as recorded if and only if it holds no `;` |
| `Recipes.RecipesRead` | npm2debian/dumpversion.js:233-277 | The same for any rules: splitting the text into recipes gives one per rule, in order, between the fixed ones, each with exactly its three commands |
| `Recipes.ArchivesInOrder` | npm2debian/dumpversion.js:254-259 | The prerequisites of a package are the files of the packages in its merged table, in its order, without `serve` |
| `BuildTheorems.FinishedRules` | npm2debian/dumpversion.js:242-271 | After a finished crawl no branch of `writeMakefile` fails, and the rules are those of the walk's packages in the walk's order |
| `BuildTheorems.TargetsUnique` | npm2debian/dumpversion.js:247-271 | With distinct archives no two rules have the same target if and only if no reachable package lists the crawl's target, or that target is `serve` |
| `BuildTheorems.UninstallReversed` | npm2debian/dumpversion.js:238-277 | After a finished crawl the removal commands, read back from the text of the file, name the packages in the exact reverse of the order their rules are in, if and only if every package built has a logical name |
| `BuildTheorems.RemovalsReversed` | npm2debian/dumpversion.js:270-277 | In any file, the removal commands read back are the rules' logical names in reverse if and only if none is empty, and fewer otherwise |
| `Naming.RunBuilds` | npm2debian/lib/cli.js:160-202 | Whatever order the builds end in, the table then has what it had, and for each package built without failing its prefixed lower-case name, directory and archive |
| `Naming.SourcePrintable` | npm2debian/lib/cli.js:176-202 | What a build records is never empty, and is printable in a build file when prefix, package and version are words |
| `Naming.SourceNamed` | npm2debian/lib/cli.js:180-202 | `Express` 3.0.0 with the prefix `lophilo-` is recorded as `lophilo-express`, in `lophilo-express-3.0.0`, as `lophilo-express_3.0.0-1_all` |
| `Execution.Execute` | npm2debian/dumpversion.js:311-346 | The stages with results on disk are skipped; the others give a crawl's record of the graph, the builds of its whole walk or those before the first failure, and the names, looked up in the table as the builds leave it; the outcome is the Makefile made from these, or the first failure. With names on disk no build is started |
| `Execution.NamesFound` | npm2debian/dumpversion.js:76-112 | From what a crawl recorded, the builds started are exactly the walk's, in its order, each reachable package but `serve` once and a listed target twice; and the run gets past the names if and only if every reachable package has one, failing otherwise with one that has none |
| `Execution.OwnNames` | npm2debian/dumpversion.js:295-306 | With names recorded by the builds, the run gets past the names if and only if every reachable package was named before, or is not `serve` and does not fail to build |
| `Execution.ServeUnnamed` | npm2debian/dumpversion.js:92-93 | In a first run without failing builds: it gets past the names if and only if `serve` is not reachable, and otherwise fails for want of a name for `serve` |
| `Execution.FirstRunSucceeds` | npm2debian/dumpversion.js:311-346 | A first run without failing builds that does not reach `serve`, over packages and versions that are words, fails nowhere; its Makefile is closed; and it removes packages in the exact reverse of the order it builds them in |
| `Execution.RunSucceeds` | npm2debian/dumpversion.js:311-346 | Whatever table of printable names covers the reachable packages, the run fails nowhere, and the Makefile is closed if and only if its target is built |
| `Counterexamples.ListedTargetTwice` | npm2debian/dumpversion.js:206-271 | The crawl of a package that lists itself records it twice, and its Makefile has two rules for one target |
| `Counterexamples.ServeBreaksRun` | npm2debian/dumpversion.js:299-304 | A first run over a package that lists `serve` fails for want of a name for `serve`, whatever the order of the fetches |
| `Counterexamples.ServeNotBuilt` | npm2debian/dumpversion.js:232-250 | With a name for `serve` from elsewhere, the Makefile for the target `serve` alone has a prerequisite that no rule builds |
| `Counterexamples.RemovalLost` | npm2debian/dumpversion.js:270-277 | With names from disk that give it no logical name, a package is built by the file and not removed by it |
| `FormatRegex.ScanIsFirstMatch` | demos/oscilloscope/public/String.js:662 | Of all the ways the specification pattern can match, the one backtracking prefers is the one a single scan finds, and there is one exactly when the scan finds one |
| `FormatTokens.EscapeCommutes` | demos/oscilloscope/public/String.js:766 | Cutting the escaped format with the shared pattern is escaping the pieces of the cut format, but for specifications whose padding character escaping doubles |
| `FormatTokens.TextPlain` | demos/oscilloscope/public/String.js:662 | The text of a specification holds no quote, backslash or line terminator except as its quoted padding character |
| `FormatItems.PartsMatch` | demos/oscilloscope/public/String.js:662 | A specification written from its parts (index and mark, sign, plain or quoted padding, width, precision, kind) is matched, by backtracking and by the scan, as just these parts, whatever follows it |
| `FormatItems.MatchParts` | demos/oscilloscope/public/String.js:662 | Whatever is matched is a specification written from such parts |
| `FormatItems.EveryFormat` | demos/oscilloscope/public/String.js:642-662 | Every text is the writing of some list of characters, doubled percent signs and specifications that reads as that list; a lone `%` is a character exactly when it begins nothing |
| `FormatTheorems.CompileReads` | demos/oscilloscope/public/String.js:766-785 | The source text `compile` builds reads back, escapes undone, as the program of the format's pieces; it is a syntax error if and only if the format has a line terminator |
| `FormatTheorems.ProgramMeans` | demos/oscilloscope/public/String.js:782-785 | Evaluating the program's literals and calls and joining them gives what its pieces give one by one, for all arguments and handlers |
| `FormatTheorems.SafeAgrees` | demos/oscilloscope/public/String.js:623-662 | For every safe format, argument list and choice of handlers, running the compiled function gives the string, or the exception, that `sprintf` gives |
| `FormatMeaning.SprintfMeans` | demos/oscilloscope/public/String.js:642-660 | For every format, given by its items: characters stand for themselves, and a handler gets the argument its index names or the next one, and the list of its text, index, sign, last padding character or a blank, width, precision and kind, in this order |
| `FormatMeaning.CompiledMeans` | demos/oscilloscope/public/String.js:766-785 | For every format without line terminators, compiled code gives the same lists to the same handlers; an index of 0 gives it no argument, and a padding character `"` or `\` leaves the specification as text. With a line terminator it is a syntax error |
| `FormatSource.CompileIs` | demos/oscilloscope/public/String.js:766-785 | The compiled source of every format, to the letter: literals with quotes and backslashes escaped, and per specification a call with the argument's number and the seven fields as literals |
| `FormatExactness.BreakDiffers` | demos/oscilloscope/public/String.js:785 | With a line terminator in the format the compiled function is a syntax error for all arguments and handlers |
| `FormatExactness.CompilesPieces` | demos/oscilloscope/public/String.js:766-783 | With one argument throughout, compiled code shows piece by piece what `sprintf` shows, but the text of a specification that escaping spoils, and a missing argument for an explicit index of zero |
| `FormatExactness.TellingDiffers` | demos/oscilloscope/public/String.js:623-786 | For any handlers and any argument: if `sprintf` shows something for every piece, and compiled code throws, or shows different pieces of which none is longer or none is shorter, the two results differ |
| `FormatExactness.OnePieceTells` | demos/oscilloscope/public/String.js:655-779 | Where one piece only is spoiled, any difference the handler makes there is enough |
| `FormatExactness.UnsafeDiffers` | demos/oscilloscope/public/String.js:746-786 | For every unsafe format there are arguments and handlers for which the two differ |
| `FormatExactness.CompileCorrect` | demos/oscilloscope/public/String.js:746-786 | The two agree on all arguments and handlers if and only if the format has no line terminator, no quoted padding character `"` or `\` and no explicit index of zero |
| `FormatExamples.ZeroIndexFormat` | demos/oscilloscope/public/String.js:655-779 | `%0$s` is unsafe: called with `a`, `sprintf` shows the argument and compiled code a missing one |
| `FormatExamples.QuotedPadFormat` | demos/oscilloscope/public/String.js:662-766 | `%'"5s` is unsafe: compiled code prints the specification itself |
| `FormatExamples.LineBreakFormat` | demos/oscilloscope/public/String.js:785 | A format of one line break is printed by `sprintf` and compiles to a syntax error |
| `FormatExamples.TimeFormat` | demos/oscilloscope/public/client.html:13-16 | The page's `%d.%06d` gives its second handler padding `0`, width `6` and no precision |
| `FormatMethods.RunSprintf` | demos/oscilloscope/public/String.js:623-660 | The replacement loop with its running index gives the meaning of the items of the format, as `SprintfMeans` spells it out |
| `FormatMethods.RunEscape` | demos/oscilloscope/public/String.js:766 | Replacing character by character computes the escaping that `EscapeCommutes` is about |
| `FormatMethods.RunCompile` | demos/oscilloscope/public/String.js:746-786 | The replacement loop over the escaped format gives the source text of the items of the format, as `CompileIs` spells it out, which `CompileReads` reads |
| `HumanNumbers.HumanTables.constructor` | demos/oscilloscope/public/String.js:373-383 | The two tables start as the four binary and the four decimal prefixes, in order |
| `HumanNumbers.HumanTables.Add` | demos/oscilloscope/public/String.js:355-371 | Adding to either table keeps both sorted, adds just that entry with a positive divisor, and leaves the other table alone |
| `HumanNumbers.InsertKeeps` | demos/oscilloscope/public/String.js:365-368 | The table with the entry is a sorted permutation of the table and the entry |
| `HumanNumbers.LargestChosen` | demos/oscilloscope/public/String.js:335-341 | In a sorted table the divisor chosen is the largest one not above the magnitude, and none is chosen if and only if all are above |
| `HumanNumbers.Human` | demos/oscilloscope/public/String.js:329-343 | The loop from the largest divisor down prints the number scaled by the chosen divisor, with its suffix, or no number if that divisor is 0 |
| `HumanNumbers.ZeroDivisor` | demos/oscilloscope/public/String.js:338-342 | In a sorted table without negative divisors, there is no number to print if and only if 0 is among the divisors and every positive one is above the magnitude |
| `HumanNumbers.PointTextReads` | demos/oscilloscope/public/String.js:342 | A number in fixed notation (section 15.7.4.5 of ECMA-262 edition 5.1) reads as exactly the integer it was made from, shifted by the digits after the point |
| `HumanNumbers.FixedReads` | demos/oscilloscope/public/String.js:342 | Every number below 10^21 printed with up to 20 digits reads back within half a unit in its last digit, sign included |
| `HumanNumbers.NearestPrinted` | demos/oscilloscope/public/String.js:342 | The digits printed are those of the integer nearest to the number shifted by the digits after the point, and of the larger one of two as near |
| `HumanNumbers.TieUp` | demos/oscilloscope/public/String.js:342 | 2560 with no digits in the binary table is `3K` |
| `HumanNumbers.DigitsTaken` | demos/oscilloscope/public/String.js:342 | A digit count is refused if and only if it is not from 0 to 20 |
| `HumanNumbers.HumanRoundTrip` | demos/oscilloscope/public/String.js:329-418 | Printing and reading back changes a number by at most half a unit in the last printed digit times the chosen divisor, in any table of positive divisors with distinct single capitals |
| `HumanNumbers.BelowTopReads` | demos/oscilloscope/public/String.js:329-418 | In a sorted table without gaps wider than 10^21 this holds for every number below 10^21 times the top divisor, and every other number leaves fixed notation |
| `HumanNumbers.Prefixes` | demos/oscilloscope/public/String.js:373-383 | The binary and the decimal table meet all that `BelowTopReads` asks |
| `HumanNumbers.ReadHuman` | demos/oscilloscope/public/String.js:402-418 | The search loop gives the value times the divisor of the suffix, the plain value without one, and NaN for other texts and unknown suffixes |
| `HumanNumbers.DecimalTexts` | demos/oscilloscope/public/String.js:404 | A text is read as a number if and only if it is an optional plus or minus, digits, and perhaps a point with or without digits after it |
| `HumanNumbers.DecimalValue` | demos/oscilloscope/public/String.js:404-409 | Its value is that of all its digits as one number, shifted by those after the point, and negative after a minus only |
| `CamelCase.ThereAndBack` | demos/oscilloscope/public/String.js:819-834 | Every name over lowercase letters and dashes comes back through both functions with one dash dropped where two precede a letter, and otherwise unchanged |
| `CamelCase.RoundTripExactly` | demos/oscilloscope/public/String.js:819-834 | `uncamelize` undoes `camelize` if and only if no two dashes precede a letter; leading, trailing and one-letter segments included |
| `CamelCase.DashLost` | demos/oscilloscope/public/String.js:819-834 | `a--b` comes back as `a-b` |
| `CamelLaws.CamelizePlaces` | demos/oscilloscope/public/String.js:819-825 | For every text, character by character: the dash of a dash, character, non-dash goes and the character after it becomes a capital, and everything else comes out in lower case and in its place |
| `CamelLaws.CamelizeWords` | demos/oscilloscope/public/String.js:819-825 | Words joined by dashes, all but the first of at least two characters, come out as the first in lower case followed by the others capitalised |
| `CamelLaws.DashesLeft` | demos/oscilloscope/public/String.js:819-825 | A dash before two letters is left of a name over lowercase letters and dashes if and only if the name has two dashes before two letters |
| `CamelLaws.CaseForgotten` | demos/oscilloscope/public/String.js:823 | Names that differ only in case come out the same |
| `CamelLaws.UncamelizeEach` | demos/oscilloscope/public/String.js:827-834 | Each capital becomes a dash and its small letter, and no other character changes |
| `Driver.LophiloDevice.OnTimer` | cdev/lophilo.c:47-70 | One tick moves the sample, turns the direction at 360 and 0, stamps the time and puts seconds, microseconds and sample in this order, each discarded if the queue is full |
| `Driver.LophiloDevice.Read` | cdev/lophilo.c:102-118 | A read removes as many whole records from the front as fit in the buffer and returns their bytes; with an empty queue, and only then, it asks to try again or, when blocking, waits, and changes nothing |
| `Driver.LophiloDevice.Copy` | cdev/lophilo.c:111-117 | After a wait the same copy is made of whatever is queued by then, nothing if the wait was interrupted |
| `Driver.TickOnWave` | cdev/lophilo.c:45-57 | A device on the triangle wave is on its next point after a tick, its direction is the slope of the step to come, and the 32-bit addition did not wrap |
| `Driver.TickQueuesPrefix` | cdev/lophilo.c:59-65 | A tick adds to the queue a prefix of its triple: all of it, or as much as there is room for |
| `Driver.TickPuts` | cdev/lophilo.c:59-65 | With room for all of it a tick adds the seconds as source 1, the microseconds as source 2 and the sample as source 3 |
| `PipelineRuns.WaveAlways` | cdev/lophilo.c:45-65 | After any run with n ticks the sample is 360 less the distance of n mod 720 from 360, the direction is the slope of the next step, and the tick numbered i sent the wave's value at i |
| `RecordCodec.OnData` | lophilo-node/lophilo.js:26-36 | The loop over a chunk gives the readings of its records; a chunk that is not whole records is an assertion failure |
| `RecordCodec.DecodeEncode` | lophilo-node/lophilo.js:30-35 | Decoding the little-endian bytes of any records gives as many readings, in order, each the signed 32-bit view of its record |
| `RecordCodec.JoinAdds` | lophilo-node/lophilo.js:31-32 | Joining four shifted bytes by bitwise or gives the number they are the base 256 digits of |
| `RecordCodec.RecordLayout` | cdev/lophilo.h:53-57 | A record's bytes are the base 256 digits of its source and then of its value, the least first |
| `RecordCodec.FieldCongruent` | cdev/lophilo.h:53-57 | A field is seen congruent modulo 2^32, and unchanged if and only if it is below 2^31 |
| `RecordCodec.ChunksDecode` | lophilo-node/lophilo.js:26-36 | However whole records are cut into chunks, decoding the chunks and concatenating gives what decoding the whole gives, and no chunk fails |
| `Clients.ClientPage.ProcessData` | demos/oscilloscope/public/client.html:9-30 | A time half updates only its half; a sample is plotted at the time last seen, counted, and its distance from the last sample less one added to the estimate unless that was 0; other sources change nothing |
| `Clients.PlottedAt` | demos/oscilloscope/public/client.html:17-20 | A sample is plotted as it is, at a time that times 1000 is the seconds last seen times 1000000 plus the microseconds last seen |
| `Clients.TimeKept` | demos/oscilloscope/public/client.html:11-16 | Source 1 sets the seconds, source 2 the microseconds, and neither plots anything or changes anything else |
| `Clients.ClientPage.OnUpdate` | demos/oscilloscope/public/client.html:47-49 | An update processes its readings in order, and the series gets just their points |
| `Clients.AfterSplit` | demos/oscilloscope/public/client.html:47-49 | Delivering readings in one update or cut in two leaves the same page and the same points |
| `Pipeline.Happen` | cdev/lophilo.c:47-118 | One event on the device, decoder and page objects is one step of the run model, down to the points the page's series receives; an opened page is new |
| `Sessions.Session` | demos/oscilloscope/public/client.html:31-49 | Any sequence of events on the device, decoder and page objects leaves the device, the page and the page's series as the run model says |
| `Sessions.Display` | demos/oscilloscope/public/smoothie.js:115-216 | After any run, the page's chart draws exactly the points the page has plotted, pruned at the left edge, a whole number of pixels of ten milliseconds; no second point is left more than the width and a pixel before the time, and while the clock advanced no point within the width is missing |
| `PipelineRuns.QueueAlways` | cdev/lophilo.c:59-65 | After any run, what was delivered followed by what is queued is the concatenation of the prefixes the ticks got into the queue |
| `PipelineWindows.PlotsAnyWindow` | demos/oscilloscope/public/client.html:9-26 | Wherever in the stream a page opens and wherever it stops, it has plotted exactly the samples between, each with the time of its own triple, but the first if the page opened inside that triple |
| `PipelineWindows.TornAhead` | demos/oscilloscope/public/client.html:9-20 | A triple a page opens inside of has its sample still to come, so at most the page's first point is torn |
| `PipelineRuns.PointsPairOwnTick` | demos/oscilloscope/public/client.html:9-26 | For any interleaving of ticks, reads, overflow and page openings, the page's points are those of the ticks whose sample was queued, in order, from the first it could see, all but the ones still queued, each with its own tick's time, but a first one cut by the opening; counters agree |
| `PipelineRuns.WholeFromBoundary` | demos/oscilloscope/public/client.html:9-20 | A page opened between two ticks' records, or there from the start, has no torn point |
| `SampleExamples.OpenedInside` | demos/oscilloscope/public/client.html:33-49 | A page opened when a tick's seconds have been read and the rest has not plots the sample as if the seconds were 0 |
| `PipelineTheorems.OnePointPerTick` | cdev/lophilo.c:59-65 | If no put was discarded the page shows exactly one point per delivered tick, in order, from the first it could see |
| `PipelineTheorems.TrueTime` | demos/oscilloscope/public/client.html:18 | The fields of a tick's time come through the signed view unchanged while they are below 2^31: the point is at the time of the tick's own two numbers |
| `PipelineTimes.TrueTimes` | demos/oscilloscope/public/client.html:18 | After any run whose clock readings fit (microseconds below a million, seconds below 2^31): the time of each point times 1000 is its tick's seconds times 1000000 plus its microseconds, but of a torn first point, which has the microseconds alone or 0 |
| `PipelineTimes.TimesAscend` | demos/oscilloscope/public/client.html:18 | If besides each tick's clock is later than the one before, the points' times ascend, and two points but a torn one are exactly as far apart as their ticks |
| `PipelineTheorems.DistanceIsTime` | cdev/lophilo.c:51-57 | Two samples never differ by more than their ticks do, and by as much if and only if they lie on one slope of the wave |
| `PipelineTheorems.SkippedAtMostLost` | demos/oscilloscope/public/client.html:21-22 | At every moment of every run, whenever the page was opened, `skipped` is at most the number of samples lost between received ones, is 0 when none is lost, and is right if and only if each received sample follows directly or lies on its predecessor's slope with that one not 0 |
| `PipelineTheorems.LostMeaning` | cdev/lophilo.c:65 | The number lost between any stretch of received samples is the number of ticks, from the first to the last, whose sample found no room in the queue |
| `SampleExamples.CornerCountsBackwards` | demos/oscilloscope/public/client.html:21-22 | After 709 ticks, a read, a tick and a read, the samples of ticks 10 and 710 were received in a row, 699 were lost between them, and `skipped` is minus one |
| `SeriesModel.IncrementalIsFull` | demos/oscilloscope/public/smoothie.js:214-216 | Over any run of appends, resets and renders with cutoffs that never decrease, what a render leaves is one pruning of the whole history at its cutoff |
| `SeriesModel.PruneMeaning` | demos/oscilloscope/public/smoothie.js:211-216 | Pruning keeps a suffix; all points up to its first one are before the cutoff, but possibly the very first of all, and the point after its first one is not; something is always kept |
| `SeriesModel.NothingCurrentLost` | demos/oscilloscope/public/smoothie.js:211-216 | After a render the data is a suffix of the history, and every point missing is before the cutoff if and only if the first point is whenever the second is |
| `SeriesModel.OrderedKeeps` | demos/oscilloscope/public/smoothie.js:211-216 | With timestamps in order, a point is kept if and only if it is current, or is the last, or the next one is current |
| `SampleExamples.CurrentPointLost` | demos/oscilloscope/public/smoothie.js:214-216 | Two appends out of order and a render between their times delete a point that is not before the cutoff |
| `SeriesModel.BoundsOfRun` | demos/oscilloscope/public/smoothie.js:55-69 | At any moment the bounds are the extremes of the points held at the last reset and those appended since |
| `SeriesModel.BoundsEnclose` | demos/oscilloscope/public/smoothie.js:56-69 | In every state the bounds are NaN if and only if the series is empty, and otherwise enclose all retained values and are values of the history |
| `SeriesModel.ResetTightens` | demos/oscilloscope/public/smoothie.js:56-63 | Right after a reset both bounds are values of retained points, and no point is touched |
| `SeriesModel.BoundsMeaning` | demos/oscilloscope/public/smoothie.js:59-62 | Taking the maximum and minimum value by value gives the least and the greatest value, NaN for no value |
| `Charts.TimeSeries.Append` | demos/oscilloscope/public/smoothie.js:65-69 | The new state is the series model's append of the old |
| `Charts.TimeSeries.ResetBounds` | demos/oscilloscope/public/smoothie.js:56-63 | The loop recomputes the bounds of the retained data |
| `Charts.SmoothieChart.Render` | demos/oscilloscope/public/smoothie.js:115-216 | Every series of the set, listed once or more often, is pruned at one left edge, `width` pixels before the time rounded towards zero to whole pixels, with its bounds unchanged; for times since 1970 no series keeps a second point more than `width` and one pixels before the time, and one with ordered timestamps loses no point of the last `width` pixels; the early return skips no pruning |
| `Charts.SmoothieChart.Scale` | demos/oscilloscope/public/smoothie.js:174-188 | The scale is NaN if and only if that of every series is, and otherwise the greatest maximum and the least minimum |
| `Edges.CutoffMonotone` | demos/oscilloscope/public/smoothie.js:125 | With fixed width and scale a later time never gives an earlier cutoff, rounding by a remainder with the dividend's sign included |
| `Edges.CutoffIsEdge` | demos/oscilloscope/public/smoothie.js:125-214 | The cutoff computed is such a left edge, for every time and every scale but 0, negative ones included |
| `Edges.EdgeUnique` | demos/oscilloscope/public/smoothie.js:125-214 | There is only one such left edge |
| `Edges.EdgeBounds` | demos/oscilloscope/public/smoothie.js:125-214 | With a positive scale it is a whole number of pixels, between `width` and `width` and one pixels before a time since 1970, and up to a pixel later than `width` before one until then |
| `Edges.RenderLeaves` | demos/oscilloscope/public/smoothie.js:211-216 | Pruning any history at a left edge leaves no second point long past it, and with ordered timestamps deletes no point at or after `width` pixels before the time |
| `DebianRelations.SemverToDebian` | npm2debian/lib/cli.js:363-384 | The nested loops print the alternatives of all comparators of all lists, in order, and for no version just the name |
| `DebianRelations.RewriteReads` | npm2debian/lib/cli.js:374-377 | What the three replacements make of a comparator reads, by Debian's rules, as the same relation to the same version |
| `DebianRelations.RelationReads` | npm2debian/lib/cli.js:369-383 | The printed text reads back as one alternative per comparator, in order, each for the package printed |
| `DebianRelations.DebianIsAnyComparator` | npm2debian/lib/cli.js:369-383 | Debian accepts a version if and only if it meets some comparator of some list |
| `DebianRelations.NothingRefused` | npm2debian/lib/cli.js:363-383 | Whatever order versions have, every version the npm range accepts satisfies the printed relation |
| `DebianRelations.RangeExact` | npm2debian/lib/cli.js:363-383 | For every range, Debian and npm accept the same versions in every total order if and only if its lists cover for each other: wherever a version lies among those named, if one comparator is met then so is a whole list |
| `DebianRelations.CoveredMeaning` | npm2debian/lib/cli.js:363-383 | The condition is computed by trying three places for each version named, and holds then for all places |
| `DebianRelations.UncoveredDiffers` | npm2debian/lib/cli.js:363-383 | For a range that is not covered there are an order and a version text that Debian accepts and npm does not |
| `DebianRelations.SingleExact` | npm2debian/lib/cli.js:363-383 | When each list repeats one comparator the two accept the same versions in every order |
| `DebianRelations.CoveringLists` | npm2debian/lib/cli.js:363-383 | Lists of several comparators do no harm where others cover for them, as below and from one version on do for every interval |
| `DebianRelations.OneListExact` | npm2debian/lib/cli.js:363-383 | For a range of one list, the two accept the same versions in every total order if and only if the list repeats one comparator |
| `DebianRelations.IntervalAcceptsAll` | npm2debian/lib/cli.js:370-380 | An interval is printed so that Debian accepts every version, its excluded upper end among them |
| `DebianRelations.NoVersion` | npm2debian/lib/cli.js:364 | The bare name, printed for no version, is satisfied by every version |
| `DebianRelations.ExactText` | npm2debian/lib/cli.js:375 | A version by itself is printed after `= `, and one after `=` as it is |
| `DebianRelations.StrictText` | npm2debian/lib/cli.js:376 | `<` and `>` are doubled and a space put before the version |
| `DebianRelations.WeakText` | npm2debian/lib/cli.js:377 | `<=` and `>=` only get the space |

## Left out

- HTTP, the reading and writing of files, the npm cache, child processes, failing fetches and the
  promise wiring: what remains of promises is that callbacks are atomic, and what is on disk is a
  parameter.
- `checkParams` and `prepareDebianizeParams` beyond the look-up of a package's record: they only
  check and copy parameters.
- The order in which JavaScript enumerates keys that look like array indices, and names that are
  properties of `Object.prototype`: tables here enumerate in insertion order.
- A package without a dependency table and one with an empty table are the same here.
- Two crawls in progress at once, which would share `currentDepth`; a value left over from an
  earlier crawl is modelled.
- What make does with `$`, `#` and `%` in names: package names, archives and directories are
  taken to be printable, as `BuildTheorems.Printable` says.
- The type handlers of `sprintf` (padding, radix, `%f`): the compiler is proved for any handlers
  that depend on the argument and the seven fields; `padding` and the documented alignment of
  `%s` and `%c` are not claimed.
- An explicit index so large that JavaScript prints it in exponent form.
- Rounding of floating-point numbers in `human`, `fromHuman`, the chart and the page, and
  infinities as arguments; numbers from 10^21 on, which `toFixed` prints in exponent form, and
  divisions by 0, which give an infinity or NaN, are recognised but not printed.
- Case mapping outside ASCII in `camelize`, `uncamelize` and the names that builds record.
- Characters outside the basic plane: a character is a whole code point here and one or two
  16-bit units in JavaScript, so a quoted padding character outside the basic plane makes a
  specification in the model and not in the code, where `.` matches one unit.
- The inside of the kernel's queue, races between processors on it, and writes through the mapped
  page.
- Driver.LophiloDevice.Read: the negative result of a copy that faults is not modelled, because
  what such a copy leaves in the queue is decided inside the kernel's queue.
- A page whose connection is lost and made again: it keeps its last sample and time but has its
  counters set to 0. Here a page that comes back is a new one.
- The page's displayed percentage and rate, the drawing itself with its scale options, the
  timers, and `removeTimeSeries`.
- `SEMVER.toComparators` and `replaceStars`: comparator lists are taken as given. The order of
  versions is any total order, not Debian's.
- `parseUrl`, `kmod`, the native addon, the tutorials and the rest of `lib/cli.js`: input and
  output, glue or easy members.
- CrawlTheorems.CrawlFindsReachable: fetches of reachable packages are taken to succeed with a
  descriptor of the requested name and a usable latest version.
