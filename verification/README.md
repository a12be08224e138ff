# reninja: verified models

reninja is a Ninja-compatible build tool. This project models four of its parts
in Dafny and proves what they promise, for all inputs, all runs and all graphs.

**Manifest writing and reading.** `misc/ninja_syntax.py` writes build files; the
lexer and parser in `internal/lexer` and `internal/manifest_parser` read them.
Both sides are modelled as the code has them: path escaping by chained
replacements, the greedy line wrapper with its dollar counting (Python's
negative slice ends included), and the reader's tokens, escapes, variable
references and continuations. The main result is a round trip: any sequence of
acceptable build, rule, variable and newline calls on one writer gives a file
that the parser reads back as exactly those statements if and only if all their
lines are clean (`ManifestIsReadBack`). What is read is compared with the
arguments of the calls themselves (module `Describing`). A line is clean if no break is followed
by a space; two kinds of lost spaces do no harm and are allowed, one in front of
a `|` in a build line and one of the two that indent a pool or dyndep line.

It rests on three results that are of interest by themselves. Joining the
continued lines of any wrapped line gives back the text less the spaces behind
its breaks (`LineJoined`), and all of it exactly when no break is followed by a
space and no escape is left open (`TransparentExactlyWhen`). The reader takes a
wrapped line for the logical line it stands for (module `Continuations`), except
in comments that look continued and at indentations with nothing but a
continuation behind them. And no lost space goes unnoticed: a value that has
lost some is read as a shorter one (`ThinnerDiffers`), and a build line that has
lost some separators is read as a statement with as many paths less
(`LineMerged`).

On the reading side, files with carriage returns in front of their newlines are
read like those without (`ManifestsAlike`), and it is stated which rules are
refused and why (`RulesExactlyWhen`).

The wrapper counts dollars in front of a space, but never looks at the first
character of the text that is left (`misc/ninja_syntax.py:159`). So a break can
fall on an escaped space at the start of a continuation line, and the space
after it is then lost. The widths at which every build line is read back are
exactly 1, 5 and those from 9 on if its paths have no dollars, and 1, 5 and
those from 11 on otherwise (`SafeExactlyWhen`). The default width is 78. Values
with two adjacent spaces are at risk at every width (`AdjacentSpacesLost`).

`expand` promises to expand text as Ninja would. The texts on which it agrees
with the lexer, for all variables, are characterized exactly
(`ExpandsExactlyWhen`).

**Dependency walks.** `CommandCollector` walks nodes and edges with two visited
sets, `PrintCommands` walks edges with one. Both are proved to give the same
sequence on every graph, cyclic or not, and that sequence is exact and free of
duplicates. It is in dependency order if and only if no command in it depends on
itself (`CommandsInDependencyOrder`). The targets listing is the tree unfolding of
the graph, cut off at the given depth. The compilation database is a
well-separated array.

**Arguments, the build loop and the driver loop.** The flag splitter is an
order-preserving partition that never separates a flag from its value. The main
loop is a state machine over an arbitrary environment, and its runs are traces
of events. It goes on after a manifest build that failed without an error, so
the exits of `Builder.Build` are modelled as well: a build fails without an
error if and only if an output that it looks at was last modified exactly one
nanosecond before 1970, because the code takes that time for a failed `Stat`
(`SilentExactlyWhen`). Targets are built from a manifest whose own build failed
exactly when that build comes to such an output (`BuiltFromFailedManifest`).

**The jobserver.** The token protocol between `misc/jobserver_pool.py` and any
number of clients, nested ones included, over every interleaving of their steps,
with clients that crash and tokens that come from nowhere.

Methods with loops or changing state are proved against functions
(`LineText`, `BuildOutput`, `Collect`, `Print`, `Listing`, `Sides`, `Rounds`,
`Cycles`, `Perform`), and the theorems are about those functions.

## Model

| member | source | states |
|---|---|---|
| `ManifestRoundTrip.ManifestIsReadBack` | misc/ninja_syntax.py:37-144 | Any sequence of acceptable build, rule, variable and newline calls, at any width, produces a file that the parser reads to its end as statements that say what the calls say, in order, each rule being known from its statement on, if and only if their lines are clean |
| `ManifestRoundTrip.PlainManifestIsReadBack` | misc/ninja_syntax.py:37-144 | So for values without adjacent spaces it does, if the width is 9 for build statements without dollars in their paths and 11 for others, or more |
| `RoundTrip.BuildRoundTrip` | misc/ninja_syntax.py:93-144 | A written build statement, followed by any text that is not indented, is parsed back to its rule, paths and bindings if and only if its rule is known, its bindings are clean and no break in its first line is followed by a space and then something other than a marker. Each path argument comes back in its own place: a string as one path, a list as its elements in order, nothing for a missing one or an empty optional one |
| `RoundTrip.BuildLineJoined` | misc/ninja_syntax.py:164-198 | At every width the first line is the logical line of a statement that has one path less for each such break |
| `Merging.LineMerged` | misc/ninja_syntax.py:110-129 | A build line without some spaces that follow others is the line of a statement with as many paths less, spaces in front of markers not counted, and of the same statement if only those are missing |
| `RoundTrip.WideRoundTrip` | misc/ninja_syntax.py:93-144 | In particular from width 9 on for paths without dollars and from 11 on for all escapable ones, if bindings have no adjacent spaces |
| `Describing.FirstLineSpelled` | misc/ninja_syntax.py:110-129 | How the first line is spelled for a statement with one path of each kind |
| `Describing.SpellingExactly` | misc/ninja_syntax.py:45-55 | A string is written as it is, a list as its strings that are not empty with single spaces between them |
| `Describing.RuleBindingsExactly` | misc/ninja_syntax.py:61-91 | A rule writes its command always, its flags with the value 1 if they are set, and its other arguments unless they are missing or empty, in the fixed order |
| `Describing.RuleAcceptedExactlyWhen` | internal/manifest_parser/manifest_parser.go:401-436 | What is read of a rule the writer wrote passes the parser's checks if and only if it has a command, and a response file together with its content |
| `Acceptance.RulesExactlyWhen` | internal/manifest_parser/manifest_parser.go:401-436 | A rule with any clean bindings is refused as a duplicate if its name is taken, else because of a variable if it has a binding that is not one of the eleven, else as incomplete if it has no command or a response file without content; else it is read and known from then on |
| `Acceptance.OutputsNeeded` | internal/manifest_parser/manifest_parser.go:182-216 | A build line with nothing in front of its colon is refused |
| `Acceptance.CommentsPassedOver` | internal/lexer/lexer.go.in:178-236 | A comment and the end of its line make no difference for the next token, nor for what is unread behind it |
| `Acceptance.NullEndsTheFile` | internal/lexer/lexer.go.in:178-225 | A null character ends the file, and a comment that it cuts off is an error |
| `Acceptance.KeywordsExactly` | internal/lexer/lexer.go.in:202-213 | Exactly six words are not identifiers |
| `LineEnds.ManifestsAlike` | internal/lexer/lexer.go.in:178-400 | If carriage returns stand only in front of newlines, a file is read to the same statements or the same error as without them |
| `PlainReading.ReadInputs` | internal/manifest_parser/manifest_parser.go:231-285 | Escaped paths behind no marker, a pipe, two pipes and a pipe with an at sign are read as explicit, implicit and order-only inputs and validations, whichever groups are missing |
| `BuildLines.LineParses` | internal/manifest_parser/manifest_parser.go:182-285 | A line of escaped paths around a rule is read as these paths if the rule is known, and refused with the name of the rule otherwise, with or without spaces in front of its markers |
| `Sharpness.SafeExactlyWhen` | misc/ninja_syntax.py:155-198 | A width is one at which every sound statement without bindings is read back if and only if it is 1, 5 or at least 9, for paths without dollars, and 1, 5 or at least 11 otherwise |
| `Sharpness.PathsMerge` | misc/ninja_syntax.py:155-198 | At each other width, negative ones included, two given inputs come back as one |
| `LastWords.CleanAtOne` | misc/ninja_syntax.py:164-198 | At width 1 the first break falls in front of the last word, so no separator of any sound statement is lost |
| `LastWords.CleanAtFive` | misc/ninja_syntax.py:164-198 | At width 5 it falls behind the first word and then in front of the last one, with the same effect |
| `LogicalLines.TransparentExactlyWhen` | misc/ninja_syntax.py:164-198 | Joining the continued lines gives back indentation, text and newline if and only if the text has no dangling dollar and no break is followed by a space |
| `LogicalLines.CleanIsTransparent` | misc/ninja_syntax.py:164-198 | A clean line without carriage returns is read back, and every continuation in it comes right behind a space |
| `Joining.LineJoined` | misc/ninja_syntax.py:164-198 | Joining the continued lines of any text without dangling dollar and line ends, at every width, gives the indentation and the text less the spaces behind breaks, and every continuation comes right behind a space |
| `Joining.JoinedShorter` | misc/ninja_syntax.py:164-198 | That is the text itself if and only if no break is followed by a space, and shorter otherwise |
| `LogicalLines.WrappingIsTransparent` | misc/ninja_syntax.py:164-198 | Transparency for every text whose adjacent spaces lie out of reach of a break at this width, and that every continuation comes right behind a space |
| `LogicalLines.TransparentAtEveryWidth` | misc/ninja_syntax.py:164-198 | Transparency at every width, negative ones included, for texts without adjacent spaces and dangling dollars |
| `LineWrap.CountVersusRun` | misc/ninja_syntax.py:155-162 | The count equals the length of the dollar run, except that it is one short exactly when the run reaches the start of the text |
| `WrapQuality.BreakChoice` | misc/ninja_syntax.py:164-198 | A list of pieces is the writer's if and only if it spells the text and every break is the last eligible space in the width, or the first one behind it if there is none |
| `WrapQuality.SegmentsSpellText` | misc/ninja_syntax.py:164-198 | The pieces joined by single spaces are the text |
| `WrapQuality.LinesFitWhenPossible` | misc/ninja_syntax.py:164-198 | A continued line is at most width - 1 long unless it is cut at the first eligible space there is; the last line is too long only without any eligible space |
| `WrapQuality.GreedyIsOptimal` | misc/ninja_syntax.py:164-198 | If a text without dollars can be wrapped within the width in any way, the writer wraps it within the width and uses no more lines |
| `NinjaSyntax.EscapePathIsOnePass` | misc/ninja_syntax.py:29-30 | The three chained replacements equal a single pass over the word, on every word |
| `PathCodec.PathRoundTrip` | misc/ninja_syntax.py:29-30 | The lexer reads an escaped word back as that word, stopping at what follows, if and only if the word has no separator characters and each dollar stands before a space |
| `PathCodec.EscapingIsInjective` | misc/ninja_syntax.py:29-30 | No two such words are escaped alike |
| `NinjaSyntax.EscapeThenExpand` | misc/ninja_syntax.py:212-231 | Escaping fails exactly on newlines; escaped text passes through expansion unchanged, whatever follows it and whatever the variables are |
| `NinjaSyntax.ExpandReference` | misc/ninja_syntax.py:220-231 | A reference is replaced by the local variable of that name, else by the global one, else by nothing, and expansion goes on behind its longest run of word characters |
| `Expansion.ExpandsAsNinja` | misc/ninja_syntax.py:220-231 | On every expandable text and for all variables, expand gives what the lexer reads and evaluates |
| `ExpansionExact.ExpandsExactlyWhen` | misc/ninja_syntax.py:220-231 | expand agrees with Ninja for all variables on exactly the expandable texts, and no variables at all are enough to tell; if variables may have the empty name, dollars in front of spaces and colons are not expandable |
| `Expansion.BracesDiffer` | misc/ninja_syntax.py:220-231 | A reference in braces is left alone by expand and resolved by Ninja |
| `Expansion.DashesDiffer` | misc/ninja_syntax.py:220-231 | A dash belongs to a name for Ninja and not for expand |
| `Expansion.TextEvaluates` | internal/eval_env/eval_env.go:40-51 | Added text is appended to the value, whether it is stored as a single token, in the last piece or in a new one |
| `Expansion.ReferenceEvaluates` | internal/eval_env/eval_env.go:66-75 | An added reference appends its variable's value, also when the single token has to be split off |
| `BindingReading.EscapedValueReads` | misc/ninja_syntax.py:212-217 | Escaped text used as a value is an acceptable value and evaluates to the text that was escaped; single spaces stay single |
| `BindingRoundTrip.BindingParses` | misc/ninja_syntax.py:45-55 | At every width a written binding is read as an indented key and its value if and only if its line is clean, and then reading goes on behind it |
| `ManifestRoundTrip.VariableParses` | misc/ninja_syntax.py:45-55 | So is a top-level variable |
| `ValueLosses.ThinnerDiffers` | internal/lexer/lexer.go.in:309-400 | If a value and the same value without some spaces that follow others can both be read, the texts read differ in length by as many characters as the values do |
| `Sharpness.AdjacentSpacesLost` | misc/ninja_syntax.py:164-198 | At every width from 10 on there is an acceptable value that does not come back as it was |
| `BindingRoundTrip.SingleSpacesAreClean` | misc/ninja_syntax.py:45-55 | A binding of a value without adjacent spaces is clean at every width |
| `BindingRoundTrip.BindingsParse` | misc/ninja_syntax.py:130-142 | The bindings of a statement come back, all and in order, if and only if all of them are clean |
| `Writing.Writer.CountDollarsBeforeIndex` | misc/ninja_syntax.py:155-162 | The loop computes the count that CountVersusRun is about |
| `Writing.Writer.FindBreak` | misc/ninja_syntax.py:172-187 | The two search loops find the break that BreakChoice characterizes |
| `Writing.Writer.Line` | misc/ninja_syntax.py:164-198 | Appends exactly the wrapped line to the output |
| `Writing.Writer.Variable` | misc/ninja_syntax.py:45-55 | Appends one line, or nothing for a missing value; lists lose their empty strings |
| `Writing.Writer.FirstLine` | misc/ninja_syntax.py:110-129 | The two growing lists end up as the statement's words with their markers |
| `Writing.Writer.WriteBindings` | misc/ninja_syntax.py:130-142 | Pool, dyndep and the given variables are written in this order, missing ones left out |
| `Writing.Writer.Build` | misc/ninja_syntax.py:93-144 | Appends what BuildRoundTrip reads back, and returns a single output as a list of one, a list as it is, and no output as the empty list |
| `Writing.Writer.Rule` | misc/ninja_syntax.py:61-91 | Appends the rule line and its bindings in the fixed order, empty optional ones left out |
| `Writing.Writer.WriteManifest` | misc/ninja_syntax.py:32-144 | A run of calls on one writer writes what ManifestIsReadBack reads back |
| `Continuations.EatUnwrap` | internal/lexer/lexer.go.in:238-260 | Skipping whitespace and joining continued lines can be done in either order |
| `Continuations.VarUnwrap` | internal/lexer/lexer.go.in:271-299 | An identifier is the same in both readings and ends at corresponding places |
| `Continuations.ScanUnwrap` | internal/lexer/lexer.go.in:309-400 | Scanning a path or value of a wrapped line gives the same text, references or error as scanning the logical line, and stops at the corresponding place |
| `Continuations.ReadPathUnwrap` | internal/lexer/lexer.go.in:301-303 | So does reading a path with the whitespace behind it |
| `Continuations.TokenUnwrap` | internal/lexer/lexer.go.in:178-225 | Where neither an indentation nor a comment starts, the next token is the same in both readings, and unless it is an error they go on at corresponding places |
| `Continuations.CommentsEndWithTheirLine` | internal/lexer/lexer.go.in:178-225 | In a comment that looks continued they see different tokens |
| `Continuations.BuildLineUnwrap` | internal/manifest_parser/manifest_parser.go:182-285 | The first line of a build statement parses the same whether wrapped or not, errors included |
| `Continuations.BuildUnwrap` | internal/manifest_parser/manifest_parser.go:175-299 | So does the whole statement with its bindings |
| `Continuations.RuleLineUnwrap` | internal/manifest_parser/manifest_parser.go:401-408 | So does a rule line, errors included, unless a comment that looks continued follows the name |
| `Continuations.LetUnwrap` | internal/manifest_parser/manifest_parser.go:438-450 | So does a binding, errors included, unless a comment that looks continued follows the name |
| `CollectingProofs.CollectKeeps` | internal/command_collector/command_collector.go:24-50 | Every call keeps the invariant that visited nodes have visited in-edges and finished edges have all their inputs visited, only adds to what was collected, and visits its node; it ends on cyclic graphs too |
| `CollectingProofs.CollectionIsExact` | internal/command_collector/command_collector.go:24-50 | On every graph, after any list of calls, the collected edges are the non-phony edges that some root needs, each once |
| `CollectingProofs.RootOrderIrrelevant` | internal/command_collector/command_collector.go:24-50 | The set of collected edges does not depend on the order or repetition of roots |
| `DependencyOrder.CommandsInDependencyOrder` | internal/command_collector/command_collector.go:24-50 | Each collected edge comes after every command it depends on, also through chains of phony edges, if and only if no command that some root needs depends on itself |
| `Postorder.OwnCommandLast` | internal/command_collector/command_collector.go:24-50 | The commands of a node whose edge does not depend on itself are those of its inputs, collected from the first to the last, and then its own |
| `Postorder.FirstCommandsFirst` | internal/command_collector/command_collector.go:24-50 | One more root only adds commands behind those collected already |
| `Printing.TraversalsAgree` | cmd/reninja/reninja.go:1351-1368 | On every graph the all-commands printer prints exactly the collected sequence, in the same order |
| `Printing.SingleIsExact` | cmd/reninja/reninja.go:1351-1368 | In single mode exactly the targets' own commands are printed, phony ones left out, each once, in the order of the targets |
| `CommandCollectors.CommandCollector.CollectFrom` | internal/command_collector/command_collector.go:24-50 | The recursive method on the three fields takes the step that the theorems above are about |
| `CommandCollectors.CollectTargets` | cmd/reninja/reninja.go:1172-1218 | Collects the commands for all targets, or gives up exactly when some target is made by no edge |
| `CommandPrinters.CommandPrinter.PrintCommands` | cmd/reninja/reninja.go:1351-1368 | The recursive method on the shared seen set prints what its specification says, in single and in all-commands mode |
| `CommandPrinters.PrintTargets` | cmd/reninja/reninja.go:868-871 | One walk per target with a shared seen set; in all-commands mode it prints the collected commands |
| `TargetsList.ToolTargetsList` | cmd/reninja/reninja.go:744-760 | The recursive printer writes the listing with one line per path, indented by the path's length |
| `TargetsList.ListTargets` | cmd/reninja/reninja.go:744-760 | Started without indentation it prints the listing of the roots, on every graph if the depth is positive, and otherwise if the roots lead to no cycle |
| `TargetsList.ListedLines` | cmd/reninja/reninja.go:744-760 | The line for each path is the node's own path, indented by two spaces per level, with the name of the rule behind it exactly if an edge makes it |
| `TargetsList.ListingIsUnfolding` | cmd/reninja/reninja.go:744-760 | The listing shows exactly the paths of the tree unfolding up to the depth, each once, parents first and inputs in order |
| `TargetsList.EndsExactlyWhen` | cmd/reninja/reninja.go:744-760 | Without a limit the unfolding is finite if and only if the roots lead to no cycle |
| `TargetsList.DepthTruncates` | cmd/reninja/reninja.go:744-760 | A listing to depth d is a deeper or unlimited one cut off at level d |
| `TargetsList.DeepEnough` | cmd/reninja/reninja.go:744-760 | If the roots lead to no cycle, the limit makes no difference if and only if no path is longer |
| `Compdb.PrintCompdbObjectsForEdge` | cmd/reninja/reninja.go:1083-1101 | One object per input of the edge, with single commas between them |
| `Compdb.PrintCompdb` | cmd/reninja/reninja.go:1155-1170 | The bracketed, comma-joined objects of all inputs of all non-phony edges, with no leading, trailing or doubled comma across the two loops |
| `Compdb.ObjectMembers` | cmd/reninja/reninja.go:1083-1101 | An object has the directory, the command of the edge, the input as its file and the first output as its output |
| `Compdb.ObjectsOfEdge` | cmd/reninja/reninja.go:1083-1101 | An edge has one object for each input, in order, and a phony one has none |
| `Compdb.DatabaseConcat` | cmd/reninja/reninja.go:1155-1170 | The objects of two lists of edges are those of the first and then those of the second |
| `Compdb.CompdbForTargets` | cmd/reninja/reninja.go:1172-1218 | The database of exactly the commands the targets need, or nothing when some target is made by no edge |
| `Flags.ArgumentForms` | cmd/reninja/reninja.go:1601-1622 | An argument is read as a flag with a name and perhaps an inline value if and only if it is spelled with one or two dashes, a name without equals sign and perhaps an equals sign and a value; only two dashes end the flags |
| `Flags.StripUnknownFlags` | cmd/reninja/reninja.go:1558-1599 | The index loop with its exits computes the two sides that the theorems below are about; both results are subsequences of the arguments and together they are all of them |
| `Flags.FlagsWithValues` | cmd/reninja/reninja.go:1575-1590 | A flag spelled without a value that is a value flag in the table, or not in it, takes the next argument to its side, kept if the flag is in the table and stripped otherwise, and splitting goes on behind both |
| `Flags.FlagsAlone` | cmd/reninja/reninja.go:1575-1590 | A boolean flag in the table, and any flag spelled with a value, goes to its side alone |
| `Flags.ToolSplits` | cmd/reninja/reninja.go:1590-1596 | If t is not a boolean flag, the tool flag and its value are kept or stripped like others and everything behind them is stripped |
| `Flags.OthersKept` | cmd/reninja/reninja.go:1564-1574 | What spells no flag is kept, and everything behind two dashes with it |
| `Flags.ValuesStayWithFlags` | cmd/reninja/reninja.go:1558-1622 | A value taken from the next argument goes to its flag's side, known flags being kept, and is not looked at as an argument itself |
| `Flags.KeptBehindTerminator` | cmd/reninja/reninja.go:1564-1599 | From a terminator that is looked at on, everything is kept and nothing is looked at |
| `Flags.StrippedBehindTool` | cmd/reninja/reninja.go:1564-1599 | Behind a tool flag that is looked at and its value, everything is stripped and nothing is looked at |
| `Flags.EveryArgumentPlaced` | cmd/reninja/reninja.go:1558-1599 | Every argument is looked at, or is the value of a flag that is, or comes behind such a terminator or tool flag |
| `Flags.SplittingIsIdempotent` | cmd/reninja/reninja.go:1558-1599 | Splitting the kept arguments again keeps all of them and strips nothing |
| `Flags.PreprocessGetoptStyleFlags` | cmd/reninja/reninja.go:1627-1643 | Rewrites each glued value flag on its own, keeping number and order of arguments |
| `Flags.UngluedForms` | cmd/reninja/reninja.go:1627-1643 | A dash, the letter of a value flag and a value without equals sign get an equals sign in between; every other argument stays as it is |
| `Flags.UngluedIsInline` | cmd/reninja/reninja.go:1601-1643 | A rewritten flag is read as that one-letter flag with an inline value and takes no further argument |
| `Flags.UngluingIsIdempotent` | cmd/reninja/reninja.go:1627-1643 | Preprocessing twice is preprocessing once |
| `Flags.GluedFlagsStandAlone` | cmd/reninja/reninja.go:1558-1643 | After preprocessing, a glued flag the splitter looks at goes to its side alone, and the next argument is looked at in its own right |
| `Driver.Loop` | cmd/reninja/reninja.go:1751-1808 | The counting loop produces the trace of its cycles and the exit behind it |
| `Driver.EventsExactlyWhen` | cmd/reninja/reninja.go:560-596 | A cycle comes if and only if every earlier one regenerated the manifest. In a cycle that comes, the manifest counts as regenerated if and only if it is a target that could be added, its build returned success without an error and it is dirty afterwards; the targets are built if and only if this is not so and there was no error |
| `Driver.ExitsWithTheBuild` | cmd/reninja/reninja.go:284-331 | Behind a build of targets the run exits with the code of the build, with 130 if it was interrupted, and panics if it failed without an error |
| `Driver.GivesUpAtTheLimit` | cmd/reninja/reninja.go:1751-1808 | If every cycle within the limit regenerates the manifest, the run exits with 1 and builds no targets |
| `Driver.ToolsDecideTheExit` | cmd/reninja/reninja.go:1743-1785 | A tool runs, and its code is the exit code, exactly if the run gets to its time: at once, after loading or after opening the logs |
| `Driver.GoesOnExactlyWhen` | cmd/reninja/reninja.go:560-596 | In a run that comes to build the manifest in some cycle, that build fails and the targets are built all the same if and only if it fails without an error |
| `Driver.BuiltFromFailedManifest` | cmd/reninja/reninja.go:560-596 | If it is a run of the build loop, this happens if and only if it comes to a turn with an output of the time that is taken for a failed Stat |
| `Driver.SilentFailuresOnly` | cmd/reninja/reninja.go:560-596 | In every run, targets are built in a cycle whose manifest build failed only if that build returned no error |
| `Driver.FailedManifestsStop` | cmd/reninja/reninja.go:560-596 | If the manifest builds are runs of the build loop whose files have ordinary times, targets are never built from a manifest whose build failed |
| `Driver.StrangeManifest` | cmd/reninja/reninja.go:560-596 | With a manifest last modified one nanosecond before 1970 they are, and the process exits with success |
| `Building.Build` | internal/build/build.go:767-912 | The main loop, with its early exits and its counts of pending commands and allowed failures, returns the code and error that the theorems below are about |
| `Building.SucceedsExactlyWhen` | internal/build/build.go:767-912 | A build returns success without an error if and only if it comes to a turn with nothing more to do, at once or after starting what it can with nothing running, and the uploads went well |
| `Building.CannotProgress` | internal/build/build.go:886-902 | If there is more to do but nothing runs, it returns an error with the status of the command that failed last, 1 if only its dependencies failed, or 0 if none did |
| `Building.Interruption` | internal/build/build.go:841-847 | If the runner returns nothing, or an interrupted command, it returns 130 and says so |
| `Building.GoesOn` | internal/build/build.go:849-883 | Any other finished command leaves one less running, unless something goes wrong in finishing it, which ends the build with 1 |
| `Building.WorkStarted` | internal/build/build.go:796-837 | The edges started in a turn are the first ones the plan hands out, up to the first that meets an error or to the end of the room; phony ones take no room |
| `Building.CommandsWithinRoom` | internal/build/build.go:796-837 | No more commands are started in a turn than the runner had room for |
| `Building.SilentExactlyWhen` | internal/build/build.go:767-912 | A build returns a failing code without an error if and only if it comes to a turn in which a successful command has an output of that time, looked at by a restat or when recording dependencies, with nothing else stopping it earlier |
| `Building.FailuresAreReported` | internal/build/build.go:767-912 | If no output ever has that time, every failing code comes with an error |
| `Building.StuckExactlyWhen` | internal/build/build.go:888-905 | An error comes with the code for success if and only if the build gets stuck before any command has failed |
| `Building.FailuresAreCounted` | internal/build/build.go:822-872 | In every run the remembered code is that of a failure exactly if a command has failed, and the allowed failures go down by one for each, to zero |
| `Building.NothingStartsAfterFailures` | internal/build/build.go:796-803 | Once as many commands have failed as are allowed, what could be started makes no difference any more |
| `Building.NodesReport` | internal/build/build.go:133-173 | However far the plan follows finished edges through nodes and edges with nothing to do, it never gives up without an error |
| `Building.FinishSilentExactlyWhen` | internal/build/build.go:976-1094 | Finishing a command succeeds exactly if it failed, or every output looked at is fine, every dyndep file met loads and all logs are written; it gives up without an error exactly for a file of that time |
| `Driver.RunIsSafe` | cmd/reninja/reninja.go:1743-1808 | Every run exits once, at its end, and loads the manifest at most as often as the limit says; targets are built at most once, right before the exit, in a cycle that loaded the manifest after its last change and did not change it |
| `Driver.SuccessExactlyWhen` | cmd/reninja/reninja.go:1743-1808 | A run without tool and dry run exits with success if and only if, within the limit, cycles go on changing the manifest until one finds it up to date and builds the targets without a failing code or an interruption |
| `Driver.ToolsExcludeBuilds` | cmd/reninja/reninja.go:1743-1785 | With a tool selected, neither the manifest nor targets are ever built |
| `Driver.DryRunIsOneCycle` | cmd/reninja/reninja.go:1789-1795 | A dry run has a single cycle and regenerates the manifest at most once |
| `JobserverProofs.StepKeeps` | internal/jobserver/jobserver_posix.go:24-66 | Every step of every client, crashes and forged tokens included, conserves tokens and keeps each client's implicit slot idle or held once |
| `JobserverProofs.FinishKeeps` | internal/jobserver/jobserver_posix.go:45-66 | A client that releases a slot it holds never panics, and the token is conserved |
| `JobserverProofs.AcquiresExactlyWhen` | internal/jobserver/jobserver_posix.go:24-43 | A client gets its implicit slot if that is free, else the token that has waited longest, and nothing if and only if there is neither |
| `JobserverProofs.FinishGivesBack` | internal/jobserver/jobserver_posix.go:45-66 | A token goes to the end of the pipe, the implicit slot back to its client |
| `JobserverProofs.NoSlotIsWasted` | internal/jobserver/jobserver_posix.go:24-66 | In every reachable state some client can start another job if and only if fewer jobs run than there are slots that are not lost |
| `JobserverProofs.EndingFreesTheSlot` | internal/jobserver/jobserver_posix.go:24-66 | When a client ends, its slot is a job of its host again; what it held is lost unless it held nothing |
| `JobserverProofs.JobsNeverExceedSlots` | misc/jobserver_pool.py:148-177 | Over every run, running jobs, tokens in the pipe, idle implicit slots and lost tokens add up to the job count and the forged tokens; without forged tokens at most that many jobs run at once, however clients are nested |
| `JobserverPool.Fill` | misc/jobserver_pool.py:148-177 | Puts one token less than the job count into the pipe, and refuses counts that are not positive |
| `JobserverPool.CheckPipeTokens` | misc/jobserver_pool.py:207-237 | Drains the pipe and returns 0 exactly when it held one token less than the job count; otherwise it reports the exact number missing or extra |
| `JobserverPool.RunWithPool` | misc/jobserver_pool.py:293-336 | The exit code is the command's unless it succeeded and the check is on; then it is 0 exactly when the tokens are all there, whatever the clients did |
| `JobserverPool.AuditAtRest` | misc/jobserver_pool.py:311-327 | When all clients are done, the pool is short by the lost tokens less the forged ones; with neither it holds the very tokens it was filled with |

## Left out

- `comment`, `pool`, `include`, `subninja` and `default` of the writer, and the parser's side of them: the model of the parser answers that they are not modelled.
- `ExpansionExact.ExpandsExactlyWhen`: the regular expression class `\w` is taken to match none of the characters that mean something to the lexer besides names.
- Boolean, integer and float values of `variable`: they are strings once formatted.
- Everything the parser does with a statement after reading it: path evaluation and canonicalization, edges, scopes, dyndep files and phony cycles.
- The lexer's bookkeeping: positions are the text that is left, and error messages and the choice between two faults in one rule are not modelled. It takes plain text one character at a time instead of in runs. Characters stand for bytes.
- The manifest's `ninja_required_version` check when a top-level variable is read.
- `\w` of Python's regular expressions: which characters it matches is a parameter of `Expand`.
- `EvaluateCommandWithRspfile` and JSON quoting: the compilation database takes the quoting as a parameter and prints plain commands. The rule filter of the `compdb` tool is not modelled.
- Command evaluation and printing in `PrintCommands`: the model prints edge numbers.
- `ToolTargetsList`: prints to a string, and its other modes (all targets, by rule) are easy.
- The environment of the driver: what parsing, logs and tools answer in each cycle is an arbitrary function of the cycle.
- The plan, the disk and the commands of a build: what they answer in each turn of the loop is arbitrary, so that the plan's order of work and whether the loop ends are not modelled. Pools, job slots, dyndep loading and extraction of dependencies appear only by whether they fail.
- `Continuations.TokenUnwrap`: at an indentation the two readings can differ, when nothing but a continuation follows it.
- The file system, log files, remote execution and caching, the status printer, spell checking, flag parsing itself, and generated protocol code.
- The Windows branches of the jobserver, and the environment variables by which clients find the pool. The initial write is taken to fit into the pipe, and a client's read and write to succeed on a single byte.
- `Jobserver.Step`: a client that hosts other clients does not end before them, and the slot that gets free when a client ends may be any slot its host has lent.
- The shape of a build graph: nodes and edges are numbers, and a node has at most one in-edge, as the parser guarantees.
