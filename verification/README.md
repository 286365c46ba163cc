# Verification models for sz-rust

This project models the self-contained algorithms of the sz-rust repository in Dafny and proves what they
are for. Every module stands for one source file or one part of it.

* **Release planning and publishing** (`DepGraph`, `CycleFinder`, `TopoSort`, `Layers`, `Planner`, `Publisher`,
  with `Names` for the order on names and `Sorting` for the library sort). The planner builds a dependency
  multigraph from the workspace members, looks for a cycle with a three-colour depth-first search, sorts the
  crates with Kahn's algorithm over a queue that is re-sorted after every push, assigns layers with a memo
  table, and re-checks the order. The publisher walks the order and stops at the first failure. A dependency
  listed in two sections is two edges. Main results: the search answers "none" exactly for acyclic graphs; the
  sort places exactly the crates that reach no cycle, in the lexicographically least dependency-first order,
  which does not depend on insertion order or repeated edges; layers are longest dependency chains; the re-check
  never rejects. The publisher reads the order file that the planner left behind. If that file is a plan of the
  workspace, then whenever a crate is attempted, everything unskipped that it needs, directly or indirectly, has
  been handled; for a file written for another workspace it is proved exactly when this still holds.
* **Plugin manifests** (`PhpScanner`, `PhpBytes`, `PhpParser`, `PhpLexers`, `PhpPrinter`, `PhpPieces`,
  `PhpManifest`, `IniForms`, with `Text` for strings and `Literals` for what stands between quotes). Two lexers
  read the same PHP text: a byte scanner that finds the end of the `$info` array, and a parser for the body.
  Main results: they agree on every string literal; the parser consumes input in every turn; a printed array is
  parsed back, whatever its strings contain, whatever follows it, and whatever stands before it other than
  another `$info` array; a file is parsed as given entries if and only if it holds an array of literals,
  numbers, words and signs with balanced brackets that mean these entries; an INI file is parsed as given
  entries if and only if its lines are settings, in one of five forms, that give these entries, and lines that
  set nothing; it overrides the array key by key; scanning bytes and scanning characters find the same end.
* **Resource routes** (`ResourceRoutes`). Main result: addon, controller and action can be decoded from method
  and URL, so no two routes over slash-free names collide. Names with slashes can shadow them: exactly the
  routes of dotted controllers and the read-only ones other than the index.
* **The unwrap gate** (`SourceStripper`, `SourceFragments`, `TestBlocks`). Main results: stripping deletes
  nothing but characters other than newlines, so line numbers are those of the source; every text is a sequence
  of code characters, lifetimes, comments, however deeply nested, and literals, and stripping keeps the code and
  the lifetimes as they are and the newlines of the rest; the lines reported are exactly those that hold the
  call, are no attributes and lie outside all test items, where "inside a test item" is defined by brace depth
  alone, without a stack; and a machine that remembers a single threshold instead of the stack reports the same
  lines.
* **The orphan-module gate** (`ModuleReach`): the worklist search equals reachability through resolved `mod`
  declarations.
* **Rewriting of match blocks** (`BlockRewrite`): in-place splicing from the back equals simultaneous
  replacement in the original file; nothing but the blocks changes.
* **The benchmark gate** (`PerfGate`): nearest-rank percentiles, medians, the reported coefficient of variation,
  exactly when the gate fails, in the numbers measured, and when a large loss must fail. However noisy the
  measurement, a loss of more than 30% always fails if and only if the number of repetitions is not two and the
  nominal threshold is at most 30%.
* **The plugin registry** (`AddonRegistry`) and **range compression** (`LineRanges`).

`dafny verify dfyconfig.toml` checks the whole project.

## How the source is represented

* A JavaScript `Map` is a Dafny map together with its insertion order. Names are strings compared by
  character value; on the ASCII names that Cargo allows this is the order of an unparameterised sort and
  of Rust's string order. A library sort is a function whose result is proved sorted and a permutation.
* The closure state of the cycle search, the memo table of the layering, the registry and the directory with
  the order file are classes with the fields that the source updates. Local maps and lists that a loop
  updates are local variables.
* Regular expressions over single lines, file existence, the outcome of each package-manager call, the
  index search after publishing, measured numbers and the order in which a directory is read are
  parameters. So are the Unicode tables of letters and numerals beyond ASCII.
* The body parser's peekable iterator is a position in the text; consuming a character moves it.
* Crates are published by position in the plan, so the outcomes of a run are a function of the position.
* Numbers in `PerfGate` are exact reals. The rounding to one, two and three digits is modelled, because the
  gate compares rounded values; the standard deviation is the exact root of the variance.

## What the proofs found

* In `rewrite_panic_assert.py` the close of a block is looked for at the end of each line only. A line that
  takes the depth below zero ends the search, and the block then ends at the line after it, whatever that
  line holds (`BlockRewrite.EndsTooLate`). A block ends where its header's brace closes if and only if no line
  before takes the depth below zero (`BlockRewrite.EndsWhereClosedIff`).
* The re-check of the publish order treats a dependency without an entry as placed
  (`Planner.DependencyEarlier`). No plan contains such a dependency, so this never matters.
* The route URLs are free of collisions over names without a slash, and nothing in the builder forbids a
  slash. A route over slash-free names is shadowed by some route over names with slashes if and only if its
  controller is dotted or it is a read-only route other than the index (`ResourceRoutes.ShadowedIff`): the
  suffix can be read as part of the controller's name, and a parent as part of the addon's.
* The publisher never compares the order file with the workspace. A planning run that stops early, on a cycle
  for example, leaves the old file, and a publishing run works through it. Lost dependencies do no harm
  (`Publisher.LostDependenciesStaySafe`); a gained one can be published in the wrong order
  (`Publisher.GainedDependencyIsMissed`); `Publisher.SafeForIff` tells exactly when a file is safe.
* The demand of the benchmark gate that two repetitions be below the threshold follows from the median,
  except with exactly two repetitions (`PerfGate.MedianDecides`). With two it can hide a loss: at 10 and 20
  requests per second against a baseline of 25 the endpoint passes with a loss of 40%
  (`PerfGate.TwoRepetitionsHideLoss`). So can a nominal threshold above 30%, which the cap on the noise does
  not limit (`PerfGate.LooseThresholdHidesLoss`). There is no third way (`PerfGate.LargeLossFailsIff`).
* After `=>` the body parser takes the next literal, number or one of the words `true`, `false` and `null` as the
  value, whatever words, signs and brackets stand before it (`PhpPieces.LooseRoundTrip`). So a call or a nested
  array gives the first literal or number inside, and a class constant gives no entry. A word that starts with
  t, f or n ends at its first character that is no letter, so that `text2` is a word and the value 2.
* The INI parser aborts on a value that is a single quote character
  (`PhpManifest.LineAbortsIff`, `PhpManifest.AbortsIff`).
* When listing a plugin directory breaks off, the load reports failure, but the plugins read before stay
  registered (`AddonRegistry.Registry.LoadFromDirectory`).

Where the code and its comments differ, the model follows the code: the orphan gate announces a depth-first
search and an exemption for modules declared with a path attribute, but it searches breadth-first and exempts
nothing; the body parser announces that it skips comments, but it reads quotes inside them like any others
(and so does the scanner); `register` documents a not-found error for a name that is already taken.

## Model

| member | source | states |
|---|---|---|
| `Names.LeqMeans` | scripts/publish/publish-prepare.js:661 | the order used by the sort is the lexicographic one |
| `Names.SortIsSorted` | scripts/publish/publish-prepare.js:661-673 | the library sort yields an ascending list |
| `Names.SortedUnique` | scripts/publish/publish-prepare.js:673 | an ascending arrangement is determined by its elements, so sorting forgets the input order |
| `DepGraph.PlacedReachesNoCycle` | scripts/publish/publish-prepare.js:663-676 | a crate of a dependency-first order has no dependency path into a cycle |
| `DepGraph.UnplacedReachesCycle` | scripts/publish/publish-prepare.js:663-676 | where no further crate is ready, every crate left over has a path into a cycle |
| `DepGraph.OrderOfAllIsAcyclic` | scripts/publish/publish-prepare.js:623-633 | a dependency-first order of all crates proves the graph acyclic |
| `CycleFinder.Search.Dfs` | scripts/publish/publish-prepare.js:608-626 | either a real cycle is found, or the node is finished, the path is as before, finished crates stay finished in dependency-first order, and gray is exactly the path |
| `CycleFinder.CloseCycle` | scripts/publish/publish-prepare.js:613-617 | the path from the gray node on, closed with it, has equal ends and only real edges |
| `CycleFinder.DetectCycle` | scripts/publish/publish-prepare.js:601-634 | the answer is none if and only if the graph has no cycle, and otherwise is a cycle, on any graph |
| `TopoSort.Reverse` | scripts/publish/publish-prepare.js:642-655 | each crate is recorded as a dependent as often as it lists the dependency |
| `TopoSort.QueueIsReady` | scripts/publish/publish-prepare.js:657-676 | with no decrement pending, the queue holds exactly the unplaced crates whose dependencies are all placed |
| `TopoSort.PlaceHead` | scripts/publish/publish-prepare.js:665-668 | taking the head of the queue leaves exactly its dependents, with repetitions, to be lowered |
| `TopoSort.LowerOne` | scripts/publish/publish-prepare.js:669-675 | each decrement keeps in-degree equal to missing dependencies plus pending decrements, and queues a crate exactly when it gets ready |
| `TopoSort.TopologicalSort` | scripts/publish/publish-prepare.js:636-679 | the order is dependency-first, lexicographically least among all dependency-first orders, and holds exactly the crates that reach no cycle |
| `TopoSort.GreedyIsLexLeast` | scripts/publish/publish-prepare.js:663-676 | always placing the least ready crate beats every other dependency-first order at the first difference |
| `TopoSort.OrderUnique` | scripts/publish/publish-prepare.js:636-679 | graphs with the same dependency relation get the same order, whatever the insertion order and repeated edges |
| `TopoSort.PlacedExactly` | scripts/publish/publish-prepare.js:663-678 | a crate is emitted if and only if no dependency path leads from it into a cycle |
| `TopoSort.AllPlacedIffAcyclic` | scripts/publish/publish-prepare.js:799-807 | sort and cycle search agree: every crate is emitted if and only if there is no cycle |
| `Layers.LayerMemo.AssignLayer` | scripts/publish/publish-prepare.js:681-692 | the memoised recursion ends on every acyclic graph and returns the length of the longest dependency chain |
| `Layers.LayerUnique` | scripts/publish/publish-prepare.js:681-692 | a crate has one layer |
| `Layers.DependencyIsLower` | scripts/publish/publish-prepare.js:688-690 | a dependency lies in a strictly lower layer |
| `Planner.DagMeaning` | scripts/publish/publish-prepare.js:576-599 | nodes are the names of the crates that exist and are published, the package name before the member's; edges are exactly the dependencies that these declare on each other |
| `Planner.DagMultiplicity` | scripts/publish/publish-prepare.js:588-596 | a dependency is an edge as many times as the crates of that name list it |
| `Planner.BuildDag` | scripts/publish/publish-prepare.js:576-599 | the two passes build that graph, and every edge target is a node |
| `Planner.GeneratePublishOrder` | scripts/publish/publish-prepare.js:694-710 | one entry per crate, with position, dependencies and longest-chain layer |
| `Planner.RecheckOrder` | scripts/publish/publish-prepare.js:823-834 | accepts if and only if every dependency with an entry has a smaller position |
| `Planner.RecheckAccepts` | scripts/publish/publish-prepare.js:823-839 | the re-check accepts the entries of every dependency-first order |
| `Planner.Prepare` | scripts/publish/publish-prepare.js:790-839 | a cycle is reported if and only if there is one, the order is never rejected, and otherwise a complete least plan results |
| `Planner.SameGraphsIff` | scripts/publish/publish-prepare.js:576-599 | two workspaces have the same dependency relation exactly if they publish the same names and declare the same dependencies between them |
| `Planner.PlanUnique` | scripts/publish/publish-prepare.js:790-809 | plans of workspaces with the same declarations agree on crates, layers and positions |
| `Planner.PlanForgetsListing` | scripts/publish/publish-prepare.js:790-809 | crates, layers and positions do not depend on the order or repetition of members, nor on the order or repetition of their dependency entries |
| `Planner.PlanOrdersDependencies` | scripts/publish/publish-prepare.js:694-705 | every dependency has an earlier entry in a strictly lower layer |
| `Planner.PlanEntries` | scripts/publish/publish-prepare.js:694-705 | an entry holds its position counted from one, all recorded dependencies of its crate, and the length of the longest dependency chain below it |
| `Planner.PlanIsComplete` | scripts/publish/publish-prepare.js:806-809 | a plan holds every crate of the graph, in dependency-first order |
| `Publisher.PublishCrate` | scripts/publish/publish-execute.js:71-105 | fails exactly for a forbidden name or an error that does not say "already exists"; succeeds exactly on normal output without it |
| `Publisher.NameAllowedIff` | scripts/publish/publish-execute.js:30 | a name is allowed if and only if it is not empty, consists of lower-case letters, digits and hyphens, and does not start with a hyphen |
| `Publisher.GenerateSummary` | scripts/publish/publish-execute.js:132-148 | success counts the published and the verified records, the others those with their status, and the counters add up to the total |
| `Publisher.PublishedAre` | scripts/publish/publish-execute.js:172 | what is published is exactly what is planned and not skipped |
| `Publisher.KeptPositions` | scripts/publish/publish-execute.js:172 | the entries that are not skipped, all of them, each once and in plan order |
| `Publisher.PublishAll` | scripts/publish/publish-execute.js:188-264 | the log is a prefix of the plan with at most its last entry failed; after a run without failure that is no dry run exactly the successes that are found become verified, and otherwise no record changes; exit code and failed count tell a failure |
| `Publisher.TransitivelyHandled` | scripts/publish/publish-execute.js:172-230 | over an order with dependencies first, when a crate is attempted, everything on any dependency path below it that is not skipped was attempted before and did not fail, also where the path leads through skipped crates |
| `Publisher.DependenciesHandled` | scripts/publish/publish-execute.js:192-230 | in particular every direct dependency that is not skipped |
| `Publisher.CompleteRunHandlesAll` | scripts/publish/publish-execute.js:192-264 | a run without failure has handled every crate of the graph that is not skipped |
| `Publisher.ReleaseDirectory.RunPrepare` | scripts/publish/publish-prepare.js:744-839 | the order file is replaced, by a plan of the workspace, exactly when no earlier step ends the run and there is no cycle; a cycle is exit code 13 |
| `Publisher.ReleaseDirectory.RunExecute` | scripts/publish/publish-execute.js:150-264 | exit codes in the order of the checks, nothing published without token, file or login, and otherwise a run over the file that is safe for direct and indirect dependencies and, on success, complete for every workspace of which the file is a plan |
| `Publisher.SafeForIff` | scripts/publish/publish-execute.js:171-230 | whatever file is read, all runs over it are safe for a workspace, in its direct or in all its dependencies, if and only if each attemptable entry comes after the entries of what it needs and is not skipped |
| `Publisher.LostDependenciesStaySafe` | scripts/publish/publish-execute.js:171-230 | a plan stays safe for a workspace whose crates need nothing that the planned ones did not need, directly or indirectly |
| `Publisher.GainedDependencyIsMissed` | scripts/publish/publish-execute.js:171-230 | a plan is not safe for every acyclic workspace that gained a dependency: two independent crates, the first of which comes to need the second |
| `PhpScanner.ScanArray` | packages/sz-rust-addons-loader/src/manifest.rs:303-341 | the loop with its four flags equals a scan over three string modes |
| `PhpScanner.EndIsOutside` | packages/sz-rust-addons-loader/src/manifest.rs:326-341 | the end of the array lies outside all strings |
| `PhpBytes.ScanBytes` | packages/sz-rust-addons-loader/src/manifest.rs:303-341 | the byte loop equals the byte-wise scan |
| `PhpBytes.ByteScanAgrees` | packages/sz-rust-addons-loader/src/manifest.rs:304-344 | scanning the UTF-8 bytes finds the end exactly at the character at which scanning characters finds it |
| `PhpParser.NextPos` | packages/sz-rust-addons-loader/src/manifest.rs:358-469 | every turn of the parser consumes at least one character |
| `PhpParser.ParseArrayBody` | packages/sz-rust-addons-loader/src/manifest.rs:353-473 | the loops compute the entries of the body |
| `PhpParser.ParsePhpInfoArray` | packages/sz-rust-addons-loader/src/manifest.rs:297-350 | start, end and body in sequence, none if the start or the end is missing |
| `PhpParser.AsciiWords` | packages/sz-rust-addons-loader/src/manifest.rs:433-456 | which characters words are made of |
| `PhpBytes.Utf8Decodes` | packages/sz-rust-addons-loader/src/manifest.rs:303-304 | each character can be read off its bytes, of which only the first can be mistaken for one below 128 |
| `PhpLexers.ReadFollowsMode` | packages/sz-rust-addons-loader/src/manifest.rs:370-396 | reading a literal follows the scanner's string mode character by character |
| `PhpLexers.TurnAgrees` | packages/sz-rust-addons-loader/src/manifest.rs:358-469 | each turn starts and ends outside strings and contains only the literal it opened |
| `PhpLexers.LexersAgree` | packages/sz-rust-addons-loader/src/manifest.rs:303-473 | in every file with an array the parser's literals are all closed inside the slice and are exactly the stretches of the file in which the scanner was in string mode |
| `PhpPrinter.ParsePrintedInt` | packages/sz-rust-addons-loader/src/manifest.rs:413-428 | a decimal number is read back if it fits into 64 bits and rejected otherwise |
| `PhpPrinter.ParseI64Iff` | packages/sz-rust-addons-loader/src/manifest.rs:413-428 | a text is read as an integer if and only if it is a sign or none and digits that write a 64-bit number |
| `PhpPrinter.ReadEscaped` | packages/sz-rust-addons-loader/src/manifest.rs:366-396 | a literal with all its escape sequences is read back |
| `PhpPrinter.InfoWithBlanks` | packages/sz-rust-addons-loader/src/manifest.rs:299-301 | any white space may stand around the equals sign |
| `PhpPrinter.FindInfoIff` | packages/sz-rust-addons-loader/src/manifest.rs:299-301 | what is found is the first start of an array, and nothing if and only if there is none |
| `PhpPrinter.ScanPrinted` | packages/sz-rust-addons-loader/src/manifest.rs:303-343 | the scanner finds the closing bracket of every printed array, whatever its strings contain |
| `PhpPrinter.RoundTrip` | packages/sz-rust-addons-loader/src/manifest.rs:297-473 | any entries printed as an array, after text without another array and before any text, are parsed back; a later value for a key wins |
| `PhpPrinter.RoundTripMap` | packages/sz-rust-addons-loader/src/manifest.rs:297-473 | every map of strings, 64-bit integers and booleans is parsed back, with its entries printed in any order and either kind of quotes |
| `PhpPieces.BodyMeans` | packages/sz-rust-addons-loader/src/manifest.rs:353-473 | a body of pieces is read as they mean: a key takes the next value, and words, signs, literals before a lone equals sign and numbers that are none make no difference |
| `PhpPieces.PiecesScanned` | packages/sz-rust-addons-loader/src/manifest.rs:303-343 | the scan ends behind the pieces if and only if their brackets are balanced |
| `PhpPieces.PiecesRoundTrip` | packages/sz-rust-addons-loader/src/manifest.rs:297-473 | balanced pieces written as an array are parsed as they mean |
| `PhpPieces.LooseRoundTrip` | packages/sz-rust-addons-loader/src/manifest.rs:353-473 | with any such text between arrow and value and behind the value the entries are those without it, and a key without a value before the next key gets no entry |
| `PhpPieces.EveryArrayIsPieces` | packages/sz-rust-addons-loader/src/manifest.rs:297-473 | every array that is found is made of balanced pieces and is parsed as they mean |
| `PhpPieces.ParsedIff` | packages/sz-rust-addons-loader/src/manifest.rs:297-473 | a file is parsed, and as given entries, if and only if it holds an array of balanced pieces that mean these entries and no array starts before it |
| `PhpManifest.ParseSimpleIni` | packages/sz-rust-addons-loader/src/manifest.rs:500-532 | the loop over the lines inserts the pairs in order, or aborts |
| `PhpManifest.AbortsIff` | packages/sz-rust-addons-loader/src/manifest.rs:503-529 | the parser aborts if and only if some line does |
| `PhpManifest.LineAbortsIff` | packages/sz-rust-addons-loader/src/manifest.rs:509-516 | a line aborts if and only if its value is a single quote character |
| `PhpManifest.IniRoundTrip` | packages/sz-rust-addons-loader/src/manifest.rs:500-532 | entries printed as an INI file are parsed back |
| `IniForms.SettingRead` | packages/sz-rust-addons-loader/src/manifest.rs:503-527 | a line with any white space around key, equals sign and value is read as its key and the value of its form: bare text, either kind of quotes, a 64-bit integer, `true` or `false` |
| `IniForms.NoteRead` | packages/sz-rust-addons-loader/src/manifest.rs:503-508 | a line that is blank, a comment or without equals sign sets nothing |
| `IniForms.FormsRoundTrip` | packages/sz-rust-addons-loader/src/manifest.rs:500-532 | a file of such lines in any order, also with carriage returns at their ends, is parsed back |
| `IniForms.EveryLineIs` | packages/sz-rust-addons-loader/src/manifest.rs:500-532 | every line on which the parser does not abort is one of these |
| `IniForms.IniParsedIff` | packages/sz-rust-addons-loader/src/manifest.rs:500-532 | an INI file is parsed, and as given entries, if and only if it consists of such lines and its settings are these entries |
| `PhpManifest.ParseManifest` | packages/sz-rust-addons-loader/src/manifest.rs:152-234 | missing, unreadable and malformed files are told apart, the INI file counts only after the array, and its entries override those of the array |
| `PhpManifest.ManifestFields` | packages/sz-rust-addons-loader/src/manifest.rs:211-262 | each text field is read from its own entry: a string as it is, a number as its digits, `true` as 1, and nothing if absent or `false`; an empty name is the directory's |
| `PhpManifest.ManifestStatus` | packages/sz-rust-addons-loader/src/manifest.rs:228-276 | the status is the number, the number that a string writes, or 1 for `true`, and otherwise zero |
| `PhpManifest.IniOverridesInfo` | packages/sz-rust-addons-loader/src/manifest.rs:184-197 | array and INI file together mean the array's entries followed by the INI file's |
| `PhpManifest.ManifestRoundTrip` | packages/sz-rust-addons-loader/src/manifest.rs:210-234 | a manifest written as an array is read back, with the directory's name for an empty one |
| `PhpManifest.StatusFromString` | packages/sz-rust-addons-loader/src/manifest.rs:249-276 | an integer keeps its value through the conversion to a string and back |
| `ResourceRoutes.BuildBaseUrl` | packages/sz-rust-addons-loader/src/resource.rs:359-376 | the loop builds the nested base URL |
| `ResourceRoutes.BuildRoutes` | packages/sz-rust-addons-loader/src/resource.rs:294-336 | empty names are errors, and an action has an entry, with its method and URL, if and only if it is included |
| `ResourceRoutes.NestedPath` | packages/sz-rust-addons-loader/src/resource.rs:359-376 | a dotted controller is below its parent's id, and an undotted one is its own path |
| `ResourceRoutes.RouteTable` | packages/sz-rust-addons-loader/src/resource.rs:74-94 | method and URL of the seven routes |
| `ResourceRoutes.EntriesInOrder` | packages/sz-rust-addons-loader/src/resource.rs:310-327 | the entries keep the order of the actions, so that none is repeated |
| `ResourceRoutes.SplitUrl` | packages/sz-rust-addons-loader/src/resource.rs:321 | the path segments of every route over slash-free names |
| `ResourceRoutes.DecodeRoute` | packages/sz-rust-addons-loader/src/resource.rs:294-376 | addon, dotted controller and action are decoded back from method and URL |
| `ResourceRoutes.NoCollision` | packages/sz-rust-addons-loader/src/resource.rs:74-94 | over slash-free names, equal method and URL mean the same addon, controller and action |
| `ResourceRoutes.SuffixMoves` | packages/sz-rust-addons-loader/src/resource.rs:321-376 | every route has the URL of the index of a controller whose name ends in the suffix, for any addon and controller |
| `ResourceRoutes.ParentMoves` | packages/sz-rust-addons-loader/src/resource.rs:359-376 | every route of a dotted controller has the URL of the same action of an addon whose name ends in the first parent |
| `ResourceRoutes.SlashCollides` | packages/sz-rust-addons-loader/src/resource.rs:321-376 | for every addon and every controller the create route is also an index route, of a longer controller name and of a longer addon name |
| `ResourceRoutes.Unshadowed` | packages/sz-rust-addons-loader/src/resource.rs:74-94 | a writing route or an index of an undotted controller collides with no route over any names |
| `ResourceRoutes.ShadowedIff` | packages/sz-rust-addons-loader/src/resource.rs:294-376 | exactly which routes over slash-free names some other route over nonempty names answers: those of dotted controllers and the read-only ones other than the index |
| `SourceStripper.SkipQuotedLoop` | scripts/check-unwrap.py:106-115 | the loop computes the end of a quoted literal |
| `SourceStripper.SkipQuotedEndsAtClosingQuote` | scripts/check-unwrap.py:106-115 | that end is the first quote with an even number of backslashes before it, or the end of the text |
| `SourceStripper.LiteralIsOneToken` | scripts/check-unwrap.py:72-99 | a string, with or without prefix, or a character literal is one token up to its closing quote |
| `SourceStripper.CharacterIsOneToken` | scripts/check-unwrap.py:90-99 | a single character in quotes, such as a brace, is dropped |
| `SourceStripper.RawStringIsOneToken` | scripts/check-unwrap.py:62-70 | a raw string, with or without the byte prefix, ends after the first quote followed by as many hashes as opened it |
| `SourceStripper.LifetimeOrCharacter` | scripts/check-unwrap.py:90-99 | a name after a quote is kept unless another quote closes it |
| `SourceStripper.LineCommentIsOneToken` | scripts/check-unwrap.py:42-45 | a line comment ends right before its newline |
| `SourceStripper.NestedCommentIsOneToken` | scripts/check-unwrap.py:47-60 | a block comment, however deeply nested and whatever its text, is one token that ends at its own closing mark |
| `SourceStripper.BlockCommentIsNestedOrUnclosed` | scripts/check-unwrap.py:47-60 | every block comment is of that form, or is unclosed and takes the rest of the text |
| `SourceStripper.PlainCodeKept` | scripts/check-unwrap.py:101-103 | text without quotes and slashes is kept as it is |
| `SourceStripper.TokensCoverInput` | scripts/check-unwrap.py:38-103 | the tokens are consecutive and together are the input |
| `SourceFragments.CodeIsKept` | scripts/check-unwrap.py:38-103 | a character at which no comment, raw string, string or character literal opens is kept by itself, whatever follows |
| `SourceFragments.OpenedIsDropped` | scripts/check-unwrap.py:42-99 | where one opens the token is dropped, unless it is a lifetime |
| `SourceFragments.FragmentToken` | scripts/check-unwrap.py:38-103 | each fragment at the head of a text is one token, kept exactly if it is code or a lifetime |
| `SourceFragments.StripKeeps` | scripts/check-unwrap.py:24-103 | of a sequence of fragments the code and the lifetimes are kept, with the newlines of the others between them |
| `SourceFragments.EveryTextIsFragments` | scripts/check-unwrap.py:24-103 | every text is such a sequence |
| `SourceStripper.StripSource` | scripts/check-unwrap.py:24-103 | the output is the input with only characters other than newlines deleted |
| `SourceStripper.StripKeepsLines` | scripts/check-unwrap.py:24-29 | as many lines as before, each of them what is left of the same line of the source |
| `TestBlocks.CodeLineBalance` | scripts/check-unwrap.py:133-143 | a line of code changes the depth by exactly the braces it holds |
| `TestBlocks.ThresholdNext` | scripts/check-unwrap.py:150-158 | a threshold stays on the stack exactly until the depth falls below it |
| `TestBlocks.InTestIff` | scripts/check-unwrap.py:145-154 | a line lies in a test item if and only if it starts one or an earlier one is still open |
| `TestBlocks.MarkedNext` | scripts/check-unwrap.py:134-148 | the pending flag means a test attribute with only blank lines and attributes since |
| `TestBlocks.ScanLines` | scripts/check-unwrap.py:127-159 | the lines reported are, in order and with their texts, exactly the unwrapping lines outside all test items, and exactly those that the machine with one threshold reports |
| `TestBlocks.StackRefinesOutermost` | scripts/check-unwrap.py:128-158 | the stack is strictly increasing with its top at most the depth, and its bottom is what the machine with one threshold remembers |
| `TestBlocks.TrackMeans` | scripts/check-unwrap.py:127-158 | at every line the flag means a pending test attribute and the stack holds the thresholds of the open test items |
| `TestBlocks.SimpleHitIff` | scripts/check-unwrap.py:150-158 | the machine with one threshold reports a line if and only if it unwraps outside all test items |
| `TestBlocks.ClassifyDescribes` | scripts/check-unwrap.py:132-154 | a raw line is blank, an attribute, test-marking if and only if one of the two patterns matches, or code, with the braces of the raw line and the call if and only if the raw line holds it |
| `TestBlocks.DescribedInOneWay` | scripts/check-unwrap.py:132-154 | these descriptions of the lines are unique |
| `TestBlocks.Scan` | scripts/check-unwrap.py:123-159 | a line of the source is reported, under its own number, if and only if what stripping leaves of it holds `.unwrap()`, does not start with `#[` and lies outside all test items; the text is what trimming leaves of it, cut after a hundred characters |
| `ModuleReach.CollectReachable` | scripts/audit/orphan-module-check.js:47-79 | the search ends and returns exactly the files reachable through resolved declarations |
| `ModuleReach.EdgeIff` | scripts/audit/orphan-module-check.js:61-76 | a declaration leads to the file of that name beside the declaring file, or else to the `mod.rs` in the directory of that name |
| `ModuleReach.OrphansOfCrate` | scripts/audit/orphan-module-check.js:88-113 | a file is listed if and only if the crate has an entry, the file is none, and no entry reaches it |
| `ModuleReach.OrphanLabelIff` | scripts/audit/orphan-module-check.js:87-113 | the labels listed are those of the files that are no entry and that none of the crate's entries, `lib.rs`, `main.rs` or below `bin/`, leads to |
| `ModuleReach.ListOrphans` | scripts/audit/orphan-module-check.js:82-116 | exactly the orphans of all crates, sorted, and each of them once if the directory listings repeat nothing |
| `ModuleReach.Gate` | scripts/audit/orphan-module-check.js:120-145 | passes if and only if every orphan is in the baseline; an update makes the orphans the baseline |
| `ModuleReach.UpdateThenCheck` | scripts/audit/orphan-module-check.js:132-143 | after an update a tree passes if and only if it has no orphan that the updated tree had not |
| `BlockRewrite.FindMatchBlocks` | scripts/audit/rewrite_panic_assert.py:35-64 | the blocks found are disjoint and increasing |
| `BlockRewrite.BlocksStartAtHeaders` | scripts/audit/rewrite_panic_assert.py:43-62 | a block starts at a header, with that header, and ends at the line that the search for its close finds |
| `BlockRewrite.HeadersAreCovered` | scripts/audit/rewrite_panic_assert.py:40-63 | no header whose braces close is missed |
| `BlockRewrite.ClosedHeaderIsCovered` | scripts/audit/rewrite_panic_assert.py:40-63 | a header whose brace closes, and not below zero before, lies in some block, and its own close line is that one |
| `BlockRewrite.CloseLineIsFirstBalanced` | scripts/audit/rewrite_panic_assert.py:48-59 | a block ends at the first line with balanced braces, or after the first line that takes the depth below zero |
| `BlockRewrite.DepthCountsBraces` | scripts/audit/rewrite_panic_assert.py:49-56 | the depth at a line is one plus the opening minus the closing braces of the text since the header |
| `BlockRewrite.EndsWhereClosedIff` | scripts/audit/rewrite_panic_assert.py:48-62 | a block ends where its header's brace closes if and only if no line before takes the depth below zero |
| `BlockRewrite.EndsTooLate` | scripts/audit/rewrite_panic_assert.py:48-62 | after a header and a line of two closing braces the block ends at the next line, whatever it holds |
| `BlockRewrite.SpliceStep` | scripts/audit/rewrite_panic_assert.py:163-169 | with later blocks replaced, a block still has its original lines and place |
| `BlockRewrite.PanicsAreOld` | scripts/audit/rewrite_panic_assert.py:165-171 | a line of the result that panics is a line of the original |
| `BlockRewrite.ProcessFile` | scripts/audit/rewrite_panic_assert.py:151-178 | splicing from the back equals simultaneous replacement, and rewritten plus skipped is the number of blocks |
| `BlockRewrite.OnlyBlocksChange` | scripts/audit/rewrite_panic_assert.py:151-171 | the same lines stand before, between and after the blocks, and each block is what the rewriter makes of its inner lines, or itself if that is nothing or mentions `panic!` |
| `BlockRewrite.CountsRewritten` | scripts/audit/rewrite_panic_assert.py:163-173 | those of the first kind are counted as rewritten |
| `PerfGate.PercentileIsNearestRank` | scripts/perf-regression.js:359-364 | an element with at least the share p not above it and less than p strictly below it |
| `PerfGate.PercentileMonotone` | scripts/perf-regression.js:359-364 | percentiles grow with p and are bounded by the maximum |
| `PerfGate.MedianSplits` | scripts/perf-regression.js:371-376 | at most half of the values lie strictly on either side |
| `PerfGate.MedianIs` | scripts/perf-regression.js:371-376 | in any ascending arrangement the median is the middle, or half of the sum of the two there |
| `PerfGate.MedianBelowForcesTwo` | scripts/perf-regression.js:371-376 | a median of three or more values below a threshold forces two of them below it |
| `PerfGate.Round1Iff` | scripts/perf-regression.js:366-369 | rounding to one digit gives the nearest number with one, the higher of two equally near |
| `PerfGate.ReportedMedianNotLower` | scripts/perf-regression.js:436 | rounding the median of rounded samples never lowers it |
| `PerfGate.CvPctUnique` | scripts/perf-regression.js:378-391 | the coefficient of variation that is reported is determined by the samples |
| `PerfGate.Evaluate` | scripts/perf-regression.js:506-577 | a status per endpoint, the reasons with their numbers in order, and failure if and only if some endpoint does not pass or a baseline endpoint is missing |
| `PerfGate.ThroughputFailsIff` | scripts/perf-regression.js:522-527 | the throughput test fails if and only if the reported median, or with two repetitions each of them, has lost more than the tolerated per cent: the nominal ones if three times the coefficient is not above them, and otherwise the smaller of 30 and three times the coefficient, if that is more |
| `PerfGate.StatusIff` | scripts/perf-regression.js:506-553 | an endpoint fails if and only if its throughput does or latency or error rate exceed their limits |
| `PerfGate.GateFailsIff` | scripts/perf-regression.js:506-577 | the gate fails if and only if that happens to a measured endpoint, one has no baseline, or a baseline endpoint was not measured |
| `PerfGate.ReasonsIff` | scripts/perf-regression.js:529-547 | which reasons are given for an endpoint, with their rounded numbers |
| `PerfGate.MeasuredReasonsAre` | scripts/perf-regression.js:511-553 | the reasons of all endpoints are those of each |
| `PerfGate.MissingReasonsAre` | scripts/perf-regression.js:570-574 | a baseline endpoint is reported as not measured if and only if it was not and the option to skip is not set |
| `PerfGate.MedianDecides` | scripts/perf-regression.js:510-527 | unless there are exactly two repetitions, the reported median decides alone |
| `PerfGate.TwoRepetitionsNeedBoth` | scripts/perf-regression.js:510-527 | with two repetitions the test fails if and only if both are below the threshold |
| `PerfGate.NoiseCannotDisableGate` | scripts/perf-regression.js:519-527 | unless there are exactly two repetitions or the nominal threshold is above 30%, a reported median below 70% of the baseline fails, however noisy the measurement |
| `PerfGate.LossFailsGate` | scripts/perf-regression.js:506-577 | one such endpoint fails the whole gate |
| `PerfGate.NoFalseAlarm` | scripts/perf-regression.js:522-527 | a loss within the nominal threshold, or within three times the noise up to 30%, does not fail |
| `PerfGate.PassBoundsLoss` | scripts/perf-regression.js:523-553 | a pass bounds the loss by the effective threshold; with exactly two repetitions only for one of them, and the median is at least half of the threshold |
| `PerfGate.GatePassMeans` | scripts/perf-regression.js:506-577 | a passing gate bounds latency, errors and loss of every measured endpoint, the loss by 30%, or 65% with two repetitions, if the nominal threshold is at most 30%, and no baseline endpoint is missing |
| `PerfGate.TwoRepetitionsHideLoss` | scripts/perf-regression.js:394-527 | a measurement with two repetitions, at any unchanged latency and any tolerated error rate, that has lost 40% and passes |
| `PerfGate.LooseThresholdHidesLoss` | scripts/perf-regression.js:394-527 | for every nominal threshold above 30% and every number of repetitions, a measurement that has lost more than 30% and does not fail |
| `PerfGate.LargeLossFailsIff` | scripts/perf-regression.js:394-527 | every measured loss of more than 30% fails the throughput test if and only if the repetitions are not two and the nominal threshold is at most 30% |
| `AddonRegistry.ListingUnique` | packages/sz-rust-addons-loader/src/registry.rs:159-164 | the list of names is determined by the contents |
| `AddonRegistry.ViewUnique` | packages/sz-rust-addons-loader/src/registry.rs:166-196 | so are the views of all, enabled and disabled plugins |
| `AddonRegistry.EnabledDisabledPartition` | packages/sz-rust-addons-loader/src/registry.rs:174-196 | a plugin is in the enabled view if and only if its status is not zero, and in the disabled one if and only if it is |
| `AddonRegistry.LastSupplierWins` | packages/sz-rust-addons-loader/src/registry.rs:243-277 | after a load, a name is registered with the last directory that supplied it |
| `AddonRegistry.NoSupplierKeeps` | packages/sz-rust-addons-loader/src/registry.rs:243-277 | a name that no directory supplied keeps what was registered |
| `AddonRegistry.OneOutcomeEach` | packages/sz-rust-addons-loader/src/registry.rs:263-276 | each visible directory yields exactly one update or one error |
| `AddonRegistry.ErrorPositions` | packages/sz-rust-addons-loader/src/registry.rs:250-277 | one error, in the order of the listing, for each directory without a leading dot whose manifest could not be read |
| `AddonRegistry.Registry.Register` | packages/sz-rust-addons-loader/src/registry.rs:71-81 | adds a new name and never replaces one |
| `AddonRegistry.Registry.Upsert` | packages/sz-rust-addons-loader/src/registry.rs:85-88 | sets the entry of one name and keeps every plugin under its own name |
| `AddonRegistry.Registry.Unregister` | packages/sz-rust-addons-loader/src/registry.rs:97-100 | removes and returns one plugin, if there is one |
| `AddonRegistry.Registry.Get` | packages/sz-rust-addons-loader/src/registry.rs:107-113 | returns the plugin of that name or an error |
| `AddonRegistry.Registry.SetEnabled` | packages/sz-rust-addons-loader/src/registry.rs:149-156 | changes the status of one plugin and nothing else |
| `AddonRegistry.Registry.ListNames` | packages/sz-rust-addons-loader/src/registry.rs:159-164 | the names in ascending order, whatever the iteration order of the map |
| `AddonRegistry.Registry.EnabledAddons` | packages/sz-rust-addons-loader/src/registry.rs:175-184 | exactly the enabled plugins, ordered by name |
| `AddonRegistry.Registry.DisabledAddons` | packages/sz-rust-addons-loader/src/registry.rs:187-196 | exactly the disabled plugins, ordered by name |
| `AddonRegistry.Registry.LoadFromDirectory` | packages/sz-rust-addons-loader/src/registry.rs:228-280 | the contents are a last-wins fold over the items read, also when the listing breaks off |
| `LineRanges.CompressRanges` | scripts/audit/coverage-gap-locator.js:93-109 | the ranges expand to exactly the input, and no two neighbours could be merged |
| `LineRanges.CompressedIsShortest` | scripts/audit/coverage-gap-locator.js:93-109 | no other way of writing the list as ranges is shorter |

## Left out

- Text extraction from Cargo, XML and JSON files, line regular expressions and command lines: their results are parameters.
- Running builds, tests, the package manager, HTTP load and SSH: outcomes are parameters.
- The other checks of the release preparation (metadata, licences, keywords, version bump) and all report printing.
- The counters of the load generator; numeric options that do not parse as numbers.
- The totals of the unwrap gate over all files and their comparison with the limit: a sum and one comparison.
- `PhpParser.ParsePhpInfoArray`: slices by characters; that the byte scan of the source finds the same bracket is `PhpBytes.ByteScanAgrees`.
- `PhpScanner.ScanArray`: bracket depth is unbounded; the source's 32-bit counter would need more than two thousand million open brackets to differ.
- `BlockRewrite.ProcessFile`: the rewriter of a single block is a parameter that sees the block's inner lines and header.
- `PerfGate.Evaluate`: a display row is its status only; the differences in per cent that it shows, and the wording of the reasons, are not modelled.
- Locks of the registry: every method is one atomic step.
- The values of class constants inside an `$info` array: the parser skips the names, as in the source.
- `capability_hook.rs`, `guard.rs`, `isolation.rs`, the event handlers and the thin service files: only table lookups or calls into code that is not part of this model.
