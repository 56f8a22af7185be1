# bdgraph, modelled in Dafny

bdgraph reads a small text description of a dependency graph and renders it
in the Graphviz DOT language. A description has three sections:

- declarations `n: name`, each of which files node `n`;
- an `options` section, holding keywords from a fixed catalogue;
- a `dependencies` section, holding lines `n -> m1,m2,...` (n provides each
  m) and `n <- m1,m2,...` (n requires each m).

Blank lines and lines starting with `#` are ignored. Each edge is recorded at
both ends: when n provides m, m also requires n. The renderer prints a fixed
header. It then prints the nodes in ascending number order: each node's quoted
name, followed by one arrow line per node it provides. Last comes a fixed
footer.

The model has seven modules:

- `Errors`: the error kinds the parser reports.
- `Options`: the option catalogue.
- `Text`: the string functions the parser relies on, stated as specification functions: white-space trimming, `Split`/`Join`, `Index`/`Contains` and decimal `Atoi`.
- `Nodes`: nodes and the two edge operations.
  - The node table is an arena, `map<int, Node>` from node number to node. Edge lists hold node numbers where the source holds pointers.
  - `NodeTable` is the mutable table. Its methods `AddProvide` and `AddRequire` scan and append like the source, and are proved equal to the pure `WithProvide`/`WithRequire`.
- `Graphs`: the graph, the ascending key order and the DOT rendering.
- `Parser`: the line parsers and the whole-file reader.
  - Each loop of the source is a method (`ParseOption`, `ParseNumberList`, `ParseDependency`/`LinkTargets`, `ParseFile`/`ReadLine`).
  - Each such method is proved equal to a recursive specification function (`OptionLine`, `NumberList`, `DependencyLine`/`Link`, `Run`/`Step`).
  - The keyword switch inside `ParseOption` is the method `ClassifyWord`, proved equal to the function `Classify`.
- `Scenarios`: the repository's test inputs, worked through the model.

The main invariant, `Parser.Good`, holds for every state reached by reading a prefix of a file:

- every key equals its node's number and is at least 1;
- edges are symmetric, and no edge is recorded twice (`Nodes.Linked`);
- before the dependency section there are no edges at all.

This is what makes the arena faithful to the pointer graph. A declaration may overwrite a node only while no edge can point at it, and the reader never returns to the declaration section.

## Model

| member | source | states |
|---|---|---|
| Options.RegistryNamesDistinct | options.go:16-37 | The five option keywords are pairwise different, non-empty and free of spaces, so a keyword names at most one option |
| Nodes.Equal | node.go:30-33 | Two nodes are equal exactly when name and number agree; edges are ignored |
| Nodes.Node.ToGraphviz | node.go:35-47 | The text starts with the node's quoted name and a newline; a node that provides nothing renders as exactly that line |
| Nodes.Arrows | node.go:39-44 | The arrow block is empty exactly when the node provides nothing, and otherwise ends with a line break |
| Nodes.NodeLineCount | node.go:35-47 | With single-line names, a node renders as one line plus one line per node it provides |
| Nodes.ArrowsLineCount | node.go:39-44 | The arrow block has exactly one line per provided node |
| Nodes.ArrowsSnoc | node.go:39-44 | One more provided node adds its arrow line after those of all the nodes before it, so the arrow lines follow the order of the provides |
| Nodes.ArrowLineCount | node.go:40-43 | One arrow is one line |
| Nodes.WithProvide | node.go:61-71 | Same keys and same names and numbers. The table is unchanged exactly when `right` is already among `left`'s provides. Afterwards `right` is among them. Only `left` and `right` change, and their edge lists only grow |
| Nodes.WithRequire | node.go:49-59 | The mirror of `WithProvide` for requires |
| Nodes.NodeTable.constructor | parser.go:22 | A new table is empty |
| Nodes.NodeTable.AddProvide | node.go:61-71 | The scan-and-append loop leaves the table equal to `WithProvide` of the old table |
| Nodes.NodeTable.AddRequire | node.go:49-59 | The scan-and-append loop leaves the table equal to `WithRequire` of the old table |
| Nodes.UnconnectedIsLinked | node.go:7-12 | A table without edges satisfies the symmetry invariant |
| Nodes.ProvideKeepsLinked | node.go:61-71 | Adding a provide keeps edges symmetric and duplicate-free |
| Nodes.ProvideAgrees | node.go:69-70 | After a new provide, each pair of nodes still agrees: a provides b as often as b requires a, and at most once |
| Nodes.RequireKeepsLinked | node.go:49-59 | Adding a require keeps edges symmetric and duplicate-free |
| Nodes.RequireAgrees | node.go:57-58 | The per-pair agreement after a new require |
| Nodes.ProvideIdempotent | node.go:63-67 | Adding the same provide twice is adding it once |
| Nodes.RequireIdempotent | node.go:51-55 | Adding the same require twice is adding it once |
| Nodes.RequireMirrorsProvide | node.go:49-71 | On a linked table, `left` requiring `right` gives the same table as `right` providing `left` |
| Nodes.ProvideRecordsEdge | node.go:61-71 | After a provide on a linked table, `right` occurs exactly once among `left`'s provides and `left` exactly once among `right`'s requires. Whether `right` provides `left` is unchanged |
| Graphs.Insert | graph.go:42 | Inserting into a sorted sequence gives a sorted sequence with one more copy of the element |
| Graphs.InsertBehindHead | graph.go:42 | The inductive step of insertion |
| Graphs.Sort | graph.go:42 | The result is sorted and a permutation of the input |
| Graphs.DistinctMultiplicity | graph.go:38-41 | A sequence has no repeats exactly when every element occurs at most once |
| Graphs.Min | graph.go:42 | A non-empty key set has a least element |
| Graphs.MinExists | graph.go:42 | A least element exists |
| Graphs.SortedKeys | graph.go:32-44 | The ascending sequence of a key set is strictly increasing and holds exactly the keys |
| Graphs.HeadIsLeast | graph.go:42 | The first element of a strictly increasing sequence is its least |
| Graphs.TailMember | graph.go:42 | Past the head of a strictly increasing sequence lie exactly its other elements |
| Graphs.IncreasingUnique | graph.go:32-44 | Two strictly increasing sequences with the same elements are equal, so the order is deterministic |
| Graphs.OrderNodes | graph.go:32-44 | The keys it returns are strictly increasing, are exactly the table's keys, and equal `SortedKeys` |
| Graphs.LinkedIsRenderable | graph.go:46-56 | In a linked table every provided number names a node, so every node can be rendered |
| Graphs.Body | graph.go:50-53 | The rendered nodes are empty text exactly when there are no keys |
| Graphs.BodySnoc | graph.go:51-53 | Rendering one more key appends that node's text |
| Graphs.Dot | graph.go:46-56 | The DOT text begins with the header and ends with the footer |
| Graphs.ToGraphviz | graph.go:46-56 | The loop over the ordered keys yields `Dot`: header, then each node's text in ascending key order, then footer |
| Text.TrimLeft | parser.go:27 | Drops a white-space prefix and leaves no leading white space |
| Text.TrimRight | parser.go:27 | Drops a white-space suffix and leaves no trailing white space |
| Text.TrimSpace | parser.go:27 | The result has no white space at either end, and a string already trimmed is unchanged |
| Text.TrimmedEnds | parser.go:27 | Trimming both ends leaves a white-space-free boundary |
| Text.TrimmedClean | parser.go:27 | Trimming is the identity on a trimmed string |
| Text.TrimSpaceKeepsOut | parser.go:79 | Trimming introduces no character |
| Text.TrimLeftPad | parser.go:27 | Trimming the left of padding followed by text returns the text |
| Text.TrimRightPad | parser.go:27 | Trimming the right of text followed by padding returns the text |
| Text.TrimPadded | parser.go:27 | Trimming padding on both sides returns the text inside |
| Text.Index | parser.go:137 | The result is -1 or a position where the separator occurs, and it is the first such position |
| Text.Contains | parser.go:137-141 | True exactly when the separator occurs somewhere |
| Text.Split | parser.go:72 | Yields at least one part |
| Text.SplitJoin | parser.go:72 | Joining the parts of a split with the separator gives back the string |
| Text.JoinSplit | parser.go:98 | Splitting a join of parts that do not contain the one-character separator gives back the parts |
| Text.JoinSplitStep | parser.go:98 | The inductive step of `JoinSplit`: a first part without the separator splits off in front |
| Text.SplitCount | parser.go:72-74 | A split on one character yields one part more than that character's count |
| Text.SplitPartsExclude | parser.go:72 | No part of a split contains the separator |
| Text.SplitWhole | parser.go:204 | A string without the separator splits into itself alone |
| Text.SplitTwo | parser.go:139 | A string with exactly one separator splits into the text before it and the text after it |
| Text.SplitTwoHead | parser.go:139 | The same, for a separator whose first character occurs on neither side |
| Text.SplitFirst | parser.go:139 | Text without the separator, the separator, then more text splits into that first text followed by the parts of the rest |
| Text.NoOccurrence | parser.go:137 | A string that lacks the separator's last character has no occurrence |
| Text.NoOccurrenceHead | parser.go:137 | A string that lacks the separator's first character has no occurrence |
| Text.IndexAt | parser.go:139 | The first occurrence follows a prefix that holds no occurrence |
| Text.IndexAtHead | parser.go:139 | The first occurrence follows a prefix that lacks the separator's first character |
| Text.IndexAfterPrefix | parser.go:72 | The first occurrence of a character follows the prefix that lacks it |
| Text.JoinExcludes | parser.go:204 | A join contains no character that is absent from the parts and the separator |
| Text.Atoi | parser.go:80 | Accepts an optional sign followed by decimal digits. On failure it reports the text. On success the text is non-empty and not padded with white space |
| Text.LeadingNonDigit | parser.go:151 | Text that starts with neither a digit nor a sign is no number, and the error names the text |
| Text.NatToString | parser.go:80 | Produces a non-empty digit string whose value is the number |
| Text.AtoiIntToString | parser.go:80 | Parsing the decimal spelling of any integer gives it back, and the spelling is already trimmed |
| Parser.ParseDeclaration | parser.go:71-94 | A line without exactly one `:` fails with a format error. Other failures are value errors. A node it returns has a number of at least 1, no edges, and a trimmed name without `:` |
| Parser.DeclarationAccepted | parser.go:71-94 | A line is accepted if and only if it holds exactly one `:` and the trimmed text before it is an integer of at least 1. The node is then that number with the trimmed text after the `:` as its name. With one `:`, a left side that is no integer is a value error naming the trimmed text, and a number below 1 a value error naming the number in decimal |
| Parser.DeclarationParts | parser.go:79-93 | With two parts and a numeric left side, the result is the node, or a value error naming the number when it is below 1 |
| Parser.DeclarationSplit | parser.go:72 | A padded `number : name` splits into its two sides |
| Parser.DeclarationRoundTrip | parser.go:71-94 | Any padded `n: name` with n at least 1 parses back to node n with that name; n below 1 is a value error |
| Parser.IntToStringPlain | parser.go:72 | An integer's spelling holds no `:`, `,`, `<`, `>` or space, and is its own trim |
| Parser.DeclarationExample | parser_test.go:11-26 | `   1:  some name      ` is node 1 named `some name` |
| Parser.DeclarationWithoutColon | parser_test.go:28-37 | A declaration without `:` is a format error |
| Parser.DeclarationBelowOne | parser_test.go:61-70 | A declaration numbered -1 is a value error |
| Parser.Classify | parser.go:101-125 | Empty words are blank, and a known keyword maps to the option of that name |
| Parser.Lookup | parser.go:104-124 | A lookup in a list of options is never blank, and an option it finds is in the list under the word's name |
| Parser.LookupFinds | parser.go:108-121 | The first option of the list that has the word as its name is the one found |
| Parser.LookupMisses | parser.go:123-124 | A word that names no option of the list is unknown |
| Parser.KeywordLookup | parser.go:104-124 | A word maps to an option if and only if that option is in the catalogue and has the word as its name |
| Parser.OtherWord | parser.go:123-124 | A non-empty word other than the five keywords is unknown |
| Parser.RegisteredKeyword | parser.go:104-124 | Every catalogue keyword is trimmed, has no space and maps to its own option |
| Parser.KeywordTrimmed | parser.go:102 | Trimming leaves every catalogue keyword as it is |
| Parser.KnownWord | parser.go:102-122 | A word that is empty or a keyword holds no space and is its own trim |
| Parser.ClassifyWord | parser.go:104-125 | The six-way switch on one trimmed word returns `Classify` of that word |
| Parser.CollectOptions | parser.go:96-129 | Succeeds exactly when no trimmed word is unknown. A failure names an unknown word. At most one option per word |
| Parser.OptionLine | parser.go:96-98 | A line reads without error exactly when every piece between single spaces trims to nothing or to a keyword. An error names a non-empty unknown word. Every option read is a catalogue option |
| Parser.OptionsInRegistry | parser.go:108-122 | Only catalogue options are ever read |
| Parser.OptionsStopAtUnknown | parser.go:123-124 | After the first unknown word, later words change nothing |
| Parser.OptionsExtend | parser.go:101-125 | One more word is skipped, appended or reported, as the switch says |
| Parser.OptionsStep | parser.go:101-125 | Given its keyword, one more word keeps the options, appends the named option, or ends the line with the options so far and an error naming the word |
| Parser.ParseOption | parser.go:96-129 | The loop returns exactly `OptionLine`: the options read before any unknown word, and the outcome |
| Parser.CollectBlank | parser.go:105-106 | An empty word adds no option |
| Parser.CollectKnown | parser.go:108-121 | A keyword adds the option it names |
| Parser.CollectUnknown | parser.go:123-124 | An unknown word ends the reading with the options so far and an error naming it |
| Parser.CollectSelectedStep | parser.go:101-125 | One more blank or keyword word extends the selected options |
| Parser.CollectSelected | parser.go:96-129 | Words that are each empty or a keyword read without error to the options their keywords name, in order |
| Parser.SpacelessWords | parser.go:98 | Words that are empty or keywords hold no space |
| Parser.SpacedSplit | parser.go:98 | Words without spaces, joined by single spaces, split back into those words |
| Parser.SpacedThenWordSplit | parser.go:98 | The same with one more spaceless word at the end |
| Parser.OptionsSpaced | parser.go:96-129 | Keywords separated and surrounded by runs of spaces (empty words between single spaces) read without error to the options they name |
| Parser.OptionsSpacedThenUnknown | parser.go:96-124 | Such a line followed by a word that names no option keeps the options before it and fails with an error naming the word |
| Parser.EmptyOptionLine | parser.go:96-128 | An empty line reads to no options without error |
| Parser.Names | parser.go:104-124 | The keyword of each option, in order |
| Parser.SpacelessNames | parser.go:104-124 | No catalogue keyword holds a space |
| Parser.CollectNames | parser.go:96-129 | The keywords of catalogue options read back as those options |
| Parser.OptionsRoundTrip | parser.go:96-129 | A space-separated line of catalogue keywords parses back to those options |
| Parser.CollectNumbers | parser.go:202-222 | A failure is a value error naming a non-empty item. At most one number per item |
| Parser.NumbersPass | parser.go:207-219 | A list of items reads without error exactly when every item is empty or trims to an integer |
| Parser.NumeralsSnoc | parser.go:207-219 | All items are numeric exactly when the prefix is and the last item is |
| Parser.NumberList | parser.go:202-205 | A failure is a value error naming a non-empty item that holds no comma. At most one number per comma-separated item |
| Parser.NumbersStopAtError | parser.go:213-216 | After the first bad item, later items change nothing |
| Parser.NumbersStayFailed | parser.go:213-216 | An item after a failure changes nothing |
| Parser.NumbersExtend | parser.go:207-219 | One more item is skipped, appended or reported, as the loop says |
| Parser.CollectNumber | parser.go:212-218 | An item that trims to an integer appends that integer |
| Parser.CollectJunk | parser.go:212-216 | A non-empty item that is no integer ends the reading with the numbers so far and an error naming the item as written |
| Parser.ParseNumberList | parser.go:202-222 | The loop returns exactly `NumberList`: the numbers read before any bad item, and the outcome |
| Parser.Spellings | parser.go:212 | The decimal spelling of each number, in order |
| Parser.SpellingsSnoc | parser.go:212 | The spellings of one more number end with its spelling |
| Parser.CollectSpellings | parser.go:207-219 | The spellings of any numbers read back as those numbers |
| Parser.NumberListRoundTrip | parser.go:202-222 | A comma-separated list of decimal spellings parses back to the list |
| Parser.PaddedSpellings | parser.go:212 | Each item is a number's spelling between its own left and right padding |
| Parser.BlanksExclude | parser.go:204 | White space holds none of the separators `,`, `<`, `>` and `:` |
| Parser.PaddedNumber | parser.go:212 | A spelling padded with white space on both sides is a non-empty item without `,`, `<` or `>` that trims to the spelling |
| Parser.CollectFirstTrimmed | parser.go:212 | Replacing numeric items by non-empty items that trim to the same text changes nothing in the numbers read |
| Parser.PaddedSpellingsExclude | parser.go:204 | No padded spelling holds a comma |
| Parser.CollectPadded | parser.go:207-219 | Padded spellings read back as the numbers |
| Parser.NumberListSpaced | parser.go:202-222 | A comma-separated list of spellings, each padded on either side with any white space, parses back to the numbers |
| Parser.NumbersThenJunk | parser.go:202-222 | Padded numbers followed by a non-empty item that is no integer keep those numbers and fail with a value error naming the item |
| Parser.AddEdge | parser.go:169-197 | The keys are unchanged and the edge is recorded. Names and numbers are unchanged, and `left`'s edge lists only grow |
| Parser.Link | parser.go:169-197 | Per target: a missing node is a reference error, the node itself is a self-reference error, otherwise the edge is added. Keys, names and numbers never change |
| Parser.ValidTargetsSnoc | parser.go:170-179 | The targets are valid exactly when the prefix is and the last target is present and is not `left` |
| Parser.LinkLastOutcome | parser.go:170-179 | The outcome after one more target, stated on the table before any edge: linking never changes a node's number |
| Parser.LinkOutcome | parser.go:169-197 | Linking passes if and only if every target exists and has a number other than `left`'s. A failure is a self-reference error naming `left`'s number, or a reference error naming a listed target that is missing |
| Parser.LinkRecords | parser.go:169-197 | After a successful link, every target is recorded in the chosen direction |
| Parser.RecordedSnoc | parser.go:170-181 | The recorded targets of a prefix plus the new target make up the whole list |
| Parser.RecordedPersists | parser.go:180 | Growing edge lists keep a recorded edge |
| Parser.LinkStopsAtError | parser.go:172-178 | After the first bad target, later targets change nothing; earlier edges stay |
| Parser.LinkExtend | parser.go:170-181 | One more target is rejected or linked, as the loop says |
| Parser.LinkFailsAt | parser.go:171-178 | A missing target is a reference error and a target with `left`'s own number a self-reference error, with the table as it was before that target |
| Parser.LinkAdvance | parser.go:171-180 | A present target with another number adds exactly that edge |
| Parser.SplitArrow | parser.go:137-144 | No parts exactly when the line holds neither arrow. `<-` is chosen only when `->` is absent. The parts joined with the chosen arrow give the line back |
| Parser.DependencyLine | parser.go:131-200 | Keys, names and numbers never change, and every error leaves the table unchanged, checked in the source's order: neither arrow or a part count other than two is a format error; a left side that is no integer is a value error naming it; a left number with no node is a reference error naming it; a bad list gives the list's error; otherwise the result is `Link` in the arrow's direction |
| Parser.ParseDependency | parser.go:131-200 | Updates the node table and returns the outcome exactly as `DependencyLine` |
| Parser.LinkTargets | parser.go:169-197 | The loop over the targets leaves the table and the outcome exactly as `Link` |
| Parser.LinkKeepsLinked | parser.go:169-197 | Linking keeps edges symmetric and duplicate-free, even when it stops at an error |
| Parser.DependencyKeepsLinked | parser.go:131-200 | Any dependency line keeps edges symmetric and duplicate-free |
| Parser.ArrowSplit | parser.go:137-143 | `left ARROW right`, with no `<` or `>` on either side, splits into that direction and the two sides |
| Parser.PaddedListArrowless | parser.go:137-143 | A list of padded spellings holds no `<` or `>`, whatever the signs of the numbers |
| Parser.DependencyParts | parser.go:146-182 | A line that splits around its arrow into a left side naming a node and a list that reads without error is `Link` in that direction |
| Parser.DependencyPadded | parser.go:131-200 | `n ARROW m1,...,mk` for a node n, with any white space around n and around each m and numbers of any sign, is `Link` of n to the ms in the arrow's direction |
| Parser.Step | parser.go:26-66 | A trimmed line that is empty or a comment changes nothing. The trimmed line `options` only sets the position to the option section, and `dependencies` only to the dependency section |
| Parser.Run | parser.go:20-69 | The reader's definition, one `Step` per line from the start state and stopping at the first error. It has no contract of its own: `Parser.RunOfSkipped`, `Parser.RunStopsAtError`, `Parser.RunGood` and `Parser.RunRenderable` state its properties, and `Parser.ParseFile` is proved against it |
| Parser.RunOfSkipped | parser.go:26-31 | A file of blank and comment lines reads as the start state: no nodes, no options, declaration section |
| Parser.RunAfterSkipped | parser.go:26-31 | Blank and comment lines ahead of a file change nothing that is read after them |
| Parser.RunStopsAtError | parser.go:45-64 | After the first failing line, the rest of the file is not read |
| Parser.StepOptionLine | parser.go:51-58 | In the option section, a line with content appends the options its words name, in word order, after the options of earlier lines. A line with an unknown word ends the read with an error naming that word |
| Parser.RunSkips | parser.go:29-31 | A blank or comment line changes nothing |
| Parser.StepGrows | parser.go:26-66 | A failing line is neither blank nor a comment. Options only accumulate, and the node keys only grow |
| Parser.StepNeverReturns | parser.go:33-40 | Once past the declarations, no line returns the reader to them |
| Parser.StepKeepsGood | parser.go:26-66 | Reading a line preserves `Good` |
| Parser.DeclarationKeepsGood | parser.go:44-49 | Filing a fresh node in the declaration section preserves `Good` |
| Parser.DependencyKeepsGood | parser.go:60-64 | A dependency line preserves `Good` |
| Parser.RunGood | parser.go:20-69 | Every state the reader reaches satisfies `Good` |
| Parser.RunRenderable | parser.go:20-69 | Every graph the reader returns can be rendered |
| Parser.RunExtend | parser.go:26-66 | Reading one more line is one more `Step`, unless an error already stopped the reader |
| Parser.ReadLine | parser.go:27-65 | One iteration of the reading loop updates the table and returns the position, options and outcome exactly as `Step` |
| Parser.ParseFile | parser.go:20-69 | On success it returns the graph `Run` reaches, with outcome Pass. On failure it returns the error and an empty graph |
| Scenarios.OptionPadded | parser_test.go:74-88 | `  color_next  ` reads to the next-color option without error |
| Scenarios.OptionsTwo | parser_test.go:90-104 | `  color_next  color_complete` reads to the next-color and complete-color options, in order |
| Scenarios.OptionJunk | parser_test.go:106-115 | `  junk` reads to no options and an unknown-option error naming `junk` |
| Scenarios.OptionsThenJunk | parser_test.go:117-131 | `  circular   junk` keeps the circular option and fails with an unknown-option error naming `junk` |
| Scenarios.KeyBetweenBlanks | parser.go:105-121 | A keyword between runs of empty words selects just its option |
| Scenarios.TwoKeys | parser.go:96-129 | Two keywords, each after two spaces, read to their two options |
| Scenarios.BlanksThenWord | parser.go:96-124 | A word that is no option after two spaces gives no options and an error naming the word |
| Scenarios.KeyThenWord | parser.go:96-124 | A keyword after two spaces, then a word that is no option after three, keeps the option and the error names the word |
| Scenarios.NumbersPadded | parser_test.go:167-181 | `  1, 22  ` reads back as 1 and 22 |
| Scenarios.NumbersJunk | parser_test.go:183-192 | `1,junk` keeps 1 and fails with a value error naming `junk` |
| Scenarios.NumberThenWord | parser.go:202-222 | A number, a comma and a word that is no number keep the number, and the error names the word |
| Scenarios.NoArrow | parser_test.go:196-206 | ` junk ` has neither arrow: a format error, the table unchanged |
| Scenarios.ThreeParts | parser_test.go:208-218 | ` a -> b -> c ` splits into three parts: a format error, the table unchanged |
| Scenarios.ThreeAround | parser.go:139-148 | Three arrowless parts joined by `->` split into three |
| Scenarios.LeftNotNumber | parser_test.go:220-230 | ` junk -> 1,  2, 3,4`: a value error naming `junk`, the table unchanged |
| Scenarios.WordLeft | parser.go:151-155 | A word that is no number left of the arrow is a value error naming the word |
| Scenarios.LeftMissing | parser_test.go:232-245 | ` 99 -> 1,2 ` without node 99: a reference error naming 99, the table unchanged |
| Scenarios.LeftOutcome | parser.go:158-161 | A numeric left side with no node is a reference error naming the number |
| Scenarios.RightNotNumbers | parser_test.go:247-260 | ` 1 -> 2,junk `: a value error naming the item `junk ` as written, the table unchanged |
| Scenarios.RightOutcome | parser.go:164-167 | A bad list after a valid left side gives the list's error before any target is looked up |
| Scenarios.TwoItems | parser.go:202-222 | ` 2,junk ` reads 2 and stops at `junk ` |
| Scenarios.ProvideMissing | parser_test.go:262-275 | ` 1 -> 2, 99 ` on the test's two nodes: a reference error naming 99, after the edge from 1 to 2 was added, which stays |
| Scenarios.ProvideTwo | parser_test.go:277-307 | ` 1 -> 2,3 ` on the test's three nodes makes 1 provide 2 and 3, and makes 2 and 3 require 1; nothing else changes |
| Scenarios.RequireTwo | parser_test.go:309-339 | ` 1 <- 2,3 ` on the test's three nodes makes 1 require 2 and 3, and makes 2 and 3 provide 1; nothing else changes |
| Scenarios.RequireSelf | parser_test.go:341-354 | ` 1  <- 1 ` on the test's two nodes is a self-reference error and the table is unchanged |
| Scenarios.ProvideEdge | node.go:61-71 | A new provide appends to `left`'s provides and `right`'s requires and leaves every other node as it was |
| Scenarios.RequireEdge | node.go:49-59 | A new require appends to `left`'s requires and `right`'s provides and leaves every other node as it was |
| Scenarios.LinkTwo | parser.go:170-181 | Linking two targets is linking the first, then the second |
| Scenarios.StepContent | parser.go:42-65 | A content line is dispatched on the current section |
| Scenarios.DeclarationStep | parser.go:27-49 | A padded declaration line files a node without edges |
| Scenarios.ProvideStep | parser.go:27-64 | A padded `n -> m` line, for natural n and m, links n to m as `Link` does |
| Scenarios.ProvideStepOk | parser.go:27-64 | A padded `n -> m` line, for natural n and m, between different declared nodes adds that provide |
| Scenarios.StepBlank | parser.go:29-31 | An empty line changes nothing |
| Scenarios.StepDependencies | parser.go:37-39 | The `dependencies` line only switches the section |
| Scenarios.FruitRun | graphviz_test.go:20-34 | The test description reads into apple, blueberry and cranberry. Apple provides blueberry and blueberry provides cranberry |
| Scenarios.StepOptions | parser.go:33-35 | The line `options` only switches to the option section |
| Scenarios.TwoNamesLine | parser.go:96-129 | Two catalogue keywords around a space read as their two options, in order |
| Scenarios.TwoKeysStep | parser.go:51-58 | In the option section, a line of two catalogue keywords after a space appends their two options |
| Scenarios.OneKeyStep | parser.go:51-58 | In the option section, one catalogue keyword with padding appends its option |
| Scenarios.FirstOptionsStep | parser_test.go:368 | ` circular color_next` appends the circular and next-colour options |
| Scenarios.SecondOptionsStep | parser_test.go:369 | ` color_complete  ` appends the complete-colour option after those two |
| Scenarios.FileRun | parser_test.go:358-415 | The whole-file description, from its comment and blank line to the two provide lines, reads into the fruit table with the options circular, next-colour and complete-colour, in line order and then word order |
| Scenarios.ReadFile | parser_test.go:358-415 | `ParseFile` on that description passes and returns the fruit table, where apple provides blueberry and blueberry provides cranberry, with those three options in that order |
| Scenarios.FruitEdges | graphviz_test.go:26-27 | The two provide lines give exactly the fruit table |
| Scenarios.OneArrow | node.go:35-47 | A node that provides one other node renders as its line and one arrow line |
| Scenarios.FruitNodeTexts | graphviz_test.go:35-51 | Apple and blueberry each render as their own line plus one arrow line, and cranberry as one line |
| Scenarios.BodyThree | graph.go:51-53 | Three keys render as their three node texts in order |
| Scenarios.FruitOrder | graph.go:32-44 | The fruit table's nodes are ordered 1, 2, 5 |
| Scenarios.FruitBody | graphviz_test.go:72-77 | The fruit nodes render in ascending order as the five expected lines |
| Scenarios.FruitDot | graphviz_test.go:71-77 | The fruit graph renders to the DOT text the test expects |
| Scenarios.RenderFruit | graphviz_test.go:54-83 | Reading the description with `ParseFile` and rendering it with `ToGraphviz` passes and gives the expected DOT text |

## Left out

- `show` (node.go, graph.go, options.go), `toFile` and `main` print to the console or return a constant. They are not modelled.
- Error messages are not modelled. Only the kind of each error is, together with the text or number it names.
  - Both a non-numeric left side of a dependency and a non-numeric list item are `ValueError`.
  - In the source, the first of these is a plain message.
  - A declared number below 1 is a `ValueError` naming the number in decimal, as the source's message prints it.
- Parser.ParseFile: on failure the source returns an empty `Graph{}`, and the model returns a graph with no nodes and no options. In Go, Graph{} has nil maps where the model has empty ones.
- Parser.Classify: the keyword switch is stated as a lookup in the option catalogue. It agrees with the switch because the five keywords are distinct (`Options.RegistryNamesDistinct`), and `Parser.ClassifyWord` keeps the switch itself.
- Text.Atoi: integers are unbounded, so values outside Go's 64-bit `int` range are accepted where `strconv.Atoi` reports a range error.
- Text.TrimSpace: only ASCII white space is trimmed (space, tab, newline, vertical tab, form feed, carriage return). Unicode spaces such as U+0085 and U+00A0 are not.
- Strings are sequences of characters rather than UTF-8 bytes.
- Go's map iteration order is not modelled. `OrderNodes` is specified by its result, the ascending key sequence, which is the same for any iteration order.
- Pointer identity is not modelled. Edges hold node numbers, and a node is looked up in the table by its number.
  - This coincides with the source because of the invariant `Parser.Good`.
  - The source also compares nodes by number when it checks for duplicate and self edges.
- The options stored in a graph are not used by the renderer, in the source as in the model.
- The declaration tests at parser_test.go:39-48 (two `:`) and parser_test.go:50-59 (a word before the `:`) are covered by `Parser.DeclarationAccepted`, not by a lemma each.
- TestWriteNode1 (graphviz_test.go:8-16) is the case of `Nodes.Node.ToGraphviz` for a node that provides nothing, stated in its contract rather than in a lemma.
