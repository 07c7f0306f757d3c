# sqitch-visualizer: plan to Mermaid graph

This project models the core of the `sqitch-visualizer.loadSqitchPlanGraph`
command of the sqitch-visualizer VS Code extension. The command reads a
Sqitch plan file and renders it as a Mermaid flowchart. It works in four
steps:

- **Line selection.** The plan text is split on `\n`. A line is kept when
  it trims to something and its raw text does not start with `%` (a
  pragma) or `@` (a tag).
- **Line parsing.** Each kept line is split on single spaces:
  - the first token is the change name;
  - when the next token starts with `[`, the bracket scanner
    `getAllRequires` collects the requirements;
  - the description is the tokens after the first exact `#` token, joined
    by spaces, with the first `\r` removed.
- **Graph building.** One node per change, in plan order. One edge per
  requirement, from the requirement to the change that requires it, built
  by two nested `forEach` loops.
- **Rendering.** A template literal produces the text: `graph LR`, the node
  lines, then the edge lines, each block introduced by a line break and two
  tabs.

Modules:

- `JsStrings` holds the JavaScript string operations the core uses:
  `split` on one character, `join`, `indexOf`, `replace` of a one-character
  pattern (which replaces only the first occurrence), `startsWith`,
  `endsWith` and `trim`. It also proves their split/join round trips.
- `PlanParser` holds the line filter, the per-line parser, the
  `getAllRequires` loop (a method proved against the `RequiresOf`
  function) and the whole-plan parse. The parse returns a `Result`: a kept
  line with no space makes the source read `parts[0]` as `undefined` and
  throw, and the error names the first such line.
- `GraphBuilder` holds nodes, edges (the nested loops are a method proved
  against the `EdgesOf` function), the template text and the line
  structure of that text.
- `PlanGraph` holds the whole command as one method, and the line
  structure of the flowchart of every plan that parses.
- `PlanExamples` states, for every choice of names and words, what the
  parser makes of typical and unusual lines.

Behaviour of the code that the model keeps, including where it is
surprising:

- A line without a `#` token does not get an empty description. `indexOf`
  returns -1, so the slice starts at 0 and the description is every token
  after the name, bracket group included.
- A line made of a single token is not skipped. Reading `parts[0]` after
  `shift()` gives `undefined`, calling `startsWith` on it throws, and the
  whole command fails.
- Requirement entries are not always clean names. `[a] [b]` yields only
  `a`. An unclosed `[a` makes every later token a requirement, `#` and note
  words included. On a CRLF file, `[a]\r` keeps its `\r` and does not close
  the group.

## Model

| member | source | states |
|---|---|---|
| JsStrings.Split | src/extension.ts:26 | `split` always yields at least one piece |
| JsStrings.Join | src/extension.ts:41 | `join`: the pieces with the separator between neighbours; its round trips with `Split` are `JoinSplit` and `SplitJoin` |
| JsStrings.SplitPieces | src/extension.ts:26 | no piece holds the separator, every character of a piece comes from the string, and the first piece is empty exactly when the string is empty or starts with the separator |
| JsStrings.SplitCount | src/extension.ts:34 | there is more than one piece exactly when the separator occurs (both directions) |
| JsStrings.SplitAround | src/extension.ts:34 | splitting `a + sep + b` gives the pieces of `a` followed by the pieces of `b` |
| JsStrings.SplitAtFirst | src/extension.ts:34-36 | the first piece is the text before the first separator, and the rest are the pieces of the text after it |
| JsStrings.SplitWithoutSeparator | src/extension.ts:26 | a string without the separator splits into itself alone |
| JsStrings.JoinSplit | src/extension.ts:39-41 | joining the pieces with the separator gives back the original string |
| JsStrings.SplitJoin | src/extension.ts:39-41 | splitting separator-free pieces joined by the separator gives back exactly those pieces |
| JsStrings.JoinWithout | src/extension.ts:41-42 | a character in neither the pieces nor the separator is not in the join |
| JsStrings.IndexOf | src/extension.ts:40 | -1 exactly when the item is absent; otherwise the position of its first occurrence |
| JsStrings.RemoveFirst | src/extension.ts:42 | `replace` with a one-character pattern leaves a string without that character unchanged and otherwise removes exactly one character |
| JsStrings.RemoveFirstAt | src/extension.ts:42 | the character removed is the first occurrence, and no new character appears |
| JsStrings.RemoveFirstAround | src/extension.ts:143 | removing the first `c` from `a + c + b`, where `a` has no `c`, leaves `a + b` |
| JsStrings.TrimStartSuffix | src/extension.ts:29 | trimming the start gives the longest suffix not starting with white space |
| JsStrings.TrimEndPrefix | src/extension.ts:29 | trimming the end gives the longest prefix not ending with white space |
| JsStrings.TrimEmptyIffBlank | src/extension.ts:29 | a string trims to nothing exactly when every character is white space |
| JsStrings.Trim | src/extension.ts:29 | `trim()` removes white space at both ends; `TrimStartSuffix`, `TrimEndPrefix` and `TrimEmptyIffBlank` state what remains |
| JsStrings.StartsWith | src/extension.ts:30-31 | `startsWith` with one character: the first character is that one; used by the filter, at line 37 and at line 146 |
| JsStrings.EndsWith | src/extension.ts:140 | `endsWith` with one character: the last character is that one |
| PlanParser.IsKeptIff | src/extension.ts:27-32 | a line is kept exactly when some character is not white space and its very first character is neither `%` nor `@` |
| PlanParser.IsKept | src/extension.ts:28-31 | the filter callback; `IsKeptIff` states it character by character |
| PlanParser.KeptLines | src/extension.ts:25-32 | filtering never adds lines |
| PlanParser.KeptLinesMembers | src/extension.ts:25-32 | a line is kept exactly when it is one of the lines and passes the filter |
| PlanParser.KeptLinesAppend | src/extension.ts:25-32 | the filter keeps the order of the lines |
| PlanParser.UnbracketGroup | src/extension.ts:143 | `[name]tail` loses exactly its two brackets |
| PlanParser.Unbracket | src/extension.ts:143 | the two chained `replace` calls; `UnbracketGroup` states what they leave of a bracketed name |
| PlanParser.FirstClosing | src/extension.ts:140-145 | the position of the first token that ends with `]`, or the token count when none does |
| PlanParser.RequiresOf | src/extension.ts:138-153 | the list `getAllRequires` returns; `RequiresShape` states its length and entries and `GetAllRequires` proves the loop equal to it |
| PlanParser.RequiresShape | src/extension.ts:138-153 | one entry per token up to and including the first closing token; entry `i` comes from token `i` alone |
| PlanParser.GetAllRequires | src/extension.ts:138-153 | the loop with its `break` and `continue` returns exactly the scanned list `RequiresOf` |
| PlanParser.ParseLine | src/extension.ts:33-44 | a line parses exactly when it holds a space; otherwise the error names the line |
| PlanParser.ChangeOf | src/extension.ts:35-43 | the object literal built from the tokens; `ParseLineName`, `ParseLineRequirements` and the `ParseLineDescription` lemmas state each field at line level |
| PlanParser.DescriptionOf | src/extension.ts:39-42 | the description; `DescriptionWithoutHash` and `DescriptionAfterHash` state it with and without a `#` token |
| PlanParser.ParseLineTokens | src/extension.ts:34-36 | the parse is built from the text before the first space and the pieces of the text after it |
| PlanParser.ParseLineName | src/extension.ts:36 | the name is everything before the first space and never holds a space |
| PlanParser.ParseLineRequirements | src/extension.ts:37 | requirements are scanned only when the text after the first space starts with `[` |
| PlanParser.ParseLineDescriptionWithoutHash | src/extension.ts:39-42 | with no `#` token the description is the whole text after the first space, first `\r` removed |
| PlanParser.DescriptionWithoutHash | src/extension.ts:39-42 | with no `#` token the description joins all tokens after the name |
| PlanParser.ParseLineDescriptionAfterHash | src/extension.ts:39-42 | otherwise the description joins the tokens after the first `#` token, first `\r` removed |
| PlanParser.DescriptionAfterHash | src/extension.ts:40 | the slice starts right after the first `#` token |
| PlanParser.ParseTokens | src/extension.ts:34-43 | a line of space-free tokens joined by single spaces parses from exactly those tokens |
| PlanParser.ParseLineWithin | src/extension.ts:33-44 | a character absent from the line is absent from the name and from every requirement |
| PlanParser.ParseLines | src/extension.ts:33-44 | the map succeeds exactly when every kept line holds a space, with one change per line; otherwise it fails on the first line without one |
| PlanParser.ParseLinesPointwise | src/extension.ts:33-44 | change `i` is the parse of line `i` |
| PlanParser.ParsePlan | src/extension.ts:25-44 | split, filter and map; `LoadPlanGraph` and `ParsePlanSingleLine` state what it gives |
| PlanParser.ParsePlanSingleLine | src/extension.ts:25-44 | no name and no requirement of a parsed plan holds a line break |
| GraphBuilder.BuildNodes | src/extension.ts:48-54 | one node per change, in order, with id and caption the name and title the description |
| GraphBuilder.EdgesFrom | src/extension.ts:62-67 | one edge per requirement of a change, in order, each ending at the change |
| GraphBuilder.EdgesOf | src/extension.ts:61-68 | the edges the nested loops push; `EdgeCount`, `EdgeAt` and `EdgeMembers` state their number, order and membership |
| GraphBuilder.EdgesFromSnoc | src/extension.ts:62-67 | one more requirement adds its edge at the end |
| GraphBuilder.EdgesOfAppend | src/extension.ts:61-68 | the edges of two runs of changes are the edges of each, in order |
| GraphBuilder.EdgeCount | src/extension.ts:61-68 | there are as many edges as requirements over all changes |
| GraphBuilder.EdgeAt | src/extension.ts:61-68 | edges are ordered by change, then by requirement |
| GraphBuilder.EdgeMembers | src/extension.ts:61-68 | an edge is present exactly when its source is a requirement of the change its target names |
| GraphBuilder.BuildEdges | src/extension.ts:56-68 | the nested `forEach` loops push exactly the edges `EdgesOf` describes |
| GraphBuilder.GraphText | src/extension.ts:69-72 | the text starts with the `graph LR` header and ends with a line break and two tabs |
| GraphBuilder.NodeLine | src/extension.ts:70 | one node line `id[caption]`; `TwoChangeNodes` shows it for two changes |
| GraphBuilder.EdgeLine | src/extension.ts:71 | one edge line `from --> to`; `TwoChangeGraph` shows it for one edge |
| GraphBuilder.EmptyGraphText | src/extension.ts:69-72 | with no changes the text is the header and two lines of two tabs |
| GraphBuilder.SplitIndented | src/extension.ts:70-71 | a joined block of single-line entries, indented, splits back into its lines |
| GraphBuilder.GraphTextLines | src/extension.ts:69-72 | read line by line, the text is the header, one line per node in order, one per edge in order, and a last line of two tabs |
| PlanGraph.LoadPlanGraph | src/extension.ts:25-72 | the command fails exactly when some kept line has no space, with the first such line; otherwise it renders the parsed plan's nodes and edges |
| PlanGraph.PlanGraphLines | src/extension.ts:25-72 | for every plan that parses, the flowchart splits into the header, one line per change and one line per requirement |
| PlanGraph.TwoChangeGraph | src/extension.ts:48-72 | two changes, the second requiring the first, render as two node lines and one edge `a --> b` |
| PlanGraph.TwoChangeEdges | src/extension.ts:61-68 | the only edge of that plan runs from the first change to the second |
| PlanGraph.TwoChangeNodes | src/extension.ts:48-54 | the node lines of that plan, joined |
| PlanExamples.ClosedGroupRequires | src/extension.ts:142-145 | a closed group `[req]` yields `req` alone and ends the scan |
| PlanExamples.UnclosedGroupRequires | src/extension.ts:141-151 | an unclosed `[a` makes every later plain token a requirement |
| PlanExamples.ClosedSpreadGroupRequires | src/extension.ts:141-151 | a group spread over tokens `[a m1 … z]` yields `a`, the middle tokens and `z`, and nothing after the closing token |
| PlanExamples.WordsThenClosing | src/extension.ts:141-151 | plain tokens are copied and the first closing token, unbracketed, ends the list |
| PlanExamples.BareWordsRequires | src/extension.ts:150 | tokens without brackets are copied verbatim |
| PlanExamples.NoteDescription | src/extension.ts:39-42 | the words after `#` are the description, joined by spaces |
| PlanExamples.RequirementAndNote | src/extension.ts:33-44 | `name [req] # words` gives one requirement and the joined words |
| PlanExamples.NoteOnly | src/extension.ts:33-44 | `name # words` gives no requirement and the joined words |
| PlanExamples.WithoutNote | src/extension.ts:37-42 | `name [req]` has the description `[req]`, not the empty string |
| PlanExamples.DescriptionWithoutNote | src/extension.ts:39-42 | a lone token without `#` is its own description |
| PlanExamples.TwoGroups | src/extension.ts:142-145 | in `name [a] [b]` only `a` is a requirement |
| PlanExamples.UnclosedGroup | src/extension.ts:37 | in `name [a w...` every later token is a requirement |
| PlanExamples.CarriageReturn | src/extension.ts:37-42 | on a CRLF line `name [req]\r`, the requirement keeps the `\r` and the description loses it |
| PlanExamples.CarriageReturnToken | src/extension.ts:143 | the token `[req]\r` does not close the group and yields `req\r` |
| PlanExamples.LineSelection | src/extension.ts:27-32 | pragmas, tags and blank lines are dropped; a line indented before `%` is kept |

## Left out

- The VS Code plumbing is not modelled: the active-editor check, the `.plan` file-name check, reading the document, the `console.log` calls and the command registration. `LoadPlanGraph` takes the document text as a parameter.
- The webview panel, its HTML page and the Mermaid script that renders the flowchart are not modelled. The model stops at the flowchart text.
- A node's `title` (the description) is built but never appears in the rendered text. The model keeps it in `Node` and in no output.
- Strings are sequences of Unicode characters, not UTF-16 code units. This matters only for characters outside the Basic Multilingual Plane, which the core treats the same way either way.
- `Split` and `RemoveFirst` model `split` and `replace` only for the one-character patterns the core uses. General string patterns are not modelled.
- A thrown TypeError is modelled as an `Err` result naming the line. JavaScript's exception object and message text are not modelled.
- `getAllRequires` is declared after its use. Hoisting and temporal-dead-zone rules do not arise, because the function is only called when the command runs.
- The `to: string | undefined` type of an edge is modelled as a plain string. `name` is never `undefined` here, because a line that parses has at least two tokens.
