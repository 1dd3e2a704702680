# CSharpDocRewriter comment-rewrite engine in Dafny

This project models the core of CSharpDocRewriter, a tool that walks the
`///` documentation comments of C# files and lets a developer rewrite each
one in an editor. The tool keeps each comment's indentation and `///`
padding. It can also put the XML tags of a comment into a canonical order.

The model has four modules:

- `Text` (`text.dfy`) holds the small pieces of .NET string handling the
  rewriter relies on. `StringReader.ReadLine` splitting becomes `Lines`.
  `StringBuilder.AppendLine` joining becomes `LinesToString`. It also has
  `TrimEnd`, `Trim`, `ToLowerInvariant` and `string.IsNullOrWhiteSpace`. It
  uses one line terminator and a fixed whitespace set.
- `Padding` (`padding.dfy`) is the padding model of `CSharpCommentRewriter`.
  A raw comment block is split into lines. Each line is split into a pad
  (leading whitespace, `///`, at most one space) and its content. The
  contents are joined into the text the editor sees. The edited lines get
  the first original pad on the head line and the second original pad on
  every later line.
- `CommentRewriting` (`rewriter.dfy`) models `CSharpCommentRewriter.VisitTrivia`
  as the class `CommentRewriter`. Its two fields are the rewrite cache
  `Backup` (raw comment text to rewritten text) and the stop flag
  `IsStopping`. The method is proved against the function `Visit`, and the
  cache, stop and replay properties are lemmas about `Visit`. The loop of
  `Program.cs` over the input files is the method `VisitFiles`. It stops
  before the next file once the flag is set.
- `Edits` (`edits.dfy`) models `Edits.TryEditReorderTags`. Elements are
  stably sorted by their tag's rank in a tag ordering. Each element takes
  along the run of comments right before it. The comments after the last
  element close the result. The method builds the result with the same
  nested loops as the source. It is proved equal to the function
  `ReorderTags`, and the lemmas about the written order are stated about
  `EmitOrder`.
- `EditScenarios` (`edit_scenarios.dfy`) proves the two scenarios of
  `TestEdits.cs` on the nodes their inputs parse into.

External collaborators are parameters:

- The editor (vim through `Bash`) is a function `string -> string`.
- The answer typed at the stop prompt is a string. Over several comments it
  is a function from the raw comment to the answer.
- The XML parse of the wrapped comment body is an `Option<seq<Node>>`.
  `None` means that `XDocument.Parse` threw. Each node carries the text it
  serializes to.
- A thrown `ArgumentException("Malformed C# doc comment.")` is the result
  `Failure(MalformedDocComment)`.

Four behaviours of the code are easy to misread; the model follows the
code:

- A whitespace-only line inside a doc comment is not exempt from the
  `///` check. `GetPadLineTuples` yields `(line, "")` for it but does not
  skip the regex test after that, so the line is rejected like any other
  line without the marker (`Padding.BlankLineIsMalformed`).
- The cache is looked up only by the raw comment text as a key. It is not
  looked up by previously produced text. So a second run over files the
  tool has already written back shows every changed comment to the editor
  again: its new text is a value of the cache, not a key.
- A one-line doc comment has no second pad. When its edit spans several
  lines, every line after the head comes back with no indentation and no
  `///` (`CommentRewriting.OneLineCommentLosesMarker`).
- Tags missing from the ordering rank after every known tag, not before
  (the comment at `Edits.cs:37-38` calls their precedence "lowest").

## Model

| member | source | states |
|---|---|---|
| `Text.LinesToString` | CSharpDocRewriter/CSharpCommentRewriter.cs:62-71 | Joining lines with AppendLine gives empty text exactly for no lines, and otherwise text ending in a terminator |
| `Text.Lines` | CSharpDocRewriter/CSharpCommentRewriter.cs:30-40 | The lines ReadLine yields never contain a terminator |
| `Text.LinesToStringOfLines` | CSharpDocRewriter/CSharpCommentRewriter.cs:30-71 | Splitting text into lines and joining them again gives the text back, with a terminator added when it lacked a final one |
| `Text.LinesOfLinesToString` | CSharpDocRewriter/CSharpCommentRewriter.cs:30-71 | Joining terminator-free lines and splitting the result gives the same lines back |
| `Text.LinesToStringAppend` | CSharpDocRewriter/Edits.cs:72-92 | AppendLine over one list and then another gives the concatenation of the two texts |
| `Text.TrimEnd` | CSharpDocRewriter/Edits.cs:94 | The result is a prefix of the input, everything cut off is whitespace, and the result does not end in whitespace |
| `Text.ToLower` | CSharpDocRewriter/CSharpCommentRewriter.cs:103 | Lower-casing keeps the length and maps each character on its own, upper-case ASCII letters to lower case |
| `CommentRewriting.IsYes` | CSharpDocRewriter/CSharpCommentRewriter.cs:103 | The stop prompt's test: the answer trimmed and lower-cased is "y"; what it accepts is stated by `CommentRewriting.IsYesMeans` |
| `CommentRewriting.IsYesMeans` | CSharpDocRewriter/CSharpCommentRewriter.cs:103 | The stop answer is accepted exactly when, trimmed, it is "y" or "Y" |
| `Padding.LeadingWhiteSpace` | CSharpDocRewriter/CSharpCommentRewriter.cs:49 | The `\s*` part of the pad: the longest whitespace prefix of the line |
| `Padding.MarkerAfterWhiteSpace` | CSharpDocRewriter/CSharpCommentRewriter.cs:49-50 | A line matches `^\s*///` exactly when `///` follows its leading whitespace |
| `Padding.SplitPad` | CSharpDocRewriter/CSharpCommentRewriter.cs:49-58 | A line splits exactly when it has the marker; then pad + rest == line, the pad is whitespace, `///` and at most one space, and a pad without the space leaves content that does not start with one |
| `Padding.PadLineTuples` | CSharpDocRewriter/CSharpCommentRewriter.cs:42-60 | Splitting the lines succeeds exactly when every line has the marker, with one tuple per line; otherwise it fails with the malformed-comment error |
| `Padding.PadLineTuplesAt` | CSharpDocRewriter/CSharpCommentRewriter.cs:44-58 | The i-th tuple is the split of the i-th line |
| `Padding.PadLineTuplesSplit` | CSharpDocRewriter/CSharpCommentRewriter.cs:42-60 | Every tuple is its line cut into a well-shaped pad and the rest |
| `Padding.Decompose` | CSharpDocRewriter/CSharpCommentRewriter.cs:89 | Splits the raw comment into lines and each line into pad and content; succeeds exactly when every line has the marker, with one tuple per line. Its round trip is `Padding.DecomposeRecovers` |
| `Padding.BlankLineIsMalformed` | CSharpDocRewriter/CSharpCommentRewriter.cs:46-53 | A comment with a whitespace-only line fails to decompose with the malformed-comment error |
| `Padding.DecomposeRecovers` | CSharpDocRewriter/CSharpCommentRewriter.cs:30-60 | Re-joining pad + content of every decomposed line gives the raw comment back (terminated) |
| `Padding.ContentsHaveNoNewLine` | CSharpDocRewriter/CSharpCommentRewriter.cs:89-90 | No content line of a decomposed comment contains a terminator |
| `Padding.EditorTextLines` | CSharpDocRewriter/CSharpCommentRewriter.cs:89-92 | The text shown to the editor splits back into exactly the content lines, in their original order |
| `Padding.EditorText` | CSharpDocRewriter/CSharpCommentRewriter.cs:90-92 | The contents joined with a terminator each: empty exactly for no lines, otherwise terminated. That it splits back into the contents is `Padding.EditorTextLines` |
| `Padding.FirstPad` | CSharpDocRewriter/CSharpCommentRewriter.cs:117 | The first line's pad, or empty for no lines; used by `Padding.RecomposeLines` and `Padding.IdentityEditRoundTrip` |
| `Padding.SecondPad` | CSharpDocRewriter/CSharpCommentRewriter.cs:121 | The second line's pad, or empty when the comment has one line; its effect on a one-line comment is `CommentRewriting.OneLineCommentLosesMarker` |
| `Padding.Repad` | CSharpDocRewriter/CSharpCommentRewriter.cs:123-125 | Puts the first pad before the head line and the second pad before every later line, one line out per line in; per line stated by `Padding.RepadAt` |
| `Padding.RepadAt` | CSharpDocRewriter/CSharpCommentRewriter.cs:123-125 | The head edited line gets the first pad, every later edited line the second pad |
| `Padding.RecomposeLines` | CSharpDocRewriter/CSharpCommentRewriter.cs:111-127 | The rewritten comment ends in a terminator and has one line per edited line: the first behind the first pad, each later one behind the second pad |
| `Padding.Recompose` | CSharpDocRewriter/CSharpCommentRewriter.cs:111-127 | The edited text split into lines, re-padded and joined: empty exactly when the edit has no lines, otherwise terminated; its lines are stated by `Padding.RecomposeLines` |
| `Padding.IdentityEditRoundTrip` | CSharpDocRewriter/CSharpCommentRewriter.cs:89-127 | If the editor returns its input, a terminated comment whose later lines share the second line's pad is rebuilt exactly |
| `CommentRewriting.Visit` | CSharpDocRewriter/CSharpCommentRewriter.cs:73-134 | One visit as a function of the state before it: fails only on an uncached doc comment while not stopping, and leaves the state as it was whenever the editor is not run. Each branch is stated by the lemmas below |
| `CommentRewriting.StopLatches` | CSharpDocRewriter/CSharpCommentRewriter.cs:75-78 | Once stopping, every trivia is returned unchanged and the state, cache included, is kept |
| `CommentRewriting.OtherTriviaUntouched` | CSharpDocRewriter/CSharpCommentRewriter.cs:75-78 | Trivia that is not a doc comment is returned unchanged and the state is kept |
| `CommentRewriting.CacheHitReplays` | CSharpDocRewriter/CSharpCommentRewriter.cs:82-87 | A cached raw comment is replaced by the stored rewrite, the editor is not run, and the state is unchanged |
| `CommentRewriting.VisitFailsOnlyWhenMalformed` | CSharpDocRewriter/CSharpCommentRewriter.cs:89-92 | A visit fails exactly for an uncached doc comment, visited while not stopping, that has a line without `///` |
| `CommentRewriting.EditorOnlyOnMiss` | CSharpDocRewriter/CSharpCommentRewriter.cs:80-93 | The editor is run only for an uncached, well-formed doc comment while not stopping, and it is shown that comment's contents |
| `CommentRewriting.VisitGrowsBackup` | CSharpDocRewriter/CSharpCommentRewriter.cs:127-133 | A visit never changes or removes a cache entry, adds at most the visited raw text, and never clears the stop flag |
| `CommentRewriting.EditRecordsOneEntry` | CSharpDocRewriter/CSharpCommentRewriter.cs:111-133 | A non-empty edit replaces the trivia with the re-padded rewrite and adds exactly the entry raw -> rewrite to the cache, which grows by one |
| `CommentRewriting.EmptyEditKeepsComment` | CSharpDocRewriter/CSharpCommentRewriter.cs:95-109 | A whitespace-only edit keeps the original trivia and the cache, and sets the stop flag exactly when the answer is "y" |
| `CommentRewriting.OneLineCommentLosesMarker` | CSharpDocRewriter/CSharpCommentRewriter.cs:111-127 | For a one-line doc comment edited into several lines, the head line gets the original pad and every later line comes back exactly as edited, without pad or `///` |
| `CommentRewriting.IdentityEditKeepsText` | CSharpDocRewriter/CSharpCommentRewriter.cs:89-133 | An editor that returns its input leaves a uniformly padded, terminated comment as it was, and the cache maps it to itself |
| `CommentRewriting.VisitAll` | CSharpDocRewriter/CSharpCommentRewriter.cs:73-134 | Visiting a file's trivia in order writes back one trivia per trivia, keeps every cache entry, and never clears the stop flag |
| `CommentRewriting.VisitAllWhileStopping` | CSharpDocRewriter/CSharpCommentRewriter.cs:75-78 | A stopped rewriter writes a whole file back unchanged and runs no editor |
| `CommentRewriting.VisitAgainReplays` | CSharpDocRewriter/CSharpCommentRewriter.cs:82-87 | A trivia visited again with a cache that extends the one its first visit left is replayed as the first visit's result, without the editor |
| `CommentRewriting.ReplayIsIdempotent` | CSharpDocRewriter/CSharpCommentRewriter.cs:82-133 | A second pass over the same trivia with the cache of the first pass runs no editor and writes the same output, unless an edit of the first pass came back empty |
| `CommentRewriting.VisitAllAppend` | CSharpDocRewriter/CSharpCommentRewriter.cs:73-134 | Visiting the trivia of a + b in turn is visiting a, then b from the state a left; a failure in a ends the pass |
| `CommentRewriting.VisitAllSplit` | CSharpDocRewriter/CSharpCommentRewriter.cs:73-134 | A pass over a file is the pass over its first j trivia followed by the pass over the rest, from the state the first part left |
| `CommentRewriting.StopMidFile` | CSharpDocRewriter/CSharpCommentRewriter.cs:75-78 | Once a visit in the middle of a file sets the stop flag, the rest of that file is written back unchanged and nothing more is shown to the editor |
| `CommentRewriting.RunFiles` | CSharpDocRewriter/Program.cs:125-151 | The file loop writes back at most one result per file, each as long as its file; a stopped rewriter visits no file; it ends early only when stopping; it keeps every cache entry |
| `CommentRewriting.RunFilesStops` | CSharpDocRewriter/Program.cs:125-151 | Each file is visited from the state the previous file left; the loop goes on to the next file exactly when that state is not stopping, so only the last visited file can leave the flag set |
| `CommentRewriting.RunFilesVisitsEach` | CSharpDocRewriter/Program.cs:125-151 | Each written file is the pass over that file from the state the file before left, and the run ends in the state the last visited file left |
| `CommentRewriting.RunFilesGoesOn` | CSharpDocRewriter/Program.cs:125-130 | A stopped rewriter visits no file, every visited file but the last left the flag clear, and fewer files are visited only when the flag is set |
| `CommentRewriting.EmptyEditStopsRun` | CSharpDocRewriter/CSharpCommentRewriter.cs:96-108 | An empty edit answered "y" of an uncached comment, after any trivia of the first file, stops the run: the comment and the rest of its file are written back unchanged, no later file is visited, and the cache is kept for saving |
| `CommentRewriting.CommentRewriter.constructor` | CSharpDocRewriter/CSharpCommentRewriter.cs:14-23 | The rewriter starts with the given cache and not stopping |
| `CommentRewriting.CommentRewriter.VisitTrivia` | CSharpDocRewriter/CSharpCommentRewriter.cs:73-134 | Returns the trivia and leaves the state that `Visit` gives, keeps every cache entry, and once stopping returns the trivia unchanged with the cache untouched |
| `CommentRewriting.CommentRewriter.VisitFile` | CSharpDocRewriter/Program.cs:145 | Visiting one file's trivia in a loop yields exactly the output and state of `VisitAll` |
| `CommentRewriting.CommentRewriter.VisitFiles` | CSharpDocRewriter/Program.cs:125-151 | The file loop yields exactly the files and state of `RunFiles` |
| `Edits.ElementsAndComments` | CSharpDocRewriter/Edits.cs:56-60 | Only element and comment nodes are kept, all of them from the input, and a list holding only those is kept whole |
| `Edits.ElementsAndCommentsOfOne` | CSharpDocRewriter/Edits.cs:58-59 | A single node is kept exactly when it is an element or a comment |
| `Edits.ElementsAndCommentsAppend` | CSharpDocRewriter/Edits.cs:56-60 | Filtering a concatenation filters each part and keeps them in order, so with the single-node case the filter is the order-preserving one |
| `Edits.ElementsAndCommentsCount` | CSharpDocRewriter/Edits.cs:56-60 | Every element and comment of the input is kept exactly as often as it occurs there, and no other node is kept |
| `Edits.Rank` | CSharpDocRewriter/Edits.cs:39-40 | An element's rank is at most the length of the tag ordering |
| `Edits.RankIsFirstIndex` | CSharpDocRewriter/Edits.cs:39-40 | The rank is the index of the first tag equal to the name, and it is the ordering's length exactly when the name is unknown |
| `Edits.RankOf` | CSharpDocRewriter/Edits.cs:39-40 | A name first found at index k has rank k |
| `Edits.ElementsBelowIncreasing` | CSharpDocRewriter/Edits.cs:49-50 | Element positions are listed in document order |
| `Edits.Before` | CSharpDocRewriter/Edits.cs:35-53 | The comparer: lower rank first, document position among equal ranks; it is a strict order by `Edits.BeforeTransitive` and `Edits.BeforeAsymmetric` |
| `Edits.BeforeTransitive` | CSharpDocRewriter/Edits.cs:35-53 | The comparer by (rank, document position) is transitive |
| `Edits.Insert` | CSharpDocRewriter/Edits.cs:34-54 | Inserting a position into a comparer-ordered list keeps it ordered and adds just that position |
| `Edits.SortPositions` | CSharpDocRewriter/Edits.cs:34-54 | Sorting yields a comparer-ordered permutation of the positions |
| `Edits.OrderedElements` | CSharpDocRewriter/Edits.cs:34-54 | The written element order is a comparer-ordered permutation of the element positions, each an element |
| `Edits.RunStart` | CSharpDocRewriter/Edits.cs:62-68 | The run before a position is the maximal run of comments directly before it |
| `Edits.Emit` | CSharpDocRewriter/Edits.cs:73-81 | The blocks of the given elements one after another, each its run of comments and then the element; placement stated by `Edits.BlockTravels` |
| `Edits.Trailing` | CSharpDocRewriter/Edits.cs:84-87 | The comments after the last element, all of them comments; written last by `Edits.TrailingLast` |
| `Edits.EmitOrder` | CSharpDocRewriter/Edits.cs:72-92 | The positions in the order they are written, all in range; a permutation by `Edits.EachNodeOnce` |
| `Edits.Render` | CSharpDocRewriter/Edits.cs:72-94 | The written texts one per line with trailing whitespace trimmed: the result does not end in whitespace |
| `Edits.ReorderTags` | CSharpDocRewriter/Edits.cs:16-96 | Defined exactly when the body parses; what it writes is stated by `Edits.ReorderWritesEachNodeOnce`, `Edits.ElementsInOrder`, `Edits.CommentsStayAttached` and `Edits.ReorderIdempotent` |
| `Edits.EachNodeOnce` | CSharpDocRewriter/Edits.cs:56-92 | Every element and comment is written exactly once: the output is a permutation of all node positions |
| `Edits.PickPermutation` | CSharpDocRewriter/Edits.cs:72-92 | Writing the same positions in another order writes the same nodes in another order |
| `Edits.ReorderWritesEachNodeOnce` | CSharpDocRewriter/Edits.cs:19-92 | On parsed nodes, the result writes every element and comment of the input once per occurrence and no other node, in a permutation of the kept positions |
| `Edits.ElementsInOrder` | CSharpDocRewriter/Edits.cs:34-53 | Written elements are ordered by rank, and elements of equal rank keep their document order |
| `Edits.CommentsLeadOn` | CSharpDocRewriter/Edits.cs:73-81 | Every written comment, unless last, is followed by the node that followed it in the document |
| `Edits.CommentsStayAttached` | CSharpDocRewriter/Edits.cs:62-81 | Every node that followed a comment in the document is written right after that comment |
| `Edits.BlockTravels` | CSharpDocRewriter/Edits.cs:73-81 | Each element, at its sorted place, is written right after exactly its maximal preceding run of comments, in document order |
| `Edits.TrailingLast` | CSharpDocRewriter/Edits.cs:83-92 | The comments after the last element are written once, in document order, after every other node |
| `Edits.OrderedUnique` | CSharpDocRewriter/Edits.cs:34-54 | Two comparer-ordered lists of the same positions are equal, so the sort result is determined |
| `Edits.AlreadyOrdered` | CSharpDocRewriter/Edits.cs:34-92 | Nodes whose elements already follow the tag ordering, in particular nodes without elements, are written in place |
| `Edits.ReorderIdempotent` | CSharpDocRewriter/Edits.cs:34-92 | Reordering an already reordered node list leaves every node in place |
| `Edits.AppendLines` | CSharpDocRewriter/Edits.cs:75-78 | The comment loop appends the texts of the given nodes, one line each, to the builder |
| `Edits.TryEditReorderTags` | CSharpDocRewriter/Edits.cs:16-96 | Returns false and no comment exactly when the wrapped body does not parse; otherwise true and the reordered body |
| `EditScenarios.ElementsAndCommentsOnePerLine` | CSharpDocRewriter/Edits.cs:56-60 | Dropping the line-break text nodes of a one-node-per-line body gives back its elements and comments |
| `EditScenarios.TestRanks` | CSharpDocRewriterTest/TestEdits.cs:26-39 | The test's ordering ranks summary, param, returns, exception, remarks as 0 to 4 |
| `EditScenarios.FirstTestOrder` | CSharpDocRewriterTest/TestEdits.cs:11-39 | The first test's nodes are written as summary, three params (the commented one with its comment), returns, exception, remarks and the trailing comment |
| `EditScenarios.FirstTestReorder` | CSharpDocRewriterTest/TestEdits.cs:9-45 | For every ordering ranking the five tags in the test's order, the first test's body reorders to the expected text |
| `EditScenarios.FirstTestWithTestOrdering` | CSharpDocRewriterTest/TestEdits.cs:9-45 | The first test's body reorders to the expected text with the test's ordering |
| `EditScenarios.SecondTestUnchanged` | CSharpDocRewriterTest/TestEdits.cs:48-64 | A summary followed by a comment comes out unchanged under any ordering |

## Left out

- Running vim (`EditCommentInVim`, `Edits.EditInVim`) and the shell helper `UbuntuBashExtension.Bash`: the editor is a function parameter.
- The console prompt and `Console.ReadLine`: the answer is a string parameter.
- `Program.cs` apart from its file loop: option parsing, environment variables, the preamble, file reading and writing with encoding detection, and loading and saving the cache as JSON. The cache is a `map<string, string>` that the caller owns.
- Roslyn: syntax trees, `CSharpSyntaxRewriter` traversal, `ToFullString` and `SyntaxFactory.SyntaxTrivia`. A file is a sequence of trivia, each with a kind and its full text.
- XML parsing and serialization (`XDocument.Parse`, the `<root>` wrapper, `ToString(SaveOptions.DisableFormatting)`). The parsed child nodes and their texts are an input, and a parse failure is `None`. Serialization changes such as `<paramref name="asm"/>` becoming `<paramref name="asm" />` are not modelled.
- The `\r`, `\n` and `\r\n` variants of line splitting and `Environment.NewLine`: one terminator, `'\n'`, and a fixed whitespace set stand in for them. Lower-casing is modelled for ASCII letters only.
- Members that `Program.cs` uses but `CSharpCommentRewriter.cs` does not define: the two-argument constructor and author filter, `SkipEditor`, `TagOrdering`, `DefaultTagOrdering`, `CurrentFilePath`, `SavedState` and `HasEditErrors`. `CSharpCommentRewriter.cs` never calls `TryEditReorderTags`, so the rewriter model does not either. The tag ordering is a parameter of the reorder.
- CommentRewriting.CommentRewriter.VisitFile: the state after a malformed comment is not stated. The source throws there and the run ends.
- CommentRewriting.CommentRewriter.VisitFiles: the state after a malformed comment is not stated, for the same reason.
- The `Dictionary.Add` exception for an existing key: it cannot happen, because the lookup just before it missed.
