# Verified model of the `common` layer

The repository vendors the `common` layer of llama.cpp. These Dafny modules model its parts
that carry the hardest laws, in the form the C++ code has (classes with fields, arrays changed
in place, loops with several cursors), and prove those laws for all inputs and all runs.

| module | models |
|---|---|
| `Mapper`, `TaggedCalls`, `BraceScan`, `Json` | the mapper from parse nodes to a chat message, and the argument text it writes piece by piece |
| `ChatDiff`, `Streaming`, `StreamLimits` | the differ between successive messages, the client that follows its deltas, the two together over whole streams, and where streaming stops being append-only |
| `QuoteNormalizer`, `GemmaTurns` | the quote transducer, the rewriting of tool-result messages |
| `GemmaJson`, `ReaderLimits`, `GemmaMapper` | the printer of Gemma 4 argument trees, what a JSON reader can accept of its text, the walk that builds the message of a Gemma 4 model |
| `Utf8`, `LineEditor` | the terminal line editor over bytes and widths, as a refinement of an editor over code points |
| `Segmentation`, `DiffSplit` | cutting text at markers, and the two-ended diff of the segments |
| `Glob`, `GlobSpelling`, `Escapes`, `RepoId`, `PartialStop`, `CsvRow`, `Base64` | matchers and codecs |

`dafny verify dfyconfig.toml` checks everything. Text is a sequence of characters, one per byte,
except in `Utf8`, `LineEditor` and `Base64`, which hold bytes as numbers.

Each imperative member is proved equal to a function on values; the lemmas say what that
function means without naming its body: an inverse, an invariant over all runs, a declarative
description, or the exact condition under which a law holds.

## What the proofs found

- `calculate_diff_split` loses or repeats a segment exactly when one list of segments is the other
  with something put in in the middle that starts or ends with the segment behind it, unless the last
  correction applies (`DiffSplit.ConservesIff`). Left `<a><b>` with right `<a><x><b><b>` and left
  `<a><b>` with right `<a><b><b>` are of this kind.
- `gemma4_to_json` prints an opening quote only for a complete string without a content node, and it
  prints white space behind a scalar as it is, with the vertical tabs and form feeds JSON does not
  allow. `GemmaJson.ReadsBackIff` shows that these are the only obstacles to reading a tree back.
- Streaming an untyped argument value of a named call is append-only exactly while it keeps its
  shape (`StreamLimits.GrownValueExtendsIff`). The differ throws (`StreamLimits.GrownValueThrowsIff`)
  when a string turns out to be JSON (`tru`, then `true`) or JSON turns out to be a string (`1`, then
  `1 a`), when a container passed through turns out to be none (`[Tru`, then `[True]`), when quotes
  around a text come or lose their meaning (`"ab`, then `"ab"`, then `"ab" c`), and when a container is
  cut between a backslash and the single quote it escapes. It does not throw, and the client silently
  keeps what it had, when the string that is written gets shorter: a quote alone is written as a
  string of one quote, and two quotes as the empty string (`StreamLimits.ShrunkValueIsKept`).
- White space behind a value that has been written as a string and closed is part of the value but
  for one character: `True`, then `True` with two spaces in a Python-style call makes the differ throw
  (`StreamLimits.GrownClosedValueThrowsIff`).
- An argument name that starts another parameter's name is reported as soon as it is complete: with
  parameters `q` and `query`, the differ throws if `q` is followed by `query`, and the client silently
  keeps the key if no name is complete in between (`StreamLimits.GrownKeyExtendsIff`,
  `StreamLimits.WithdrawnKeyIsKept`).
- Input values above U+10FFFF put the line editor's bytes and widths out of step (`LineEditor.Console.InsertBeyond`).
- In the message built for a Gemma 4 turn the content is that of the message that ends the turn;
  content of the call-bearing message itself is dropped (`GemmaTurns.OwnContentIsDropped`).
- A repository id in which a `-` is followed by `-` or `/` is not recovered from its folder name;
  valid ids never are of this kind (`RepoId.RoundTripIff`).

## Model

| member | source | states |
|---|---|---|
| `Base.TrimEnd` | ios/shared_cpp/common/chat-peg-parser.cpp:11-21 | trailing white space goes and nothing else: the result is a prefix, does not end in white space, and all that is cut is white space |
| `Base.TrimEndMonotone` | ios/shared_cpp/common/chat-peg-parser.cpp:11-21 | trimming a longer text keeps everything that trimming a shorter beginning of it kept |
| `Base.SpacesSpelled` | ios/shared_cpp/common/chat-peg-parser.cpp:11-33 | white space is exactly the characters with the codes 9 to 13 and the space |
| `Json.ReadCharsOfEscape` | ios/shared_cpp/common/chat-peg-parser.cpp:70-76 | a JSON reader turns an escaped text back into the text, whatever stands behind the closing quote |
| `Json.EscapeMonotone` | ios/shared_cpp/common/chat-peg-parser.cpp:70-76 | escaping a longer text only appends |
| `Json.ReadsObject` | ios/shared_cpp/common/chat-peg-parser.cpp:325-338 | an object written as `{`, members separated by commas, `}` is read as exactly these members, in order |
| `BraceScan.JsonBraceDepth` | ios/shared_cpp/common/chat-peg-parser.cpp:41-67 | the loop over depth and the two flags computes the depth of the scanner |
| `BraceScan.ScanConcat` | ios/shared_cpp/common/chat-peg-parser.cpp:41-67 | scanning two texts in a row is scanning their concatenation |
| `BraceScan.ScanEscaped` | ios/shared_cpp/common/chat-peg-parser.cpp:41-76 | escaped text never leaves a string, never changes the depth and never ends in the middle of an escape |
| `BraceScan.ScanDocument` | ios/shared_cpp/common/chat-peg-parser.cpp:41-67 | the scanner is where it was, outside strings and at the same depth, after any complete JSON document |
| `Json.DocumentReads` | ios/shared_cpp/common/chat-peg-parser.cpp:369-380 | a text that is a JSON document by itself is read as the same value inside any array or object |
| `Json.EscapePrefixIff` | ios/shared_cpp/common/chat-peg-parser.cpp:70-76 | escaping is a prefix code |
| `Json.EscapeSpelled` | ios/shared_cpp/common/chat-peg-parser.cpp:70-76 | the two-character escapes, and every other character from the space on as it is |
| `Json.ControlSpelled` | ios/shared_cpp/common/chat-peg-parser.cpp:70-76 | every other control character is spelled with its code, in four lower-case hexadecimal digits |
| `QuoteNormalizer.NormalizeQuotesToJson` | ios/shared_cpp/common/chat-peg-parser.cpp:83-160 | the loop over two flags and an index computes the transducer, for every input |
| `QuoteNormalizer.NormalizeKeepsMeaning` | ios/shared_cpp/common/chat-peg-parser.cpp:78-160 | a reader that decodes literals of either kind sees the same marks in input and output: every single-quoted literal becomes a double-quoted one with the same content, the rest is unchanged |
| `QuoteNormalizer.NormalizeLeavesOnlyDouble` | ios/shared_cpp/common/chat-peg-parser.cpp:83-160 | no single quote opens a literal in the output |
| `QuoteNormalizer.NormalizeIsIdentityIff` | ios/shared_cpp/common/chat-peg-parser.cpp:83-160 | the output equals the input exactly when no single quote opens a literal in it |
| `QuoteNormalizer.NormalizeIdempotent` | ios/shared_cpp/common/chat-peg-parser.cpp:83-160 | idempotent, and the identity on text without single quotes |
| `QuoteNormalizer.NormalizeSplit` | ios/shared_cpp/common/chat-peg-parser.cpp:83-160 | the output for a split input is the concatenation of the stateful outputs, unless the split cuts an escape pair |
| `QuoteNormalizer.UncleanCutForks` | ios/shared_cpp/common/chat-peg-parser.cpp:83-160 | after such a cut the two outputs differ at a position both have |
| `QuoteNormalizer.NormalizePrefixIff` | ios/shared_cpp/common/chat-peg-parser.cpp:83-160 | what was written for a partial input is a prefix of what is written for its continuation exactly unless the cut is between a backslash and a single quote in a single-quoted literal |
| `Mapper.PegMapper.constructor` | ios/shared_cpp/common/chat-peg-parser.h:21-38 | a mapper starts with an empty message and no call |
| `Mapper.ValueIff` | ios/shared_cpp/common/chat-peg-parser.cpp:341 | the value in a node is its text without one white-space character at each end that has one, and nothing else is |
| `Mapper.KeyIff` | ios/shared_cpp/common/chat-peg-parser.cpp:35-37 | the key in a node is its text without one white-space character in front, if it has one, and without any behind, and nothing else is |
| `Mapper.PegMapper.SetArgs` | ios/shared_cpp/common/chat-peg-parser.cpp:213-215 | writing through `args_target()` reaches the arguments of a named call and the buffer otherwise |
| `Mapper.PegMapper.MapName` | ios/shared_cpp/common/chat-peg-parser.cpp:295-310 | a name moves the buffered arguments into the call, or starts them with a brace, and publishes the pending call |
| `Mapper.PegMapper.WriteValue` | ios/shared_cpp/common/chat-peg-parser.cpp:340-393 | the text a value node adds and the new closing-quote flag, in each of the branches for strings, JSON and partial containers |
| `Mapper.PegMapper.MapClose` | ios/shared_cpp/common/chat-peg-parser.cpp:402-424 | closing a call: buffered arguments, the due quote, one closing brace per open one, and what becomes of a pending call |
| `Mapper.PegMapper.MapToolNode` | ios/shared_cpp/common/chat-peg-parser.cpp:287-424 | the branches of `map` that act on the current call compute the abstract step |
| `Mapper.PegMapper.MapArgument` | ios/shared_cpp/common/chat-peg-parser.cpp:325-400 | the branches for the name, the value and the end of an argument compute the abstract step |
| `Mapper.PegMapper.Map` | ios/shared_cpp/common/chat-peg-parser.cpp:252-425 | one node changes the state by exactly the abstract step |
| `Mapper.PegMapper.FromAst` | ios/shared_cpp/common/chat-peg-parser.cpp:221-250 | mapping all nodes and finishing yields the message that the abstract run defines, with reasoning of white space only discarded |
| `TaggedCalls.CallsOfRun` | ios/shared_cpp/common/chat-peg-parser.cpp:279-310 | in every run a pending call is unnamed, and there is one reported call per opening that gets a name before its close or the next opening, in order |
| `TaggedCalls.LatePushesNeverFire` | ios/shared_cpp/common/chat-peg-parser.cpp:226-235 | from the start state, the pushes at a close and at the end of the parse add nothing |
| `TaggedCalls.RunAgrees` | ios/shared_cpp/common/chat-peg-parser.cpp:213-425 | along every run of tagged calls, with strings or complete JSON values as arguments, the state is the one its arguments so far determine, and nothing is written through a dangling reference |
| `TaggedCalls.ScannerFollowsTheFlag` | ios/shared_cpp/common/chat-peg-parser.cpp:41-67 | at every moment inside a call, scanning the text being written ends inside a string exactly when the closing quote is pending, never mid-escape, at depth 1 once there is text |
| `TaggedCalls.CloseBalances` | ios/shared_cpp/common/chat-peg-parser.cpp:402-424 | a close at any point after the name leaves the arguments outside strings at depth 0 |
| `TaggedCalls.CompleteCallReadsBack` | ios/shared_cpp/common/chat-peg-parser.cpp:287-424 | a complete tagged call, after any earlier run, adds one call with its last name and id, whose arguments a JSON reader turns back into exactly the trimmed keys with their values (strings as they are, other JSON as parsed), in order, wherever the name arrives; earlier calls are unchanged |
| `TaggedCalls.WrittenCallReadsBack` | ios/shared_cpp/common/chat-peg-parser.cpp:287-424 | a call written for any id, name and keys with any strings, JSON values, arrays and objects in Python quotes, and text that is no JSON, with a white-space character around each, is reported with that id and name, and its arguments read back as those keys and values in order |
| `TaggedCalls.StringsInARow` | ios/shared_cpp/common/chat-peg-parser.cpp:346-356 | string values in a row are one string |
| `TaggedCalls.SecondNameOnlyRenames` | ios/shared_cpp/common/chat-peg-parser.cpp:295-310 | another name for a reported call only replaces the name |
| `TaggedCalls.CloseIsFinal` | ios/shared_cpp/common/chat-peg-parser.cpp:395-424 | after a close a later end of an argument does nothing |
| `TaggedCalls.JsonArgumentsKept` | ios/shared_cpp/common/chat-peg-parser.cpp:279-319 | a call whose arguments arrive as JSON objects, with its name before, after or between them, and ids and other nodes anywhere, is reported with its last id, its name and the text of its last object: closing it adds nothing to a complete one |
| `TaggedCalls.UnquoteIdUndoesQuotes` | ios/shared_cpp/common/chat-peg-parser.cpp:287-293 | an id in quotes loses the quotes and the white space behind them |
| `TaggedCalls.UnquoteIdKeepsOthers` | ios/shared_cpp/common/chat-peg-parser.cpp:287-293 | any other id only loses the white space behind it |
| `ChatDiff.ComputeDiffs` | ios/shared_cpp/common/chat.cpp:153-219 | the method that pushes diffs into a vector computes the list of diffs, or the error, of the specification |
| `ChatDiff.DiffsOkIff` | ios/shared_cpp/common/chat.cpp:54-219 | the differ throws exactly when a text is not comparable with its predecessor, calls disappear, or a name is replaced |
| `ChatDiff.DeltasRebuildIff` | ios/shared_cpp/common/chat.cpp:153-219 | diffing succeeds and a client that applies the deltas gets the new message if and only if the new message extends the old one |
| `ChatDiff.ApplyCallDiffs` | ios/shared_cpp/common/chat.cpp:183-208 | the delta for the last known call changes that call only, and reaches the new one exactly when it extends the old one |
| `ChatDiff.EqualMessagesNoDiff` | ios/shared_cpp/common/chat.cpp:153-219 | equal messages give no diff |
| `ChatDiff.OnlyArgumentsSent` | ios/shared_cpp/common/chat.cpp:183-208 | while only the arguments of the last call grow, one delta with what is new of them is sent, without name and id |
| `ChatDiff.OnlyTextSent` | ios/shared_cpp/common/chat.cpp:157-176 | while only the texts grow, what is new of each is sent, reasoning first |
| `ChatDiff.ExtendsTransitive` | ios/shared_cpp/common/chat.cpp:153-219 | extension is transitive |
| `ChatDiff.FollowRebuilds` | ios/shared_cpp/common/chat.cpp:455-483 | along any chain of extending messages that starts empty, applying all deltas rebuilds the last message |
| `ChatDiff.ChainRebuilds` | ios/shared_cpp/common/chat.cpp:455-483 | the same for any messages of which each extends the one before, with the empty message in front |
| `Streaming.EffectiveParse` | ios/shared_cpp/common/peg-parser.cpp:291-306 | inner nodes of values and enclosing argument nodes have no influence on the message or on well-formedness |
| `Streaming.UsualStepContinues` | ios/shared_cpp/common/peg-parser.cpp:291-300 | the usual step of a stream is a continuation: the last node with an effect has grown, whatever nodes without effect surround it and whatever unwritten white space earlier nodes have gained |
| `Streaming.StepExtends` | ios/shared_cpp/common/chat-peg-parser.cpp:252-425 | in a well-formed run each node only extends the finished message |
| `Streaming.RunExtends` | ios/shared_cpp/common/chat-peg-parser.cpp:221-425 | a longer well-formed run extends the message of a shorter one, field by field, and is free of undefined behaviour |
| `Streaming.GrownNodeExtends` | ios/shared_cpp/common/chat-peg-parser.cpp:252-425 | mapping a node that has grown, in any of the ways that keep what was written, extends what mapping the shorter node gave |
| `Streaming.ContinuedParseExtends` | ios/shared_cpp/common/chat-peg-parser.cpp:221-425 | a parse continues an earlier one when, apart from nodes without effect, it starts with nodes that do what the earlier ones did, and the last one may have grown, or a value outside quotes behind its close; its message then extends the earlier one, so the differ does not throw and its deltas rebuild it |
| `Streaming.LongerRunExtends` | ios/shared_cpp/common/chat-peg-parser.cpp:221-425 | the message after any longer prefix of a well-formed run extends the message after a shorter one |
| `Streaming.StreamReachesClient` | ios/shared_cpp/common/chat.cpp:153-219 | for every stream of well-formed parses of which each continues the one before, a client that applies every delta ends with the message of the last parse |
| `Streaming.TextsOfMessage` | ios/shared_cpp/common/chat-peg-parser.cpp:252-268 | content is the concatenation of the content nodes, reasoning that of the reasoning nodes unless it is all white space |
| `StreamLimits.GrownValueExtendsIff` | ios/shared_cpp/common/chat-peg-parser.cpp:340-393 | an argument value that has grown extends the message exactly when the call is unnamed, nothing of the value had been written, it is still a string that starts with the earlier one, or it is still JSON text that is not cut inside an escape pair |
| `StreamLimits.GrownValueThrowsIff` | ios/shared_cpp/common/chat.cpp:54-68 | the differ throws on a value that has grown exactly when the call is named, the value does not keep what was written, and what is written now is no beginning of it either |
| `StreamLimits.ShrunkValueIsKept` | ios/shared_cpp/common/chat.cpp:54-68 | in the remaining case, where a beginning of what was written is written now, the differ accepts the message and the client keeps the old one |
| `StreamLimits.GrownClosedValueExtendsIff` | ios/shared_cpp/common/chat-peg-parser.cpp:340-400 | a value that has grown behind its close extends the message exactly when the call is unnamed, it is the same string still, or it was not written as a string and keeps its shape |
| `StreamLimits.GrownClosedValueThrowsIff` | ios/shared_cpp/common/chat-peg-parser.cpp:340-400 | in all other cases the differ throws, unless nothing is written of the value any more |
| `StreamLimits.GrownKeyExtendsIff` | ios/shared_cpp/common/chat-peg-parser.cpp:325-338 | an argument name that has changed extends the message exactly when the call is unnamed or the key is the same; otherwise the differ throws |
| `StreamLimits.WithdrawnKeyIsKept` | ios/shared_cpp/common/chat-peg-parser.cpp:325-338 | an argument name that is taken back on a named call is accepted by the differ, and the client keeps the key |
| `StreamLimits.ShapeChangeThrows` | ios/shared_cpp/common/chat-peg-parser.cpp:369-391 | a value shown as a string that turns out to be JSON, or passed through and turns out to be none, makes the differ throw |
| `StreamLimits.RewrittenStringThrows` | ios/shared_cpp/common/chat-peg-parser.cpp:369-391 | a string value of which neither the earlier nor the later text starts the other makes the differ throw |
| `StreamLimits.UncleanCutThrows` | ios/shared_cpp/common/chat-peg-parser.cpp:357-380 | a container cut between a backslash and the single quote it escapes makes the differ throw |
| `StreamLimits.FailingScalar` | ios/shared_cpp/common/chat-peg-parser.cpp:383-388 | `tru` becomes `true`: the differ throws |
| `StreamLimits.FailingNumber` | ios/shared_cpp/common/chat-peg-parser.cpp:383-388 | `1` becomes `1 a`: the differ throws |
| `StreamLimits.FailingContainer` | ios/shared_cpp/common/chat-peg-parser.cpp:378-388 | a partial `[Tru` becomes `[True]`, which is no JSON: the differ throws |
| `StreamLimits.FailingQuote` | ios/shared_cpp/common/chat-peg-parser.cpp:370-388 | a quote and text, then the closing quote: the differ throws |
| `StreamLimits.FailingText` | ios/shared_cpp/common/chat-peg-parser.cpp:370-388 | a quoted text, then text behind it: the differ throws |
| `StreamLimits.FailingCut` | ios/shared_cpp/common/chat-peg-parser.cpp:357-380 | a container cut after the backslash of an escaped single quote: the differ throws |
| `StreamLimits.FailingShrink` | ios/shared_cpp/common/chat-peg-parser.cpp:369-391 | a quote alone, then two quotes: accepted, and the client keeps the text of the first |
| `StreamLimits.FailingClosedValue` | ios/shared_cpp/common/chat-peg-parser.cpp:538-546 | `True`, closed as a string, gets two white-space characters behind it: the differ throws |
| `StreamLimits.FailingKey` | ios/shared_cpp/common/chat-peg-parser.cpp:465-475 | `q`, then `query`, as the name of the same argument: the differ throws |
| `StreamLimits.FailingWithdrawal` | ios/shared_cpp/common/peg-parser.cpp:885-892 | `q`, then no name yet: accepted, and the client keeps the key |
| `GemmaJson.Print` | ios/shared_cpp/common/chat-peg-parser.cpp:875-968 | the recursive printer, with its loops over children and the comma flag, computes the text of the specification for every tree |
| `GemmaJson.ReadsBackIff` | ios/shared_cpp/common/chat-peg-parser.cpp:875-968 | for a complete tree, white space behind scalars included, the printed text is read as the value of the tree if and only if every string has a content node and no scalar is followed by a vertical tab or a form feed |
| `GemmaJson.GrownTreePrints` | ios/shared_cpp/common/chat-peg-parser.cpp:875-968 | the text of a tree is a prefix of the text of the grown tree; only nodes that print their end must be partial to grow |
| `GemmaJson.PartialLacksOnlyEnds` | ios/shared_cpp/common/chat-peg-parser.cpp:875-968 | a partial tree prints all that the same tree prints when complete, except for closing marks at its end |
| `GemmaJson.OthersPrint` | ios/shared_cpp/common/chat-peg-parser.cpp:878-890 | scalars, names and contents of strings print their text, the last escaped; nodes of other rules and empty nodes print nothing |
| `GemmaJson.TreeReads` | ios/shared_cpp/common/chat-peg-parser.cpp:875-968 | a complete tree whose strings have content and whose white space is that of JSON is read back in any context |
| `GemmaJson.PrintedInk` | ios/shared_cpp/common/chat-peg-parser.cpp:890-899 | apart from white space, a complete tree prints one character too few for each string without content, for which the closing quote is missing |
| `GemmaJson.OddSpacePrints` | ios/shared_cpp/common/chat-peg-parser.cpp:882-884 | other white space behind a scalar is printed as a control character that no JSON text may contain |
| `GemmaJson.FailingSpace` | ios/shared_cpp/common/peg-parser.cpp:615-628 | the number 1 with a vertical tab behind it is printed as it is, and not read as JSON |
| `ReaderLimits.ReadValueInk` | ios/shared_cpp/common/chat-peg-parser.cpp:875-968 | no text with less ink than the canonical one is read as a given value |
| `ReaderLimits.ReadValueLegal` | ios/shared_cpp/common/chat-peg-parser.cpp:875-968 | whatever is read as a value has no control characters but the white space of JSON |
| `ReaderLimits.DocumentIsNormal` | ios/shared_cpp/common/chat-peg-parser.cpp:353-367 | text that is JSON already passes through the quote normalizer unchanged |
| `GemmaMapper.FindByTag` | ios/shared_cpp/common/peg-parser.cpp:259-273 | the recursive loop returns the first node with the tag, parents before children, within the depth |
| `GemmaMapper.Gemma4Mapper.VisitTool` | ios/shared_cpp/common/chat-peg-parser.cpp:983-1004 | a tool node adds a call exactly when name and arguments are found and the name is complete |
| `GemmaMapper.Gemma4Mapper.Visit` | ios/shared_cpp/common/chat-peg-parser.cpp:970-1007 | visiting a tree changes the message by exactly the specified walk |
| `GemmaMapper.Gemma4Mapper.FromAst` | ios/shared_cpp/common/chat-peg-parser.cpp:869-873 | the loop over the roots performs the walk over all of them |
| `GemmaMapper.PiecesSuffice` | ios/shared_cpp/common/chat-peg-parser.cpp:970-1007 | the message depends only on the reasoning, content and reported tool nodes, in order, wherever they are in the trees |
| `GemmaMapper.MessageHolds` | ios/shared_cpp/common/chat-peg-parser.cpp:970-1007 | reasoning is the text of the outermost reasoning nodes, content that of the outermost content nodes, and there is a call for each outermost tool node that can be reported, all in order |
| `GemmaMapper.FindIsFirst` | ios/shared_cpp/common/peg-parser.cpp:259-273 | a lookup finds the first node with the tag, parents before children, among those down to the depth, and nothing exactly when there is none |
| `GemmaMapper.CallOfIff` | ios/shared_cpp/common/chat-peg-parser.cpp:983-1002 | a tool node is reported exactly if within three levels it has arguments and a name that is complete; the call has the text of the first name, no id, and what the first child of the first arguments prints |
| `GemmaMapper.FoundGrows` | ios/shared_cpp/common/peg-parser.cpp:259-273 | in trees that grow, a node found by its tag is found again, and has at most grown |
| `GemmaMapper.GrownCallExtends` | ios/shared_cpp/common/chat-peg-parser.cpp:983-1004 | when a tool node grows, a reported call stays reported with its name, and its arguments only grow |
| `GemmaMapper.ContinuedParseExtends` | ios/shared_cpp/common/chat-peg-parser.cpp:869-1007 | when a parse adds the same pieces as an earlier one, except that the last of these may have grown, its message extends the earlier one, so the differ does not throw and its deltas rebuild it |
| `GemmaMapper.GrownTreesContinue` | ios/shared_cpp/common/chat-peg-parser.cpp:869-1007 | trees that grow as a whole are such a continuation |
| `GemmaMapper.StreamReachesClient` | ios/shared_cpp/common/chat.cpp:153-219 | for every stream of parses of which each continues the one before, a client that applies every delta ends with the message of the last parse |
| `Segmentation.SegmentizeMarkers` | ios/shared_cpp/common/chat-auto-parser-helpers.cpp:269-299 | the loop over border, marker flag and opener computes the segments |
| `Segmentation.SegmentsConserve` | ios/shared_cpp/common/chat-auto-parser-helpers.cpp:269-299 | the values of the segments concatenate to the text |
| `Segmentation.SegmentsFormed` | ios/shared_cpp/common/chat-auto-parser-helpers.cpp:269-299 | no segment is empty and every marker runs from an opener to its own closer |
| `Segmentation.SegmentsIff` | ios/shared_cpp/common/chat-auto-parser-helpers.cpp:269-299 | a list of segments is that of the text exactly if nothing is lost and it is whole markers with text between them that opens none, up to an opener that is never closed |
| `DiffSplit.PrefixLenSound` | ios/shared_cpp/common/chat-auto-parser-helpers.cpp:69-76 | the counted prefix is common and cannot be extended |
| `DiffSplit.SuffixLenSound` | ios/shared_cpp/common/chat-auto-parser-helpers.cpp:78-85 | the counted suffix is common and cannot be extended |
| `DiffSplit.PrefixLen` | ios/shared_cpp/common/chat-auto-parser-helpers.cpp:69-76 | the loop counts the common prefix |
| `DiffSplit.SuffixLen` | ios/shared_cpp/common/chat-auto-parser-helpers.cpp:78-85 | the loop counts the common suffix |
| `DiffSplit.ExitAlike` | ios/shared_cpp/common/chat-auto-parser-helpers.cpp:114-139 | at the exit of the main loop, what has been taken off the two fronts is equal, and so is what has been taken off the backs |
| `DiffSplit.ExitIsMaximal` | ios/shared_cpp/common/chat-auto-parser-helpers.cpp:114-139 | where the main loop stops with several segments on both sides, neither the first nor the last ones agree |
| `DiffSplit.TakeEnds` | ios/shared_cpp/common/chat-auto-parser-helpers.cpp:102-139 | the main loop stops at the specified exit, with prefix and suffix equal to what lies outside the iterators |
| `DiffSplit.RepairEnds` | ios/shared_cpp/common/chat-auto-parser-helpers.cpp:141-163 | the cases after the loop compute the specified repair |
| `DiffSplit.SplitRest` | ios/shared_cpp/common/chat-auto-parser-helpers.cpp:167-183 | the remainders and the common text at their ends |
| `DiffSplit.TrimConserves` | ios/shared_cpp/common/chat-auto-parser-helpers.cpp:175-183 | moving common text to prefix and suffix conserves both sides |
| `DiffSplit.TrimIsMaximal` | ios/shared_cpp/common/chat-auto-parser-helpers.cpp:177-183 | where text may be moved to the prefix or the suffix, no common text stays |
| `DiffSplit.RemaindersDiffer` | ios/shared_cpp/common/chat-auto-parser-helpers.cpp:87-207 | where something is left over on both sides, it differs in its outermost character at an end where both sides have text left, and at any other end nothing but whole segments has been taken off |
| `DiffSplit.PlainTextsSplit` | ios/shared_cpp/common/chat-auto-parser-helpers.cpp:87-207 | for texts without markers: what continues the left one, or their longest common end as suffix and the longest common start of the rest as prefix, and nothing lost |
| `DiffSplit.EqualFlagsConserve` | ios/shared_cpp/common/chat-auto-parser-helpers.cpp:87-207 | prefix + left + suffix is the left input and prefix + right + suffix the right one whenever the main loop ends with equal flags |
| `DiffSplit.LeftUsedUpIff` | ios/shared_cpp/common/chat-auto-parser-helpers.cpp:114-139 | the main loop uses up only the left side exactly when the right segments are the left ones with something more in the middle |
| `DiffSplit.RepairsTwiceIff` | ios/shared_cpp/common/chat-auto-parser-helpers.cpp:141-163 | the guards of the repair cases find a segment already taken exactly under the condition on the segments |
| `DiffSplit.ConservesIff` | ios/shared_cpp/common/chat-auto-parser-helpers.cpp:87-207 | both inputs are conserved unless the segments of one are those of the other with something put in exactly in the middle that starts or ends with the segment behind it; even then if the left input is a prefix of the right one with at least two segments put in |
| `DiffSplit.CalculateDiffSplit` | ios/shared_cpp/common/chat-auto-parser-helpers.cpp:87-207 | the whole method computes the specified split, and conserves both inputs exactly under that condition |
| `DiffSplit.FailingInputs` | ios/shared_cpp/common/chat-auto-parser-helpers.cpp:141-148 | two concrete pairs of inputs that are not conserved |
| `Utf8.DecodeAtCharacter` | ios/shared_cpp/common/console.cpp:365-429 | decoding at the position of a character yields the code point and its length: encode and decode are inverse |
| `Utf8.EncodeAllInjective` | ios/shared_cpp/common/console.cpp:411-429 | a byte text encodes at most one sequence of code points |
| `Utf8.NextCharPos` | ios/shared_cpp/common/console.cpp:441-448 | in any bytes, the first later position without a continuation byte, or the end |
| `Utf8.PrevCharPos` | ios/shared_cpp/common/console.cpp:432-439 | in any bytes, the last earlier position without a continuation byte, or the start |
| `Utf8.NextIsCharacter` | ios/shared_cpp/common/console.cpp:441-448 | on an encoded text that is the start of the next character |
| `Utf8.PrevIsCharacter` | ios/shared_cpp/common/console.cpp:432-439 | on an encoded text that is the start of the character before |
| `Utf8.UnitsOfText` | ios/shared_cpp/common/console.cpp:365-406 | decoding an encoded text from the front yields its code points, each at its position |
| `Utf8.CharacterBytes` | ios/shared_cpp/common/console.cpp:411-429 | the bytes of a character are one leading byte and then continuation bytes only, and a leading byte follows |
| `Utf8.EncodeIsShortest` | ios/shared_cpp/common/console.cpp:411-429 | no shorter bytes are decoded to the same code point, unless a stray byte stands for the replacement character |
| `Utf8.StandardExamples` | ios/shared_cpp/common/console.cpp:411-429 | an example of section 7 of RFC 3629 and a code point of four bytes |
| `Utf8.EncodesNothingIff` | ios/shared_cpp/common/console.cpp:411-429 | nothing is appended exactly for values beyond U+10FFFF |
| `Utf8.StrayByteIsReplaced` | ios/shared_cpp/common/console.cpp:365-406 | a stray continuation byte, or one that never occurs, is one replacement character |
| `Utf8.CutCharacterIsReplaced` | ios/shared_cpp/common/console.cpp:365-406 | so is a leading byte without all the continuation bytes it announces |
| `LineEditor.Console.MoveLeft` | ios/shared_cpp/common/console.cpp:835-843 | one character to the left, byte position and column in step |
| `LineEditor.Console.MoveRight` | ios/shared_cpp/common/console.cpp:844-852 | one character to the right, byte position and column in step |
| `LineEditor.Console.MoveToLineStart` | ios/shared_cpp/common/console.cpp:529-537 | the cursor, the byte position and the column go to the start |
| `LineEditor.Console.MoveToLineEnd` | ios/shared_cpp/common/console.cpp:539-547 | the cursor, the byte position and the column go to the end |
| `LineEditor.Console.MoveWordLeft` | ios/shared_cpp/common/console.cpp:581-617 | the cursor goes where the plain editor's word move goes, everything in step |
| `LineEditor.Console.MoveWordRight` | ios/shared_cpp/common/console.cpp:619-664 | the cursor goes where the plain editor's word move goes, everything in step |
| `LineEditor.Console.DeleteAtCursor` | ios/shared_cpp/common/console.cpp:456-482 | exactly the character at the cursor is removed from bytes, widths and text; the column is where it was |
| `LineEditor.Console.EraseBefore` | ios/shared_cpp/common/console.cpp:929-957 | exactly the character before the cursor is removed and the cursor moves back |
| `LineEditor.Console.InsertChar` | ios/shared_cpp/common/console.cpp:958-996 | the character is inserted at the cursor, at the end or within the line, and the cursor passes it |
| `LineEditor.Console.InsertBeyond` | ios/shared_cpp/common/console.cpp:958-979 | a value beyond the last code point adds a width but no byte, after which no text fits both |
| `LineEditor.Console.SetLineContents` | ios/shared_cpp/common/console.cpp:497-527 | for any bytes, line, widths, cursors and column fit the decoded units; for the encoding of a text the editor is in step with it |
| `LineEditor.Console.HistoryPrev` | ios/shared_cpp/common/console.cpp:714-779 | going back in the history, including the backup of the current line |
| `LineEditor.Console.HistoryNext` | ios/shared_cpp/common/console.cpp:727-788 | going forward, back to the line that was being typed at the end |
| `LineEditor.Console.AddToHistory` | ios/shared_cpp/common/console.cpp:703-713 | an empty line and a repetition of the last entry are not added |
| `LineEditor.Console.Handle` | ios/shared_cpp/common/console.cpp:767-1002 | one key does to bytes, widths, cursors and column what it does to the plain editor |
| `LineEditor.Console.ReadKeys` | ios/shared_cpp/common/console.cpp:766-1002 | after any sequence of keys the editor shows what the plain editor shows, and both cursor assertions hold |
| `LineEditor.Console.LayOut` | ios/shared_cpp/common/console.cpp:507-523 | for any bytes, the widths of the decoded units, and the cursor behind exactly those that end before the requested byte |
| `LineEditor.BackspaceUndoesChar` | ios/shared_cpp/common/console.cpp:929-996 | backspace right after an insertion restores text and cursor |
| `LineEditor.LeftDeleteIsBackspace` | ios/shared_cpp/common/console.cpp:835-957 | left and then delete is backspace |
| `LineEditor.HistoryRoundTrip` | ios/shared_cpp/common/console.cpp:699-788 | n entries back shows the n-th last entry, and n forward again restores the line that was being typed |
| `LineEditor.HistoryEnds` | ios/shared_cpp/common/console.cpp:714-742 | at the oldest entry there is no going back, without viewing no going forward, and without entries neither |
| `LineEditor.EnteredLineIsRecalled` | ios/shared_cpp/common/console.cpp:703-713 | a line that has been entered is the first one that going back shows, and the list of entries is otherwise what it was |
| `LineEditor.WordLeftIff` | ios/shared_cpp/common/console.cpp:581-617 | the word move to the left goes over spaces and then over one word, to its start, and nowhere else |
| `LineEditor.WordRightIff` | ios/shared_cpp/common/console.cpp:619-664 | the word move to the right goes over spaces, one word and the spaces behind it, and nowhere else |
| `LineEditor.LeftAndRight` | ios/shared_cpp/common/console.cpp:835-852 | a step to one side and one back is where the cursor was; at the ends motions and deletions do nothing |
| `LineEditor.HomeIsLeft` | ios/shared_cpp/common/console.cpp:529-537 | the line start is as many steps to the left as there are characters before the cursor |
| `LineEditor.EndIsRight` | ios/shared_cpp/common/console.cpp:539-547 | the line end is as many steps to the right as there are characters behind it |
| `LineEditor.TypingAppends` | ios/shared_cpp/common/console.cpp:958-996 | typing at the end of a line appends what is typed |
| `LineEditor.CompletionShows` | ios/shared_cpp/common/console.cpp:497-527 | a completion puts its line in place with the cursor behind the characters that end before the given byte, or leaves all as it is |
| `GemmaTurns.TurnBuilder.CollectResult` | ios/shared_cpp/common/chat.cpp:1927-1960 | the next response is named after the call with the same index, or else after the id, and holds the parsed content |
| `GemmaTurns.TurnBuilder.CollectResults` | ios/shared_cpp/common/chat.cpp:1911-1915 | exactly the maximal run of tool messages is turned into responses |
| `GemmaTurns.TurnBuilder.CollectFinal` | ios/shared_cpp/common/chat.cpp:1917-1924 | the next message is absorbed exactly when it is an assistant message without calls and with content |
| `GemmaTurns.TurnBuilder.Collect` | ios/shared_cpp/common/chat.cpp:1898-1925 | calls, responses, reasoning and final content, and the position behind the turn |
| `GemmaTurns.TurnBuilder.Build` | ios/shared_cpp/common/chat.cpp:1962-1979 | the message built for the turn and the position behind it |
| `GemmaTurns.ConvertToolResponses` | ios/shared_cpp/common/chat.cpp:2000-2020 | the loop terminates and computes the converted history |
| `GemmaTurns.ConvertIff` | ios/shared_cpp/common/chat.cpp:1888-2020 | the result is the only list of messages that explains the history: turns take the maximal run of tool messages and a final message if there is one, responses match in order and name, all other messages are kept in order |
| `GemmaTurns.FinalIsAbsorbed` | ios/shared_cpp/common/chat.cpp:1898-1979 | an exchange and an assistant message without calls, with text or a list as content, become one message with the calls, one response per result, and that content |
| `GemmaTurns.OtherIsNotAbsorbed` | ios/shared_cpp/common/chat.cpp:1917-1924 | any other message behind the results is kept, and the turn has no content |
| `GemmaTurns.OthersKept` | ios/shared_cpp/common/chat.cpp:2004-2012 | a history in which no assistant message has calls is not changed |
| `GemmaTurns.CallsKept` | ios/shared_cpp/common/chat.cpp:1888-2020 | the flattened sequence of assistant tool calls is unchanged |
| `GemmaTurns.OwnContentIsDropped` | ios/shared_cpp/common/chat.cpp:1878-1925 | the content of a call-bearing message has no influence on the result; only the message that ends the turn gives content |
| `Glob.GlobClassMatch` | ios/shared_cpp/common/common.cpp:665-703 | true exactly when the class, with negation, ranges and a literal first `]` or `-`, contains the character |
| `Glob.ScanItems` | ios/shared_cpp/common/common.cpp:684-700 | the loop over single characters and ranges finds the character exactly when an item covers it |
| `Glob.GlobMatch` | ios/shared_cpp/common/common.cpp:706-750 | the matcher terminates and accepts exactly the texts the pattern describes |
| `Glob.MatchStar` | ios/shared_cpp/common/common.cpp:716-722 | a single star tries every slash-free beginning |
| `Glob.GlobMatchStrings` | ios/shared_cpp/common/common.cpp:752-754 | the same for strings, which end at their first NUL |
| `Glob.MatchesConcat` | ios/shared_cpp/common/common.cpp:706-750 | a text matches two patterns in a row exactly when it splits into two matches |
| `Glob.MatchPreservesSlashes` | ios/shared_cpp/common/common.cpp:705-722 | a match of a pattern without `**` and classes has as many slashes as the pattern |
| `Glob.PlainPatternMatchesItself` | ios/shared_cpp/common/common.cpp:746-749 | a pattern without special characters matches itself only |
| `GlobSpelling.TokensSpelled` | ios/shared_cpp/common/common.cpp:706-750 | a pattern written for given tokens, stars, classes and literals, is read as these tokens |
| `GlobSpelling.UnclosedBracket` | ios/shared_cpp/common/common.cpp:724-737 | a bracket that is never closed behind the first character of its class is an ordinary character |
| `GlobSpelling.AnythingMatches` | ios/shared_cpp/common/common.cpp:710-715 | two stars describe every text |
| `GlobSpelling.StarMatchesIff` | ios/shared_cpp/common/common.cpp:716-722 | one star describes exactly the texts without a slash |
| `GlobSpelling.AnyCharMatchesIff` | ios/shared_cpp/common/common.cpp:723-725 | a question mark describes exactly one character other than a slash |
| `GlobSpelling.PlainClass` | ios/shared_cpp/common/common.cpp:665-703 | a class of plain characters holds these, and with a `!` in front all others |
| `GlobSpelling.RangeClass` | ios/shared_cpp/common/common.cpp:665-703 | a range holds what lies between its ends, and with a `!` in front all others |
| `GlobSpelling.LeadingLiteral` | ios/shared_cpp/common/common.cpp:673-683 | a `]` or `-` at the start or behind the `!` is an ordinary character of the class |
| `Escapes.StringProcessEscapes` | ios/shared_cpp/common/common.cpp:582-617 | decoding in place equals decoding the original text; writing never overtakes reading |
| `Escapes.ReadUnit` | ios/shared_cpp/common/common.cpp:586-611 | one unit of the input, including the fall-through of an unfinished `\x` |
| `Escapes.HexSpells` | ios/shared_cpp/common/common.cpp:595-606 | any byte may be spelled with two hexadecimal digits of either case |
| `Escapes.OneHexDigit` | ios/shared_cpp/common/common.cpp:595-606 | one digit alone, behind white space or a sign, is its value, or its complement behind a minus sign |
| `Escapes.UnescapeUndoes` | ios/shared_cpp/common/common.cpp:582-617 | text printed with any legal spelling of each character is read back |
| `Escapes.UnescapeUndoesDoubling` | ios/shared_cpp/common/common.cpp:594 | doubled backslashes are undone |
| `Escapes.IdentityIff` | ios/shared_cpp/common/common.cpp:582-617 | the text is unchanged exactly when it holds no escape of a recognised shape, and gets shorter otherwise |
| `RepoId.StringReplaceAll` | ios/shared_cpp/common/common.cpp:444-459 | the loop over occurrences computes leftmost non-overlapping replacement |
| `RepoId.ReplaceSkips` | ios/shared_cpp/common/common.cpp:444-459 | text in which no occurrence starts is kept |
| `RepoId.RepoToFolderName` | ios/shared_cpp/common/hf-cache.cpp:80-85 | the folder name of an id |
| `RepoId.FolderSpelled` | ios/shared_cpp/common/hf-cache.cpp:80-85 | the folder of `owner/name` is `models--owner--name` |
| `RepoId.FolderNameToRepo` | ios/shared_cpp/common/hf-cache.cpp:70-78 | the id of a folder name, empty without the prefix |
| `RepoId.IsValidRepoId` | ios/shared_cpp/common/hf-cache.cpp:119-143 | the automaton accepts exactly the ids of 1 to 256 characters in which every special character stands between base characters and there is one slash |
| `RepoId.ValidIff` | ios/shared_cpp/common/hf-cache.cpp:116-143 | an id is valid exactly if it is an owner, a slash and a name of 256 characters at most, each of letters, digits and `_` with single `.` and `-` between them |
| `RepoId.ValidIdRoundTrip` | ios/shared_cpp/common/hf-cache.cpp:70-85 | a valid id is recovered from its folder name |
| `RepoId.RoundTripIff` | ios/shared_cpp/common/hf-cache.cpp:70-85 | any id is recovered exactly when no `-` is followed by `-` or `/` |
| `RepoId.FolderNamesInjective` | ios/shared_cpp/common/hf-cache.cpp:80-143 | two valid ids have different folders |
| `RepoId.FolderRoundTripIff` | ios/shared_cpp/common/hf-cache.cpp:70-85 | a folder name is rebuilt from its id exactly when it starts with `models--` and has no slash; any other folder has the empty id |
| `PartialStop.StringFindPartialStop` | ios/shared_cpp/common/common.h:764-777 | the first position from which the text is a non-empty beginning of the stop word, or nothing exactly when there is none |
| `PartialStop.ThreatensIff` | ios/shared_cpp/common/common.h:764-777 | these positions are exactly those at which some continuation makes the stop word occur across or up to the end of the text |
| `CsvRow.ParseCsvRow` | ios/shared_cpp/common/arg.cpp:945-987 | the loop computes the fields of the row |
| `CsvRow.RowReadsBack` | ios/shared_cpp/common/arg.cpp:940-987 | every non-empty list of fields is read back, each field quoted with doubled quotes or, where possible, plain |
| `CsvRow.MissingQuote` | ios/shared_cpp/common/arg.cpp:945-987 | a last field whose closing quote is missing is read all the same |
| `CsvRow.TextBehindQuote` | ios/shared_cpp/common/arg.cpp:953-976 | what stands between a closing quote and the comma is part of the field |
| `CsvRow.RawIff` | ios/shared_cpp/common/arg.cpp:953-976 | a field may go without quotes exactly when it has no comma and does not start with a quote |
| `Base64.EncodeBytes` | ios/shared_cpp/common/base64.hpp:79-144 | the encoder computes the digits of the 24-bit groups, with padding |
| `Base64.EncodeQuantum` | ios/shared_cpp/common/base64.hpp:87-140 | one turn of the loop writes the quantum for one, two or three bytes |
| `Base64.DecodeBytes` | ios/shared_cpp/common/base64.hpp:199-244 | the decoder computes the specified bytes and whether it throws |
| `Base64.DecodeInPlace` | ios/shared_cpp/common/base64.hpp:294-313 | decoding in place gives the bytes, the length and the error of decoding out of place, and overwrites nothing behind the output |
| `Base64.RoundTrip` | ios/shared_cpp/common/base64.hpp:79-244 | decoding undoes encoding for both alphabets, with a given or detected alphabet, strict or loose |
| `Base64.EncodedSize` | ios/shared_cpp/common/base64.hpp:338-341 | the encoded length is `required_encode_size` |
| `Base64.AlphabetSpelled` | ios/shared_cpp/common/base64.hpp:84-86 | the digits are those of tables 1 and 2 of RFC 4648 |
| `Base64.EncodeConcat` | ios/shared_cpp/common/base64.hpp:79-144 | bytes in groups of three are encoded group by group |
| `Base64.StandardVectors` | ios/shared_cpp/common/base64.hpp:79-144 | three test vectors of section 10 of RFC 4648 |
| `Base64.DecodedSize` | ios/shared_cpp/common/base64.hpp:324-327 | the decoded length never exceeds `max_decode_size`, for any input |
| `Base64.MaxDecodeSizeIsTight` | ios/shared_cpp/common/base64.hpp:324-327 | the bound is the least multiple of three that is no less than three quarters of the size |
| `Base64.AcceptedIff` | ios/shared_cpp/common/base64.hpp:199-244 | with a given alphabet decoding succeeds exactly on characters of the alphabet followed by padding |
| `Base64.AutoIsEither` | ios/shared_cpp/common/base64.hpp:344-389 | detecting the alphabet accepts what one of the two accepts, with the same result, and never mixes them |

## Left out

- The KV-prefix-reuse planner of the top-level README.md: its source is not part of this model.
- The PEG engine, the regular expressions, the template runtime and the JSON library: parse nodes are inputs; what the JSON library says about an untyped argument value is part of its node; what it says about the content of a tool message is a parameter of `GemmaTurns`; `Json` has its own reader.
- Text that is not valid UTF-8, for which the JSON library's `dump` throws.
- Writing through `current_tool` after its pending call was discarded is undefined behaviour; `Mapper.Defined` excludes it. The theorems on tagged calls, JSON calls and well-formed runs show that it does not arise in them; `TaggedCalls.CallsOfRun`, `TaggedCalls.LatePushesNeverFire` and `Streaming.TextsOfMessage` hold of every run of the model and speak of the original where it is defined.
- `TaggedCalls.RunAgrees`: a container that is still partial is outside these runs (`Streaming` covers it): closing a call inside one does not balance its text.
- `TaggedCalls.CompleteCallReadsBack`: an untyped value that the JSON library parses as a non-string is taken to be a document for the reader of `Json` too, which accepts all of JSON and more scalars.
- The mapper `tag_based_peg_mapper`: lookups by tag.
- The mappers are constructed with an empty message.
- Fields of chat messages that the differ does not look at (role, content parts, tool name).
- JSON objects in `GemmaTurns` have the fields the conversion reads, with the types it expects; a `role` that is not a string makes the original throw.
- The line editor's special last character (`\`, `/`, `replace_last`), which concerns the end of input lines, the parsing of escape sequences into keys, and the Windows branches; glyph widths and `iswspace` are parameters, and terminal output is a column counter.
- A key of the Complete kind carries the first completion candidate, a valid encoding; what other bytes do to the line is in `LineEditor.Console.SetLineContents`.
- The per-model template handlers and marker heuristics: no law to prove.
- Option parsing other than `parse_csv_row`, downloads, symlinks, model loading, floating-point code, the Swift and Objective-C glue.
- `LineEditor.Console.InsertBeyond`: the redrawing after the insertion of an invalid value is not modelled; bytes, widths and the character cursor are.
- `Streaming.ContinuedParseExtends`: growth that rewrites a value, a value closed as a string or the name of an argument is excluded, because there extension fails; `StreamLimits.GrownValueExtendsIff`, `StreamLimits.GrownClosedValueExtendsIff` and `StreamLimits.GrownKeyExtendsIff` say exactly when.
- `StreamLimits.GrownValueExtendsIff`: a verdict of the JSON library that a text with a leading quote is JSON but no string, which no parser gives, is excluded; so it is in the statements on throwing and on closed values.
- `Escapes.StringProcessEscapes`: the buffer is an array with a returned length instead of a string that is resized.
- `GemmaMapper.ContinuedParseExtends`: that the trees of a growing output continue each other in the sense of `Continues` is a hypothesis, as the PEG engine is not modelled.
- `GemmaJson.ReadsBackIff`: scalars are the tokens the reader accepts as such; their numeric value is not interpreted.
