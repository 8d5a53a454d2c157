# Verified model of http-router

A Dafny model of the http-router library: the compiler that turns route masks into regular
expressions, the pipelined HTTP session, the query object with its percent codec, byte ranges
and the file body they select, the flattening of a router configuration, and the dispatch of a
request. `dafny verify dfyconfig.toml` checks the whole project.

## What is modelled

**Route masks.** `PathScanner` splits a mask into tokens, with the scanner's regular expression
as a deterministic hand scanner; `ScannerRegex` has that expression as a tree, and proves that the
hand scanner finds exactly its longest matches with their groups. `PathCompiler.Make` emits the
regular-expression text. `Regex` gives that text's syntax trees a declarative meaning over (string,
start, end) with anchors, lookahead and capture groups, after section 15.10 of ECMA-262, 3rd edition;
`RegexReader` reads text back into trees by the grammar of section 15.10.1. `RouteMeaning` tells what a
token list means without regular expressions, and proves that the compiled tree accepts exactly that
and leaves exactly the parameters' values in its groups. `RouteParams` binds groups to names and proves
that extraction inverts substitution; `RouteMask` joins the steps for whole masks.

**Session.** `HttpSession.Session` is the object with its completion handlers; what the network
holds for it (operations in flight) and the history of the run are ghost fields. Each handler is
one atomic step, because a connection has its own strand; `Step`, `Possible` and `After` describe
runs. The network's completions are arbitrary events, but for one rule: a write that is started after
the sending side has been shut down can only fail.

**Query.** `Percent` is the codec over octets (characters below 256), `Query.QueryObject` the
vector with its hash index, `QueryText` its parser and the laws that join the two.

**Ranges and bodies.** `Decimal` and `ByteRange` parse range headers in 64-bit arithmetic,
`FileBody` reads a stretch of a file through a 4096-byte buffer, `StaticFiles` ties range, announced
length and body together. How many bytes a read returns, and whether it fails, is a parameter.

**Router.** `Router.Cfg` is the configuration tree as objects that are emptied by flattening;
`Dispatch` runs filters and routes. What a filter decides and what the regular-expression engine
reports for a route are parameters: a filter sends one response exactly when it finishes. The answer
is characterised for every engine; for an engine that reports some match if there is one
(`RouteParams.EngineAnswers`), `Dispatch.AnswerHasMeaning` says it in terms of the masks. `Paths` holds
the string tests on resources.

## Where the code does something a reader would not expect

- A client that ends its stream is answered with a shutdown of the sending side, so of the responses
  it still waits for at most the one being written arrives. `HttpSession.EndOfStreamLoses` states exactly
  when nothing is lost, `HttpSession.HalfCloseWitness` is the smallest run that loses a response.
- Of nested mounts only the innermost mask is used: `surrender` passes the mask of the inner
  `append` and not the path composed so far. `Router.OnlyInnermostMasks` states exactly when the compiled
  routes and filters are the same either way: when no node that holds something is mounted below a
  non-empty path. `Router.NestedMountWitness` compiles `/a` over `/b` over `/c` to `/b/c`.
- `std::string{1, c}` is a list of two characters, so a parameter with a prefix is PARTIAL whenever
  anything follows it. `PathScanner.PartialAsIntended` states exactly when the flag is the intended one:
  when the parameter is not followed by its own prefix. So an optional parameter with a prefix can be left
  out together with it only at the end of the mask (`RouteMask.OptionalInMask`), and `/:a?/b` refuses `/b`
  (`RouteMask.PartialWitness`).
- `escape_group` puts a backslash even after a user's own one. `PathScanner.EscapeGroupIsFaithful` states
  exactly when all specials of a pattern stay escaped: when the mask escapes none of them itself.
  `RouteMask.ParenthesisWitness` is a pattern that gets a capture group of its own.
- `size - 1` wraps for an empty file, so `bytes=5-` is answered with a range from 5 to 2^64 - 1 and an
  announced length of 2^64 - 5. `ByteRange.ItemsLieInNonEmptyFiles` and `StaticFiles.GetFile` state exactly
  when ranges are honest, and `StaticFiles.Respond` exactly when the announced bytes are delivered. A suffix
  longer than the file is refused, where section 14.1.2 of RFC 9110 would select the whole file
  (`ByteRange.SuffixRule`).
- The query text cannot carry a last parameter with an empty name and no values;
  `QueryText.RoundTripExactly` states that this is the only loss.
- A query before a fragment keeps the `#` (`Percent.QueryKeepsHash`).
- Decoding the single character `%` looks at the two characters behind it, because the unsigned length
  minus two wraps around. `Percent.Decode` has these two characters as a parameter, and the round trips
  hold whatever they are. `Percent.DecodeIsLocal` states that no other text is decoded so, and
  `QueryText.ParsingIsLocal` which query texts are affected.
- An illegal path is answered, and `before_send` then tests it against the prefixes of the filters. For a
  filter at the empty prefix and a path that does not start with a slash the test takes the last character
  of an empty text (`Paths.PrefixTestIsDefined`, `Dispatch.BeforeSend`); no other call is undefined.
- `\$` is not an identity escape in the 3rd edition of ECMA-262, but it is in later editions and for
  std::regex; `RegexReader` reads it as an escaped dollar.

## Model

| member | source | states |
|---|---|---|
| RegexReader.ReadText | libs/http-router/src/path_compiler.cc:19-65 | every well-formed tree is exactly what its own emitted text denotes under the regular-expression grammar |
| RegexReader.ReadTextRe | libs/http-router/src/path_compiler.cc:278 | the same for text followed by anything that ends a group, so nested groups read back as nested |
| Regex.LocalRe | libs/http-router/src/path_compiler.cc:218 | a pattern without anchors matches a stretch of the path as it matches that stretch alone |
| PathCompiler.Escape | libs/http-router/src/path_compiler.cc:19-33 | the escaping loop equals the recursive escaping of every special character |
| PathCompiler.EscapedLiteralMeansItself | libs/http-router/src/path_compiler.cc:35-65 | an escaped literal reads back as exactly its characters and matches no other text |
| PathCompiler.DefaultPatternsArePlain | libs/http-router/src/path_compiler.cc:156-158 | both default patterns read as the intended trees, group-free and anchor-free, for every delimiter without a hyphen |
| PathCompiler.ParameterText | libs/http-router/src/path_compiler.cc:217-230 | the text of one parameter is the text of its intended tree, for every combination of flags |
| PathCompiler.TextSlashLast | libs/http-router/src/path_compiler.cc:246-249 | the escaped text of a literal ending in a slash ends with the two characters that are popped |
| PathCompiler.DropText | libs/http-router/src/path_compiler.cc:245-250 | popping two characters removes exactly the escaped final slash |
| PathCompiler.CompileTokens | libs/http-router/src/path_compiler.cc:210-234 | the loop over tokens emits the text of their tree, with one key per parameter in order |
| PathCompiler.CloseRoute | libs/http-router/src/path_compiler.cc:245-260 | what is appended for STRICT and END is the text of the tail's tree, which by TailMatches matches the end of the path or one slash |
| PathCompiler.TailTexts | libs/http-router/src/path_compiler.cc:245-260 | the appended text itself for every combination of STRICT and END |
| PathCompiler.RouteShape | libs/http-router/src/path_compiler.cc:183-265 | the intended tree is well formed and has one capture group per key |
| PathCompiler.Make | libs/http-router/src/path_compiler.cc:183-265 | the emitted text reads as the intended tree; keys are the parameters in order, as many as groups |
| RouteMeaning.DefaultPatternsMean | libs/http-router/src/path_compiler.cc:151-159 | the default patterns take a non-empty delimiter-free segment, or any text on one line |
| RouteMeaning.DigitsPatternMeans | libs/http-router/src/path_compiler.cc:98-101 | the pattern `\d+` takes exactly the non-empty runs of digits |
| RouteMeaning.BracketPatternMeans | libs/http-router/src/path_compiler.cc:151-159 | a custom pattern of repeated brackets, with ranges and classes, is covered and takes exactly the non-empty runs of their characters |
| RouteMeaning.ValueMatches | libs/http-router/src/path_compiler.cc:218-221 | a parameter's group matches one segment, or for REPEAT segments joined by the prefix |
| RouteMeaning.RepeatedSegments | libs/http-router/src/path_compiler.cc:218-221 | a repeated parameter with the default pattern takes exactly the texts whose pieces between its prefixes are all non-empty |
| RouteMeaning.ParameterMatches | libs/http-router/src/path_compiler.cc:217-230 | required, optional and partial parameters take exactly prefix and value, nothing, or the prefix alone |
| RouteMeaning.TokensMatch | libs/http-router/src/path_compiler.cc:210-234 | compiled tokens match exactly the concatenations of the tokens' meanings |
| RouteMeaning.FirstLeftOut | libs/http-router/src/path_compiler.cc:223-230 | which paths an optional parameter without a value leaves to the tokens after it |
| RouteMeaning.LeftOutExactly | libs/http-router/src/path_compiler.cc:223-230 | an optional parameter can be left out together with its prefix exactly if it is not partial or has no prefix |
| RouteMeaning.TailMatches | libs/http-router/src/path_compiler.cc:245-260 | after the tokens nothing may follow, or in non-strict mode one slash |
| RouteMeaning.CompilationPreservesMeaning | libs/http-router/src/path_compiler.cc:183-265 | for all tokens, flags and options a path is accepted with given group texts exactly when it means the tokens with these values |
| RouteMeaning.EndIsIrrelevant | libs/http-router/src/path_compiler.cc:253-260 | whole-string matching makes the answer independent of END |
| RouteMeaning.FinalSlashRule | libs/http-router/src/path_compiler.cc:240-260 | a mask with a final slash accepts what means it, and in non-strict mode what means it but for that slash |
| RouteMeaning.NoFinalSlashRule | libs/http-router/src/path_compiler.cc:240-260 | any other mask accepts what means it, and in non-strict mode the same with one more slash |
| RouteMeaning.RestRule | libs/http-router/src/path_compiler.cc:200-208 | with TAKE_REST a final parameter takes everything on one line after its prefix |
| RouteMeaning.LiteralRoute | libs/http-router/src/path_compiler.cc:240-260 | a mask without parameters accepts itself, and in non-strict mode with its final slash missing or one added |
| RouteParams.Matches | libs/http-router/src/path_compiler.cc:295-308 | true exactly if the engine reports a match, and for a sound engine exactly if there is one; on success only this match's parameters, on failure the old ones |
| RouteParams.OnlyBoundBinds | libs/http-router/src/path_compiler.cc:300-305 | the parameters are those that assigning group after group gives, so the last key of a name wins |
| RouteParams.DistinctNamesBind | libs/http-router/src/path_compiler.cc:302-305 | the n-th group belongs to the n-th key |
| RouteParams.UniqueValues | libs/http-router/src/path_compiler.cc:210-234 | the decomposition of a substituted path into values is unique |
| RouteParams.ExtractionInvertsSubstitution | libs/http-router/src/path_compiler.cc:210-307 | a path written by substituting segments is matched, and with no other values than these |
| PathScanner.SpellingRecoversMask | libs/http-router/src/path_compiler.cc:117-177 | what is found, and the characters between, spell the mask: every character is accounted for once |
| PathScanner.ParseMatcher | libs/http-router/src/path_compiler.cc:88-180 | the scanning loop yields the tokens of the mask's finds |
| PathScanner.TokenTellsFind | libs/http-router/src/path_compiler.cc:135-171 | nothing a find says is lost or mixed up in its token: prefix, name, pattern and modifier can be read back from it |
| PathScanner.UnescapeInvertsEscape | libs/http-router/src/path_compiler.cc:67-86 | the escaping of a custom pattern can be undone |
| PathScanner.EscapeGroupIsFaithful | libs/http-router/src/path_compiler.cc:67-86 | a custom pattern keeps its group specials escaped exactly if the mask escapes none of them |
| PathScanner.PartialWheneverFollowed | libs/http-router/src/path_compiler.cc:132-147 | a parameter is partial exactly if it has a prefix and the mask goes on |
| PathScanner.PartialAsIntended | libs/http-router/src/path_compiler.cc:132-147 | the partial flag is what the comparison is meant to give exactly if the parameter is not followed by its own prefix |
| PathScanner.ScanAccountsForMask | libs/http-router/src/path_compiler.cc:117-179 | the mask is the concatenation of one slice per token, the slices are the finds in order, and each token says what its slice spells, with the number of unnamed parameters before and the text after it |
| PathScanner.LiteralsAreMaximal | libs/http-router/src/path_compiler.cc:142-144 | string tokens are never empty and never adjacent |
| PathScanner.UnnamedAreNumbered | libs/http-router/src/path_compiler.cc:161-165 | unnamed parameters are numbered 0, 1, 2, ... from left to right |
| PathScanner.LexInvertsSpelling | libs/http-router/src/path_compiler.cc:90-105 | scanning a mask written from parts gives the parts back |
| ScannerRegex.ScannerTakes | libs/http-router/src/path_compiler.cc:90-105 | the scanner's expression matches a text with given groups exactly if a find with these groups spells it |
| ScannerRegex.HitIsLongestMatch | libs/http-router/src/path_compiler.cc:90-118 | at every position of a mask something is found exactly if the expression matches there, it is the longest match, and its groups are that match's |
| PathScanner.EscapedMaskIsLiteral | libs/http-router/src/path_compiler.cc:123-128 | a fully escaped mask is one literal with the original text, or nothing for the empty mask |
| RouteMask.Describe | libs/http-router/src/path_compiler.cc:267-269 | the text emitted for a mask denotes a tree that accepts exactly the paths, with exactly the values, that the mask means |
| RouteMask.MaskIsCovered | libs/http-router/src/path_compiler.cc:151-171 | masks whose own patterns are plain give tokens the compiler theorems cover |
| RouteMask.DefaultsArePlain | libs/http-router/src/path_compiler.cc:151-159 | masks without custom patterns are always covered |
| RouteMask.ParametersSay | libs/http-router/src/path_compiler.cc:132-171 | every parameter of a mask has the prefix, flags and name written there; without a pattern of its own an asterisk takes anything on one line, a parameter a non-empty text free of its prefix, or of `/` |
| RouteMask.ModifiersMean | libs/http-router/src/path_compiler.cc:146-171 | the paths that a mask of one named parameter accepts, with their values, for each of the four modifiers |
| RouteMask.AsteriskMeans | libs/http-router/src/path_compiler.cc:140-159 | a mask of one asterisk accepts its prefix and anything on one line |
| RouteMask.SpecialsMeanThemselves | libs/http-router/src/path_compiler.cc:67-86 | a custom pattern of ordinary characters and group specials accepts exactly itself |
| RouteMask.OptionalInMask | libs/http-router/src/path_compiler.cc:132-149 | an optional parameter of a mask can be left out together with its prefix exactly if it has none or nothing follows it |
| RouteMask.PartialWitness | libs/http-router/src/path_compiler.cc:132-147 | `/:a?/b` refuses the path `/b`, and would accept it with the flag clear |
| RouteMask.ParenthesisWitness | libs/http-router/src/path_compiler.cc:67-86 | the pattern of `/:a(x\(y\))` opens a capture group of its own |
| RouteMask.MaskMeans | libs/http-router/src/path_compiler.cc:267-293 | the acceptance theorem for every mask whose own patterns are plain |
| RouteMask.MatchSubstituted | libs/http-router/src/path_compiler.cc:295-308 | matching a substituted path binds every named parameter to its value, whatever match is reported |
| HttpSession.Session.constructor | libs/http-router/src/server/http_session.cc:72-80 | a session starts idle |
| HttpSession.Session.Run | libs/http-router/src/server/http_session.hh:60-60 | running starts the first read |
| HttpSession.Session.Send | libs/http-router/src/server/http_session.cc:24-46 | a response is queued, and written at once if it is alone |
| HttpSession.Session.QueueOnWrite | libs/http-router/src/server/http_session.cc:16-22 | the written response leaves the queue, the next is started, and the earlier fullness is reported |
| HttpSession.Session.OnRead | libs/http-router/src/server/http_session.cc:91-103 | the read handler is the step of its event and keeps the session consistent; the end of the stream shuts down sending |
| HttpSession.Session.OnWrite | libs/http-router/src/server/http_session.cc:105-123 | the write handler is the step of its event and keeps the session consistent |
| HttpSession.StepKeepsConsistent | libs/http-router/src/server/http_session.cc:16-123 | every step keeps the bound, the in-flight counts and the account of responses |
| HttpSession.PipeliningKeepsOrder | libs/http-router/src/server/http_session.cc:16-46 | over every run written responses are a prefix of the responses in request order and the rest is queued; at most 8 queued, one read, one write |
| HttpSession.NothingStalls | libs/http-router/src/server/http_session.cc:91-123 | in every reachable open state a read is in flight exactly while there is room, a write exactly while something is queued, and it can succeed until sending is shut down |
| HttpSession.EightAhead | libs/http-router/src/server/http_session.hh:18-29 | eight requests are read before any response is written, and then nothing but the write can go on |
| HttpSession.NeverNineAhead | libs/http-router/src/server/http_session.cc:91-123 | in every run at most eight more requests are read than responses written |
| HttpSession.QueuedResponseFinishes | libs/http-router/src/server/http_session.cc:105-123 | a queued response is written after as many completed writes as its place demands |
| HttpSession.WriteShutdownIsFinal | libs/http-router/src/server/http_session.cc:110-131 | after a failed or closing write no write is started and at most seven more requests are handled |
| HttpSession.ReadShutdownIsFinal | libs/http-router/src/server/http_session.cc:94-95 | after end of stream or a read error no read is started and no request handled |
| HttpSession.QueueDrains | libs/http-router/src/server/http_session.cc:105-123 | while the sending side is open the queued responses can all be written, up to one that ends the connection |
| HttpSession.DrainsExactly | libs/http-router/src/server/http_session.cc:91-131 | some run writes everything exactly if no response waits behind one that ends the connection nor, after the shutdown, behind the write in flight |
| HttpSession.EndOfStreamLoses | libs/http-router/src/server/http_session.cc:91-131 | when the client ends its stream nothing is lost exactly if at most one response is unwritten |
| HttpSession.ReadErrorLosesNothing | libs/http-router/src/server/http_session.cc:91-95 | after a read error everything can still be written that could be before |
| HttpSession.AtMostOneMore | libs/http-router/src/server/http_session.cc:105-131 | once the sending side is shut down at most the response in flight is written |
| HttpSession.HalfCloseWitness | libs/http-router/src/server/http_session.cc:91-131 | after two pipelined requests and the end of the stream the second response is never written |
| Percent.UrlEncode | libs/http-router/src/uri.cc:42-71 | the encoding loop, and the precomputed length is the length of its output |
| Percent.EncodeRule | libs/http-router/src/uri.cc:26-70 | which characters are written as they are, which as `+`, and which as `%` and two upper-case digits |
| Percent.EncodedIsInert | libs/http-router/src/uri.cc:26-37 | encoded text holds unreserved characters, `%` and `+` only, so none of `&`, `=`, `?`, `#` |
| Percent.UrlDecode | libs/http-router/src/uri.cc:109-128 | the decoding loop with its wrapping room check equals the recursive decoding |
| Percent.EscapeRule | libs/http-router/src/uri.cc:76-124 | `%` and two hexadecimal digits of either case are decoded as their value |
| Percent.PlainRule | libs/http-router/src/uri.cc:73-125 | everything else is decoded as itself, but for `+` in a query |
| Percent.DecodeInvertsEncode | libs/http-router/src/uri.cc:42-145 | decoding an encoded text gives it back, for all octets and both variants |
| Percent.DecodeIsLocal | libs/http-router/src/uri.cc:109-128 | decoding a text is independent of what follows it in memory exactly if the text is not a single `%` |
| Percent.LonePercentWitness | libs/http-router/src/uri.cc:118-118 | a single `%` before the digits 41 is decoded as `A` |
| Percent.Split | libs/http-router/src/uri.cc:148-160 | path and query of a target |
| Percent.SplitInvertsTarget | libs/http-router/src/uri.cc:148-160 | path and query come apart as they were put together |
| Percent.SplitWithoutQuery | libs/http-router/src/uri.cc:148-160 | a target without a query has an empty one, and its path ends at the fragment |
| Percent.QueryKeepsHash | libs/http-router/src/uri.cc:155-157 | the query is free of `#` exactly if the target is |
| Percent.QueryKeepsHashWitness | libs/http-router/src/uri.cc:155-157 | a target whose query keeps its `#` |
| Query.QueryObject.IndexIsSearch | libs/http-router/include/http-router/uri.hh:101-105 | the index agrees with linear search |
| Query.QueryObject.FindName | libs/http-router/include/http-router/uri.hh:101-105 | finding is linear search |
| Query.QueryObject.AddValue | libs/http-router/src/uri.cc:260-272 | adding acts on the plain list and keeps the index exact |
| Query.QueryObject.SetName | libs/http-router/src/uri.cc:274-286 | setting acts on the plain list and keeps the index exact |
| Query.QueryObject.RemoveName | libs/http-router/src/uri.cc:288-301 | removing acts on the plain list and keeps the index exact |
| Query.QueryObject.Reindex | libs/http-router/src/uri.cc:297-299 | the re-indexing loop moves exactly the later places |
| Query.ShiftedIndexes | libs/http-router/src/uri.cc:292-300 | with one entry erased and every later place one less, the index holds the place of every remaining name and nothing else |
| Query.ApplyKeepsDistinct | libs/http-router/src/uri.cc:260-301 | names stay distinct |
| Query.QueryObject.String | libs/http-router/src/uri.cc:166-190 | the text is the flat entries, encoded and joined by `&` |
| Query.QueryObject.FlatList | libs/http-router/src/uri.cc:192-211 | the flat entries, as many as precomputed |
| QueryText.Parse | libs/http-router/src/uri.cc:217-254 | the parsing loop applies the operations the text asks for |
| QueryText.TextParses | libs/http-router/src/uri.cc:217-244 | a query text, after at most one mark, asks for what its items between `&` ask for, each a name up to its first `=` and then a value |
| QueryText.ValueReachesOn | libs/http-router/src/uri.cc:229-235 | a value reaches to the next `&`, whatever else is in it |
| QueryText.ParsingIsLocal | libs/http-router/src/uri.cc:217-244 | what a query text asks for is independent of what follows it in memory exactly if its last name or value is not a single `%` |
| QueryText.PrintedParses | libs/http-router/src/uri.cc:166-244 | printed entries parse to the operations of the entries the text can carry |
| QueryText.FlatRebuilds | libs/http-router/src/uri.cc:192-286 | adding the flat entries one by one rebuilds the parameters |
| QueryText.ParseInvertsPrint | libs/http-router/src/uri.cc:166-258 | parsing the printed text gives back names, values and order |
| QueryText.RoundTripExactly | libs/http-router/src/uri.cc:166-258 | the round trip is the identity exactly if the last parameter is not an empty name without values |
| QueryText.PrintAndParse | libs/http-router/src/uri.cc:166-258 | the round trip for the objects themselves |
| QueryText.RunIsHistory | libs/http-router/src/uri.cc:260-301 | after any calls every name has the values its own calls gave it |
| QueryText.OrderIsBirth | libs/http-router/include/http-router/uri.hh:66-71 | the order of parameters is the order of the calls that introduced them |
| Decimal.ParseInvertsPrint | libs/http-router/src/range.cc:11-16 | a printed number is read back exactly when it fits in 64 bits |
| ByteRange.ParseByteRange | libs/http-router/src/range.cc:18-42 | 64-bit wrapping arithmetic gives the range of plain arithmetic, or refuses the item |
| ByteRange.ItemsLieInNonEmptyFiles | libs/http-router/src/range.cc:27-41 | every valid item lies within the file exactly if the file is not empty |
| ByteRange.EmptyFileHasRanges | libs/http-router/src/range.cc:31-33 | an empty file is given every open range, up to 2^64 - 1 |
| ByteRange.SuffixRule | libs/http-router/src/range.cc:27-30 | suffixes from 1 to the size select the last bytes, others are refused |
| ByteRange.OpenRule | libs/http-router/src/range.cc:31-40 | a range without an end goes to the end of the file, or is refused if it starts behind it |
| ByteRange.ClosedRule | libs/http-router/src/range.cc:34-40 | a range with both ends is cut off at the end of the file |
| ByteRange.GarbageIsInvalid | libs/http-router/src/range.cc:11-37 | an item without a dash, with something else than a 64-bit number beside it, or with nothing, is refused |
| ByteRange.Strip | libs/http-router/src/range.cc:44-52 | the stripping loops |
| ByteRange.StrippedIs | libs/http-router/src/range.cc:44-52 | the stripped text is the only part without whitespace at its ends |
| ByteRange.ItemsOfStripped | libs/http-router/src/range.cc:65-78 | repeated stripping of the remaining list does not change its items |
| ByteRange.ParseByteRanges | libs/http-router/src/range.cc:55-82 | the loop yields, in order, the ranges of the valid stripped items; present exactly if there are any |
| ByteRange.RangesLieInFile | libs/http-router/src/range.cc:55-82 | all of them lie within a file that is not empty |
| ByteRange.RangeRoundTrip | libs/http-router/src/range.cc:18-42 | a printed range within the file is read back |
| ByteRange.HugeNumbersAreInvalid | libs/http-router/src/range.cc:11-16 | a number of 2^64 or more makes its item invalid |
| ByteRange.HeaderRoundTrip | libs/http-router/src/range.cc:55-82 | a header written from ranges within the file gives exactly these |
| ByteRange.HeaderRules | libs/http-router/src/range.cc:18-82 | which ranges a header with an open, a suffix or a closed range gives |
| ByteRange.ItemsAreIndependent | libs/http-router/src/range.cc:65-81 | a header gives the ranges its items would give alone, in order, so an invalid item takes no other with it |
| ByteRange.SpacedItem | libs/http-router/src/range.cc:65-79 | whitespace around an item makes no difference |
| ByteRange.UnitRule | libs/http-router/src/range.cc:60-63 | no unit but `bytes` gives ranges, with or without whitespace around it |
| FileBody.Body.Open | libs/http-router/include/http-router/beast/patched/basic_file_body.hh:95-110 | an opened body is the whole file |
| FileBody.Body.Fragment | libs/http-router/include/http-router/beast/patched/basic_file_body.hh:113-117 | selecting a stretch |
| FileBody.Writer.constructor | libs/http-router/include/http-router/beast/patched/basic_file_body.hh:152-162 | for every stretch, also one that ends before it starts, position and remainder add up to its end in 64-bit arithmetic |
| FileBody.Writer.Get | libs/http-router/include/http-router/beast/patched/basic_file_body.hh:171-207 | one piece: the next bytes of the file, at most 4096, the remainder shrinks by as many, and "more" is right |
| FileBody.Serve | libs/http-router/include/http-router/beast/patched/basic_file_body.hh:171-207 | for any stretch and any sequence of partial reads the pieces are a beginning of the stretch, and all of it exactly when nothing more is announced; with a willing operating system exactly if the stretch is empty or lies in the file |
| StaticFiles.RequestRanges | libs/http-router/src/range.cc:83-89 | a request without the field has no ranges |
| StaticFiles.SelectRange | libs/static_files/src/static_files.cc:122-123 | the length of a range is that of the selected stretch, for every range |
| StaticFiles.GetFile | libs/static_files/src/static_files.cc:87-141 | the announced length is that of the body's stretch; status, Content-Range, Content-Length and body agree, exactly if the file is not empty when a range is given |
| StaticFiles.Respond | libs/static_files/src/static_files.cc:87-141 | the bytes delivered are the announced stretch, as many as announced exactly if the body is served to its end; which fails, reads granted, exactly for an empty file of which a range is announced |
| StaticFiles.RequestRules | libs/static_files/src/static_files.cc:110-126 | the bytes requested by an open, a suffix and a closed range |
| StaticFiles.EmptyFileWitness | libs/static_files/src/static_files.cc:110-126 | of an empty file `bytes=5-` is announced with 2^64 - 5 bytes and not served, `bytes=0-` with none |
| Paths.UpDirIsSegment | libs/http-router/src/router.cc:25-28 | the test finds exactly the `..` segments of a resource |
| Paths.PrefixTestIsDefined | libs/http-router/src/router.cc:11-23 | the prefix test is undefined exactly for an empty prefix and a resource that is not empty and does not start with a slash |
| Paths.PrefixIsSegmentPrefix | libs/http-router/src/router.cc:11-23 | a prefix without final slash covers exactly the resources whose segments begin with its own |
| Paths.SlashedPrefixIsProper | libs/http-router/src/router.cc:18-22 | one with a final slash covers exactly those that go on below it |
| Paths.PrefixesCover | libs/http-router/src/router.cc:11-23 | the prefix test of a resource with a leading slash is that of its segments |
| Router.Cfg.Add | libs/http-router/src/router.cc:132-138 | registering a handler |
| Router.Cfg.Getish | libs/http-router/include/http-router/router.hh:42-47 | registering for GET and HEAD, and for no other verb |
| Router.Cfg.Append | libs/http-router/src/router.cc:140-144 | mounting a router that shares no object |
| Router.Cfg.Use | libs/http-router/src/router.cc:146-153 | mounting a filter, without one final slash of its path |
| Router.Cfg.Surrender | libs/http-router/src/router.cc:155-177 | everything below a node is given away in preorder, each list behind its node's own mask, and all nodes end empty |
| Router.Cfg.SurrenderSubs | libs/http-router/src/router.cc:173-176 | the same for the mounted routers, one after the other |
| Router.Cfg.Compile | libs/http-router/src/router.cc:179-199 | each verb's routes, field by field, and the filters are those of all nodes in preorder, nothing prepended at the root; they call and use exactly what is registered, exactly the verbs with a registration somewhere get a list, and all nodes end empty |
| Router.FlatteningConserves | libs/http-router/src/router.cc:155-199 | flattening loses no registered handler and no filter, and adds none |
| Router.CompilingConserves | libs/http-router/src/router.cc:155-199 | compiling loses no callback with its options and no filter, and adds none |
| Router.LaterMountsComeLast | libs/http-router/src/router.cc:140-177 | a router mounted later adds its routes and filters, behind its mask, at the end |
| Router.LaterHandlersComeAfter | libs/http-router/src/router.cc:132-177 | a handler registered later comes after the node's own and before everything mounted |
| Router.SameRouterExactly | libs/http-router/src/router.cc:155-199 | nodes with other masks compile to the same routes and filters exactly if all nodes that hold something have the same masks |
| Router.OnlyInnermostMasks | libs/http-router/src/router.cc:173-175 | the compiled routes and filters have the composed paths of all mounts exactly if nothing that holds a handler or filter is mounted below a non-empty path |
| Router.NestedMountWitness | libs/http-router/src/router.cc:173-175 | `/c` mounted at `/b` mounted at `/a` is compiled to `/b/c` |
| Dispatch.HandleRequest | libs/http-router/src/router.cc:84-110 | every request is answered exactly once, by what the router owes it, whatever its routes' masks and whatever the engine reports |
| Dispatch.AnswerKinds | libs/http-router/src/router.cc:84-110 | which requests are refused, stopped by which filter, answered by which route or not found, in terms of path segments |
| Dispatch.TryFilters | libs/http-router/src/router.cc:89-94 | the first filter that stops the request answers it |
| Dispatch.TryRoutes | libs/http-router/src/router.cc:101-106 | the first route the engine matches answers, with parameters of that route only |
| Dispatch.AnswerHasMeaning | libs/http-router/src/router.cc:101-106 | with a sound engine that is the first route whose mask means the path, with values of that meaning, and none answers exactly if no mask means it |
| Dispatch.MatchRoute | libs/http-router/src/router.cc:103-104 | a route matches exactly if the engine says so, with a sound engine exactly if its mask means the path, and binds its values |
| Dispatch.BeforeSend | libs/http-router/src/router.cc:112-119 | the filters called before sending are those whose prefix covers the path, in order; undefined exactly for a path without a leading slash and a filter at the empty prefix |
| Dispatch.SendersCover | libs/http-router/src/router.cc:112-119 | they are the filters that take part in sending and cover the path's segments |

## Left out

- RouteMeaning.CompilationPreservesMeaning: does not cover custom patterns that contain groups, anchors, counted repetition, back references, or a hyphen as a character in brackets. Custom patterns that read as a group-free tree without anchors, in canonical text, are covered (`PathCompiler.PlainPattern`), with alternatives, repetition, classes and bracketed ranges.
- PathCompiler.DefaultPatternsArePlain: delimiters with a hyphen are excluded, because an unescaped hyphen makes a range inside brackets; the scanner only produces the delimiters `/` and `.`.
- Regex.MatchRe: which of several matches the engine reports first, the `icase` and `optimize` flags; a group that took no part is given the empty text, as its `str()` is.
- PathScanner.Search: which of the matches at a position an engine reports is not derived from backtracking order; `ScannerRegex.HitIsLongestMatch` shows that the one found is the longest.
- Sockets, parsers, serializers, timers and the body limit of the session: their completions are arbitrary events.
- The flag `needEof` of a response: where it comes from (`keep_alive`, HTTP version) is not modelled.
- What a filter does to a response before it is sent (`sending`), and `after_send`, which nothing calls.
- A filter that changes response headers before carrying on: a filter is modelled by its decision alone.
- FileBody.Body.Open: file system errors when opening, and files that change while they are served.
- `get_file` up to line 86 (directories, other methods), dates, MIME types and the headers that do not depend on the range; whether the file is modified since a date is a parameter.
- Several ranges in one response: the code answers only the first range.
- Octets beyond the "C" locale in `isalnum`, `isspace` and `isxdigit`.
- QueryText.Parse: a query text is a sequence of octets; the character set of the decoded text is not modelled.
- Router.Cfg.Append: a subtree shared by two mounts cannot be built, because each node owns its mounts.
- `delegate`, `router::print`, the MIME table, the other filters, the Windows file body, version and build files: presentation, type erasure, easy lookups, or a repetition of the portable writer.
