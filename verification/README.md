# vscode-kantan GDB/MI engine in Dafny

This project models the protocol engine of the kantan debug adapter for
VS Code. The adapter drives `lldb-mi` over the GDB/MI text protocol. The
model covers these parts:

- **The MI output parser** (`src/mi/output.ts`). This is the lexer, the
  recursive-descent parser for values, results and records, and the fold
  that groups records into `Output` units.
- **The mapping layer** (`src/mi/mapping.ts`). `checkResult`, `fromValue`
  and `fromStr`, and the five decoders for breakpoints, stacks, function
  arguments, locals and children.
- **The connection** (`src/mi/connection.ts`). Line framing on the
  `(gdb)` prompt, and the exact text written for each command.
- **The pure parts of the session** (`src/lldb.ts`). These are:
  - the target-stream and stop-event handlers;
  - `parseMiStringLiteral`;
  - the breakpoint table kept by `setBreakPointsRequest` and
    `clearBreakpoints`;
  - `variablesRequest`, both its classification of locals and children
    and its merge of locals and arguments by name.

Modules, one per file:

| module | file | models |
|---|---|---|
| `Base` | base.dfy | `Option`, and `Outcome`, which is a return or a JavaScript `TypeError` |
| `Text` | text.dfy | `fromStr`, `endsWith`, `String.replace` with a string pattern, unary `+` |
| `Syntax` | syntax.dfy | the value tree and record types of output.ts; tuple field lookup |
| `Lexer` | lexer.dfy | the lexer of `fromOutput` |
| `Parser` | parser.dfy | `parseValue`, `parseResults`, `parseOutput`, `consume`, the `fromOutput` fold |
| `Printer` | printer.dfy | the token form the debugger writes, and the parser reading it back |
| `Mapping` | mapping.dfy | mapping.ts |
| `Connection` | connection.dfy | connection.ts |
| `Session` | session.dfy | `fromStr` on a field's content, the variable handle table, `isDone` |
| `Literal` | literal.dfy | `parseMiStringLiteral` and its regular expression |
| `Events` | events.dfy | `handleStreamRecord`, `handleAsyncOutput` |
| `Breakpoints` | breakpoints.dfy | `setBreakPointsRequest`, `clearBreakpoints` |
| `Merge` | merge.dfy | the `localsByName` map of `variablesRequest` |
| `Locals` | locals.dfy | the top-level branch of `variablesRequest` |
| `Children` | children.dfy | the child branch of `variablesRequest` |
| `Variables` | variables.dfy | `variablesRequest` as a whole |

Modelling choices:

- **TypeErrors.** A JavaScript `TypeError` is an explicit outcome: `Throws`
  in `Outcome`, and `TypeError` in `Mapping.Mapped`. Examples are reading
  `.content` of a missing field, or calling `substr` on a tuple. No
  operation has a precondition for it.
- **Tuples.** A tuple keeps its results in order. `Syntax.Field` looks a
  name up the way the object built by `reduce` does: the last result of
  that name wins.
- **Parser state.** The parser works on the token sequence with an index
  instead of a mutable lexer with one token of lookahead. A one-token peek
  is `PeekIs(ts, i, kind)`.
- **Calls with replies.** The replies to `setBreakpoint`, `evaluate`,
  `listChildren` and `listLocals` are parameters, and so are the argument
  entries `getFuncArgs` returns. The replies to `listArgs`, `varCreate` and
  `varDelete` are not modelled. Some of the
  commands the session issues come back as a trace: the insertions and
  removals of breakpoints, the evaluations of children, and the
  `varDelete` and `varCreate` of each shown local or argument.

Behaviour worth noting, as the code has it:

- **Tokens.** The connection writes no token in front of a command, keeps
  no table of pending commands, and hands every unit to one handler.
- **`run`.** It writes the MI command `-exec-run`.
- **Quoted strings.** A quoted string ends at the first `"` after the
  opening one, escaped or not.
- **`parseMiStringLiteral`.** It returns the captured text in quotes as
  it is, without decoding `\n` or `\r`.
- **Aggregates.** An aggregate local is shown with an empty value.

## Model

| member | source | states |
|---|---|---|
| Text.FromStr | src/mi/mapping.ts:34-36 | the text with its first and last character removed, and "" for a text shorter than two |
| Text.FromStrQuote | src/mi/mapping.ts:25-36 | unquoting undoes quoting for every text |
| Text.QuoteFromStr | src/mi/mapping.ts:34-36 | a text fenced by double quotes is its unquoted content requoted |
| Text.IndexOf | src/lldb.ts:63-64 | the first occurrence at or after a position, or none when no occurrence exists |
| Text.ReplaceFirst | src/lldb.ts:63-64 | `replace` with a string pattern changes the first occurrence only, and nothing when there is none |
| Text.PositionalZero | src/lldb.ts:329 | a digit string is zero exactly when all its digits are `0` |
| Text.ZeroPointers | src/lldb.ts:376 | `0x000` and `000` are null for `+p === 0` |
| Text.NonZeroPointer | src/lldb.ts:376 | a hexadecimal pointer with a non-zero digit is not null |
| Text.PositionalDecimal | src/mi/mapping.ts:65-66 | the decimal digits of a number read back as that number |
| Text.ToNumberString | src/mi/mapping.ts:65-66 | unary `+` reads every number (or NaN) back from its written form (exact over unbounded integers; see Left out for the 2^53 limit) |
| Syntax.Field | src/mi/output.ts:91-100 | the field of a tuple is the value of the last result of that name, none when no result has it |
| Syntax.FieldMapAgrees | src/mi/output.ts:94-99 | the left fold into a map and the last-wins lookup agree on every name |
| Syntax.FieldLastWins | src/mi/output.ts:95-98 | a later result overrides an earlier one of its name and leaves other names alone |
| Syntax.FieldOfDistinct | src/mi/output.ts:94-99 | with distinct names every result is its field |
| Lexer.SkipWhitespace | src/mi/output.ts:151-155 | stops at the first character that is not space, tab, LF or CR, having skipped only those |
| Lexer.ScanTo | src/mi/output.ts:162-168 | stops at the first occurrence of the closing character or at the end |
| Lexer.ScanIdent | src/mi/output.ts:170-175 | the maximal run of letters, digits and `-` |
| Lexer.LexToken | src/mi/output.ts:185-227 | the token at a non-blank position: `(..)` prompt, string up to its closing quote, one-character punctuation, or a maximal identifier; its lexeme is the text it spans (over Unicode scalars; see Left out) |
| Lexer.Tokenize | src/mi/output.ts:177-227 | every token is the one lexed at its start, the tokens are laid out in order from the start |
| Lexer.LayoutOrdered | src/mi/output.ts:185-227 | tokens do not overlap and follow input order |
| Lexer.LayoutCovers | src/mi/output.ts:192-196 | every character no token covers is whitespace |
| Parser.Consume | src/mi/output.ts:385-391 | takes one token, and yields it exactly when it has the wanted kind |
| Parser.ParseValue | src/mi/output.ts:338-383 | never moves backwards, and moves forward whenever it yields a value |
| Parser.ParseValueCases | src/mi/output.ts:338-383 | a string token is a string value; `[]` is an empty value list; `[` then an identifier is a named list; `{` is a tuple; any other token fails |
| Parser.ParseValues | src/mi/output.ts:355-366 | a value list that succeeds has consumed its closing `]` |
| Parser.ParseResults | src/mi/output.ts:310-336 | succeeds only where the next token neither is an identifier nor a comma, and yields an empty list at once when the first does not |
| Parser.ParseTail | src/mi/output.ts:265-271 | the results after a record's class never fail, and are empty unless a comma follows |
| Parser.ScanRecord | src/mi/output.ts:251-308 | the scan moves forward while tokens remain |
| Parser.ScanRecordShape | src/mi/output.ts:251-308 | a target stream record is `@` and a string; a result record starts at a `^` and an identifier, with the token before it; an async record starts at `*stopped` |
| Parser.ParseOutputShape | src/mi/output.ts:251-308 | the same at the top, and `token^class` always gives a result record with that class and token |
| Parser.LoneTokenYieldsNothing | src/mi/output.ts:398-399 | a single remaining token never completes a record, so the lexer's end test and the token count agree |
| Parser.Absorb | src/mi/output.ts:401-411 | every closed unit holds a result record |
| Parser.AbsorbKeeps | src/mi/output.ts:401-411 | absorbing a record appends it to the records of its kind and loses none |
| Parser.AbsorbCounts | src/mi/output.ts:405-410 | a second result record closes the unit in progress, one unit per result record |
| Parser.FoldUnitsIsFoldRecs | src/mi/output.ts:398-412 | the fold over tokens is the fold over the records the scan finds |
| Parser.FoldRecsKeepsResults | src/mi/output.ts:398-421 | the units hold every result record in input order |
| Parser.FoldRecsKeepsStreams | src/mi/output.ts:398-421 | the units hold every stream record in input order |
| Parser.FoldRecsKeepsAsyncs | src/mi/output.ts:398-421 | the units hold every async record in input order |
| Parser.FoldRecsCounts | src/mi/output.ts:398-421 | the number of units is one per result record, or one when there are records but no result |
| Parser.FromOutput | src/mi/output.ts:394-424 | every unit is non-empty, and every unit but the last holds a result record |
| Parser.FromOutputKeepsRecords | src/mi/output.ts:394-424 | the units of a chunk hold exactly the records of the chunk, by kind and in order, and their number is fixed by the result records |
| Printer.LagClosers | src/mi/output.ts:346-353 | the tokens a written value leaves unread are all closing brackets, fewer than its tokens |
| Printer.ResultsClosers | src/mi/output.ts:310-336 | a written result list ends with the closers its last value leaves |
| Printer.ParseValuePrinted | src/mi/output.ts:338-383 | a written value reads back as itself, stopping short only by the closers a named list leaves |
| Printer.TuplePrinted | src/mi/output.ts:370-380 | a written tuple reads back as itself |
| Printer.ValueListPrinted | src/mi/output.ts:355-368 | a written value list reads back as itself with its `]` |
| Printer.NamedListPrinted | src/mi/output.ts:346-353 | a written named list reads back as itself and leaves its `]` unread |
| Printer.ParseValuesPrinted | src/mi/output.ts:355-366 | the written elements of a value list read back, up to and with the `]` |
| Printer.ParseResultsPrinted | src/mi/output.ts:310-336 | a written result list reads back as itself when what follows cannot continue it |
| Printer.TailPrinted | src/mi/output.ts:265-271 | a record's results, written after a comma, read back as its results |
| Printer.RecordPrinted | src/mi/output.ts:251-274 | a written `token^class,results` record reads back as that record |
| Printer.SiblingAfterNamedList | src/mi/output.ts:346-380 | in `{a=[b="1"],c="2"}` the tuple ends at the named list's `]` and `c` is lost |
| Mapping.FromValueQuote | src/mi/mapping.ts:25-32 | a quoted string value gives its text; a missing or non-string value gives "" |
| Mapping.CheckResult | src/mi/mapping.ts:12-23 | an error reply gives its first value as message (a TypeError when it has none); a reply with no results gives "Empty result"; otherwise the results |
| Mapping.ResultTuples | src/mi/mapping.ts:96-107 | reading each element as a result holding a tuple throws unless every element is one |
| Mapping.ValueTuples | src/mi/mapping.ts:210-212 | reading each element as a value holding a tuple throws unless every element is one |
| Mapping.DecodeBreakpoint | src/mi/mapping.ts:48-68 | failures pass through; only a `bkpt` tuple decodes; `enabled` is `y`; id and line are `+` of their fields |
| Mapping.DecodeStack | src/mi/mapping.ts:85-110 | failures pass through; only a `stack` list decodes; one frame per element, read from its tuple |
| Mapping.DecodeFuncArgs | src/mi/mapping.ts:143-169 | failures pass through; "Wrong answer" exactly when the first result is not a non-empty `stack-args` list of results; one name per argument |
| Mapping.DecodeLocals | src/mi/mapping.ts:198-226 | failures pass through; only a `locals` list decodes; one local per element, with no value when its value is "" |
| Mapping.DecodeChildren | src/mi/mapping.ts:257-282 | failures pass through; the second result must be a `children` list; one child per element |
| Mapping.BreakpointRoundTrip | src/mi/mapping.ts:60-67 | every breakpoint is read back from its `bkpt` fields |
| Mapping.DecodeBreakpointReply | src/mi/mapping.ts:48-68 | every breakpoint survives the trip through its `-break-insert` reply |
| Mapping.FrameRoundTrip | src/mi/mapping.ts:99-105 | every frame is read back from its fields |
| Mapping.DecodeStackReply | src/mi/mapping.ts:85-110 | every list of frames survives the trip through its reply |
| Mapping.LocalRoundTrip | src/mi/mapping.ts:212-222 | every local whose value is not "" is read back from its fields |
| Mapping.DecodeLocalsReply | src/mi/mapping.ts:198-226 | every list of such locals survives the trip through its reply |
| Mapping.DecodeArgsReply | src/mi/mapping.ts:143-169 | every list of argument names survives the trip through its reply |
| Mapping.ChildRoundTrip | src/mi/mapping.ts:271-278 | every child is read back from its fields |
| Mapping.DecodeChildrenReply | src/mi/mapping.ts:257-282 | every list of children survives the trip through its reply |
| Mapping.DecodeErrorReply | src/mi/mapping.ts:12-15 | every decoder turns `^error,msg="m"` into the error `m` |
| Connection.OnLine | src/mi/connection.ts:16-28 | the line is appended; a buffer ending in `(gdb)` is handed over whole and emptied; the kept buffer never ends in the prompt |
| Connection.Dispatch | src/mi/connection.ts:20-25 | nothing is handled without a chunk, and every unit handled is non-empty |
| Connection.Feed | src/mi/connection.ts:16-28 | after any line the kept buffer does not end with the prompt |
| Connection.FeedKeepsText | src/mi/connection.ts:16-28 | the chunks handed over, followed by the buffer, are the old buffer followed by every line, in order |
| Connection.FeedChunksEnd | src/mi/connection.ts:19-20 | every chunk handed to the parser ends with the prompt |
| Connection.PartialLine | src/mi/connection.ts:16-19 | a line that does not complete the prompt only grows the buffer |
| Connection.PromptAcrossLines | src/mi/connection.ts:16-19 | a prompt split over two lines still completes a chunk, since lines are joined without a separator |
| Connection.SendRaw | src/mi/connection.ts:33-35 | the data followed by CR LF, from which the data reads back |
| Connection.Execute | src/mi/connection.ts:37-39 | the command is written as it is, with no token |
| Connection.FetchFeatures | src/mi/connection.ts:41-43 | writes `-list-features` |
| Connection.LoadExecutable | src/mi/connection.ts:45-47 | writes `-file-exec-and-symbols` and the path |
| Connection.Run | src/mi/connection.ts:49-51 | writes `-exec-run` |
| Connection.ExecuteRecovers | src/mi/connection.ts:33-39 | distinct commands are written differently, and each reads back from its write |
| Connection.LoadExecutableRecovers | src/mi/connection.ts:45-47 | the path is written verbatim between the command name and the line end |
| Session.FromContent | src/lldb.ts:75 | throws unless the field is present and a string; otherwise strips the quotes |
| Session.FromContentQuote | src/lldb.ts:75 | a quoted field reads back as its text |
| Session.Get | src/lldb.ts:293 | a handle resolves exactly when it was handed out |
| Session.Create | src/lldb.ts:384 | a fresh handle from 1024 up, naming the variable, keeping every earlier handle |
| Session.ExtendsKeeps | src/lldb.ts:37 | a handle keeps its name in every later table |
| Literal.HexEnd | src/lldb.ts:259 | the maximal run of hexadecimal digits |
| Literal.LineEnd | src/lldb.ts:259 | how far `.` can reach: up to the first line terminator |
| Literal.LastClose | src/lldb.ts:259 | the last closing `\"` in a range, none when there is none |
| Literal.CloseFrom | src/lldb.ts:259 | the greedy capture's closing `\"`: the last one `.*` can reach |
| Literal.MatchAt | src/lldb.ts:259 | the match at a position with the longest capture, none when the pattern does not match there |
| Literal.FindFrom | src/lldb.ts:259 | the leftmost match, none when there is none |
| Literal.ParseMiStringLiteral | src/lldb.ts:258-264 | "" exactly when the pattern does not match, otherwise the leftmost-greedy capture in quotes |
| Literal.LiteralRoundTrip | src/lldb.ts:258-264 | `0x<hex> \"text\"` gives the text in quotes for every one-line text |
| Literal.BarePointer | src/lldb.ts:259-262 | a pointer with no string after it gives "" |
| Events.HandleStreamRecord | src/lldb.ts:60-71 | writes only for target records, and writes an escape-free record's content unchanged |
| Events.StreamFirstEscapeOnly | src/lldb.ts:62-64 | a target record of `a\nb\nc`, escaped, is written with its second `\n` still escaped |
| Events.ReplaceFirstIsAll | src/lldb.ts:63-64 | where the pattern occurs at most once, `replace` with a string pattern gives what replacing every occurrence gives |
| Events.StreamOneBreakEach | src/lldb.ts:60-71 | as written, the handler writes program output back exactly for every text with at most one line feed and at most one carriage return |
| Events.StreamTwoBreaksKept | src/lldb.ts:60-71 | as written, output with two or more line feeds, or two or more carriage returns, is never written back as it was; with StreamOneBreakEach this is an if-and-only-if for backslash-free text |
| Events.HandleStreamRecordAll | src/lldb.ts:60-71 | the handler decoding every escape writes for target records only |
| Events.DecodeLineFeeds | src/lldb.ts:63 | decoding every `\n` of an escaped text leaves just the `\r` escapes |
| Events.DecodeReturns | src/lldb.ts:64 | decoding every `\r` gives the text back |
| Events.StreamRecordDecodesAll | src/lldb.ts:60-71 | with every escape decoded, every escaped text is written back exactly |
| Events.HandleAsyncOutput | src/lldb.ts:77-89 | throws without a reason; no event for another reason; for `breakpoint-hit` the thread id is `+` of its field and it throws without one |
| Events.StopAtBreakpoint | src/lldb.ts:77-89 | a `breakpoint-hit` stop reports its thread, whatever results precede it |
| Events.OtherStop | src/lldb.ts:83-85 | any other reason sends no event |
| Breakpoints.Removals | src/lldb.ts:159-165 | one removal command then one `removed` event per tracked breakpoint, in order |
| Breakpoints.ClearBreakpoints | src/lldb.ts:159-168 | the path's list becomes empty, other paths are untouched, its old breakpoints are removed |
| Breakpoints.ReplyId | src/lldb.ts:142-148 | an id exactly when the first result is a tuple with a string `number`; no reply record means no id; a non-empty string throws |
| Breakpoints.Push | src/lldb.ts:147 | appends to the path's list only when the path is tracked, touching no other path |
| Breakpoints.Points | src/lldb.ts:137-155 | the response holds one verified breakpoint per requested line, in order |
| Breakpoints.Insertions | src/lldb.ts:137-151 | one insertion and one `new` event per line, in order |
| Breakpoints.InsertOthers | src/lldb.ts:137-151 | inserting touches no other path |
| Breakpoints.InsertPath | src/lldb.ts:137-151 | inserting only appends, and only breakpoints of requested lines of that path |
| Breakpoints.InsertTrace | src/lldb.ts:137-151 | a completed request answers with the points and issues the insertions |
| Breakpoints.SetBreakpoints | src/lldb.ts:123-157 | the path's breakpoints are all from this request; other paths kept; the old ones are removed first; a completed request answers one point per line |
| Breakpoints.InsertKept | src/lldb.ts:137-151 | for any replies, a completed run of insertions appends to the path exactly the breakpoints of the lines whose reply yields an id, in order, each under that id |
| Breakpoints.SetKept | src/lldb.ts:123-157 | for any replies, a completed request leaves the path tracking exactly one breakpoint per line whose reply yields an id, in order, under that id |
| Breakpoints.BkptReplyId | src/lldb.ts:142-146 | an accepted insertion is tracked under the id the debugger gave |
| Breakpoints.InsertAccepted | src/lldb.ts:137-151 | when every insertion is accepted, one tracked breakpoint per line with its id |
| Breakpoints.SetAccepted | src/lldb.ts:123-157 | the same for the whole request, which then answers one point per line |
| Breakpoints.SecondRequestReplaces | src/lldb.ts:135 | a second request for a path removes the first request's breakpoints, keeps only its own lines and leaves other paths alone |
| Breakpoints.RefusedStops | src/lldb.ts:142-148 | as written, a refused insertion throws and the request gets no response |
| Breakpoints.InsertRefused | src/lldb.ts:142-148 | reading an id only from a tuple, refused insertions leave the path's list as it was |
| Breakpoints.SetRefused | src/lldb.ts:123-157 | reading an id only from a tuple, a request whose insertions are all refused answers every line and tracks nothing |
| Merge.Put | src/lldb.ts:400 | `set` replaces a known name in place and appends a new one at the end |
| Merge.PutAt | src/lldb.ts:400 | setting a known name replaces exactly its entry |
| Merge.Merged | src/lldb.ts:404-406 | the names of the map are the names of the variables, each once, in order of first appearance |
| Merge.MergedSnocSeen | src/lldb.ts:400 | a name seen before replaces its entry |
| Merge.MergedSnocNew | src/lldb.ts:400 | a new name is appended |
| Merge.MergeAllIsMerged | src/lldb.ts:363-401 | the loop of `set` calls builds the map that `Merged` describes |
| Merge.MergedHolds | src/lldb.ts:393-406 | the map has distinct names, exactly the names set, each with its last value |
| Merge.Calls | src/lldb.ts:393-397 | at least one command per variable |
| Merge.CallsOnce | src/lldb.ts:393-397 | with distinct names nothing is deleted and each variable is created once |
| Locals.ShowLocal | src/lldb.ts:364-391 | throws without a string name; a handle is created exactly when a reference is given, and it names the variable |
| Locals.ShowAll | src/lldb.ts:363-401 | handles only grow, and every variable shown resolves to its name |
| Locals.ShowAllIsMerge | src/lldb.ts:363-401 | the loop shows each entry, then merges by name and issues a delete for each repeated name and a create for each entry |
| Locals.ShowLocals | src/lldb.ts:354-407 | a reply that is not done shows nothing; handles only grow; every variable resolves |
| Locals.ShowLocalsMerged | src/lldb.ts:358-405 | locals then arguments are shown, merged by name, with their commands |
| Locals.ShowScalar | src/lldb.ts:386-388 | a non-pointer with a value other than `{...}` shows that value and no handle |
| Locals.ShowAggregate | src/lldb.ts:389-391 | a non-pointer without a value, or with `{...}`, gets a handle and an empty value |
| Locals.ShowNullPointer | src/lldb.ts:374-379 | a null pointer shows `null` and no handle |
| Locals.ShowPointer | src/lldb.ts:382-385 | any other non-string pointer shows its address and gets a handle |
| Locals.LiteralNotZero | src/lldb.ts:376 | a `char *` value with its text is never null |
| Locals.ShowStringLocal | src/lldb.ts:380-381 | a `char *` shows its text in quotes and no handle |
| Children.ReadChild | src/lldb.ts:304-312 | throws unless the child is a tuple with string `exp`, `numchild`, `type` and `name` |
| Children.ShowEvaluated | src/lldb.ts:313-343 | a reply that is not done skips the child; a shown child carries its `exp`; a handle is created for its `name` exactly when one is given, and a child with a handle has an empty value |
| Children.ShowChild | src/lldb.ts:302-344 | one `evaluate` of the child's name; handles only grow; a handle resolves to that name |
| Children.ShowListExpands | src/lldb.ts:303-344 | over a list, handles grow, commands only append, and every handle given resolves to an evaluated name |
| Children.ShowGroupsExpands | src/lldb.ts:297-345 | the same over every `children` group of the reply |
| Children.ShowChildren | src/lldb.ts:291-351 | no reply record throws; handles only grow; every handle given resolves to an evaluated name |
| Children.ShowListedChild | src/lldb.ts:302-344 | a child the debugger answers is read and evaluated under its name |
| Children.ShowListOfChildren | src/lldb.ts:303-344 | a list of answered children is shown in order with one evaluation each |
| Children.GroupsOfList | src/lldb.ts:297-300 | a result not called `children` is skipped |
| Children.ShowChildrenList | src/lldb.ts:297-303 | a children reply shows its one `children` list |
| Children.ShowChildrenReply | src/lldb.ts:291-351 | every child of a reply is evaluated once, in order, and the answered ones are shown under their expressions |
| Children.ShowLeafChild | src/lldb.ts:329-338 | a child without children that is neither a `char *` nor a null pointer, pointers included, shows its evaluated value and no handle |
| Children.ShowParentChild | src/lldb.ts:339-341 | a child with children, not a string and not null, gets a handle for its name and an empty value |
| Children.ShowNullChild | src/lldb.ts:329-332 | a pointer child whose value reads as zero shows `null` and gets no handle, whatever its number of children |
| Children.ShowStringChild | src/lldb.ts:333-336 | a `char *` child shows its quoted text, as `parseMiStringLiteral` gives it, and gets no handle, whatever its number of children |
| Children.EvaluatedThenThrows | src/lldb.ts:312-323 | a child whose evaluation is `^done` with no result stops the request, and the evaluation was still sent |
| Variables.VariablesRequest | src/lldb.ts:288-408 | handles only grow; every handle shown resolves; locals not done show nothing; a children reply without a record throws |
| Variables.ExpandLocal | src/lldb.ts:289-294 | the handle of a shown local leads to listing that local's children |
| Variables.ExpandChild | src/lldb.ts:289-294 | the handle of a shown child leads to listing the children of the expression evaluated for it |
| Variables.UnknownHandle | src/lldb.ts:293-294 | a handle never given lists the children of `undefined` |

## Left out

- The other request handlers of lldb.ts (`initializeRequest`, `launchRequest`, `configurationDoneRequest`, `breakpointLocationsRequest`, `stackTraceRequest`, the stepping handlers, `threadsRequest`, `scopesRequest`, `continueRequest`, `handleRaw`) are not part of this model; they only forward to the connection or fill a response.
- src/extension.ts and the `MiFeature` table are not part of this model.
- Process spawning, the readline stream, stdin writes, event sending and the terminal writer are I/O; a line arrives as a parameter and a write or an event is returned as a value.
- The connection methods the session calls (`setBreakpoint`, `removeBreakpoint`, `evaluate`, `listChildren`, `listLocals`, `listArgs`, `varCreate`, `varDelete`) are not in connection.ts; the replies to `setBreakpoint`, `evaluate`, `listChildren` and `listLocals` are parameters, and the replies to `removeBreakpoint`, `listArgs`, `varCreate` and `varDelete` are not modelled. The calls of `setBreakpoint`, `removeBreakpoint`, `evaluate`, and the `varDelete` and `varCreate` of lldb.ts:393-397, are entries of a trace; the others are not traced.
- `getFuncArgs` (lldb.ts:266-285) is taken as its result: the argument entries arrive as a parameter. Its promises and their ordering are left out, and so is its own logic. That logic returns no arguments when the `listArgs` reply is not done (lldb.ts:268-270). It also throws a TypeError when the reply has no results, when the frame list is empty or not a list, or when the first frame has no `args` field (lldb.ts:271-272), when an argument is not a result with string content (lldb.ts:275), or when a `varCreate` reply has no result record (lldb.ts:281). Any of these throws, once the locals are done, ends `variablesRequest` at lldb.ts:360 with no response; the model cannot produce that outcome.
- The `Handles` class of the debug-adapter library is not part of this model; it is modelled as a table handing out consecutive numbers from 1024.
- Session.IsDone: output.ts defines no `isDone`; the model reads it as the reply's result class being `done`.
- Text.ToNumber: models unary `+` on the texts the debugger sends (empty, signed decimal, `0x` hexadecimal); it does not trim whitespace and reads fractions, exponents, `Infinity`, `0b` and `0o` as NaN. Its result is an unbounded integer, while JavaScript's `+` gives a double: above 2^53 in magnitude the source rounds (`+"9007199254740993"` is 9007199254740992), so Text.ToNumberString and the id, line, `numchild` and `thread-id` round trips built on it hold in JavaScript only for numbers of magnitude at most 2^53.
- Lexer.LexToken: a Dafny `string` is a sequence of Unicode scalar values, while a JavaScript string is a sequence of UTF-16 code units. A character outside the Basic Multilingual Plane that appears outside a quoted string is lexed by output.ts:170-175 and 225 as two identifier tokens, one per surrogate, because the identifier pattern matches neither half; the model lexes it as one identifier token. Inside a quoted string, and for every character of the Basic Multilingual Plane, the two agree.
- Parser.ParseValue: its own contract only states progress; what each token yields is stated by Parser.ParseValueCases, and the exact values by the Printer lemmas.
- Printer.ParseValuePrinted: the round trip is stated over tokens, not over text, and only for well-nested values; a named list followed by a sibling does not read back (Printer.SiblingAfterNamedList).
- Breakpoints.ReplyId: for a tuple without a string `number`, and for a list as first content, the contract says only that no id is read; under the `Truthy` guard the definition throws in both cases, as the source does, and under `TupleOnly` a list gives no id.
- Locals.ShowLocals: the commands it returns are only the `varDelete` and `varCreate` of lldb.ts:393-397. The `listLocals` (lldb.ts:355) and `listArgs` (lldb.ts:267) calls are not in the trace, nor is the `varCreate` that `getFuncArgs` sends for each argument (lldb.ts:274-276), so an argument is created twice in the source and once in the trace. Children.ShowChildren likewise leaves the `listChildren` call (lldb.ts:294) out of its commands.
- Literal.ParseMiStringLiteral: `.` is modelled as any character but LF, CR, U+2028 and U+2029; other regular-expression features are not involved.

## Findings

| source | as written | input that shows it | evidently intended | confidence | as-written member | corrected member |
|---|---|---|---|---|---|---|
| src/lldb.ts:62-64 | `replace('\\n', '\n')` and `replace('\\r', '\r')` with a string pattern decode only the first escape of each kind | a target record whose content is `a\nb\nc` escaped | every `\n` and `\r` escape decoded, so the program's output is written as it was printed | not executed | Events.StreamFirstEscapeOnly | Events.StreamRecordDecodesAll |
| src/lldb.ts:142-148 | the id is read whenever the first result's content is truthy, so a `^error,msg="..."` reply to an insertion reaches `fields.number` of a string and throws | one breakpoint line answered with `^error,msg="No source file"` | a refused insertion is skipped, the request still answers every line, and the breakpoint is not tracked | not executed | Breakpoints.RefusedStops | Breakpoints.SetRefused |
