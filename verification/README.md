# A model of a managed debugger and of a Windows PDB reader

Dafny models, with proofs, of the parts of two programs that carry state or arithmetic: the
debugger under `source/own/clrmd_testing/netcoredbg`, and the PDB reader under
`source/cloned/WindowsPdbReader` (with one search from `source/cloned/MdDumper`).

| file | what it models |
|---|---|
| `Syntax.dfy` | the analyser of C# expressions that finds unresolved names, with its scoping stack |
| `TypeNames.dfy`, `AccessPaths.dfy` | parsing of type names, generic arguments, access paths and indices |
| `Escaping.dfy`, `Tokenizer.dfy` | escaping of MI values, and the tokens of a command line |
| `Tables.dfy`, `Exceptions.dfy`, `EntryPoint.dfy`, `Engine.dfy` | the breakpoint engine, with one counter for all ids |
| `SequencePoints.dfy`, `Hits.dfy` | from lines to IL offsets and back, stepping, and hits |
| `MiBreakpoints.dfy`, `MiFunctions.dfy`, `MiProtocol.dfy` | the second tables of breakpoints, in the MI layer, and when they agree with the engine |
| `Bytes.dfy`, `Msf.dfy`, `MsfDirectory.dfy` | little-endian numbers, paged streams and their directory |
| `PdbFile.dfy` | a whole file, from its header to the contents of its streams |
| `NameIndex.dfy`, `Symbols.dfy` | the named-stream hash table and the symbol records |
| `Frames.dfy` | the stack walk, with the windows that are cut out of it |
| `FdBuf.dfy` | the buffered descriptor stream |
| `HandleRanges.dfy` | ranges of one kind in a sorted list of handles |
| `Text.dfy` | decimal numerals and options |

Loops and objects of the source are methods and classes here. Each is proved against a
function of its inputs or of the old state, and the properties are lemmas about that function
(against an encoder, a printer, a set, a multiset or a second definition, never against its own
body). A failure in the source, by exception or by status, is `None`, `Failed` or a false result.

## Where the code is not what it may seem

Each point is proved, with the exact condition under which the expected behaviour holds and with a
failing input that the code can receive.

- `MIProtocol::DeleteBreakpoints` does not erase ids from the MI table, so the next insert or
  condition change in the file brings the deleted lines back (`MiBreakpoints.DeleteAgreesExact`,
  `MiBreakpoints.DeletedLineReturns`); an insert on a taken line changes the condition in the engine
  but not in the MI table (`MiBreakpoints.InsertAgreesExact`, `MiBreakpoints.TakenLineApart`).
- `MIProtocol::SetFunctionBreakpoint` records the first answer with the bare name of the function, so a
  second breakpoint for that name, in another module or with other parameters, is not recorded, and the
  next command drops it from the engine (`MiFunctions.InsertAgreesExact`, `MiFunctions.SecondModuleLost`).
- A function breakpoint that stays unbound is announced as changed at each load of a module whose name
  fits (`Engine.UnfoundAnnounced`).
- Deleting an exception breakpoint drops the modes of every other id of the same name
  (`Exceptions.DeleteEffectiveExact`, `Exceptions.OtherSilenced`), and the result for a name with modes
  of several categories depends on the order of an unordered multimap (`Exceptions.OrderExact`,
  `Exceptions.OtherOrder`).
- Files are matched without case when a line is resolved but with case when a breakpoint is hit,
  so a breakpoint can be bound and never found (`Hits.BoundIsHit`, `Hits.BoundAndNotFound`).  The module
  of a stop is not compared, so a stop can find the breakpoint of another module
  (`Hits.FoundHereExact`, `Hits.FoundElsewhere`).
- An empty quoted argument is swallowed unless it is the last (`Tokenizing.RoundTripExact`,
  `Tokenizing.EmptyArgumentLost`).
- NUL is written as an octal escape of one digit, so a reader of c-strings takes in octal digits that
  follow it (`Escaping.CStringExact`, `Escaping.NulAndDigit`).
- The directory constructor reads every root page to the start of its buffer, so a page list longer
  than one root page comes out wrong (`MsfDirectory.PageListExact`, `MsfDirectory.SecondRootLost`); a
  variant that advances the offset is not part of this model.  The page count of a stream whose size
  is near the limit of its type wraps (`MsfDirectory.DirectoryRoundTrip`, `MsfDirectory.NearLimit`).
- The root count is wrong for some directories when the page size is not divisible by 4
  (`Msf.RootCountExact`, `Msf.FullPageMissed`).
- The struct for a managed procedure has padding that the symbol in the file (packed, as CodeView
  symbols are) does not have: its last field is read one byte too far on (`Symbols.RetRegExact`), and a
  last record with a short name and nothing behind it makes the search fail (`Symbols.FindsFirst`).
- `GetFrameAt` reports success without a frame past the end of the stack (`Frames.GetFrameAt`,
  `Frames.PastTheEnd`).
- A full descriptor buffer whose write takes nothing is reported as a success and leaves no cell for
  the next byte (`FdBuffers.RunInsideExact`, `FdBuffers.ShortestFailure`).
- A block without children is never walked (`Syntax.BlockExact`, `Syntax.ChildlessBlock`); the C# grammar
  gives such a block no tokens but its braces, so this does not show.

## Model

Sequences of states, callbacks, symbols, sorting routines, name folding, write results and read
chunks are parameters: the theorems hold for all of them. Unordered containers are iterated in any
order.

| member | source | states |
|---|---|---|
| `Syntax.AnalysisExact` | source/own/clrmd_testing/netcoredbg/SymbolReader.cs:1172-1289 | main: for every list of trees in which childless blocks have no identifier tokens, the analyser (which re-walks a block once per child) ends in the same state as one walk per block; the reported list has no duplicates, and a name is in it exactly when some occurrence of it (a path to an identifier token) is a use by the modes along its path and no declaration of the name is in scope there: none on a path that parts to an earlier sibling and opens no frame behind the parting; the names left in scope are those declared in no inner frame |
| `Syntax.PerChildIsOnce` | source/own/clrmd_testing/netcoredbg/SymbolReader.cs:1235-1271 | for every tree in which childless blocks have no identifier tokens, and from every state, re-walking every block once per child node gives the same unresolved list and the same scope as walking it once |
| `Syntax.BlockExact` | source/own/clrmd_testing/netcoredbg/SymbolReader.cs:1235-1241 | exact condition for one block, any tokens: the two walks differ exactly when the block has no child node (so the loop never runs) and one of its identifier tokens is neither in scope nor reported |
| `Syntax.ChildlessBlock` | source/own/clrmd_testing/netcoredbg/SymbolReader.cs:1235-1241 | a block with an identifier and no child node: the repeated walk reports nothing, the single walk the identifier |
| `Syntax.RewalkIsOneWalk` | source/own/clrmd_testing/netcoredbg/SymbolReader.cs:1238-1239 | walking the same children any positive number of times equals walking them once, from every state |
| `Syntax.VisitCollects` | source/own/clrmd_testing/netcoredbg/SymbolReader.cs:1223-1289 | what one walk adds is exactly the free names of the tree that were not reported yet, and what it declares is exactly its declared names, two sets defined on the tree alone |
| `Syntax.FreeOccurs` | source/own/clrmd_testing/netcoredbg/SymbolReader.cs:1223-1289 | the set of free names is that of the occurrences: uses with no declaration in scope |
| `Syntax.DeclaredOccurs` | source/own/clrmd_testing/netcoredbg/SymbolReader.cs:1285-1289 | the set of declared names is that of the declarations with no frame opened on the way to them |
| `Syntax.VisitDistinct` | source/own/clrmd_testing/netcoredbg/SymbolReader.cs:1279-1282 | neither way of walking ever puts a name into the list twice |
| `Syntax.SyntaxAnalyzer.constructor` | source/own/clrmd_testing/netcoredbg/SymbolReader.cs:1215-1221 | the object that the recursive methods build holds what the walk of the roots gives |
| `Syntax.SyntaxAnalyzer.ParseBlock` | source/own/clrmd_testing/netcoredbg/SymbolReader.cs:1235-1241 | opens a frame, re-walks the block per child, closes the frame: the scope is back, the reported names are those of the repeated walk |
| `Syntax.SyntaxAnalyzer.ParseNode` | source/own/clrmd_testing/netcoredbg/SymbolReader.cs:1243-1271 | terminates, and its effect on the list and on the scope is the walk of that node; enclosing frames are untouched |
| `Syntax.SyntaxAnalyzer.ParseAccessNode` | source/own/clrmd_testing/netcoredbg/SymbolReader.cs:1223-1233 | only the head of an access chain is walked |
| `Syntax.SyntaxAnalyzer.ParseCommonToken` | source/own/clrmd_testing/netcoredbg/SymbolReader.cs:1273-1283 | reports an identifier unless its mode, the list or the scope says otherwise |
| `Syntax.SyntaxAnalyzer.ParseDeclarator` | source/own/clrmd_testing/netcoredbg/SymbolReader.cs:1285-1289 | declares an identifier that is not in scope, in the current frame |
| `Syntax.FrameVars.ExitFrame` | source/own/clrmd_testing/netcoredbg/SymbolReader.cs:1190-1196 | the pop loop removes exactly the names of the closing frame and restores the count of the outer one |
| `TypeNames.ResolveOfShow` | source/own/clrmd_testing/netcoredbg/expr.cpp:454-504 | main: for every well-formed type (dotted parts, nested arguments, ranks), resolving its printed text gives the type back, with an arity mark on each generic part, system names for lone keywords, all arguments in order and all ranks, at every depth |
| `TypeNames.ResolvedParts` | source/own/clrmd_testing/netcoredbg/expr.cpp:454-504 | main: reading a printed type, the ranks come back; a part with arguments gets the mark of their number and each argument is resolved as it would be by itself; a part without arguments is renamed exactly when it is the only part and the table has it |
| `TypeNames.NameResolved` | source/own/clrmd_testing/netcoredbg/expr.cpp:454-463 | a plain name by itself gets the system name exactly when the table has it |
| `TypeNames.ResolveSpaced` | source/own/clrmd_testing/netcoredbg/expr.cpp:337-338 | the same for any text that differs from the printed one only in spaces |
| `TypeNames.ResolveReading` | source/own/clrmd_testing/netcoredbg/expr.cpp:454-504 | the same for any text that ParseType splits as it splits the printed one |
| `TypeNames.ParseTypeOfShow` | source/own/clrmd_testing/netcoredbg/expr.cpp:294-345 | ParseType splits a printed type into its printed parts and exactly its ranks, and the bracket depth is 0 again at the end |
| `TypeNames.SpacesIgnored` | source/own/clrmd_testing/netcoredbg/expr.cpp:337-338 | from every state of the scan, removing all spaces changes nothing |
| `TypeNames.ParseType` | source/own/clrmd_testing/netcoredbg/expr.cpp:294-345 | the character loop computes the scan that the lemmas speak of |
| `TypeNames.ParseGenericParamsOfShow` | source/own/clrmd_testing/netcoredbg/expr.cpp:347-396 | a printed part gives its printed arguments in order and its name, marked with the number of arguments if there are any |
| `TypeNames.ScanArgsShow` | source/own/clrmd_testing/netcoredbg/expr.cpp:358-393 | depth and array flag are the same before and after every printed argument, which is taken over unchanged |
| `TypeNames.ParseGenericParams` | source/own/clrmd_testing/netcoredbg/expr.cpp:347-396 | gives the arguments and the name that the lemmas speak of |
| `TypeNames.ScanParams` | source/own/clrmd_testing/netcoredbg/expr.cpp:358-393 | its character loop computes the scan |
| `TypeNames.ArgsShorter` | source/own/clrmd_testing/netcoredbg/expr.cpp:347-396 | for any text at all, each argument is strictly shorter than its part, so the recursion of type resolution ends |
| `TypeNames.GatheredOfShow` | source/own/clrmd_testing/netcoredbg/expr.cpp:398-408 | the arguments gathered from the printed parts are the arguments of all parts, in order |
| `TypeNames.GatherParameters` | source/own/clrmd_testing/netcoredbg/expr.cpp:398-408 | the loop gathers the arguments of the parts before the index |
| `TypeNames.SystemNamesFlat` | source/own/clrmd_testing/netcoredbg/typeprinter.cpp:66-89 | every system name in the keyword table is free of angle brackets, which the resolution of renamed parts relies on |
| `TypeNames.TablesInverse` | source/own/clrmd_testing/netcoredbg/typeprinter.cpp:66-115 | the keyword table is the inverse of the printer's table of system names, in both directions |
| `AccessPaths.ParseExpressionOfShow` | source/own/clrmd_testing/netcoredbg/expr.cpp:259-292 | printing a path of member and element steps and parsing it recovers the steps |
| `AccessPaths.ParseExpression` | source/own/clrmd_testing/netcoredbg/expr.cpp:259-292 | the character loop computes the scan that the lemma speaks of |
| `AccessPaths.IndicesExact` | source/own/clrmd_testing/netcoredbg/expr.cpp:15-43 | reading a printed index list never fails, and gives the indices back exactly when each fits in 32 bits (beyond that they wrap) |
| `AccessPaths.IndexWraps` | source/own/clrmd_testing/netcoredbg/expr.cpp:15-43 | the index 2^32 comes back as 0 |
| `AccessPaths.IndicesFail` | source/own/clrmd_testing/netcoredbg/expr.cpp:15-43 | reading an index list fails exactly at a character that is no digit, space, comma or bracket |
| `AccessPaths.IndexSpaces` | source/own/clrmd_testing/netcoredbg/expr.cpp:15-43 | spaces make no difference to it |
| `AccessPaths.ParseIndices` | source/own/clrmd_testing/netcoredbg/expr.cpp:15-43 | the loop computes the scan, and fails exactly where the scan does |
| `Escaping.Escape` | source/own/clrmd_testing/netcoredbg/miprotocol.cpp:1481-1506 | the loop that inserts backslashes into the string it scans yields the per-character expansion, for either escaping table |
| `Escaping.EscapedCharExact` | source/own/clrmd_testing/netcoredbg/miprotocol.cpp:1481-1506 | which characters are escaped: quote and backslash, and in MI values the eight control characters of C |
| `Escaping.CStringExact` | source/own/clrmd_testing/netcoredbg/miprotocol.cpp:1481-1506 | main: a reader of c-strings (GDB manual, GDB/MI Output Syntax; escapes of ISO C, octal ones of up to three digits) gets the value back from its quoted output exactly when no NUL of it is directly followed by a digit from 0 to 7 |
| `Escaping.CStringStops` | source/own/clrmd_testing/netcoredbg/miprotocol.cpp:1481-1506 | that reader stops exactly at the closing quote, whatever the value and whatever follows; each NUL takes in up to two octal digits behind it, and nothing else changes |
| `Escaping.NulAndDigit` | source/own/clrmd_testing/netcoredbg/miprotocol.cpp:1481-1506 | NUL and 1 are read as one character |
| `Escaping.UnescapedInverts` | source/own/clrmd_testing/netcoredbg/miprotocol.cpp:1481-1506 | the escaping has a left inverse |
| `Escaping.EscapedInjective` | source/own/clrmd_testing/netcoredbg/miprotocol.cpp:1481-1506 | different values have different texts |
| `Escaping.NoRawControls` | source/own/clrmd_testing/netcoredbg/miprotocol.cpp:1481-1506 | no listed control character is left raw |
| `Escaping.EscapedGuarded` | source/own/clrmd_testing/netcoredbg/manageddebugger.cpp:1369-1386 | for either table, every quote stands behind a backslash that is not itself escaped |
| `Tokenizing.RoundTripExact` | source/own/clrmd_testing/netcoredbg/miprotocol.cpp:1262-1330 | main: quoting arguments, joining them with blanks and reading tokens until none is left gives the list back exactly when no argument before the last is empty |
| `Tokenizing.TokensOfQuoted` | source/own/clrmd_testing/netcoredbg/miprotocol.cpp:1275-1324 | for all lists: the tokens are the arguments that survive; an empty one is swallowed unless it is last |
| `Tokenizing.BreakConditionParsed` | source/own/clrmd_testing/netcoredbg/miprotocol.cpp:1332-1370 | `break-condition` and `var-assign`, as literals: token, id (a word or quoted) and expression arrive, the expression verbatim without its outer blanks, also an empty one |
| `Tokenizing.CommandParsed` | source/own/clrmd_testing/netcoredbg/miprotocol.cpp:1332-1376 | any command but these two gives its token, its name and the surviving arguments of any quoted list |
| `Tokenizing.LineSplit` | source/own/clrmd_testing/netcoredbg/miprotocol.cpp:1341-1376 | how any line that starts with digits, a dash and a word splits into token, command and arguments, with anything behind the word: `var-assign` and `break-condition` take one token and the rest, all others every token |
| `Tokenizing.BareCommand` | source/own/clrmd_testing/netcoredbg/miprotocol.cpp:1341-1376 | a command with nothing but blanks behind it has no arguments, or two empty ones if it takes a remainder |
| `Tokenizing.ParsedExact` | source/own/clrmd_testing/netcoredbg/miprotocol.cpp:1341-1355 | a line is a command exactly when its first token is digits, a dash and anything |
| `Tokenizing.QuotedRest` | source/own/clrmd_testing/netcoredbg/miprotocol.cpp:1293-1324 | any text in quotes, in which a backslash makes any character stand for itself: closed, or open at the end of the line, it is a token; with a backslash at the end, only when it is empty |
| `Tokenizing.QuotedAlone` | source/own/clrmd_testing/netcoredbg/miprotocol.cpp:1372-1373 | and so for the list of all tokens |
| `Tokenizing.DelimitersAre` | source/own/clrmd_testing/netcoredbg/miprotocol.cpp:1262 | blank, tab, line feed and carriage return part tokens |
| `Tokenizing.EmptyArgumentLost` | source/own/clrmd_testing/netcoredbg/miprotocol.cpp:1293-1301 | an empty argument before another one is not a token |
| `Tokenizing.ParseLine` | source/own/clrmd_testing/netcoredbg/miprotocol.cpp:1332-1376 | computes the parse of the line; on failure all outputs are empty |
| `Tokenizing.RemainingTokens` | source/own/clrmd_testing/netcoredbg/miprotocol.cpp:1372-1373 | the loop collects all further tokens of the line |
| `Tokenizing.Tokenizer.Next` | source/own/clrmd_testing/netcoredbg/miprotocol.cpp:1275-1324 | the state-machine loop yields the next token of the remaining text and leaves the rest |
| `Tokenizing.Tokenizer.Remain` | source/own/clrmd_testing/netcoredbg/miprotocol.cpp:1326-1329 | the text behind the last token |
| `Tokenizing.Tokenizer.constructor` | source/own/clrmd_testing/netcoredbg/miprotocol.cpp:1269-1273 | trailing delimiters are cut off, leading ones go too when the first token is read |
| `Engine.RunKeeps` | source/own/clrmd_testing/netcoredbg/breakpoints.cpp:495-776 | main: over every run of engine operations, ids of line, function and exception breakpoints are pairwise distinct, at least 1 and below the counter, and an id once given out belongs to the same owner or to nobody; the exception store stays consistent |
| `Engine.ApplyKeeps` | source/own/clrmd_testing/netcoredbg/breakpoints.cpp:495-776 | the same for each single operation, from every valid state |
| `Engine.ApplyOnly` | source/own/clrmd_testing/netcoredbg/breakpoints.cpp:269-776 | what each operation leaves alone; deleting all breakpoints leaves no line; a filter takes exactly the next id |
| `Engine.StartValid` | source/own/clrmd_testing/netcoredbg/manageddebugger.h:312-313 | the state that a debugger starts with is valid |
| `Engine.ExceptionsOverRuns` | source/own/clrmd_testing/netcoredbg/breakpoints.cpp:743-776 | over every run from the start: the asterisk id is not 0 exactly when a live filter has the name `*`, and is then the only one; every name with a mode has a live id; the store accepts the next filter, so its failing path is not reached |
| `Engine.ModesInForce` | source/own/clrmd_testing/netcoredbg/breakpoints.cpp:743-776 | main: over every run from the start, the modes in force for a name are those inserted for it since one of its ids, whichever, was last deleted; for the name `*` only the last of these |
| `Engine.SetLinesReplaces` | source/own/clrmd_testing/netcoredbg/breakpoints.cpp:495-569 | main: afterwards the lines of the file are exactly the requested ones; kept lines keep id, hit count and binding; new ones have distinct ids not given out before; each condition is the last one requested for its line; answer i has line, id and condition of request i; other files, functions and filters are unchanged |
| `Engine.SetLinesAnswers` | source/own/clrmd_testing/netcoredbg/breakpoints.cpp:535-565 | each answer belongs to its request: line, condition and id, whether and where it is bound, and its hit count |
| `Engine.LineHistory` | source/own/clrmd_testing/netcoredbg/breakpoints.cpp:406-569 | main: over every run from the start, a line breakpoint is enabled, was hit as often as the operations hit it since it was made, and is bound to the first place that the symbols gave from then on, when it was made or at a module load |
| `Engine.FuncHistory` | source/own/clrmd_testing/netcoredbg/breakpoints.cpp:428-710 | main: the same for a function breakpoint, which is filed under its full name |
| `Engine.SetFuncsReplaces` | source/own/clrmd_testing/netcoredbg/breakpoints.cpp:636-710 | SetFunctionBreakpoints leaves exactly the requested functions: kept ones keep id, binding and hit count, new ones get fresh ids, the names of the first request and what the symbols say; each condition is the last one requested |
| `Engine.FullNameExact` | source/own/clrmd_testing/netcoredbg/breakpoints.cpp:645-652 | two function breakpoints have the same key exactly when module, name and parameters are the same, for names without the marks |
| `Tables.SyncReplaces` | source/own/clrmd_testing/netcoredbg/breakpoints.cpp:495-569 | the shape common to line and function breakpoints: bringing a table in line with requests replaces it and answers each request |
| `Tables.SyncCounts` | source/own/clrmd_testing/netcoredbg/breakpoints.cpp:544-546 | exactly as many ids are given out as keys are new |
| `Tables.SyncDistinct` | source/own/clrmd_testing/netcoredbg/breakpoints.cpp:544-546 | ids stay distinct and below the counter |
| `Tables.Retain` | source/own/clrmd_testing/netcoredbg/breakpoints.cpp:520-528 | the erase loop keeps exactly the requested keys |
| `Engine.Breakpoints.SetBreakpoints` | source/own/clrmd_testing/netcoredbg/breakpoints.cpp:495-569 | the method updates map and counter as the replacement says, and returns its answers |
| `Engine.Breakpoints.SetFunctionBreakpoints` | source/own/clrmd_testing/netcoredbg/breakpoints.cpp:636-710 | the same for functions, keyed by module, name and parameters |
| `Engine.Breakpoints.InsertExceptionBreakpoint` | source/own/clrmd_testing/netcoredbg/breakpoints.cpp:712-721 | takes an id from the shared counter only when the store accepts the breakpoint |
| `Engine.Breakpoints.DeleteExceptionBreakpoint` | source/own/clrmd_testing/netcoredbg/breakpoints.cpp:723-727 | removes the id, and fails exactly when there is none |
| `Engine.Breakpoints.TryResolveBreakpointsForModule` | source/own/clrmd_testing/netcoredbg/breakpoints.cpp:406-444 | unbound breakpoints are bound where the module knows them, bound ones stay; visiting the tables in any order, there is exactly one event for each line breakpoint bound and for each unbound function breakpoint whose module name fits, with the breakpoint as it is afterwards; the entry breakpoint is set up last |
| `Engine.RebindTable` | source/own/clrmd_testing/netcoredbg/breakpoints.cpp:412-426 | the loop over the breakpoints of one file, in any order |
| `Engine.LineEventsExact` | source/own/clrmd_testing/netcoredbg/breakpoints.cpp:412-426 | the events of a load for the lines of a file: exactly those not bound before whose line the module has, each with the new place and all else as before |
| `Engine.FuncEventsExact` | source/own/clrmd_testing/netcoredbg/breakpoints.cpp:428-441 | the events of a load for functions: exactly those not bound before that name no module or this one, each bound to what the module has |
| `Engine.LoadedFuncs` | source/own/clrmd_testing/netcoredbg/breakpoints.cpp:428-441 | a load binds exactly these function breakpoints, and leaves the others as they are |
| `Engine.UnfoundAnnounced` | source/own/clrmd_testing/netcoredbg/breakpoints.cpp:428-441 | an unbound function breakpoint is announced unchanged exactly when its module name fits and the module does not have the function |
| `Engine.Breakpoints.HitManagedBreakpoint` | source/own/clrmd_testing/netcoredbg/breakpoints.cpp:112-153 | finds the breakpoint that the search over document, then bare name, then line gives, counts its hit and changes nothing else; without one nothing changes |
| `Engine.Breakpoints.DeleteAllBreakpoints` | source/own/clrmd_testing/netcoredbg/breakpoints.cpp:269-278 | drops the line breakpoints, the entry breakpoint and its token, and nothing else |
| `Engine.Breakpoints.HitEntry` | source/own/clrmd_testing/netcoredbg/breakpoints.cpp:250-267 | reports the stop at the standing entry breakpoint and drops it; any other stop changes nothing |
| `Engine.Breakpoints.TrySetupEntryBreakpoint` | source/own/clrmd_testing/netcoredbg/breakpoints.cpp:383-404 | sets the breakpoint up at the first module with an entry point, while the setting is on |
| `EntryPoints.EntryOnce` | source/own/clrmd_testing/netcoredbg/breakpoints.cpp:250-278 | over every run of settings, loads, stops and clearings: between two clearings at most one stop is reported as the entry |
| `EntryPoints.StandingExact` | source/own/clrmd_testing/netcoredbg/breakpoints.cpp:383-404 | over every run: the entry breakpoint stands somewhere exactly when the first module with an entry point, loaded while the setting was on since the last clearing, has it there, and no stop was reported since |
| `EntryPoints.ReportedExact` | source/own/clrmd_testing/netcoredbg/breakpoints.cpp:250-267 | a stop is reported as the entry exactly when the setting is on and the entry breakpoint stands there |
| `EntryPoints.SettingExact` | source/own/clrmd_testing/netcoredbg/breakpoints.cpp:317-321 | the setting is the last one made, or off |
| `Exceptions.InsertKeeps` | source/own/clrmd_testing/netcoredbg/breakpoints.cpp:743-761 | from every consistent store and fresh id, inserting succeeds, so its failing path is not reached, and the store stays consistent |
| `Exceptions.DeleteKeeps` | source/own/clrmd_testing/netcoredbg/breakpoints.cpp:763-776 | deleting keeps the store consistent |
| `Exceptions.DeleteEffectiveExact` | source/own/clrmd_testing/netcoredbg/breakpoints.cpp:763-776 | every live id still has a mode after a delete exactly when no other id has the deleted name |
| `Exceptions.OtherSilenced` | source/own/clrmd_testing/netcoredbg/breakpoints.cpp:763-776 | two filters for a name, and a delete of one: the other is live and has no mode |
| `Exceptions.ExceptionBreakpointStorage.Insert` | source/own/clrmd_testing/netcoredbg/breakpoints.cpp:743-761 | the method makes that change, and reports failure exactly in the failing case |
| `Exceptions.ExceptionBreakpointStorage.Delete` | source/own/clrmd_testing/netcoredbg/breakpoints.cpp:763-776 | the method makes that change, and fails exactly when the id is unknown |
| `Exceptions.ExceptionBreakpointStorage.GetExceptionBreakMode` | source/own/clrmd_testing/netcoredbg/breakpoints.cpp:817-836 | overlays the modes of the name in the order given; fails exactly when there are none |
| `Exceptions.OverlaidMeans` | source/own/clrmd_testing/netcoredbg/breakpoints.cpp:817-836 | the leading mode gives the category, a flag is set exactly when it was set before or some counting mode sets it |
| `Exceptions.OrderExact` | source/own/clrmd_testing/netcoredbg/breakpoints.cpp:817-836 | the overlay is independent of the order of the multimap exactly when all modes of the name have one category |
| `Exceptions.OtherOrder` | source/own/clrmd_testing/netcoredbg/breakpoints.cpp:817-836 | for modes of two categories, an order with another overlay |
| `Exceptions.UnhandledExact` | source/own/clrmd_testing/netcoredbg/breakpoints.cpp:778-815 | an unhandled exception stops the program exactly when its category is that of the most specific filter, or any |
| `Exceptions.CaughtExact` | source/own/clrmd_testing/netcoredbg/breakpoints.cpp:778-815 | an exception that has found a handler stops the program exactly when its category is the deciding one, or any, and a counting mode of either filter stops thrown exceptions or, outside the System namespace, those not handled by user code |
| `Exceptions.OthersIgnored` | source/own/clrmd_testing/netcoredbg/breakpoints.cpp:778-815 | first-chance events never stop the program |
| `SequencePoints.ResolveThenLookup` | source/own/clrmd_testing/netcoredbg/SymbolReader.cs:242-352 | for every method list with increasing offsets: resolving a line and looking up the found offset gives that very point, exactly when the line is neither 0 nor the hidden line |
| `SequencePoints.HiddenLine` | source/own/clrmd_testing/netcoredbg/SymbolReader.cs:242-352 | a method with a hidden point: the hidden line resolves to it, and the lookup does not give it |
| `SequencePoints.ResolvedIffKnown` | source/own/clrmd_testing/netcoredbg/SymbolReader.cs:242-281 | a line resolves exactly when some point of a matching document starts there |
| `SequencePoints.ResolveSequencePoint` | source/own/clrmd_testing/netcoredbg/SymbolReader.cs:242-281 | the nested search finds the first such point, and gives zeros otherwise |
| `SequencePoints.FindNearest` | source/own/clrmd_testing/netcoredbg/SymbolReader.cs:319-342 | the loop finds the last visible point at or before the offset, else the first visible one behind it |
| `SequencePoints.NearestExact` | source/own/clrmd_testing/netcoredbg/SymbolReader.cs:319-342 | a point is the one an offset belongs to exactly when it is visible and the last visible one at or before the offset, or the first visible one with the offset before it |
| `SequencePoints.NearestNone` | source/own/clrmd_testing/netcoredbg/SymbolReader.cs:319-342 | an offset belongs to no point exactly when the method has no visible one |
| `SequencePoints.LookupExact` | source/own/clrmd_testing/netcoredbg/SymbolReader.cs:291-352 | the lookup finds a point exactly when the method with the token has it for the offset, and it has a line |
| `SequencePoints.GetLocationInAny` | source/own/clrmd_testing/netcoredbg/modules.cpp:174-206 | the loop answers with the first module that resolves the line and knows the found offset |
| `SequencePoints.GetLocationInModule` | source/own/clrmd_testing/netcoredbg/modules.cpp:208-236 | asking one module: the found offset is looked up again for the name of the document |
| `SequencePoints.LocationComesFrom` | source/own/clrmd_testing/netcoredbg/modules.cpp:174-206 | that answer is what asking one of the modules alone gives |
| `SequencePoints.LocationExact` | source/own/clrmd_testing/netcoredbg/modules.cpp:174-206 | the search finds a place exactly when some module of the list gives one, and it is that of the first that does |
| `SequencePoints.ModuleGives` | source/own/clrmd_testing/netcoredbg/modules.cpp:208-236 | a module gives a place for a line that is neither 0 nor hidden exactly when it has a point there |
| `SequencePoints.FileMatchesExact` | source/own/clrmd_testing/netcoredbg/SymbolReader.cs:242-260 | a requested name without slashes matches every document with this file name, one with slashes the document itself, in letters of either case |
| `SequencePoints.FileNameExact` | source/own/clrmd_testing/netcoredbg/SymbolReader.cs:163-169 | the file name is what is behind the last slash, of either kind |
| `SequencePoints.StepRangeExact` | source/own/clrmd_testing/netcoredbg/modules.cpp:356-408 | main: with increasing offsets and the current offset inside the code, the range contains the current offset exactly when it is not before the first point; it then starts at the last point at or before it and has no visible point strictly inside; it ends at the first visible point beyond, or else with the code; with all points inside the code, it ends with the code exactly when no visible point but the first lies beyond |
| `SequencePoints.GetStepRangesFromIP` | source/own/clrmd_testing/netcoredbg/SymbolReader.cs:446-481 | the two loops compute the ends of the range |
| `SequencePoints.GetStepRange` | source/own/clrmd_testing/netcoredbg/modules.cpp:383-408 | an empty range is extended to the end of the code |
| `Hits.BoundIsHit` | source/own/clrmd_testing/netcoredbg/breakpoints.cpp:112-153 | main: in every reachable session, a bound breakpoint is the one found at the place where it is bound, exactly when it has no condition or one that is true, and is filed under the document, or under its bare file name while nothing is filed under the document |
| `Hits.FoundExact` | source/own/clrmd_testing/netcoredbg/breakpoints.cpp:88-153 | exactly what a stop finds: the record for the line, under the document or its bare name, bound to token and offset, enabled, and with no condition or a true one |
| `Hits.SetThenHit` | source/own/clrmd_testing/netcoredbg/breakpoints.cpp:446-569 | main: setting a new breakpoint, with any condition, on a line at which some loaded module has a point, the modules searched in any order, binds it to a point of that line in the first such module, and a stop there finds it exactly under the same condition |
| `Hits.LoadBinds` | source/own/clrmd_testing/netcoredbg/breakpoints.cpp:280-315 | loading a module binds exactly the unbound breakpoints whose line it knows, to points of theirs, and leaves the others as they are |
| `Hits.BoundAndNotFound` | source/own/clrmd_testing/netcoredbg/breakpoints.cpp:112-153 | under any name that matches the document but is neither the document nor its bare file name: one module and one setting after which the breakpoint is bound and a stop at its place does not find it |
| `Hits.NamesInCase` | source/own/clrmd_testing/netcoredbg/SymbolReader.cs:163-169 | names that differ in case are such names |
| `Hits.RunFiled` | source/own/clrmd_testing/netcoredbg/breakpoints.cpp:280-315 | over every run of settings, module loads and hits, each bound breakpoint is bound to the very place that some loaded module gives for its file and line; on any line but the hidden one, that is a point of the line that the lookup gives back |
| `Hits.NewLineFiled` | source/own/clrmd_testing/netcoredbg/breakpoints.cpp:446-483 | a newly resolved breakpoint, on any line, is bound to such a place or to nothing |
| `Hits.FiledOnPoint` | source/own/clrmd_testing/netcoredbg/breakpoints.cpp:446-483 | such a place, for any line but the hidden one, is a point of that line in a document that matches the file |
| `Hits.FoundHereExact` | source/own/clrmd_testing/netcoredbg/breakpoints.cpp:112-153 | main: for any loaded modules and any stop, what is found is bound to the module of the stop, in every session with these modules, exactly when no other module gives the same token and offset for the line under the name of the document or its bare name |
| `Hits.TwinFound` | source/own/clrmd_testing/netcoredbg/breakpoints.cpp:112-153 | with such a module: a session in which the stop finds a breakpoint of that other module |
| `Hits.FoundElsewhere` | source/own/clrmd_testing/netcoredbg/breakpoints.cpp:112-153 | two modules with the same method: a stop in one finds the breakpoint bound to the other |
| `MiBreakpoints.RunAgreesExact` | source/own/clrmd_testing/netcoredbg/miprotocol.cpp:526-656 | main: over every run of inserts, condition changes, deletes and other engine operations, the two layers describe the same (file, id, line, condition) set after every command exactly when each insert is on a free line or repeats the recorded condition and each delete names no recorded id |
| `MiBreakpoints.RunWithin` | source/own/clrmd_testing/netcoredbg/miprotocol.cpp:526-656 | main: over every run at all, the lines of each file in the engine are among those of the MI table, and each id of the MI table is in one file, the file of whatever owns it in the engine |
| `MiBreakpoints.StepWithin` | source/own/clrmd_testing/netcoredbg/miprotocol.cpp:526-619 | after an insert into a file, or a condition change of an id in it, the lines of that file are equal in both layers again |
| `MiBreakpoints.InsertAgreesExact` | source/own/clrmd_testing/netcoredbg/miprotocol.cpp:534-556 | an insert keeps agreeing layers in agreement exactly when the line was free or already had the condition: on a taken line the MI table keeps the old one |
| `MiBreakpoints.ConditionAgrees` | source/own/clrmd_testing/netcoredbg/miprotocol.cpp:591-619 | a condition change keeps them in agreement |
| `MiBreakpoints.ConditionExact` | source/own/clrmd_testing/netcoredbg/miprotocol.cpp:591-619 | main: from agreeing layers, a condition change gives the entry and the engine record with the id exactly this condition, and changes nothing else; without such an entry it changes nothing |
| `MiBreakpoints.InsertExact` | source/own/clrmd_testing/netcoredbg/miprotocol.cpp:526-557 | main: from agreeing layers, an insert on a taken line gives the engine record this condition and leaves the MI table; on a free line both get one new breakpoint with a new id, this line and condition, bound to what the symbols say; nothing else changes |
| `MiBreakpoints.DeleteRemoves` | source/own/clrmd_testing/netcoredbg/miprotocol.cpp:638-656 | main: from agreeing layers, a delete takes exactly the records with these ids out of the engine, and changes nothing else |
| `MiBreakpoints.DeleteExact` | source/own/clrmd_testing/netcoredbg/miprotocol.cpp:638-656 | a delete leaves the MI table as it is; in the engine every file with a named id has exactly the other entries' lines, and every other file is unchanged |
| `MiBreakpoints.DeleteAgreesExact` | source/own/clrmd_testing/netcoredbg/miprotocol.cpp:638-656 | agreeing layers agree after a delete exactly when it names no recorded id |
| `MiBreakpoints.DeletedLineReturns` | source/own/clrmd_testing/netcoredbg/miprotocol.cpp:526-656 | a run, for any file and lines: insert, delete, insert on another line; the layers are apart after the delete, and the deleted line is back in the engine at the end |
| `MiBreakpoints.TakenLineApart` | source/own/clrmd_testing/netcoredbg/miprotocol.cpp:534-556 | a run: two inserts on one line with different conditions; the layers are apart |
| `Tables.RemainingCount` | source/own/clrmd_testing/netcoredbg/miprotocol.cpp:648-649 | comparing sizes tells exactly whether a named id is in the file |
| `MiProtocols.MIProtocol.SetBreakpoint` | source/own/clrmd_testing/netcoredbg/miprotocol.cpp:526-557 | the method makes the insert step; its failing return is not reached, and the answer is for the requested line with a recorded id |
| `MiProtocols.MIProtocol.SetBreakpointCondition` | source/own/clrmd_testing/netcoredbg/miprotocol.cpp:591-619 | the method makes the condition step, and fails exactly when no file has the id |
| `MiProtocols.MIProtocol.DeleteBreakpoints` | source/own/clrmd_testing/netcoredbg/miprotocol.cpp:638-656 | the method makes the delete step |
| `MiFunctions.RunAgreesExact` | source/own/clrmd_testing/netcoredbg/miprotocol.cpp:559-672 | main: over every run of function inserts, condition changes, deletes and any other engine operations, the two layers describe the same function breakpoints after every command exactly when each insert is harmless and each delete names no recorded id |
| `MiFunctions.InsertAgreesExact` | source/own/clrmd_testing/netcoredbg/miprotocol.cpp:559-589 | an insert keeps agreeing layers in agreement exactly when the function (module, name and parameters) is recorded with the same condition, or is not recorded and no entry has its bare name |
| `MiFunctions.NewRecorded` | source/own/clrmd_testing/netcoredbg/miprotocol.cpp:579-586 | what an insert of a new function records: the new breakpoint, or nothing when an entry has its bare name, because the first answer of that name is that entry |
| `MiFunctions.SecondModuleLost` | source/own/clrmd_testing/netcoredbg/miprotocol.cpp:559-589 | a run: one name in two modules, and a third insert; the second breakpoint is in the engine but not recorded, and the third insert drops it |
| `MiFunctions.ConditionAgrees` | source/own/clrmd_testing/netcoredbg/miprotocol.cpp:621-636 | a condition change keeps the layers in agreement |
| `MiFunctions.ConditionExact` | source/own/clrmd_testing/netcoredbg/miprotocol.cpp:621-636 | main: from agreeing layers, a condition change gives the entry and the engine record with the id exactly this condition, and changes nothing else; without such an entry it changes nothing |
| `MiFunctions.InsertExact` | source/own/clrmd_testing/netcoredbg/miprotocol.cpp:559-589 | main: from agreeing layers, an insert of a function that is there gives the engine record this condition; a new one gets one record with a new id, its names, this condition and what the symbols say, recorded exactly when no entry has the bare name; nothing else changes |
| `MiFunctions.DeleteRemoves` | source/own/clrmd_testing/netcoredbg/miprotocol.cpp:658-672 | main: from agreeing layers, a delete takes exactly the records with these ids out of the engine, and changes nothing else |
| `MiFunctions.DeleteExact` | source/own/clrmd_testing/netcoredbg/miprotocol.cpp:658-672 | a delete leaves the MI table as it is; when it names a recorded id, the engine has exactly the functions of the other entries |
| `MiFunctions.DeleteAgreesExact` | source/own/clrmd_testing/netcoredbg/miprotocol.cpp:658-672 | agreeing layers agree after a delete exactly when it names no recorded id |
| `MiProtocols.MIProtocol.SetFunctionBreakpoint` | source/own/clrmd_testing/netcoredbg/miprotocol.cpp:559-589 | the method makes the insert step; on success the answer has the name and a recorded id |
| `MiProtocols.MIProtocol.SetFunctionBreakpointCondition` | source/own/clrmd_testing/netcoredbg/miprotocol.cpp:621-636 | the method makes the condition step, and fails exactly when the id is not recorded |
| `MiProtocols.MIProtocol.DeleteFunctionBreakpoints` | source/own/clrmd_testing/netcoredbg/miprotocol.cpp:658-672 | the method makes the delete step |
| `MiProtocols.MIProtocol.BreakCondition` | source/own/clrmd_testing/netcoredbg/miprotocol.cpp:932-953 | changes a line breakpoint when the line table has the id, else a function breakpoint, and fails exactly when neither has it |
| `MiProtocols.MIProtocol.BreakDelete` | source/own/clrmd_testing/netcoredbg/miprotocol.cpp:919-931 | deletes lines, then functions, over the same engine |
| `Msf.PagesForExact` | source/cloned/WindowsPdbReader/PdbReader.cs:38-41 | the page count, in unbounded arithmetic, covers the size and is the least that does |
| `Msf.PagesFromSizeExact` | source/cloned/WindowsPdbReader/PdbReader.cs:38-41 | the page count as computed, with 32-bit wrap, is that one for a positive size exactly when the sum stays in range, and not positive otherwise |
| `Msf.PagesTruncate` | source/cloned/WindowsPdbReader/PdbReader.cs:38-41 | the page count divides towards zero, also when the sum wraps to a negative number |
| `Msf.RootCountExact` | source/cloned/WindowsPdbReader/Program.cs:35 | the root count is the least number of root pages that hold the directory's page list, for every directory, exactly when the page size is divisible by 4 |
| `Msf.RootCountLeast` | source/cloned/WindowsPdbReader/Program.cs:35 | for such page sizes it is that number |
| `Msf.FullPageMissed` | source/cloned/WindowsPdbReader/Program.cs:35 | for any other page size, a directory size whose root count is wrong |
| `Msf.FlatByte` | source/cloned/WindowsPdbReader/DataStream.cs:76-97 | a byte of the concatenated pages is the byte of its page in the file |
| `Msf.PdbReader.Seek` | source/cloned/WindowsPdbReader/PdbReader.cs:26-29 | the position is page start plus offset |
| `Msf.PdbReader.Read` | source/cloned/WindowsPdbReader/PdbReader.cs:32-35 | fills the slice with what the file has from the position on, and nothing else |
| `Msf.DataStream.Read` | source/cloned/WindowsPdbReader/DataStream.cs:51-100 | main: any read inside the content fills its slice with the same bytes as the concatenated pages have there, changes no other cell, stays inside the page list and ends; past the end it fails and changes nothing |
| `MsfDirectory.DirectoryRoundTrip` | source/cloned/WindowsPdbReader/MsfDirectory.cs:37-73 | reading an encoded directory, with anything behind it in the buffer, gives every stream its size (0 if not positive) and exactly its page list, exactly when no page count wraps |
| `MsfDirectory.NearLimit` | source/cloned/WindowsPdbReader/MsfDirectory.cs:52-70 | a directory with one stream of the greatest size, and pages of 4096 bytes: the stream is made without its pages |
| `MsfDirectory.WrappedStream` | source/cloned/WindowsPdbReader/MsfDirectory.cs:46-73 | in every encoded directory, reading succeeds and each stream whose page count wraps is made with its size and no pages |
| `MsfDirectory.PageListExact` | source/cloned/WindowsPdbReader/MsfDirectory.cs:16-31 | the page list of the directory is read right exactly when it fits one root page, because every root is read to the start of the buffer |
| `MsfDirectory.SecondRootLost` | source/cloned/WindowsPdbReader/MsfDirectory.cs:16-31 | for every page size divisible by 4, header page and list that needs two root pages, stored on pages 1 and 2: the list that is read is another one |
| `MsfDirectory.LoadDirectory` | source/cloned/WindowsPdbReader/MsfDirectory.cs:14-76 | main: for every directory stored on pages whose list fits one root page, the constructor gives its streams, whatever the rented buffer held, exactly when no page count wraps |
| `MsfDirectory.ParseDirectory` | source/cloned/WindowsPdbReader/MsfDirectory.cs:37-73 | the loops parse the directory, and fail exactly when a number lies outside the buffer |
| `MsfDirectory.ReadRoots` | source/cloned/WindowsPdbReader/MsfDirectory.cs:25-31 | the loop over the roots leaves the buffer as described |
| `MsfDirectory.StreamsCovered` | source/cloned/WindowsPdbReader/MsfDirectory.cs:46-73 | a stream has pages for its content, which is what a read relies on, exactly when its page count did not wrap |
| `PdbFiles.OpenStream` | source/cloned/WindowsPdbReader/Program.cs:31-45 | main: from any file that stores a header, roots, a directory and contents on any pages, without wrapped counts, opening it and reading stream i gives the bytes stored for stream i, and fails when there is none |
| `PdbFiles.OpenNameIndex` | source/cloned/WindowsPdbReader/Program.cs:31-47 | main: from such a file with an encoded name index in stream 1, the dictionary loaded is the encoded one, and loading succeeds exactly when the names are distinct up to folding and the count is right |
| `PdbFiles.Open` | source/cloned/WindowsPdbReader/Program.cs:31-41 | header, roots and directory together: the streams of the stored directory, exactly when no page count wraps |
| `PdbFiles.ReadStream` | source/cloned/WindowsPdbReader/DataStream.cs:28-37 | the whole content of a stream that its pages cover |
| `PdbFiles.SmallFile` | source/cloned/WindowsPdbReader/Program.cs:31-45 | such a file for every content of one page: header and root, page list, directory and content |
| `PdbFiles.HeaderRoundTrip` | source/cloned/WindowsPdbReader/Program.cs:378-412 | a stored header and the roots behind it are read back |
| `PdbFiles.HeaderExact` | source/cloned/WindowsPdbReader/Program.cs:378-412 | a file is accepted exactly when it starts with the magic number, but for zeros it lacks at its end |
| `PdbFiles.MagicText` | source/cloned/WindowsPdbReader/Program.cs:380-386 | the magic number is the text Microsoft C/C++ MSF 7.00 and eight bytes that close it |
| `NameIndexes.LoadExact` | source/cloned/WindowsPdbReader/Program.cs:307-364 | main: for every encoded table, buckets placed anywhere, the reader succeeds exactly when the names are distinct up to folding and the count is the number of buckets present; its result then has exactly the encoded names with their streams, age and guid |
| `NameIndexes.LoadNameIndex` | source/cloned/WindowsPdbReader/Program.cs:307-364 | the loops compute that result, and fail exactly where reading does |
| `NameIndexes.AddAllExact` | source/cloned/WindowsPdbReader/Program.cs:340-357 | adding names one by one succeeds exactly when no two have the same fold, and gives exactly these names |
| `NameIndexes.FullsArePresent` | source/cloned/WindowsPdbReader/Program.cs:359-362 | the number checked against the count is the number of present bits below the limit |
| `NameIndexes.PackedBits` | source/cloned/WindowsPdbReader/Program.cs:366-376 | for any flags there are words whose bits are exactly these flags |
| `NameIndexes.ReadWords` | source/cloned/WindowsPdbReader/Program.cs:325-335 | the loop reads a counted list of words, and fails on a negative count or outside the bytes |
| `NameIndexes.ReadCString` | source/cloned/WindowsPdbReader/Program.cs:434-447 | the loop reads the text up to a zero byte or the end, and gives the offset behind the terminator |
| `NameIndexes.TextExact` | source/cloned/WindowsPdbReader/Program.cs:434-447 | a text is read from any offset up to the end of the bytes, and is what comes before the next zero byte or the end |
| `NameIndexes.TextRoundTrip` | source/cloned/WindowsPdbReader/Program.cs:434-447 | a text without zero bytes, stored with its terminator, is read back |
| `Symbols.FindsFirst` | source/cloned/WindowsPdbReader/Program.cs:100-143 | main: over every list of packed records, with anything or nothing behind them, the search gives the first managed procedure with the token, every field as stored but the last, and nothing exactly when there is none; it fails exactly when it comes to a last record that the 40-byte struct overruns |
| `Symbols.RoomEnough` | source/cloned/WindowsPdbReader/Program.cs:100-143 | three bytes behind the records are enough for it not to fail |
| `Symbols.WrongSignature` | source/cloned/WindowsPdbReader/Program.cs:100-108 | bytes without the signature are refused |
| `Symbols.TryGetManProcSym` | source/cloned/WindowsPdbReader/Program.cs:100-143 | the loop ends, the offset growing by at least 2, and computes that search; it fails on a wrong signature and outside the bytes |
| `Symbols.SearchStep` | source/cloned/WindowsPdbReader/Program.cs:110-138 | at a record boundary, of a record that is not overrun, the search either stops at that record or goes on at the next boundary |
| `Symbols.ProcSeen` | source/cloned/WindowsPdbReader/CvInfo.cs:270-286 | what the padded struct makes of a packed symbol: token, offset and all other fields but the last are right, and the last is read one byte too far on |
| `Symbols.RetRegExact` | source/cloned/WindowsPdbReader/CvInfo.cs:270-286 | the last field is right exactly when both its bytes and the byte behind them are equal |
| `Frames.EachFrameOnce` | source/own/clrmd_testing/netcoredbg/frames.cpp:206-343 | main: every walk reports each frame that is neither native nor runtime-unwindable exactly once, with any sorting routine |
| `Frames.WalkerOrderExact` | source/own/clrmd_testing/netcoredbg/frames.cpp:165-343 | main: with distinct addresses the reports come in the walker's order exactly when the addresses of each group held back increase |
| `Frames.WalkerOrder` | source/own/clrmd_testing/netcoredbg/frames.cpp:165-343 | so when addresses increase along the whole walk |
| `Frames.ReportedTypes` | source/own/clrmd_testing/netcoredbg/frames.cpp:302-327 | every report has the type its frame calls for; an internal frame held back is reported as internal; only frames with a function are reported as managed |
| `Frames.TypeExact` | source/own/clrmd_testing/netcoredbg/frames.cpp:302-327 | managed with a function; else unknown unless native, internal if internal, else native |
| `Frames.WalkFrames` | source/own/clrmd_testing/netcoredbg/frames.cpp:206-343 | the loop feeds the callback exactly these reports, in order, until the callback stops it |
| `Frames.HeldUnderNative` | source/own/clrmd_testing/netcoredbg/frames.cpp:237-300 | wherever the walk is cut, it goes on from the frames held back there; these are internal, and there are some only while a native stretch is pending |
| `Frames.StitchInternalFrames` | source/own/clrmd_testing/netcoredbg/frames.cpp:165-203 | feeds the sorted frames until the callback stops |
| `Frames.GetStackTrace` | source/own/clrmd_testing/netcoredbg/frames.cpp:399-466 | the frames are the requested slice of the full numbered list (all from the start on for 0 levels), and the total does not depend on the slice |
| `Frames.WindowExact` | source/own/clrmd_testing/netcoredbg/frames.cpp:399-466 | the slice has exactly the frames from the start on, up to the number asked for unless that is 0, each at its level in the full list |
| `Frames.GetFrameAt` | source/own/clrmd_testing/netcoredbg/frames.cpp:345-379 | a frame comes out exactly when that entry of the full list is managed, and it is that one; the status is a success also past the end |
| `Frames.PastTheEnd` | source/own/clrmd_testing/netcoredbg/frames.cpp:345-379 | a stack of one managed frame, asked for any later level: a success without a frame |
| `FdBuffers.RunConserves` | source/own/clrmd_testing/netcoredbg/platform.cpp:162-192 | main: over every run that stays inside the array, with any short or failing writes, the bytes sent followed by the pending ones are the bytes put, in order |
| `FdBuffers.RunInsideExact` | source/own/clrmd_testing/netcoredbg/platform.cpp:162-192 | main: from any level below the full array, a run of puts and flushes writes a byte behind the array exactly when a byte was put into the overflow cell while the descriptor took nothing, and another byte is put before a write that takes something |
| `FdBuffers.ShortestFailure` | source/own/clrmd_testing/netcoredbg/platform.cpp:162-192 | the shortest run of a new stream that does so has 1025 puts and no write that takes anything; every shorter run stays inside |
| `FdBuffers.CellFreeExact` | source/own/clrmd_testing/netcoredbg/platform.cpp:162-192 | the overflow cell is free after every prefix of a run exactly when no byte is put into it while the descriptor takes nothing |
| `FdBuffers.ProgressFits` | source/own/clrmd_testing/netcoredbg/platform.cpp:176-191 | when every write makes progress, every prefix of a run stays inside and leaves the cell free |
| `FdBuffers.ReadAllSound` | source/own/clrmd_testing/netcoredbg/platform.cpp:194-208 | main: over every run of reads, the bytes given followed by the unread ones are the bytes delivered, and the bytes before the position are the last ones given: all of them, or at least 12 |
| `FdBuffers.ReadStepExact` | source/own/clrmd_testing/netcoredbg/platform.cpp:194-208 | each read gives the next byte delivered, and none exactly when all were given |
| `FdBuffers.RefillExact` | source/own/clrmd_testing/netcoredbg/platform.cpp:194-208 | reading on with nothing unread keeps the last twelve bytes, or fewer, and takes the chunk |
| `FdBuffers.FdBuf.FdSync` | source/own/clrmd_testing/netcoredbg/platform.cpp:176-192 | sends a prefix of the pending bytes and moves the rest to the front; fails exactly when as many are left as fill the buffer |
| `FdBuffers.FdBuf.Overflow` | source/own/clrmd_testing/netcoredbg/platform.cpp:162-170 | puts the byte into the extra cell, then does the same; reports the put that would leave the array, which is the one behind the extra cell |
| `FdBuffers.FdBuf.PutChar` | source/own/clrmd_testing/netcoredbg/platform.cpp:152 | a put as the standard stream buffer does it with these limits, at every level up to the full array |
| `FdBuffers.FdBuf.Underflow` | source/own/clrmd_testing/netcoredbg/platform.cpp:194-208 | with nothing left, keeps the last 12 bytes or fewer and puts the next chunk behind them; gives the next byte, or none at the end |
| `FdBuffers.FdBuf.BumpChar` | source/own/clrmd_testing/netcoredbg/platform.cpp:194-208 | taking a byte as the standard stream buffer does it |
| `HandleRanges.TryGetHandleRange` | source/cloned/MdDumper/Visualization/MetadataVisualizer.cs:201-229 | on handles sorted by kind, whichever hit the binary search gives: the range has all handles of the kind and no others, and it fails exactly when there are none |
| `HandleRanges.GetAggregateHandle` | source/cloned/MdDumper/Visualization/MetadataVisualizer.cs:188-199 | the handle is of the kind exactly for rows from 1 to the count of the range |

## Left out

- Runtime and metadata objects (COM interfaces, Roslyn, portable PDB metadata): they are sequences,
  datatypes and function parameters here, and calls to them do not fail. A failing call in the middle of
  an operation is not modelled.
- Integer widths: ids and hit counts do not wrap at 32 bits, and file offsets and page products do not
  overflow, nor do the sums of the root count. The wrap of array indices (`AccessPaths.IndicesExact`)
  and of page counts (`MsfDirectory.DirectoryRoundTrip`) is modelled.
- Text encodings: names and lines are sequences of characters or bytes. Folding of names in the stream
  index is any function; matching of file names folds ASCII letters only, and the upper-casing of file
  names in Windows builds is not modelled.
- Engine.Breakpoints.TryResolveBreakpointsForModule: finding the token of the entry point in the headers of
  the module's file is a parameter, as is finding functions by name in metadata.
- Engine.Breakpoints.HitManagedBreakpoint: the evaluation of a condition is a function parameter; function
  breakpoint hits with their parameter match are not modelled.
- Engine.RunKeeps: the counter is unbounded; after 2^32 ids the source would start again.
- MiBreakpoints.RunAgreesExact: runs start with empty tables; `Cleanup`, which clears the line table of the MI
  layer only, is not a command here. Function commands are engine operations for the line table, and line
  commands are for the function table.
- MiFunctions.RunAgreesExact: as for lines.
- Escaping.CStringExact: the reader does not know hexadecimal escapes, which are not written, and takes
  characters beyond seven bits as they are.
- FdBuffers.FdBuf.Overflow: what a write behind the array does to other memory is not modelled; the
  method reports it and changes nothing.
- PdbFiles.OpenStream: files with wrapped page counts, or with a directory of more than one root page, are
  those of `MsfDirectory.DirectoryRoundTrip` and `MsfDirectory.PageListExact`.
- MsfDirectory.LoadDirectory: short reads of the file are modelled as reading what the file has; other
  failures of the file are not.
- Frames.WalkFrames: `UnwindNativeFrames` is a stub that yields nothing, so native frames never reach the
  merge, and the stored thread contexts have no effect beyond whether they are valid.
- FdBuffers.FdBuf.PutChar: block transfers and `sungetc` of the standard library are not modelled; nor is the
  destructor, which writes once and drops what is still pending.
- SequencePoints.GetStepRange: the code size is a parameter.
- TypeNames.ResolveOfShow: looking the names up in metadata and building array types for the ranks are calls
  into the runtime.
- `LoadModules`, `LoadNameStream` and `Alignment` of the PDB reader: decoders of the kind already modelled.
- `GetLineNumberInformation`: its own comments mark it as unfinished.
- The stop counter, the eval queue, process launch, sockets, pipes, threads, locks, logging and the printing of
  metadata tables.
