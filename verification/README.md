# Proofs about the OPC UA server supervisor

This project models four parts of the supervisor and proves properties of them in Dafny.

- **The configuration codec** (`Utf8`, `Decimal`, `JsonGrammar`, `JsonText`, `JsonParser`, `JsonExact`,
  `JsonSound`, `ParseExact`, `Canonical`). `JsonGrammar` gives the documents of RFC 8259 (sections 2, 4, 6
  and 7) as derivations that know their text and their meaning. The parser, a class that moves a cursor over
  the text, is proved to accept exactly the documents that hold each of the thirteen fields once; the printer
  is proved to write the shortest such document. UTF-8 is the grammar of section 4 of RFC 3629, surrogate
  pairs are section 2.2 of RFC 2781.
- **The configuration store** (`ServerConfig`, `ConfigStore`, `StoreProtocol`, `ConfigApi`). The repository
  is a class over a table with transactions, in which an adversary may fail any statement; it logs the
  statements that succeeded. `StoreProtocol` interleaves any number of connections, from any table, and shows
  that what the class logs is a run of the protocol with the effect the class promises. `ConfigApi` joins codec
  and store into the PUT/GET contract over the responses.
- **The process controller** (`ProcessController`, `ControllerPool`, `Supervisor`, `CleanExit`, `SignalHandoff`,
  `ApiLifecycle`).
  `ProcessController` is the class with its fields over an operating system that may fail any call; the
  predicates `SpawnStep`, `StopStep` and `ReapStep` say what a critical section does. `ControllerPool`
  interleaves any number of threads whose critical sections are these predicates, with the shutdown flag set
  outside the mutex. `ApiLifecycle` is the start/stop latch of the API server. `Supervisor` puts the main thread,
  the API task with its latch, and the signals together; `CleanExit` is one whole run of it. `SignalHandoff` is
  the child between `fork` and `exec`.
- **The Windows argument quoter** (`CommandLine`), against a reader that follows Microsoft's "Parsing C
  command-line arguments".

Bytes are integers from 0 to 255, a C++ `int` is a 32-bit range, shifts and masks are divisions and
remainders. Errors carry no text: a failed operation answers `None`, `Fail` or `false`.

Four statements hold only under a condition, and the lemmas give it exactly. Printing and parsing is the
identity for well-formed UTF-8 without NUL whose print fits 65536 bytes (`Canonical.RoundTrip`; otherwise
`Canonical.PrintThenParse` says what comes back). The store keeps a configuration exactly when no string has a
NUL (`ConfigStore.StoreRoundTrip`), because text is bound as a C string; the parser's rejection of `\u0000`
is what makes the PUT/GET contract hold. A Windows program name comes back from the command line unless it
has a quote, or needs quotes and ends in a backslash (`CommandLine.CommandLineRoundTrip`). The arguments come
back for every program name whose quotes pair up without a blank after a closed one
(`CommandLine.ArgumentsSurvive`), which includes every name without quotes.

## Model

| member | source | states |
|---|---|---|
| Utf8.ValidUtf8SequenceLength | src/supervisor/api_server.cc:68-100 | the scan returns the length of the multi-byte form of RFC 3629 section 4 that stands at the position, and 0 when none does |
| Utf8.RangeTest | src/supervisor/api_server.cc:95-98 | with a right leading byte and right tails, the code point range tests accept exactly the forms of the grammar: no overlong form, no surrogate, nothing above U+10FFFF |
| Utf8.EncodeThenDecode | src/supervisor/api_server.cc:47-66 | every scalar value is written as one well-formed character, and decoding it gives the value back |
| Utf8.DecodeThenEncode | src/supervisor/api_server.cc:47-100 | every well-formed character is what its own code point is written as |
| Utf8.SurrogatesAreBijective | src/supervisor/api_server.cc:269-289 | the surrogate formula is a bijection between pairs and U+10000..U+10FFFF |
| Utf8.RepairIsIdempotent | src/supervisor/api_server.cc:137-155 | replacing stray bytes by U+FFFD changes exactly the ill-formed strings, and doing it twice is doing it once |
| Utf8.RepairKeepsNul | src/supervisor/api_server.cc:137-155 | the replacement neither adds nor removes a NUL |
| Decimal.FromCharsInvertsIntText | src/config/config_repository.cc:136-148 | the integer text written to a row or printed reads back as the same int, for every int |
| Decimal.FromCharsExact | src/config/config_repository.cc:136-148 | a text is read as n if and only if, without leading zeros, it is the decimal text of n (or minus zero): nothing else is read, and nothing outside the range of an int |
| Decimal.CanonicalIsUnique | src/supervisor/api_server.cc:303-331 | a numeral without superfluous zero is the one printed for its value |
| Decimal.IntTextIsShortest | src/supervisor/api_server.cc:303-331 | no admitted numeral is shorter than the printed form of its value |
| ServerConfig.NamesDiffer | src/supervisor/api_server.cc:162-170 | no two fields share a JSON name |
| ServerConfig.KeysDiffer | src/config/config_repository.cc:63-79 | no two fields share a database key |
| ServerConfig.AllFieldsListed | src/config/config_repository.cc:63-79 | the list of entries names each of the thirteen fields once |
| ServerConfig.EachFieldIsTested | src/config/server_config.cc:23-65 | on the default with one field changed to any value, exactly which values are valid, for each of the thirteen fields |
| JsonGrammar.MeaningIsWellFormed | src/supervisor/api_server.cc:219-301 | whatever escapes a string uses, it means well-formed UTF-8 |
| JsonGrammar.ItemMeaningIsUnit | src/supervisor/api_server.cc:248-298 | every spelled character means one whole character, and NUL only by a zero hex escape |
| JsonGrammar.NumberMeans | src/supervisor/api_server.cc:323-330 | a numeral means n exactly when it is the literal of n or minus zero, and one that does not fit an int means nothing |
| JsonGrammar.HexDigitIsPosition | src/supervisor/api_server.cc:40-45 | exactly the sixteen digits, in either case, have their position as value |
| JsonGrammar.ShortEscapesAreListed | src/supervisor/api_server.cc:248-268 | the two-character escapes are exactly the eight of section 7 with their meanings |
| JsonText.EscapeJsonString | src/supervisor/api_server.cc:102-160 | the loop computes the escape that the next two rows are about |
| JsonText.EscapeIsTotalAndSafe | src/supervisor/api_server.cc:102-160 | the escape of every byte string is a string body of RFC 8259 section 7 and means the repaired string |
| JsonText.EscapeIsShortest | src/supervisor/api_server.cc:102-160 | no spelling of a string is shorter than the escape of what it means |
| JsonText.PlainIsUnescaped | src/supervisor/api_server.cc:439-461 | the field names need no escape |
| JsonText.EscapesAre | src/supervisor/api_server.cc:108-150 | the spelling of the escape of each byte: the short ones, lower-case hex digits for other control bytes, U+FFFD for stray bytes |
| JsonText.PrintIs | src/supervisor/api_server.cc:439-461 | the print has the thirteen members under the names, in the order and with the values that the source lists |
| JsonParser.ConfigJsonParser.SkipWhitespace | src/supervisor/api_server.cc:191-195 | moves the cursor over spaces, tabs, line feeds and carriage returns, and to the first byte that is none |
| JsonParser.ConfigJsonParser.Consume | src/supervisor/api_server.cc:197-204 | moves past the expected byte, or only past the whitespace |
| JsonParser.ConfigJsonParser.ParseHexCodeUnit | src/supervisor/api_server.cc:206-217 | succeeds exactly on four hex digits, with their value |
| JsonParser.ConfigJsonParser.ParseUnicodeEscape | src/supervisor/api_server.cc:269-295 | succeeds exactly on a scalar value other than NUL, a supplementary one spelled as a surrogate pair |
| JsonParser.ConfigJsonParser.ParseCharacter | src/supervisor/api_server.cc:226-298 | reads one character of a string; `JsonExact.CharacterExact` and `JsonSound.CharacterSound` say which |
| JsonParser.ConfigJsonParser.ParseString | src/supervisor/api_server.cc:219-301 | reads a whole string; `JsonExact.BodyExact` and `JsonSound.BodySound` say which |
| JsonParser.ConfigJsonParser.ScanInteger | src/supervisor/api_server.cc:305-322 | moves over a minus sign and digits without superfluous zero |
| JsonParser.ConfigJsonParser.ParseInteger | src/supervisor/api_server.cc:303-331 | reads an integer that fits an int; `JsonSound.IntegerIsRead` says which |
| JsonParser.ConfigJsonParser.ParseValue | src/supervisor/api_server.cc:346-358 | reads a string or an integer, as the first byte tells |
| JsonParser.ConfigJsonParser.ParseMember | src/supervisor/api_server.cc:340-358 | reads a known field name, a colon and a value |
| JsonParser.ConfigJsonParser.ParseMembers | src/supervisor/api_server.cc:339-367 | reads members up to the closing brace and rejects a repeated one |
| JsonParser.ConfigJsonParser.ParseObject | src/supervisor/api_server.cc:333-368 | reads an object; `JsonExact.MembersExact` and `JsonSound.MembersSound` say which |
| JsonParser.ConfigJsonParser.ParseConfig | src/supervisor/api_server.cc:176-188 | computes the parse that `ParseExact.ParseIsExact` characterises, for every input, and terminates |
| JsonExact.CharacterExact | src/supervisor/api_server.cc:226-298 | where a spelled character stands, the parser reads its meaning and ends behind it, unless it means NUL |
| JsonExact.ShortEscapeIsRead | src/supervisor/api_server.cc:247-298 | after a backslash any letter but u is read by the table of section 7, and any other fails |
| JsonExact.HexEscapeIsRead | src/supervisor/api_server.cc:206-217 | four hex digits of either case are read as the number they spell |
| JsonExact.BodyExact | src/supervisor/api_server.cc:219-301 | the same for a whole string body with its closing quote |
| JsonExact.IntegerExact | src/supervisor/api_server.cc:303-331 | where a canonical numeral stands before a non-digit, the scan ends right behind it |
| JsonExact.MemberExact | src/supervisor/api_server.cc:340-358 | where a member stands, the parser reads its name and value, and fails exactly on an unknown name or a value without meaning |
| JsonExact.MembersExact | src/supervisor/api_server.cc:333-368 | on a member list the parser answers what the members add up to |
| JsonExact.ParseDocument | src/supervisor/api_server.cc:176-188 | on any document of the grammar the parser answers what its members add up to, subject to the size cap |
| JsonSound.CharacterSound | src/supervisor/api_server.cc:226-298 | whatever the parser reads as a character is spelled by the grammar |
| JsonSound.BodySound | src/supervisor/api_server.cc:219-301 | whatever it reads as a string body is one, with the closing quote |
| JsonSound.IntegerSound | src/supervisor/api_server.cc:303-331 | whatever it reads as an integer is a canonical numeral |
| JsonSound.IntegerIsRead | src/supervisor/api_server.cc:303-331 | an integer is read as n exactly when the numeral at the cursor is the literal of n or minus zero; a numeral out of range is not read |
| JsonSound.MemberSound | src/supervisor/api_server.cc:340-358 | whatever it reads as a member is one |
| JsonSound.MembersSound | src/supervisor/api_server.cc:333-368 | whatever it reads as a member list is one |
| JsonSound.DocumentOf | src/supervisor/api_server.cc:176-188 | every accepted text is the text of a document |
| JsonSound.CollectFacts | src/supervisor/api_server.cc:359-361 | accepted members have distinct names, each kept with its value |
| ParseExact.BuildConfigExact | src/supervisor/api_server.cc:392-433 | a configuration comes out exactly when there are thirteen members and each field is there with its kind and value |
| ParseExact.DocumentIsParsed | src/supervisor/api_server.cc:176-433 | on a document the answer is `c` if and only if the text fits and the document holds each field of `c` once |
| ParseExact.ParseIsExact | src/supervisor/api_server.cc:176-433 | a text is accepted with result `c` if and only if it is at most 65536 bytes long and is a document that holds `c` |
| ParseExact.ResultDependsOnMeaning | src/supervisor/api_server.cc:176-433 | field order, whitespace and the choice of escapes do not matter |
| ParseExact.ParsedStringsAreClean | src/supervisor/api_server.cc:219-301 | every string of an accepted configuration is well-formed UTF-8 without NUL |
| Canonical.PrintedHolds | src/supervisor/api_server.cc:439-461 | the printed document holds exactly the repaired configuration, and none if a string has a NUL |
| Canonical.PrintThenParse | src/supervisor/api_server.cc:102-461 | parsing the print gives the repaired configuration, or fails exactly on a NUL or a print over 65536 bytes |
| Canonical.CleanIsFixed | src/supervisor/api_server.cc:137-155 | the repair leaves exactly the well-formed configurations alone and is idempotent |
| Canonical.RoundTrip | src/supervisor/api_server.cc:102-461 | parsing the print is the identity if and only if all strings are well-formed and NUL-free and the print fits |
| Canonical.PrintIsShortest | src/supervisor/api_server.cc:176-461 | no accepted text is shorter than the print of its result, so the print is accepted again, whatever its length |
| ConfigStore.CStrKeepsNulFree | src/config/config_repository.cc:81-87 | binding as a C string keeps exactly the NUL-free values |
| ConfigStore.CStrIsPrefix | src/config/config_repository.cc:81-87 | what a C string binding keeps ends right before the first NUL |
| ConfigStore.EntriesAre | src/config/config_repository.cc:63-79 | the thirteen rows, key and value, as the source lists them |
| ConfigStore.DefaultRowsAre | src/config/server_config.cc:5-21 | the thirteen rows that an initialised empty database has |
| ConfigStore.ConfigRepository.WriteEntries | src/config/config_repository.cc:89-116 | a run that fails has written exactly a prefix of the entries, into the transaction if one is open |
| ConfigStore.ConfigRepository.Initialize | src/config/config_repository.cc:244-254 | keeps every row that was there, adds a prefix of the missing defaults, all of them when it answers Ok, and logs exactly the statements of that |
| ConfigStore.ConfigRepository.Save | src/config/config_repository.cc:296-320 | all thirteen rows or none, none for an invalid configuration, it fails only for a reason, and logs a transaction that ends in COMMIT exactly when it answers Ok |
| ConfigStore.ConfigRepository.Load | src/config/config_repository.cc:256-294 | a successful load is what `ConfigStore.LoadTableExact` says of the table, whatever order the rows come in; a failed one has a reason |
| ConfigStore.LoadTableExact | src/config/config_repository.cc:129-294 | a table is loaded as c if and only if c is valid and each of the thirteen rows is there and reads as the value in c; a missing row, or one that is to be an int and is not the text of one, fails the load |
| ConfigStore.UpsertRows | src/config/config_repository.cc:122-127 | the upsert is a merge in which the written rows win: it sets them, and neither removes nor changes any other |
| ConfigStore.SavedTable | src/config/config_repository.cc:307-313 | on any table a save sets exactly the thirteen rows of its configuration and touches no other |
| ConfigStore.FieldsDecide | src/config/config_repository.cc:180-294 | what a table says depends only on the rows of the thirteen keys |
| ConfigStore.LoadAfterSave | src/config/config_repository.cc:180-320 | loading what was saved, among any other rows, gives the configuration cut at its NULs, if that is still valid |
| ConfigStore.StoreRoundTrip | src/config/config_repository.cc:63-320 | among any other rows, a valid configuration survives the store if and only if it is NUL-free |
| ConfigStore.KeepExistingMerges | src/config/config_repository.cc:118-120 | inserting defaults is a merge in which existing rows win |
| ConfigStore.SelfHealing | src/config/config_repository.cc:244-254 | any number of partial runs, then a complete one, give the table of a single complete run |
| ConfigStore.InitializeFillsIn | src/config/config_repository.cc:244-254 | a complete run leaves all thirteen keys and changes no value that was there |
| StoreProtocol.SaveIsAtomic | src/config/config_repository.cc:296-320 | from its BEGIN to its COMMIT or ROLLBACK, and with any actions of other connections in between, a save has the effect that it promises on its own |
| StoreProtocol.SaveIsRun | src/config/config_repository.cc:296-320 | the statements that Save logs are a run of the protocol with the effect that its contract states |
| StoreProtocol.InitializeIsRun | src/config/config_repository.cc:244-254 | so are those that Initialize logs |
| StoreProtocol.InsertKeeps | src/config/config_repository.cc:118-120 | a default inserted at any moment leaves a saved configuration as it is, and otherwise only fills in a missing row |
| StoreProtocol.CommitKeeps | src/config/config_repository.cc:307-313 | what a transaction commits is the table before it with the rows of its configuration |
| StoreProtocol.StepKeepsInv | src/config/config_repository.cc:244-320 | every step of every connection keeps the store invariant |
| StoreProtocol.RunKeepsInv | src/config/config_repository.cc:244-320 | so does every run, whatever table it began with |
| StoreProtocol.NeverMixed | src/config/config_repository.cc:89-320 | at every moment of every run a successful load gives exactly the last committed save or, before any, exactly what a complete Initialize of the first table gives, which is the default if that was empty; never a mixture |
| StoreProtocol.DefaultsAreLoaded | src/config/config_repository.cc:244-294 | a database that was empty and then initialised is loaded as the default |
| StoreProtocol.CommittedIsLoaded | src/config/config_repository.cc:256-320 | a committed NUL-free configuration is what loads give |
| StoreProtocol.OnlyCommitsSave | src/config/config_repository.cc:296-320 | nothing but a commit changes what the last committed configuration is |
| ConfigApi.ErrorBodyIsJson | src/supervisor/api_server.cc:480-484 | for every message the error body is a JSON object whose one member is named error and means the repaired message |
| ConfigApi.StatusBodyIsJson | src/supervisor/api_server.cc:584-592 | for every state, exit code and diagnostic the status body is a JSON object with these three under their names |
| ConfigApi.ConfigHandlers.HandlePutConfig | src/supervisor/api_server.cc:604-624 | 400 exactly for a body that is rejected or invalid, 200 only with the parsed configuration saved, otherwise the table is as before; and the statements it executed |
| ConfigApi.ConfigHandlers.HandleGetConfig | src/supervisor/api_server.cc:594-602 | 200 with the print of what the table says, 500 only when it says nothing or a read failed |
| ConfigApi.PutIsRead | src/supervisor/api_server.cc:594-624 | whatever table a PUT was answered on with 200, it leaves one on which a load gives exactly what the body said |
| ConfigApi.PutCommits | src/supervisor/api_server.cc:604-624 | the effect of a PUT answered with 200 does not depend on what other connections do during it |
| ConfigApi.PutThenGet | src/supervisor/api_server.cc:594-624 | on any database and after any history: if a PUT is answered with 200, then until the next commit every 200 of GET has exactly the canonical print of what the body said as its body |
| ConfigApi.PutBack | src/supervisor/api_server.cc:594-624 | PUTting that text back is never answered with 400, and a 200 leaves the table as it is |
| CommandLine.QuoteWindowsArgument | src/supervisor/process_controller.cc:42-73 | the loop with its backslash counter computes the quoting that the next rows are about |
| CommandLine.BareExactly | src/supervisor/process_controller.cc:43-51 | an argument is passed as it is exactly when it is not empty and has no space, tab, line feed, vertical tab or quote |
| CommandLine.BuildCommandLine | src/supervisor/process_controller.cc:467-475 | program and arguments, each quoted, one space apart |
| CommandLine.ReadsQuoted | src/supervisor/process_controller.cc:42-73 | the reader gets back exactly the argument that was quoted, whatever follows and whichever way doubled quotes are read |
| CommandLine.ReadsArguments | src/supervisor/process_controller.cc:467-475 | the reader gets back every list of arguments: empty ones, trailing backslashes, quotes |
| CommandLine.CommandLineRoundTrip | src/supervisor/process_controller.cc:467-475 | the program name comes back if and only if it has no quote and does not need quotes while ending in a backslash |
| CommandLine.ArgumentsSurvive | src/supervisor/process_controller.cc:467-475 | every argument list comes back if and only if the program name is balanced, which a name without quotes is |
| CommandLine.UnbalancedFails | src/supervisor/process_controller.cc:467-475 | for any other program name, an argument list that does not come back |
| ProcessController.Os.SendSignal | src/supervisor/process_controller.cc:306-334 | may only be called for a child that this controller forked and has not collected |
| ProcessController.Controller.ReapExited | src/supervisor/process_controller.cc:375-441 | what the look at the child found, and the status it left: exit code or signal of the child, crashed unless it exited with 0; a vanished child counts as stopped; without a failed call, running means the child was seen alive |
| ProcessController.DecodeExitedStatus | src/supervisor/process_controller.cc:85-119 | the status carries the exit code or signal of the child, and is stopped for exit 0 or for any exit or signal of a child that had been asked to go |
| ProcessController.Controller.Start | src/supervisor/process_controller.cc:141-153 | refused after RequestShutdown without touching anything; otherwise fails only after a failed call or because the child was seen alive; and the signals it sent |
| ProcessController.Controller.Spawn | src/supervisor/process_controller.cc:150-273 | at most one fork, with both shutdown signals blocked; the child is owned or collected again; SIGKILL goes to a new child exactly when the mask could not be restored; the mask is the entry mask unless a restore failed |
| ProcessController.Controller.ForkChild | src/supervisor/process_controller.cc:212-272 | the same from the fork on; it fails only after a failed call |
| ProcessController.Controller.Discard | src/supervisor/process_controller.cc:234-265 | after a failed mask restore the new child is sent SIGKILL and collected, or else, after a failed call, owned and running |
| ProcessController.Controller.AwaitGone | src/supervisor/process_controller.cc:246-262 | the wait loop ends, and unless waiting fails no child is left; ECHILD means there is none |
| ProcessController.Controller.Stop | src/supervisor/process_controller.cc:280-351 | Ok exactly when no child is left, an error leaves it owned and running and comes only from a failed call; the exact sequence of looks, signals, naps and collections; the final status with the code or signal of the child; it asks only after a look at the child |
| ProcessController.Controller.AwaitExit | src/supervisor/process_controller.cc:310-350 | the same from SIGTERM on, with the deadline |
| ProcessController.Controller.PollOnce | src/supervisor/process_controller.cc:313-328 | one look at the child: settled when it is gone or waiting fails |
| ProcessController.Controller.ForceExit | src/supervisor/process_controller.cc:332-350 | the same from the deadline on |
| ProcessController.Controller.Restart | src/supervisor/process_controller.cc:353-366 | refused at the gate, or a Stop within the timeout with its exact events and status, then a start; fails only after a shutdown request or a failed call |
| ProcessController.EscalationIsBounded | src/supervisor/process_controller.cc:306-334 | SIGKILL only after SIGTERM to the same child, not before the deadline, and right after a look that found the child running and one nap, unless the deadline had passed before the first look; at most ceil(timeout / 20 ms) looks; collecting the child is the last thing a Stop does |
| ControllerPool.StepKeepsInv | src/supervisor/process_controller.cc:141-447 | every step of every thread keeps: the controller runs exactly when it has a child, and no unreaped child is anyone else |
| ControllerPool.EveryStateIsSound | src/supervisor/process_controller.cc:141-447 | so does every run |
| ControllerPool.OkMeansRunning | src/supervisor/process_controller.cc:141-366 | a restart forks only after its stop has left no child, and a start or restart that answers Ok leaves the newest child owned and running |
| ControllerPool.StepAfterShutdown | src/supervisor/process_controller.cc:146-149 | once the flag is set, forks done plus the one start past its gate never grow |
| ControllerPool.AtMostOneForkFollows | src/supervisor/process_controller.cc:141-153 | at most one fork follows RequestShutdown, and only of a start already past its gate |
| ControllerPool.AForkMayFollow | src/supervisor/process_controller.cc:146-149 | the bound is met: one fork can follow |
| ControllerPool.NoChildAfterStop | src/supervisor/process_controller.cc:275-284 | once a Stop returns Ok after the request, no child exists in any later state, whatever is in flight or arrives |
| ControllerPool.RefusedAfterShutdown | src/supervisor/process_controller.cc:146-149 | a start or restart that gets the mutex after the request is refused in its next step and leaves the controller alone |
| ControllerPool.CanGoOn | src/supervisor/process_controller.cc:141-447 | while any call is pending the mutex can be taken or its holder has a step, so no call blocks for ever on the mutex or a gate |
| ControllerPool.CallsEnd | src/supervisor/process_controller.cc:141-447 | a call takes at most seven steps: each of its steps lowers that count, and no other step raises it |
| ControllerPool.CrashIsSticky | src/supervisor/process_controller.cc:269-447 | a crash report survives every call and failure until the controller owns another child |
| Supervisor.SignalReasonMeaning | src/supervisor/supervisor_exit.cc:8-17 | the signal is the reason only if the API task had not finished when the flag was read; API exit only if it had finished |
| Supervisor.WhenTheLoopEnds | apps/opcua-supervisor/main.cc:86-103 | if the API task has finished at the first or second look, the loop is left for good with the API exit as the reason; with a signal and an unfinished task, with the signal; with neither, it goes on |
| Supervisor.ExitZeroMeaning | src/supervisor/supervisor_exit.cc:19-24 | exit code 0 if and only if the reason is the signal, the API task answered Ok and Stop answered Ok; otherwise 1, as after every API exit |
| Supervisor.EverySystemStateIsSound | apps/opcua-supervisor/main.cc:85-121 | the invariant of main thread, API task, signals and controller threads holds in every state of every run |
| Supervisor.ExitZeroLeavesNoChild | apps/opcua-supervisor/main.cc:105-121 | exit code 0 implies that no daemon is left unreaped, then or later |
| Supervisor.ShutdownCanGoOn | apps/opcua-supervisor/main.cc:71-121 | the system always has a step of its own until the main thread has exited: the loop goes on, the Stop of the API server returns, the API task ends and can be joined, no controller call blocks |
| Supervisor.ShutdownEnds | apps/opcua-supervisor/main.cc:71-121 | so a run that can go no further has exited |
| CleanExit.ExitZeroOccurs | apps/opcua-supervisor/main.cc:71-121 | a whole run that forks a daemon, serves, takes a signal, stops both and exits with 0 |
| SignalHandoff.StepKeepsInv | src/supervisor/process_controller.cc:224-231 | every step of the child keeps each shutdown signal blocked or at its default, and a delivered one takes the default action |
| SignalHandoff.SafeExactlyWhenGuarded | src/supervisor/process_controller.cc:191-231 | for every schedule the inherited handler never runs and no signal is lost, if and only if each signal is blocked or at its default when the child is forked |
| SignalHandoff.ControllerForkIsSafe | src/supervisor/process_controller.cc:204-231 | the controller's fork is such a fork, the daemon starts with the supervisor's own mask, and a child that fails leaves with 127 at exec and 126 before |
| ApiLifecycle.EveryStateIsSound | src/supervisor/api_server.cc:500-579 | in every state a request the library has not felt is still to be passed on |
| ApiLifecycle.OneBindForwardOnly | src/supervisor/api_server.cc:538-571 | of all Runs at most one binds, and the lifecycle only moves forward |
| ApiLifecycle.OkRunWasStopped | src/supervisor/api_server.cc:538-571 | a Run that answers Ok was asked to stop and leaves the lifecycle stopped, one with a bad argument never does, and of any two Runs at most one does |
| ApiLifecycle.RunsEnd | src/supervisor/api_server.cc:538-579 | no run takes more steps than its calls have |
| ApiLifecycle.CanGoOn | src/supervisor/api_server.cc:538-579 | a run can stop only with every call returned, or serving unasked |
| ApiLifecycle.NoLostStop | src/supervisor/api_server.cc:500-579 | a run with a Stop in it comes to rest only with every call returned and the listener stopped or never started |

## Left out

- The HTTP routes, sockets, content types and the payload limit of the library; `/health` and the
  start/stop/restart handlers, whose effect is one call of the controller.
- ApiLifecycle.NoLostStop: assumes that the library marks itself running before it calls the start handler and
  that `stop` takes effect while it is running; httplib is not part of this model.
- ConfigStore.ConfigRepository.Load: its one SELECT reads one snapshot of the rows, which SQLite guarantees; a key stored by another program is taken to have no NUL, since it would be read as the key cut there.
- ConfigStore.ConfigRepository.Save: a ROLLBACK is assumed to take effect; SQLite, its WAL mode and statement handles are a table, a transaction and failures.
- ConfigApi.ConfigHandlers.HandlePutConfig: the text of the diagnostic is a parameter.
- ConfigApi.PutThenGet: a BEGIN IMMEDIATE that succeeds is taken to mean that no other connection is writing.
- Wording of all error messages and diagnostics: only acceptance, state and exit code are modelled.
- ProcessController.Controller.Stop: the 32-bit clock and duration types are unbounded integers.
- ProcessController.Controller.AwaitGone: waiting is interrupted by signals finitely often.
- ProcessController.Controller.Start: preparing the empty signal sets (lines 192-202) is taken to succeed; it happens before anything changes.
- ProcessController.Os.SendSignal: process ids stand for processes and are not reused.
- ControllerPool.EveryStateIsSound: the system calls inside one critical section are one step; a child may vanish between steps, and the flag may be set between steps.
- The destructor of the controller, which is a Stop with a timeout of 500 ms.
- SignalHandoff.SafeExactlyWhenGuarded: ends at `exec`; what the daemon then does with its signals is its own.
- CommandLine.QuoteWindowsArgument: starts from 16-bit text without NUL; the conversion from UTF-8 and the Windows process calls are foreign.
- Supervisor.EverySystemStateIsSound: starts at the first call of the controller; `GetApiResult` and `ParseApiPort` are not modelled, an exception of the API task is an error result.
- Supervisor.ShutdownEnds: is about runs that come to rest; that the scheduler is fair to the main thread, and the mutex to its callers, is not modelled.
- `src/daemon` and `apps/opcua-daemon`, thin wrappers over open62541.
