# Formal model of the framework's hard core

The project models six parts of the Go framework and proves what they are for:

- **HTTP path templates**: tokenizer, recursive-descent parser, printer and opcode compiler
  (`Strings`, `Template`, `Tokenizer`, `Lexing`, `Parser`, `RoundTrip`, `ParseSound`, `Compiler`), and the grammar they
  are measured against (`Grammar`, `GrammarExact`, `ParseExact`).
- **Wildcard path matcher**: a trie changed in place and its backtracking search
  (`Search` declares the search and what it should find, `SearchOrder` which of several patterns, `Matcher` is the
  class, `MatcherRuns` covers runs).
- **Layered configuration**: the prefix tree with its flat index (`PrefixTree`), the merge of the levels (`Layers`),
  the notifications (`Replay`) and the classes that compute both (`Config`).
- **In-process stream**: one direction (`Pipe`) and the whole stream (`Stream`) as step relations over interleaved
  client, server and environment actions, what is sent against what arrives (`StreamOffers`, `Ledger`) and what can be
  delivered (`StreamRuns`). `Send`, `Recv`, `Close` and `WriteStatus` are split at every point where
  another goroutine may run.
- **Retry engine**: the task queue (`TaskQueue`), the controller as a step relation (`Retry`, `RetryRuns`) and the
  arithmetic of time budgets and back-off in 64 bits (`RetryTimes`).
- **Registry, discovery, balancer, round-robin picker** (`Registry`, `RegistryMeta`, `RegistryOrder`, `Discovery`,
  `Balancer`, `RoundRobin`).

Code that changes state is a class or a method with loops, proved against a function of its inputs or of its old
state; the laws are lemmas about these functions. Go maps are walked in an arbitrary order, and concurrency is a step
relation in which every enabled step may come next.

`dafny verify dfyconfig.toml` checks everything.

Where the code does less than its documentation, the model follows the code and states exactly when the law holds:

- `accept` takes a slash for any symbol, and a verb is not checked, so the parser accepts texts outside the grammar of
  `http.proto` (`ParseExact.ParseExactly` says exactly what is accepted and with which result; `GrammarExact.TextExact`
  and `GrammarExact.ResultExact` say exactly which of it is in the grammar).
- A final literal with a colon loses its tail to the verb (`ParseSound.ParsePrintExact`, `ParseSound.ReparseExact` are
  equivalences).
- A deep wildcard needs a literal behind it or the end (`Search.DeepSafeExact` is the equivalence on patterns,
  `Search.FindExact` the one on tries and requests).
- A sync removes keys from the cache but never from the wrapper (`Layers.StepLayered` is an equivalence).
- A key with an empty segment is announced but not cached (`Replay.StepReplayExact` is an equivalence).
- A service name repeated in one bulk call loses notifications (`Registries.StepAgrees` is an equivalence).
- A bulk call does not announce changed metadata (`RegistryMeta.BulkFresh` is an equivalence).
- Notifications are sent after the lock is released (`RegistryOrder.OrderExact` is an equivalence).
- A launch checks the closed flag before it inserts (`Retries.LaunchAfterClose` is an equivalence).
- The back-off factor loses its bit at 63 (`RetryTimes.BackoffExact` is an equivalence).

## Model

| member | source | states |
|---|---|---|
| `Templates.SegmentString` | 3rdparty/grpc-gateway/httprule/types.go:30-48 | prints a segment: a wildcard as its stars, a literal as itself, a variable in braces with its field path and its segments joined by slashes |
| `Templates.SegmentStrings` | 3rdparty/grpc-gateway/httprule/types.go:42-48 | the loop that collects the printed segments gives every one of them, in order |
| `Templates.TemplateString` | 3rdparty/grpc-gateway/httprule/types.go:50-60 | a template prints as a slash, its segments joined by slashes, and a colon and the verb if there is one |
| `Templates.PCharsExclude` | 3rdparty/grpc-gateway/httprule/parse.go:259-307 | a text that passes the pchar check holds no slash, brace or NUL |
| `Tokenizer.Scan` | 3rdparty/grpc-gateway/httprule/parse.go:38-80 | the scanning loop with its three states computes the declarative token list |
| `Tokenizer.TokenizePath` | 3rdparty/grpc-gateway/httprule/parse.go:38-91 | the whole tokenizer, with the verb cut off the last token and the end marker appended |
| `Lexing.TokensLexed` | 3rdparty/grpc-gateway/httprule/parse.go:38-80 | for every text the tokens are texts and delimiters of the state they stand in, and put together they are the text again |
| `Lexing.TokensConcat` | 3rdparty/grpc-gateway/httprule/parse.go:38-80 | conversely, a list of tokens that is lexed is exactly what the tokenizer returns for its concatenation |
| `Parser.ExpectPChars` | 3rdparty/grpc-gateway/httprule/parse.go:259-307 | the loop with the percent-escape state accepts exactly the pchar texts |
| `Parser.ExpectIdent` | 3rdparty/grpc-gateway/httprule/parse.go:310-332 | the loop accepts exactly the identifiers |
| `Parser.TokenParser.Accept` | 3rdparty/grpc-gateway/httprule/parse.go:224-249 | takes the first token iff it fits the term, moving it from the waiting to the accepted tokens, else changes nothing |
| `Parser.TokenParser.Segments` | 3rdparty/grpc-gateway/httprule/parse.go:111-128 | the consuming parser returns what the recursive grammar function returns and leaves exactly its rest |
| `Parser.TokenParser.Segment` | 3rdparty/grpc-gateway/httprule/parse.go:130-154 | the same for one segment, trying wildcard, deep wildcard, literal and variable in this order |
| `Parser.TokenParser.Variable` | 3rdparty/grpc-gateway/httprule/parse.go:156-183 | the same for a variable, whose segments default to one wildcard |
| `Parser.TokenParser.FieldPath` | 3rdparty/grpc-gateway/httprule/parse.go:185-201 | the same for a dotted field path |
| `Parser.Parse` | 3rdparty/grpc-gateway/httprule/parse.go:19-36 | the whole parser: leading slash, tokens, segments, end marker, with the error of the step that fails |
| `RoundTrip.ParseTopTokens` | 3rdparty/grpc-gateway/httprule/parse.go:100-183 | the parser reads the tokens of any well-formed segments back as these segments and stops behind them |
| `RoundTrip.TokenizePrinted` | 3rdparty/grpc-gateway/httprule/parse.go:38-91 | printing and tokenizing gives the tokens of the segments and the verb |
| `RoundTrip.ParsePrint` | 3rdparty/grpc-gateway/httprule/parse.go:19-201 | parsing a printed well-formed template gives its segments and verb back |
| `ParseSound.ParseWellFormed` | 3rdparty/grpc-gateway/httprule/parse.go:19-201 | every text that parses gives well-formed segments, and a well-formed verb unless the text holds a NUL |
| `ParseSound.ColonLost` | 3rdparty/grpc-gateway/httprule/parse.go:82-90 | a final literal with a colon and no verb never survives printing and parsing |
| `ParseSound.ParsePrintExact` | 3rdparty/grpc-gateway/httprule/types.go:50-60 | over all segments and verbs: parsing the print gives them back if and only if they are well formed |
| `ParseSound.ReparseExact` | 3rdparty/grpc-gateway/httprule/parse.go:19-36 | over all texts that parse: the result survives printing if and only if its verb has no delimiter and it is colon-safe |
| `ParseSound.SlashIsWildcard` | 3rdparty/grpc-gateway/httprule/parse.go:227-230 | the parser takes a slash where it looks for a wildcard, so two slashes parse as one |
| `ParseSound.TrailingColon` | 3rdparty/grpc-gateway/httprule/parse.go:82-90 | a trailing colon parses to an empty verb, and the result does not survive printing |
| `ParseSound.VerbSurvives` | 3rdparty/grpc-gateway/httprule/parse.go:82-90 | a verb that comes back from printing and parsing has no delimiter in it |
| `Grammar.DerivedSeparates` | 3rdparty/googleapis/google/api/http.proto:225-232 | no text of the grammar has a slash in the place of a segment, or a NUL |
| `Grammar.SegmentsNeat` | 3rdparty/googleapis/google/api/http.proto:225-232 | every text of the grammar closes its braces, is balanced, has no two slashes in a row and none at its ends |
| `Grammar.SegmentsParity` | 3rdparty/googleapis/google/api/http.proto:225-232 | two texts of the same segments differ in length by an even number, since they differ only in whether a lone wildcard of a variable is written |
| `GrammarExact.SegmentsDerive` | 3rdparty/grpc-gateway/httprule/parse.go:111-128 | what the parser reads is a text of the grammar for the segments it returns, wherever slashes separate |
| `GrammarExact.ParsedDerives` | 3rdparty/grpc-gateway/httprule/parse.go:19-36 | the parsed part of a text is derived from the segments, wherever slashes separate |
| `GrammarExact.ResultExact` | 3rdparty/grpc-gateway/httprule/parse.go:19-201 | over all texts that parse: the result is a derivation of the text if and only if no slash stands in the place of a segment, a verb that was cut off is a literal, and there is no NUL |
| `GrammarExact.TextExact` | 3rdparty/grpc-gateway/httprule/parse.go:19-201 | over all texts that parse: the text belongs to the grammar at all if and only if no slash stands in the place of a segment, the verb is made of pchars, the text does not end in a variable and a colon, and there is no NUL |
| `GrammarExact.SlashOutside` | 3rdparty/grpc-gateway/httprule/parse.go:227-230 | two slashes parse and are not in the grammar |
| `GrammarExact.BraceVerbOutside` | 3rdparty/grpc-gateway/httprule/parse.go:82-90 | a brace parses as a verb and is not in the grammar |
| `ParseExact.Accepted` | 3rdparty/grpc-gateway/httprule/parse.go:19-201 | every text that is read as well-formed segments and a verb, in the grammar or with slashes for wildcards, parses to them |
| `ParseExact.GrammarAccepted` | 3rdparty/grpc-gateway/httprule/parse.go:156-183 | completeness: every derivation of well-formed segments and verb, with variables in the short or the long form, is parsed back |
| `ParseExact.ParseExactly` | 3rdparty/grpc-gateway/httprule/parse.go:19-201 | over all texts without NUL: the parse succeeds with given segments and verb if and only if they are well formed and the text is read as them |
| `ParseExact.PrintDerived` | 3rdparty/grpc-gateway/httprule/types.go:30-60 | the printed segments are a text of the grammar |
| `ParseExact.PrintLongest` | 3rdparty/grpc-gateway/httprule/types.go:42-48 | of all texts of some segments the printer chooses the longest: every variable with its segments |
| `Compiler.CompileSegment` | 3rdparty/grpc-gateway/httprule/compile.go:45-80 | the ops of one segment, a variable being its segments, a concatenation and a capture |
| `Compiler.CompileSegments` | 3rdparty/grpc-gateway/httprule/compile.go:82-86 | the ops of all segments in order |
| `Compiler.Compile` | 3rdparty/grpc-gateway/httprule/compile.go:82-117 | pool, fields and opcode pairs are those of the ops: every string operand is its index in the pool, every other the number itself |
| `Compiler.Operand` | 3rdparty/grpc-gateway/httprule/compile.go:96-104 | a string operand is its index in the pool, entered on first use, and the map of constants stays the inverse of the pool |
| `Compiler.PoolExact` | 3rdparty/grpc-gateway/httprule/compile.go:88-110 | the pool has no duplicate and holds exactly the strings of the ops, so that every index is in range |
| `Compiler.FieldPaths` | 3rdparty/grpc-gateway/httprule/compile.go:105-107 | the fields are the field paths of the variables, in order |
| `Compiler.DecodeExact` | 3rdparty/grpc-gateway/httprule/compile.go:88-110 | reading the opcodes back through the pool gives the emitted ops if and only if no string operand is empty |
| `Compiler.DecompileOps` | 3rdparty/grpc-gateway/httprule/compile.go:45-80 | a stack machine that never underflows rebuilds the segments from their ops |
| `Compiler.CompileInvertible` | 3rdparty/grpc-gateway/httprule/compile.go:82-117 | opcodes and pool together give the segments back |
| `Compiler.WellFormedStrings` | 3rdparty/grpc-gateway/httprule/compile.go:57-80 | no well-formed template has an empty string operand, so compilation loses nothing of what the parser returns |
| `Matcher.PathMatcher.AddChild` | http/matcher.go:56-60 | a missing child is created, and every other path keeps its node |
| `Matcher.PathMatcher.SetMeta` | http/matcher.go:65-65 | the meta is appended at one node only |
| `Matcher.PathMatcher.AddPattern` | http/matcher.go:50-67 | the trie gains the path and the meta at its end; an empty component fails and leaves the nodes made so far |
| `Matcher.PathMatcher.MatchInternal` | http/matcher.go:136-188 | the backtracking search ends (components left, then nodes below) and returns the metas the declarative search finds |
| `Matcher.PathMatcher.MatchDeep` | http/matcher.go:169-181 | the loop below a deep wildcard tries the positions in order |
| `Matcher.PathMatcher.Match` | http/matcher.go:70-81 | a match from the root |
| `Matcher.PathMatcher.Clear` | http/matcher.go:129-134 | an empty trie |
| `Search.FindSound` | http/matcher.go:136-188 | from any node, what is found is stored there or below and reached by the components |
| `Search.FindComplete` | http/matcher.go:136-188 | from any node, if something stored is reached, the search succeeds |
| `Search.FindExact` | http/matcher.go:136-188 | the search succeeds if and only if some stored pattern is reached, and then returns such a pattern |
| `Search.Sound` | http/matcher.go:136-188 | what is found glob-matches the request |
| `Search.Complete` | http/matcher.go:150-188 | if a stored pattern matches, each of its deep wildcards being last or followed by a literal, the search succeeds whatever shares the trie |
| `Search.DeepBeforeStar` | http/matcher.go:169-181 | without the condition it can fail: a deep wildcard before a wildcard takes no empty run |
| `Search.DeepSiblingHides` | http/matcher.go:171-179 | a literal edge below a deep wildcard hides the wildcard edge beside it |
| `Search.DeepSiblingFails` | http/matcher.go:171-179 | a trie with these two patterns in which the search fails although one of them matches |
| `Search.UnsafeMissed` | http/matcher.go:169-181 | every pattern in which a deep wildcard is followed by a wildcard is missed by its shortest match, even alone in the trie |
| `Search.DeepSafeExact` | http/matcher.go:136-188 | a pattern alone in the trie is found by every request that matches it if and only if each of its deep wildcards is last or followed by a literal |
| `Search.Priority` | http/matcher.go:150-162 | without deep edges the search succeeds if and only if a stored pattern matches, and the choice has the literal wherever it first leaves another match |
| `SearchOrder.FindLeast` | http/matcher.go:136-188 | from every node the search takes the least way to a stored pattern: literal before wildcard before deep wildcard, below a deep wildcard the earliest position first and the node itself last |
| `SearchOrder.FindIsLeast` | http/matcher.go:136-188 | the search, exactly: it returns where the least way ends, and fails if and only if no way leads to a stored pattern |
| `SearchOrder.EarliestPosition` | http/matcher.go:169-181 | below a deep wildcard no way goes on from an earlier position than the one taken |
| `SearchOrder.ReachesWalk` | http/matcher.go:136-188 | every reached pattern is the end of a way |
| `SearchOrder.DeepPriority` | http/matcher.go:150-188 | in any trie the result is any other reached pattern itself or takes the preferred edge where it first leaves it, unless they share a deep wildcard before that or the component is itself one |
| `MatcherRuns.BuildHolds` | http/matcher.go:50-67 | after any run of additions each pattern holds exactly the metas added under it, in order |
| `MatcherRuns.BuildNodes` | http/matcher.go:51-63 | after any run the trie has exactly the nodes the additions went through, failed ones up to their empty component |
| `MatcherRuns.MatchSound` | http/matcher.go:50-188 | after any run a match returns exactly the metas added under one pattern that matches |
| `MatcherRuns.MatchComplete` | http/matcher.go:50-188 | after any run a request that matches an added deep-safe pattern is matched |
| `PrefixTrees.PrefixTree.Put` | config/internal/prefix_tree.go:57-76 | the key gets the value in both views, a key with an empty segment changes nothing, all other keys are kept |
| `PrefixTrees.PrefixTree.MakeNode` | config/internal/prefix_tree.go:61-72 | walks to the node of a key and makes the missing nodes: every old path keeps its node, and every new path is a prefix of the key |
| `PrefixTrees.PrefixTree.NodeOf` | config/internal/prefix_tree.go:78-93 | the node that the segments of a key walk to, or nil |
| `PrefixTrees.PrefixTree.Get` | config/internal/prefix_tree.go:95-104 | the value of the flat index |
| `PrefixTrees.PrefixTree.TwoViews` | config/internal/prefix_tree.go:95-104 | the flat index and the trie walk are one map: a key is stored iff its node exists and has a value, and then with that value |
| `PrefixTrees.PrefixTree.Del` | config/internal/prefix_tree.go:106-115 | removes the key from both views and keeps all others |
| `PrefixTrees.PrefixTree.Keys` | config/internal/prefix_tree.go:117-126 | every stored key, once |
| `PrefixTrees.PrefixTree.Clear` | config/internal/prefix_tree.go:128-137 | nothing is stored |
| `PrefixTrees.PrefixTree.Travel` | config/internal/prefix_tree.go:143-161 | the traversal below a node returns exactly the keys whose segments start with its path |
| `PrefixTrees.PrefixTree.SearchByPrefix` | config/internal/prefix_tree.go:139-170 | exactly the stored keys equal to the prefix or extending it by whole segments, with their values |
| `PrefixTrees.SubtreeIsPrefix` | config/internal/prefix_tree.go:139-170 | a prefix of the list of segments is a prefix of the text up to a separator |
| `Strings.SplitPrefix` | config/internal/prefix_tree.go:44-55 | splitting turns extension by whole parts into extension of the list, both ways |
| `Config.SourceWrapper.OnDelete` | config/internal/source.go:145-151 | the wrapper forgets the keys, and no other |
| `Config.SourceWrapper.Store` | config/internal/source.go:137-159 | update and sync both overwrite and never remove |
| `Config.SourceWrapper.Get` | config/internal/source.go:128-135 | the value the wrapper holds, if any |
| `Config.ConfigImpl.PutValues` | config/internal/config_impl.go:150-158 | the storing loop, in any order of the keys: stored are the keys not cached at a higher level, announced those whose value changed |
| `Config.ConfigImpl.FindBelow` | config/internal/config_impl.go:174-181 | the highest lower level that holds the key |
| `Config.ConfigImpl.DropKeys` | config/internal/config_impl.go:170-186 | the dropping loop: keys cached at this level fall back or go away, and are announced accordingly |
| `Config.ConfigImpl.DropUnmentioned` | config/internal/config_impl.go:213-230 | the same for the cached keys a sync does not mention |
| `Config.ConfigImpl.Updated` | config/internal/config_impl.go:147-161 | an update: wrappers, cache and the calls made on the watchers are those of the model step |
| `Config.ConfigImpl.Deleted` | config/internal/config_impl.go:163-190 | a delete: the same |
| `Config.ConfigImpl.Synced` | config/internal/config_impl.go:192-234 | a sync: the same; an empty one is dropped by the notifier |
| `Config.ConfigImpl.SyncLevel` | config/internal/config_impl.go:131-142 | one level of the initial sync is put over the cache |
| `Config.ConfigImpl.SyncAll` | config/internal/config_impl.go:124-145 | the initial sync reads the levels in ascending order up to the first error and leaves their overlay, and a watcher that starts from nothing has the cache when the calls are in |
| `Config.ConfigImpl.SyncSource` | config/internal/config_impl.go:128-143 | one source: the wrapper and the cache take its values, and the watchers are told |
| `Config.TellsMore` | config/internal/config_impl.go:132-141 | a watcher that has the cache has it after the calls of one more level |
| `Config.OverlayIsDifference` | config/internal/config_impl.go:135-137 | a level announces exactly the keys it makes new or changes |
| `Config.CallsApply` | config/watcher/notifier.go:46-64 | skipping empty calls does not change what a watcher ends up with |
| `Layers.InitialAt` | config/internal/config_impl.go:124-145 | after the initial sync each key has the value of the highest level that holds it |
| `Layers.StepLayered` | config/internal/config_impl.go:147-234 | the cache stays the merge of the levels after every update and delete, and after a sync if and only if it covers its level |
| `Layers.SyncExact` | config/internal/config_impl.go:192-234 | any sync of a layered cache, key by key: a key left out that its level holds highest falls back to the levels below, every other key has the highest value |
| `Layers.SyncLosesKey` | config/internal/source.go:153-159 | a sync that leaves out a key of its level: the wrapper keeps it, the cache loses it |
| `Layers.StepGrounded` | config/internal/config_impl.go:147-234 | after every event, arbitrary syncs included, a cached level and value are what that level holds |
| `Layers.RunLayered` | config/internal/config_impl.go:124-234 | over any run of updates, deletes and covering syncs: each cached key has the value and level of the highest level holding it, and is absent iff none holds it |
| `Layers.RunGrounded` | config/internal/config_impl.go:124-234 | over any run at all a cached level and value are what that level holds |
| `Replay.StepReplay` | config/internal/config_impl.go:147-234 | applying the notifications of one event to a watcher that equals the cache gives the new cache, on all cacheable keys |
| `Replay.NoticeIsDifference` | config/internal/config_impl.go:147-234 | unchanged values are not sent again: a notice is exactly the difference the event makes to the cache, on cacheable keys |
| `Replay.StepReplayExact` | config/internal/config_impl.go:147-234 | on all keys, if and only if the event announces no key with an empty segment |
| `Replay.EmptyKeyAnnounced` | config/internal/prefix_tree.go:63-65 | a key with an empty segment reaches the watcher and not the cache |
| `Replay.RunReplay` | config/internal/config_impl.go:147-234 | over any run a watcher that starts from a snapshot and sees only its notifications keeps up with the cache on all cacheable keys |
| `Replay.RunReplayEqual` | config/internal/config_impl.go:147-234 | over any run with well-formed keys its map is the map of the cache after every event |
| `Pipes.StepInv` | stream/grpc_stream.go:203-278 | every interleaved step of one direction keeps conservation, the bound of 16 and the close discipline, and none sends on or closes a closed channel |
| `Pipes.NothingLost` | stream/grpc_stream.go:230-262 | until the cancel, what was accepted is what was received and what is buffered |
| `Pipes.ClosedAcceptsNothing` | stream/grpc_stream.go:203-228 | no step puts a payload on a closed channel |
| `Streams.AnyStep` | stream/grpc_stream.go:175-278 | every client, server and environment step keeps the invariant of the whole stream and does not panic |
| `Streams.StatusAfterData` | stream/grpc_stream.go:175-188 | a final status the client took is the last payload ever accepted, and everything before it was taken first |
| `Streams.RunSafe` | stream/grpc_stream.go:175-377 | in every interleaving: conservation in order, at most 16 buffered, nothing lost before a cancel, EOF and status only after all data, header before any server payload, no panic next |
| `Streams.RunLater` | stream/grpc_stream.go:47-81 | in every continuation a closed channel stays closed and accepts nothing, and a sent header keeps its metadata |
| `StreamOffers.ServerOffers` | stream/grpc_stream.go:374-377 | in every run what the server channel accepted is, in order, a subsequence of what was handed to SendMsg and WriteStatus, values included; a prefix until a cancel; and until WriteStatus ends what was handed over is what was received, is buffered or is being sent |
| `StreamOffers.ClientSends` | stream/grpc_stream.go:298-315 | in every run each payload the client channel accepted is one that was offered, each offer used once; until the stream is cancelled, ended or closed no offer is dropped |
| `StreamOffers.HeaderExact` | stream/grpc_stream.go:47-81 | in every run the header is what was set before it was sent, in order |
| `Ledgers.EntryInv` | stream/grpc_stream.go:203-228 | every step of one direction keeps the account of offers, and only a closed or cancelled stream drops one |
| `StreamRuns.CanBuffer` | stream/grpc_stream.go:120-161 | sixteen messages can be sent before any is received |
| `StreamRuns.CanFinish` | stream/grpc_stream.go:175-262 | for all messages and any status some run delivers them all to the client, and then EOF |
| `StreamRuns.CanServeAll` | stream/grpc_stream.go:298-332 | for all messages some run delivers them all to the server, and then EOF |
| `TaskQueues.TaskQueue.AddTask` | internal/retry/task_queue.go:27-42 | invalidates and cancels the first valid task if asked to, and appends the new one |
| `TaskQueues.TaskQueue.RemoveTask` | internal/retry/task_queue.go:44-54 | invalidates and cancels every task under the id, valid or not |
| `TaskQueues.TaskQueue.CloseQueue` | internal/retry/task_queue.go:56-69 | cancels every valid task, empties the queue and closes it |
| `TaskQueues.TaskQueue.IsTaskValid` | internal/retry/task_queue.go:71-86 | the flag of the first task under the id in an open queue, else false |
| `TaskQueues.TaskQueue.TaskCount` | internal/retry/task_queue.go:88-104 | the number of valid tasks of an open queue, else zero |
| `TaskQueues.TaskQueue.IsQueueClosed` | internal/retry/task_queue.go:106-111 | the closed flag |
| `TaskQueues.ApplyInv` | internal/retry/task_queue.go:27-69 | every call keeps: tasks in order of insertion, a queued task valid iff its cancel function was never called, a task that left was cancelled |
| `TaskQueues.EvictsOldest` | internal/retry/task_queue.go:31-39 | an evicting insertion takes validity from the valid task added earliest and from no other |
| `TaskQueues.ApplyCount` | internal/retry/task_queue.go:27-69 | how each call changes the number of valid tasks |
| `TaskQueues.AtMostOneValid` | internal/retry/task_queue.go:27-69 | if every insertion but the first evicts, any interleaving leaves at most one valid task |
| `TaskQueues.CloseIsFinal` | internal/retry/task_queue.go:56-86 | in any run a close cancels every task added before it, and afterwards no id is reported valid |
| `TaskQueues.ReportsExact` | internal/retry/task_queue.go:71-86 | with distinct ids a task is reported valid iff the queue is open and its cancel function was never called |
| `TaskQueues.AddReports` | internal/retry/task_queue.go:27-42 | a new task is found valid under its own id, and every other id keeps its answer, up to the eviction |
| `TaskQueues.RemoveReports` | internal/retry/task_queue.go:44-54 | after a removal no task under the id is valid, and all others are as before |
| `Retries.StepInv` | internal/retry/retry_controller.go:218-241 | every step of the controller and of other goroutines keeps the invariant of a run |
| `Retries.Consecutive` | internal/retry/retry_controller.go:210-241 | for every order of signals attempts carry RetryNum 0, 1, 2, ... and each but the first was allowed by the policy |
| `Retries.AttemptsBounded` | internal/retry/retry_policy.go:13-15 | for every order of signals at most max(1, N) attempts under the strict policy and N + 1 under the non-strict one |
| `Retries.LimitReached` | retry/retry.go:77-79 | some order of signals launches exactly that many |
| `Retries.NoneAfterRefusal` | internal/retry/retry_controller.go:222-227 | once the policy refuses, nothing is launched again |
| `Retries.AtMostOneAfterClose` | internal/retry/task_scheduler.go:90-99 | after a close at most one attempt is launched, and only if its check of the flag came before the close |
| `Retries.LaunchAfterClose` | internal/retry/task_scheduler.go:90-99 | in every state with a closed queue, some continuation still launches an attempt if and only if the check has passed and the insertion has not happened |
| `Retries.LateAttemptIsMute` | internal/retry/task_scheduler.go:101-143 | no attempt launched in that gap is ever reported valid |
| `Retries.GapExists` | internal/retry/task_scheduler.go:90-99 | a close between check and insertion does let an attempt start |
| `Retries.OneAtATime` | internal/retry/retry_controller.go:218-230 | with overlap disabled every reachable state has at most one valid attempt, and every attempt is told of at most one |
| `RetryRuns.ContextExact` | internal/retry/retry_controller.go:218-230 | in every run attempt i is told the error of the i-th retry or time-out signal, and the first none |
| `RetryRuns.LaunchCancels` | internal/retry/retry_controller.go:223-224 | in every run launching an attempt cancels the oldest valid one, and only that, if and only if it is a retry for which the policy refused overlap |
| `RetryRuns.AllOverlap` | internal/retry/concurrency_policy.go:5-14 | with overlap always allowed, a run without removals and closes keeps all attempts valid, and each is told how many ran |
| `RetryRuns.NoneAfterQuit` | internal/retry/task_scheduler.go:145-160 | after the quit signal nothing is launched |
| `RetryRuns.OnlyQuitEnds` | internal/retry/task_scheduler.go:145-160 | the controller stops waiting if and only if it has taken the quit signal |
| `RetryTimes.BudgetLaw` | internal/retry/retry_controller_factory.go:5-7 | N attempts of the derived time-out and the N - 1 intervals between them stay within the limit and fall short of it by less than N |
| `RetryTimes.BudgetMet` | internal/retry/retry_controller_factory.go:16-17 | the same with negative durations: when limit plus interval is negative the total misses the limit on the other side |
| `RetryTimes.TimeoutSign` | internal/retry/retry_controller_factory.go:5-7 | the derived time-out is not negative iff the limit covers the intervals alone |
| `RetryTimes.TotalTimeExact` | internal/retry/retry_interval_policy.go:16-22 | the first attempt waits no interval |
| `RetryTimes.BackoffExact` | retry/retry.go:31-45 | the delay is d * 2^(k-1) iff d is zero, or k is at most 62 and the product fits in 63 bits |
| `RetryTimes.BackoffSum` | retry/retry.go:31-45 | unjittered exponential back-off over k retries sums to d * (2^k - 1) |
| `RetryTimes.ConstantSum` | retry/retry.go:39-42 | without the exponential option it sums to d * k |
| `RetryTimes.BackoffOverflows` | retry/retry.go:44-44 | at 63 retries the delay of one unit is negative, from 64 on it is zero |
| `Discoveries.Discovery.BuildAddrs` | registry/discovery.go:384-405 | the picker list holds the instances that are not HTTP endpoints, in order |
| `Discoveries.InfosExact` | registry/discovery.go:384-405 | an address is in the picker list iff an eligible instance has it, with that TLS flag |
| `Discoveries.Discovery.UpdateGrpcEntries` | registry/discovery.go:376-408 | new instances are put in front, and the picker is rebuilt from the whole list |
| `Discoveries.Discovery.DeleteGrpcEntries` | registry/discovery.go:410-462 | every listed instance with a deleted address goes, and the picker is rebuilt or dropped |
| `Discoveries.Discovery.PickWithInfo` | registry/discovery.go:473-489 | returns an eligible instance the filter lets through, and fails iff there is none |
| `Discoveries.UpdatedSeen` | registry/discovery.go:376-408 | an update adds its addresses to one service |
| `Discoveries.DeletedSeen` | registry/discovery.go:410-462 | a delete removes its addresses from one service |
| `Registries.MemoryDiscovery.RegisterService` | registry/memory.go:81-94 | the address is registered, the replica puts it with its metadata in front of its list, and agreement is kept |
| `Registries.MemoryDiscovery.UnregisterService` | registry/memory.go:96-124 | one address or, for the empty one, the service goes, from the registry and from the list of the replica; no empty map is left; agreement is kept |
| `Registries.MemoryDiscovery.Diff` | registry/memory.go:38-55 | the diff against the shrinking previous map: the new instance map, the announced news and the announced deletions |
| `Registries.MemoryDiscovery.ProcessEntries` | registry/memory.go:30-66 | all services get the new map, and per name only the last diff is kept |
| `Registries.MemoryDiscovery.RegisterServiceWithEntries` | registry/memory.go:29-79 | bulk replacement, notifications in any order: the exact lists of the replica; an agreeing replica still agrees iff repeated names do no harm |
| `Registries.MemoryDiscovery.Attach` | registry/discovery.go:254-266 | a new replica that reads all services lists every registered address once, with its metadata |
| `Registries.MemoryDiscovery.Pick` | registry/discovery.go:464-489 | a successful pick returns an address that is registered now, from the eligible instances of the list |
| `Registries.NewsAddrs` | registry/memory.go:42-51 | announced as new are the listed addresses not registered before and those listed more than once |
| `Registries.BulkAgrees` | registry/memory.go:29-79 | for one service: the replica is right after a bulk call iff the name is not repeated or nothing registered goes away and every new address is listed twice |
| `Registries.StepAgrees` | registry/memory.go:29-124 | after any call the replica agrees on every service iff the call is tame in this sense |
| `Registries.ReactListAddrs` | registry/discovery.go:376-462 | the list that the replica keeps reacts to a call as the set of its addresses does |
| `Registries.ReactsAgree` | registry/memory.go:29-124 | a replica whose lists react to a call and that agreed before still agrees iff the call is tame |
| `Registries.DistinctTame` | registry/memory.go:29-36 | distinct names are tame |
| `Registries.RepeatLosesNews` | registry/memory.go:63-63 | a repeated name can leave the replica without a registered address |
| `Registries.StepNoEmpty` | registry/memory.go:57-61 | no call leaves a service with an empty instance map |
| `Registries.RunAgrees` | registry/memory.go:29-124 | after any run of tame calls the replica knows exactly the registered addresses of every service |
| `RegistryMeta.StepSays` | registry/memory.go:29-124 | what a call says about an address is registered, and what it does not mention stays |
| `RegistryMeta.LastCallDecides` | registry/memory.go:29-124 | after any run, bulk calls included, the last call about an address decides whether and with which metadata it is registered |
| `RegistryMeta.StepFresh` | registry/memory.go:81-124 | a register or unregister call keeps the first entry of every address at the registered metadata |
| `RegistryMeta.RunFresh` | registry/memory.go:81-124 | over any run of register and unregister calls the first entry of each registered address carries the registered metadata |
| `RegistryMeta.BulkFresh` | registry/memory.go:36-63 | a bulk call that names a service once keeps it so if and only if the metadata announced first, or else the one registered before, is the one listed last |
| `RegistryMeta.StaleMeta` | registry/memory.go:42-51 | a bulk call can change the metadata of a registered address without telling the replica |
| `RegistryMeta.PickedMeta` | registry/discovery.go:384-405 | what is picked from a fresh list, its address listed once, has the registered TLS flag and is no HTTP endpoint |
| `RegistryMeta.Offered` | registry/discovery.go:384-405 | every instance that is no HTTP endpoint is offered, with its own TLS flag |
| `RegistryOrder.NoticesReact` | registry/memory.go:68-76 | the notifications of a call, delivered alone, are the reaction of the replica to it |
| `RegistryOrder.DeliveredSeen` | registry/discovery.go:268-276 | a delivered notification makes its addresses known or unknown, and touches no other |
| `RegistryOrder.ActInv` | registry/memory.go:29-124 | however calls and deliveries interleave, the registry is what the log of notifications in lock order says, and each notification is delivered once or waiting |
| `RegistryOrder.OrderExact` | registry/memory.go:68-122 | once all notifications of calls that ran at the same time are out, the replica agrees on an address if and only if the last one delivered about it says what the last one in lock order says |
| `RegistryOrder.ServiceOrderAgrees` | registry/memory.go:68-122 | delivering each service in lock order is enough for agreement |
| `RegistryOrder.StaleAddress` | registry/memory.go:89-122 | an address registered and removed can stay known for good |
| `RoundRobins.RoundRobinPicker.Pick` | balancer/roundrobin/balancer.go:45-68 | returns the first available address from next on and moves behind it, scans at most the whole list, and fails iff none is available |
| `RoundRobins.Fair` | balancer/roundrobin/balancer.go:45-68 | with m available positions any m picks in a row return each of them exactly once |
| `RoundRobins.Periodic` | balancer/roundrobin/balancer.go:45-68 | from every pick on the picks repeat with period m |
| `RoundRobins.FoundIffAny` | balancer/roundrobin/balancer.go:50-63 | a scan of one turn finds something iff anything is available |
| `Balancers.Balancer.Append` | balancer/internal/balancer.go:71-71 | append in place or into a larger array, the entries kept |
| `Balancers.Balancer.CutAt` | balancer/internal/balancer.go:75-76 | the in-place shift removes one entry and keeps the order of the others |
| `Balancers.Balancer.WatchAddrUpdates` | balancer/internal/balancer.go:45-101 | the list is the fold of the updates, without duplicates; an entry that is not deleted stays the same object with its flag; picker and list are one slice; the send finds the slot empty and leaves the newest list; a closed balancer publishes nothing |
| `Balancers.Balancer.Receive` | balancer/internal/balancer.go:264-266 | the consumer of the channel empties the slot, and until the close what it gets is the current list |
| `Balancers.ApplyAllElements` | balancer/internal/balancer.go:54-83 | any updates leave a list without duplicates that is their fold as a set |
| `Balancers.BatchesFold` | balancer/internal/balancer.go:45-83 | the same over any batches from the start |
| `Balancers.Balancer.Up` | balancer/internal/balancer.go:144-170 | marks exactly the address, reports one connected before, and wakes the waiters iff it is the only one connected |
| `Balancers.Balancer.Down` | balancer/internal/balancer.go:172-183 | marks exactly the address disconnected |
| `Balancers.Balancer.Close` | balancer/internal/balancer.go:268-287 | closes the channels once |

## Left out

- Config keys: the model holds keys in lower case; the handlers lower event keys and the wrapper stores them as they come (config/internal/source.go:137-151), so events with upper-case keys are outside the layering claim.
- Config.ConfigImpl.SyncAll: reads sources that have not been read before; a wrapper whose flag says it is synchronized (config/internal/source.go:65-71) and events that arrive before the first sync are not modelled.
- Config mutexes, the namespace filter and view (config/internal/filter.go, view.go), prefix lists and the watcher list of the notifiers: the handlers are modelled as running one after another against one list of calls.
- Matcher.PathMatcher.Match: starts from components, as AddPattern does; see there.
- Matcher.PathMatcher.AddPattern: takes the list of components; lower-casing, the split of the path and verb (http/matcher.go:190-213) and the conversion of templates (http/matcher.go:215-240) are not modelled.
- MatchWithMeta and header estimation (http/matcher.go:83-127).
- Templates: text is a sequence of characters, not UTF-8 bytes, and error texts are error kinds.
- Compiler: the opcode numbers 1 to 5 belong to the utilities package of the gRPC gateway, which is not part of this model's sources; only their being different matters.
- Streams: payloads and errors are numbers, the trailer and message copying are left out, and the server sends from one goroutine, as gRPC requires of its callers.
- Retries: signals may come in any order at any time, which allows more runs than the scheduler does; the final result, time, timers and progress are not modelled, ids and RetryNum do not wrap, and the map of task ids is left out.
- RetryTimes: jitter is left out.
- TaskQueues: a cancel function is named by the task it was added with, so that a function handed in twice counts as two.
- Registries: the class runs a call and its notifications as one step (`RegistryOrder` splits them, on addresses); a change between the first read and the registration of a new watcher is not modelled.
- Discoveries: metadata is given parsed; the HTTP rules, the down list and its timers are left out, so the availability filter is a fixed function.
- Balancers: the blocking wait of `Get`, the start and the errors of the resolver's watcher; an array grows to twice its length and one.
- HOCON, files, encryption, credentials, server, dialer, interceptors, tracing, plugins and logging: calls into libraries, or easy members.
