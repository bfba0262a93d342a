# vector-vrl, modelled and proved in Dafny

A model of the logic around Vector's VRL engine in the `vector-bindings` crate and the
`vector-vrl` Python package, with proofs of what that logic promises. Check it with
`dafny verify dfyconfig.toml` (Dafny 4.11).

| file | what it models |
|---|---|
| `Nesting.dfy` | the bracket-depth guard: the scanner over a peekable stream, refined to a one-character automaton and a saturating counter; the counter as a maximum window sum |
| `NestedText.dfy` | the depth of printed bracket trees, literals at token boundaries, the stack of a bracket-matching parser |
| `Documents.dfy` | nested values with ordered keys, paths, the first scalar of a kind |
| `Conversion.dfy` | JSON to VRL and back, the two failure finders and the paths they build |
| `Events.dfy` | one event through a program, and a batch of them |
| `Pipeline.dfy` | the `Vector` object, its counters, and threads interleaving on it |
| `Enrichment.dfy` | file tables: loading, index, cache, lookups, and the plain scan they stand for |
| `IndexProtocol.dfy` | threads asking one table for indexes, with the lock released while building, and poisoned |
| `TableRegistry.dfy` | the registry, compiled lookups, and threads compiling while tables are registered, cleared and poisoned |
| `PythonValues.dfy`, `RemapChain.dfy` | `remap_chain` and the config the runner writes |
| `Diagnostics.dfy`, `TableDiagnostics.dfy`, `ConfigCheck.dfy` | diagnostics printed by one language and read back by the other, the unknown-table diagnostic, and the config verdict |
| `Decimals.dfy`, `Wrappers.dfy` | integer text, Option and Result |

How things are represented:

- A VRL program is a function from an event and its secrets to what it leaves and how it
  ended; the VRL compiler is a function from source to its diagnostics. JSON parsing,
  lowercasing, the text of a float and Python's `str()` are function parameters too, so every
  result holds for any of them.
- A VRL or JSON object is its entries in key order (a BTreeMap), and `WellFormed` says the
  keys strictly ascend, which the Rust type guarantees. A table row's order is never observed,
  so a row is a map.
- A float is a finite one, named by its bits, or one of the two infinities. Byte strings are
  named by their text when they are UTF-8. Integers carry their 64-bit ranges.
- A compiled lookup is one call of an enrichment function. Each call in a VRL program compiles
  under its own read lock, so two of them may capture different tables.
- Source text has fewer than 2^64 characters, so the depth counter of type `usize` cannot
  overflow, and it is a natural number here.

What a definition shared by a method and its specification means is stated apart from both, by
the lemmas named `...Exactly`: with literal characters, names and numbers, and as an equivalence.

Where the code and its documentation differ, the model follows the code:

- docs/reference-python-api.md says the counters always describe one run. A batch in flight
  across an `initialize` is counted by the fresh counters (`Pipeline.InFlightBatchIsCounted`).
  They are the tally of batches started since, whatever follows, exactly when no call with an
  event in it was in flight (`Pipeline.CountersDescribeOneRunExactly`).
- The same page says the two event counters sum to the events attempted. They sum to the
  events committed exactly when neither true sum is over the 64-bit maximum, and to those
  attempted exactly when, besides, no batch with an event in it was given up because a result
  did not convert (`Pipeline.CountersSumExactly`; `Pipeline.OverflowIsCapped` and
  `Pipeline.AbandonedBatchIsUncounted` are runs of the two kinds that fail).
- The same page says text that starts with `{` is parsed as JSON and anything else is a message.
  The code looks past leading white space first: `Events.LeadingSpaceIsReadAsJson` is an
  instance, `Events.ReadsAsDocumentedExactly` the exact condition.
- config_check.py says every line of the error text is one diagnostic. The unknown-table
  diagnostic prints the registered names, and is one line exactly when none of them holds a
  line break (`TableDiagnostics.OneLineExactlyWithCleanNames`). What breaks do to the verdict
  on the whole error is `TableDiagnostics.SourceUncheckedExactlyByNames`: only a final break is
  harmless, and before another diagnostic only a lone carriage return.
- `_vector_config` names its source `runner_stdin`, and a transform of that name shadows it;
  `RemapChain.RewiringRoundTrips` shows that this is the only case that breaks a chain.

## Model

| member | source | states |
|---|---|---|
| Nesting.SkipQuoted | vector-bindings/src/nesting.rs:63-71 | what is skipped is a literal up to and including its first unescaped closing quote, or everything when there is none; the stream is left with the rest, where the automaton leaves the quoted state |
| Nesting.SkipIdent | vector-bindings/src/nesting.rs:50-52 | skips exactly the leading identifier characters, leaving the stream at the first other one or its end, where the automaton is back at a token boundary |
| Nesting.SkipComment | vector-bindings/src/nesting.rs:43 | skips exactly the characters before the first line feed, leaving the stream at it or at its end, where the automaton leaves the comment state |
| Nesting.ScanToken | vector-bindings/src/nesting.rs:36-54 | whatever one pass of the match consumes and counts is what the automaton and the counter make of it |
| Nesting.MaxBracketDepth | vector-bindings/src/nesting.rs:31-57 | on every text the nested-loop scanner with one character of lookahead reports the depth the one-character-at-a-time automaton and the saturating counter define, and it terminates |
| Nesting.PeakIsLargestWindow | vector-bindings/src/nesting.rs:31-57 | the saturating counter's maximum bounds openers minus closers over every contiguous window of the structural brackets, and some window attains it |
| Nesting.CheckNestingDepth | vector-bindings/src/nesting.rs:13-24 | source is accepted exactly when no window of its structural brackets nets more than 64 openers; a refusal carries the depth |
| Nesting.PrefixAfterExactly | vector-bindings/src/nesting.rs:46-52 | with the characters written out: after `@`, `_`, a digit or a letter a prefix and quote are part of the identifier and open nothing; after any other but `"` and `#` they open a literal |
| Nesting.OpenersExactly | vector-bindings/src/nesting.rs:42-49 | at a token boundary `"` opens text, `#` a comment, and a letter before a quote a literal exactly when it is `r`, `s` or `t` |
| Nesting.BracketsExactly | vector-bindings/src/nesting.rs:37-41 | between two openers, exactly the three opening brackets raise the depth, the three closing ones lower it, and every other character leaves it |
| Nesting.InsideExactly | vector-bindings/src/nesting.rs:63-71 | text lies inside a literal exactly when each of its closing quotes comes after an odd number of backslashes |
| Nesting.NetCounts | vector-bindings/src/nesting.rs:26-30 | the net of a bracket string is its openers of any kind less its closers of any kind |
| NestedText.PrintLexes | vector-bindings/src/nesting.rs:31-76 | the structural brackets of a printed tree are those of its groups: strings, raw and timestamp literals, comments and identifiers add none |
| NestedText.PrintedDepthIsHeight | vector-bindings/src/nesting.rs:26-57 | the depth reported for any printed tree is its height |
| NestedText.InsertedLiteralIsInvisible | vector-bindings/src/nesting.rs:8-10 | an escaped literal or a comment put in at any token boundary changes no structural bracket, so neither counts nor closes one |
| NestedText.InsertionIsInvisibleExactlyAtBoundaries | vector-bindings/src/nesting.rs:42-49 | every escaped literal and comment can be put in at a place, before any text, without changing a structural bracket exactly when that place is a token boundary |
| NestedText.BoundaryIsNeeded | vector-bindings/src/nesting.rs:44-49 | after an identifier the same literal's prefix joins the identifier and its bracket does count |
| NestedText.StrictStackWithinPeak | vector-bindings/src/nesting.rs:26-30 | from any stack, a parser matching bracket kinds never stacks higher than the count that ignores kinds, and exactly as high when it reads all of them |
| NestedText.ParserReadsTrees | vector-bindings/src/nesting.rs:26-30 | that parser reads every printed tree through, its stack rising by exactly the height |
| NestedText.ParserReadsTree | vector-bindings/src/nesting.rs:26-30 | alone, a printed tree is read to its end with the stack as high as the tree |
| NestedText.AcceptedSourceBoundsTheStack | vector-bindings/src/nesting.rs:26-57 | counting kinds together can only overstate nesting; on accepted source a matching parser's stack stays within 64 |
| Decimals.DecimalReadsBack | vector-bindings/src/lib.rs:299-303 | the index text in a path denotes its index |
| Decimals.SignedDecimalExactly | vector-bindings/src/enrichment.rs:158 | an integer prints as the one numeral without leading zeros of its size, with a minus exactly when it is negative |
| Documents.FirstHitIsHit | vector-bindings/src/lib.rs:352-363 | the path a depth-first search finds, followed from the root, reaches a scalar of the kind searched for |
| Documents.FirstHitIsFirst | vector-bindings/src/lib.rs:352-363 | the search misses nothing, and every other hit comes later in traversal order |
| Documents.BeforeIsStrict | vector-bindings/src/lib.rs:352-363 | the traversal order never holds both ways |
| Documents.RenderGrows | vector-bindings/src/lib.rs:260-276 | a path prints nothing at the root and grows by `[index]` or `.key` at its end |
| Documents.ChildAt | vector-bindings/src/lib.rs:352-363 | an index step reaches that item and a key step the value under that key |
| Documents.InsertIsMapUpdate | vector-bindings/src/lib.rs:335-343 | an insert sets one key, leaves every other one and keeps the key order |
| Conversion.ConvertToJson | vector-bindings/src/lib.rs:322-345 | filling a fresh map entry by entry yields each scalar's JSON form in place, keys and order kept |
| Conversion.ScalarKeepsItsMeaning | vector-bindings/src/lib.rs:322-345 | each scalar becomes the same null, boolean, integer, double or text, except an infinity, which becomes null |
| Conversion.ConversionKeepsMeaning | vector-bindings/src/lib.rs:279-319 | each JSON scalar, wherever it stands, arrives with the same meaning, text as a UTF-8 byte string |
| Conversion.IntegersConvertExactly | vector-bindings/src/lib.rs:251-296 | an integer converts to itself exactly up to 9223372036854775807 and is otherwise the one reported |
| Conversion.JsonRoundTrip | vector-bindings/src/lib.rs:279-345 | JSON that converts to VRL converts back to itself |
| Conversion.VrlRoundTrip | vector-bindings/src/lib.rs:279-345 | the JSON form of every VRL value converts, and gives the value with each scalar settled: strings as bytes, timestamps and regexes as their text, infinities as null |
| Conversion.VrlRoundTripIsIdentityExactly | vector-bindings/src/lib.rs:279-345 | VRL to JSON to VRL is the identity up to merging the string variants exactly when no timestamp, regex, infinity or non-UTF-8 bytes occur |
| Conversion.ConversionFailsAtFirstBigInteger | vector-bindings/src/lib.rs:251-319 | conversion fails exactly when some integer exceeds the signed 64-bit maximum; the reported path renders a path that reaches exactly the reported integer, the first such in traversal order |
| Conversion.InfinityFollowsFirstHit | vector-bindings/src/lib.rs:272-276 | the text built by prefixing segments from the leaf outwards is the root-first rendering of the path found |
| Conversion.FirstInfiniteFloatIsFirst | vector-bindings/src/lib.rs:347-363 | None exactly when no float at any depth is infinite, otherwise the path of the first one |
| Conversion.NullOnlyWhereNull | vector-bindings/src/lib.rs:322-345 | without infinities the JSON form has null exactly where the value had it |
| Events.EventTarget.Resolve | vector-bindings/src/lib.rs:210-221 | a program leaves its value and secrets in the target |
| Events.ExecuteOnEvent | vector-bindings/src/lib.rs:188-249 | running a program against a mutable target comes to the outcome the lemmas below describe |
| Events.RunEvents | vector-bindings/src/lib.rs:150-166 | a compile failure is the only error; otherwise each event's outcome is that of running it alone from the given secrets |
| Events.SuccessIsFaithful | vector-bindings/src/lib.rs:225-226 | a successful event is an object without infinities, whose JSON nulls are exactly its own nulls |
| Events.RunDecidesOutcome | vector-bindings/src/lib.rs:220-249 | success exactly when the run ended well with an object free of infinities, and then its value; otherwise the termination, the non-object, or, for an object holding an infinity, its first one by path; the secrets left are reported in every case |
| Events.BigIntegerStopsTheEvent | vector-bindings/src/lib.rs:196-203 | an input integer out of range fails the event before the program runs, naming the first one, its secrets untouched |
| Events.IdentityProgramRoundTrips | vector-bindings/src/lib.rs:188-249 | a JSON object in range comes through a program that changes nothing unchanged |
| Events.LooksLikeJsonExactly | vector-bindings/src/lib.rs:191-193 | text looks like JSON exactly when only white space comes before some opening brace |
| Events.WhiteSpaceExactly | vector-bindings/src/lib.rs:191-193 | exactly the listed Unicode characters are trimmed |
| Events.BecomesMessageExactly | vector-bindings/src/lib.rs:189-208 | text becomes an event holding it as its message exactly when it does not look like JSON, does not parse, or parses as that very event |
| Events.ReadsAsDocumentedExactly | vector-bindings/src/lib.rs:189-208 | the event read is the one the Python reference describes exactly when no white space leads up to a brace, or the text does not parse or parses as its own message |
| Events.LeadingSpaceIsReadAsJson | vector-bindings/src/lib.rs:191-195 | an instance of the difference: one space before an empty object |
| Events.PlainTextIsAMessage | vector-bindings/src/lib.rs:189-208 | text that does not look like JSON or does not parse is fed to every program as its message, and comes back as that message from one that changes nothing |
| Pipeline.Vector.Initialize | vector-bindings/src/lib.rs:471-478 | sets the flag, zeroes all three counters and notes when the uptime clock started |
| Pipeline.Vector.Commit | vector-bindings/src/lib.rs:517-520 | adds a batch's tally to each counter, saturating |
| Pipeline.Vector.ProcessLogs | vector-bindings/src/lib.rs:485-522 | succeeds exactly when initialized, compiled and every result converts; then each log's own outcome is returned and the batch tallied, and otherwise no counter moves and the first of these that fails is the error |
| Pipeline.CallAloneIsProcessLogs | vector-bindings/src/lib.rs:485-522 | the steps of a call nothing interrupts, through each of its endings, move the shared state exactly as the whole function promises |
| Pipeline.TallyOutcomes | vector-bindings/src/lib.rs:501-515 | the batch loop's saturating counts are the true counts capped, or nothing when a result does not convert |
| Pipeline.TallyExactly | vector-bindings/src/lib.rs:501-515 | a batch adds the number of outcomes that are Ok, the number that are not, and the UTF-8 length of all its logs together, failed or not |
| Pipeline.Utf8WidthExactly | vector-bindings/src/lib.rs:508 | a character counts one, two, three or four bytes by the UTF-8 ranges |
| Pipeline.CountersAreSums | vector-bindings/src/lib.rs:471-522 | over any interleaving of batches and initializes, each counter is the true sum over the events committed since the last initialize, capped at the 64-bit maximum, and each such event is in exactly one of processed and errors |
| Pipeline.AttemptsAreCommittedOrLost | vector-bindings/src/lib.rs:498-520 | in any run the events attempted are those committed and those of batches given up because a result did not convert |
| Pipeline.CountersSumExactly | vector-bindings/src/lib.rs:427-432 | processed and errors sum to the events committed exactly when neither true sum exceeds the 64-bit maximum, and to the events attempted exactly when, besides, none was given up |
| Pipeline.OverflowIsCapped | vector-bindings/src/lib.rs:427-432 | a run of 2^64 one-event batches after which the counters stand one short |
| Pipeline.AbandonedBatchIsUncounted | vector-bindings/src/lib.rs:514-520 | a run whose one attempted event is in neither counter |
| Pipeline.NothingBeforeInitialize | vector-bindings/src/lib.rs:490-494 | until the first initialize no batch gets in and nothing is counted |
| Pipeline.CallsAreConserved | vector-bindings/src/lib.rs:485-522 | in any run every call that got past its check is in flight or has settled exactly once: no batch commits twice or is lost |
| Pipeline.CountersDescribeOneRunExactly | vector-bindings/src/lib.rs:466-484 | after an initialize the counters are, in every continuation, the tally of the batches started since, exactly when no call with an event in it was in flight at it |
| Pipeline.InitializeSeparatesExactlyWhenIdle | vector-bindings/src/lib.rs:466-484 | no call that started before an initialize commits after it, in any continuation, exactly when none was in flight at it |
| Pipeline.InFlightBatchIsCounted | vector-bindings/src/lib.rs:471-522 | a concrete run in which a batch started before an initialize is counted after it |
| Enrichment.FirstMissingFinds | vector-bindings/src/enrichment.rs:182-189 | the select error names the first key the row does not carry, and there is none exactly when it carries all |
| Enrichment.ApplySelect | vector-bindings/src/enrichment.rs:176-191 | the copying loop gives the row restricted to the selected keys, or the first missing key |
| Enrichment.SelectedExactly | vector-bindings/src/enrichment.rs:176-191 | without a list the row as it is; with one exactly the listed cells, unchanged, or the first listed key the row lacks |
| Enrichment.BuildIndex | vector-bindings/src/enrichment.rs:263-277 | the build loop's buckets are, for every key, exactly the ascending numbers of the rows with that key, and no bucket is empty |
| Enrichment.FileTable.ObtainIndex | vector-bindings/src/enrichment.rs:249-283 | from the cache or built, the index is the one built afresh, None without all its columns; the cache gains that key unless poisoned |
| Enrichment.RowOfKeepsLastCell | vector-bindings/src/enrichment.rs:228-232 | a row carries exactly the header names, and of columns sharing a name the last cell |
| Enrichment.Load | vector-bindings/src/enrichment.rs:197-242 | loads exactly when there is a header and every record reads and has its width; reports the first thing wrong, else every row carries the header names and text cells |
| Enrichment.KeyMatchesExactly | vector-bindings/src/enrichment.rs:150-174 | a row's index key equals the conditions' key exactly when the row meets every condition |
| Enrichment.TextCellsMeetExactly | vector-bindings/src/enrichment.rs:150-174 | a text cell meets a text condition exactly when they are the same text (or fold the same), meets at most one integer, and never both booleans |
| Enrichment.CellMeetsExactly | vector-bindings/src/enrichment.rs:150-174 | a text cell meets a condition exactly when it is the condition's text, `true` or `false` by its boolean, its integer's one numeral or its float's text, or folds to the same; null, timestamps, regexes, arrays and objects are met by none |
| Enrichment.ScanFindsExactly | vector-bindings/src/enrichment.rs:289-326 | when fields are columns and values compare, the answer is the rows that meet every condition, in file order, two at most for a single record, each selected, or the first selection error among them |
| Enrichment.ScanFailsExactly | vector-bindings/src/enrichment.rs:292-317 | otherwise the first field without a column, unless there are no rows, and then the first value that does not compare |
| Enrichment.IndexedLookupIsScan | vector-bindings/src/enrichment.rs:249-326 | for every table, conditions, case flag, select list and limit, the indexed lookup gives the plain in-order scan's rows, order, success or error, in the same order of errors |
| Enrichment.StoppingAtTwoIsInvisible | vector-bindings/src/enrichment.rs:66-74 | the single-record lookup's row or error from at most two rows is the one all matching rows give |
| Enrichment.SingleExactly | vector-bindings/src/enrichment.rs:694-704 | exactly one row is the record; none, several and an error are told apart |
| Enrichment.BucketsPartitionRows | vector-bindings/src/enrichment.rs:263-277 | each row number is in exactly one bucket and every bucket ascends strictly |
| Enrichment.FoldedBucketIsUnion | vector-bindings/src/enrichment.rs:167-174 | a case-insensitive bucket is the union of the case-sensitive ones whose keys lowercase to it |
| Enrichment.CaseSensitiveIsSubsequence | vector-bindings/src/enrichment.rs:167-174 | matching case only leaves rows out, whatever lowercasing does: success and every condition error stay, and over a loaded table a select error stays or no row at all is found |
| IndexProtocol.EveryIndexIsFresh | vector-bindings/src/enrichment.rs:244-283 | under every interleaving, poisoned or not, every returned index is the fresh one; until poisoned it is cached too, every cached one is fresh, and there are no more than distinct keys asked for |
| IndexProtocol.PoisonedCacheIsFrozen | vector-bindings/src/enrichment.rs:246-248 | once poisoned the cache is never written again |
| IndexProtocol.CallFinishes | vector-bindings/src/enrichment.rs:257-282 | from any reached state a call's own sections, three at most, can all run and end it with the fresh index |
| IndexProtocol.OthersCannotDelay | vector-bindings/src/enrichment.rs:257-282 | however other threads and panics interleave, the sections a call has run and those it has left never exceed those it had left, and its key stays |
| IndexProtocol.UninterruptedIsObtainIndex | vector-bindings/src/enrichment.rs:249-283 | the sections of one call run in a row return what the whole function returns and leave the cache it leaves |
| TableRegistry.Registry.Register | vector-bindings/src/enrichment.rs:382-398 | an empty name, an unknown kind or a bad file leaves the registry as it was; otherwise the name denotes a fresh table of the file's rows |
| TableRegistry.Registry.Clear | vector-bindings/src/enrichment.rs:400-402 | empties the registry |
| TableRegistry.Registry.CompileArgs | vector-bindings/src/enrichment.rs:513-563 | compiles exactly when the name is registered, capturing that table, its fresh index and the case flag, true unless a boolean says otherwise, and touching no other cache; otherwise reports the name and those registered, in order |
| TableRegistry.CaseFlagExactly | vector-bindings/src/enrichment.rs:544-547 | case is ignored exactly when the literal is false |
| TableRegistry.ConditionsExactly | vector-bindings/src/enrichment.rs:577-580 | the conditions keep fields and values in order, or the first expression that fails is the error |
| TableRegistry.SelectKeysExactly | vector-bindings/src/enrichment.rs:585-590 | the keys are the items' texts in order, or the first item without text is the error |
| TableRegistry.ResolvesExactly | vector-bindings/src/enrichment.rs:572-596 | a failing condition first; then no selection, a failing one, one that is no array, or its keys |
| TableRegistry.FindRecords | vector-bindings/src/enrichment.rs:571-596 | resolution errors first, then every row a scan of the captured table finds |
| TableRegistry.GetRecord | vector-bindings/src/enrichment.rs:680-705 | resolution errors first, then the verdict on all rows a scan of the captured table finds |
| TableRegistry.LookupsKeepTheirTable | vector-bindings/src/enrichment.rs:508-517 | under every interleaving of compiles section by section, a compiled lookup answers as a scan of the table registered under its name when it compiled, whatever is registered, cleared or poisoned later |
| TableRegistry.CapturesOnlyGrow | vector-bindings/src/enrichment.rs:513-563 | what lookups captured is never changed by later steps |
| TableRegistry.CompilesExactlyWhenRegistered | vector-bindings/src/enrichment.rs:533-540 | a compile goes on exactly when its name is registered at that moment, and then with that table |
| TableRegistry.RegistryStandsWhileCompiling | vector-bindings/src/enrichment.rs:513-563 | for as long as a compile holds the registry for reading, its name denotes the table it captured |
| TableRegistry.CompileFinishes | vector-bindings/src/enrichment.rs:533-563 | from any reached state a compile in progress can finish by its own steps, four at most, adding one lookup that holds its table and fresh index and changing no other |
| TableRegistry.CompileAloneIsCompileArgs | vector-bindings/src/enrichment.rs:513-563 | a compile nothing interrupts leaves exactly the lookup and the cache the whole function leaves |
| TableRegistry.RegisterAloneIsRegister | vector-bindings/src/enrichment.rs:382-398 | registering waits for compiles in progress, then gives one name a new table with an empty cache, as the whole function does |
| RemapChain.WalkNeverRevisits | vector-vrl/src/vector_vrl/vector_test_utils.py:50-52 | the walk's next transform is one it has not visited |
| RemapChain.ChainIsUnique | vector-vrl/src/vector_vrl/vector_test_utils.py:34-55 | at most one ordering chains the transforms |
| RemapChain.OrderTransforms | vector-vrl/src/vector_vrl/vector_test_utils.py:34-54 | the checks and the walk terminate and find an ordering exactly when one exists whose first transform reads none of the others and each later one just its predecessor |
| RemapChain.RemapChain | vector-vrl/src/vector_vrl/vector_test_utils.py:13-55 | each error in the source's order; success exactly when some ordering chains the inline remaps, and then the transforms in it |
| RemapChain.FirstProblemExactly | vector-vrl/src/vector_vrl/vector_test_utils.py:28-32 | the first transform that is no mapping of type remap, or a remap without text for a source, is the problem reported, and there is none otherwise |
| RemapChain.ListInputsExactly | vector-vrl/src/vector_vrl/vector_test_utils.py:34-37 | the upstream read off a list holds each transform's name as often as the list does and nothing else, and fails exactly on an item that cannot be a key |
| RemapChain.ListInputsKeepOrder | vector-vrl/src/vector_vrl/vector_test_utils.py:34-37 | that upstream follows the list's order |
| RemapChain.OtherInputsExactly | vector-vrl/src/vector_vrl/vector_test_utils.py:34-37 | absent or falsy inputs give no upstream, a mapping its keys, text its characters, and any other value an error |
| RemapChain.AcceptedReadsOnlyThePrevious | vector-vrl/src/vector_vrl/vector_test_utils.py:34-48 | in an accepted order a transform's list names no transform if it is first, and otherwise just the one before it, once |
| RemapChain.ChainTransforms | vector-vrl/src/vector_vrl/vector_test_utils.py:193-197 | the loop gives every transform the one before it as its only input, the first the source, and ends on the last one's name |
| RemapChain.VectorConfig | vector-vrl/src/vector_vrl/vector_test_utils.py:181-211 | the whole config: every transform reads the one before it, the first the runner's source, and the JSON file sink the last of them or the source |
| RemapChain.RunnerConfigReads | vector-vrl/src/vector_vrl/vector_test_utils.py:198-211 | the config key by key: data directory, the stdin source, the transforms, one sink, and the API off |
| RemapChain.FileSinkReads | vector-vrl/src/vector_vrl/vector_test_utils.py:202-209 | the sink writes JSON to the output file and reads the one upstream |
| RemapChain.RewiringKeepsOptions | vector-vrl/src/vector_vrl/vector_test_utils.py:107-108 | rewiring changes nothing of a transform but its inputs |
| RemapChain.RewiringRoundTrips | vector-vrl/src/vector_vrl/vector_test_utils.py:193-197 | for any source name, rewired inline remaps are accepted in the same order when none has that name, and otherwise in no order |
| RemapChain.AcceptedChainsRewire | vector-vrl/src/vector_vrl/vector_test_utils.py:34-55 | a chain the recogniser accepted is accepted again after rewiring exactly when no transform is named `runner_stdin` |
| PythonValues.FalsyExactly | vector-vrl/src/vector_vrl/vector_test_utils.py:35 | the values `or` passes over are None, False, the zeros and whatever is empty |
| Diagnostics.CompileProgram | vector-bindings/src/lib.rs:99-117 | the depth guard's refusal first, then the compiler's diagnostics joined by line breaks |
| Diagnostics.DiagnosticTextExactly | vector-bindings/src/lib.rs:119-138 | a diagnostic prints its message, with the name in backticks exactly for the undefined-function message |
| Diagnostics.JoinThenSplitExactly | vector-vrl/src/vector_vrl/config_check.py:68-78 | splitting recovers the joined diagnostics exactly when none holds a line break and the last is not empty |
| Diagnostics.SplitAtBreak | vector-vrl/src/vector_vrl/config_check.py:78 | a line ends at any break, a carriage return and line feed making one |
| Diagnostics.LineBreaksExactly | vector-vrl/src/vector_vrl/config_check.py:78 | exactly the ten characters Python splits lines at |
| Diagnostics.SplitAfterLineFeed | vector-vrl/src/vector_vrl/config_check.py:78 | text followed by a line feed splits on its own, whatever breaks it holds and whatever follows |
| Diagnostics.UndefinedNameIsReadBack | vector-bindings/src/lib.rs:119-138 | the function name put in backticks is read back exactly when it is not empty and holds no backtick |
| Diagnostics.ReadLineExactly | vector-vrl/src/vector_vrl/config_check.py:58-84 | a line names a left-out function exactly when it is that diagnostic in full, and a table exactly when it begins as that diagnostic does |
| Diagnostics.SandboxedExactly | vector-vrl/src/vector_vrl/config_check.py:44-55 | the left-out functions are exactly ten names |
| Diagnostics.LeftOutNamesExactly | vector-vrl/src/vector_vrl/config_check.py:76-82 | the functions a reason names are exactly the left-out ones its lines name, each once |
| Diagnostics.LeftOutNamesKeepOrder | vector-vrl/src/vector_vrl/config_check.py:80-82 | they come in the order of their first mention |
| Diagnostics.CollectReasons | vector-vrl/src/vector_vrl/config_check.py:76-86 | the loop ends at the first real error, else yields the left-out functions and whether a table is unregistered, at least one of the two |
| Diagnostics.ContainsExactly | vector-vrl/src/vector_vrl/config_check.py:90 | a function is found mentioned exactly when its name occurs in the source |
| Diagnostics.TableFunctionsExactly | vector-vrl/src/vector_vrl/config_check.py:90 | the one table function the source mentions, or both in order when it mentions both or neither |
| Diagnostics.UncompilableReason | vector-vrl/src/vector_vrl/config_check.py:65-101 | a reason exactly when there is an error and each of its lines is a left-out function or an unregistered table, and it is never empty |
| Diagnostics.ReasonExactly | vector-vrl/src/vector_vrl/config_check.py:88-101 | a reason is about tables exactly when some line is, and names a left-out function exactly when some line is that function's diagnostic in full |
| Diagnostics.UncheckedExactly | vector-vrl/src/vector_vrl/config_check.py:65-101 | through printing and reading back, rejected source is unchecked exactly when it nests within the limit and each of its diagnostics is a left-out function or an unregistered table |
| Diagnostics.DiagnosticsAreJudgedSeparately | vector-vrl/src/vector_vrl/config_check.py:65-101 | whatever diagnostics print, rejected source is unchecked exactly when it nests within the limit, something was printed, and no line of any one diagnostic is a real error |
| TableDiagnostics.UnknownTableTextExactly | vector-bindings/src/enrichment.rs:468-484 | the diagnostic in full, without tables and with them, the names joined by commas |
| TableDiagnostics.OneLineExactlyWithCleanNames | vector-bindings/src/enrichment.rs:468-484 | for every list of registered names, the unknown-table diagnostic is read as one line exactly when no name holds a line break of any kind |
| TableDiagnostics.UncheckedByItsLaterLines | vector-vrl/src/vector_vrl/config_check.py:65-101 | for every list of registered names, the lines of that diagnostic, alone or joined to a next one, hold no real error exactly when every one after the first is itself excused |
| TableDiagnostics.CleanNamesAreUnchecked | vector-vrl/src/vector_vrl/config_check.py:65-101 | with names free of line breaks none of its lines is a real error, alone or joined to a next one |
| TableDiagnostics.UncheckedExactlyByNames | vector-vrl/src/vector_vrl/config_check.py:65-101 | unless the names spell out a diagnostic themselves, its lines hold no real error exactly when the names, joined, and the line feed before a next diagnostic hold no line break but a final one |
| TableDiagnostics.FinalBreakExactly | vector-vrl/src/vector_vrl/config_check.py:78 | text holds no line break but a final one exactly when it is break-free up to its last character, or up to a final carriage return and line feed |
| TableDiagnostics.BreaksBeforeAFeedExactly | vector-vrl/src/vector_vrl/config_check.py:78 | with a line feed after it, exactly when it is break-free but for a lone final carriage return |
| TableDiagnostics.SourceUncheckedExactlyByNames | vector-vrl/src/vector_vrl/config_check.py:65-101 | for an error of any diagnostics, any number of them for unknown tables, the source is unchecked exactly when it nests within the limit, something was printed, each such diagnostic's names meet that condition at its place, and no line of any other diagnostic is a real error |
| TableDiagnostics.TwoTablesMisread | vector-vrl/src/vector_vrl/config_check.py:65-101 | an instance: one name ending in a line feed is harmless in a diagnostic alone and a real error when two lookups fail |
| TableDiagnostics.BrokenTableNameIsMisread | vector-vrl/src/vector_vrl/config_check.py:78-86 | an instance: in a diagnostic alone, a line feed and more text in a name makes it a real error, while a line feed at the end, or none, does not |
| ConfigCheck.CheckTransform | vector-vrl/src/vector_vrl/config_check.py:216-228 | a transform is ok exactly when its source compiles or is unchecked, carries its reason then, and its error otherwise |
| ConfigCheck.ValidateConfig | vector-vrl/src/vector_vrl/config_check.py:177-234 | each inline remap judged on its own in config order, the file-backed ones skipped; ok exactly without failures; no transform both failed and unchecked |
| ConfigCheck.InlineSourcesExactly | vector-vrl/src/vector_vrl/config_check.py:207-217 | the transforms checked are exactly the mappings of type remap with a source other than None, each under its name with that source, in config order |
| ConfigCheck.FileReadersExactly | vector-vrl/src/vector_vrl/config_check.py:207-215 | the transforms skipped are exactly the mappings of type remap whose source is absent or None, in config order |
| ConfigCheck.WhereConcat | vector-vrl/src/vector_vrl/config_check.py:126-134 | failures and unchecked keep the order of the checks |
| ConfigCheck.FailuresAndUnchecked | vector-vrl/src/vector_vrl/config_check.py:126-134 | ok holds exactly when failures is empty, and failures and unchecked are disjoint |

## Left out

- TableRegistry.Registry.Register: does not model kind `geoip`, because the MaxMind reader is a foreign library; its whole table type is left out with it.
- Diagnostics.UncheckedExactly: asks that each diagnostic print as one non-empty line and that no other message spell out a left-out function's name, because only the printed text crosses to Python; DiagnosticsAreJudgedSeparately is the exact verdict without these.
- TableDiagnostics.UncheckedExactlyByNames: asks that the names do not spell out a diagnostic, which a later line could then be; UncheckedByItsLaterLines is the exact verdict without that.
- TableDiagnostics.SourceUncheckedExactlyByNames: asks the same of each list of names; Diagnostics.DiagnosticsAreJudgedSeparately is the exact verdict without that.
- The VRL compiler, runtime and standard library: foreign code, present as function parameters.
- Path insert, get and remove on an event's value, and the three secret functions: foreign code or single map operations.
- CSV and JSON text parsing, file reading, config file formats: foreign libraries; loading starts from the records a CSV reader yields.
- Python object building, GIL handling, the VRL thread and its stack size: platform behaviour.
- The time elapsed since `initialize`, `get_vrl_performance` and the performance scores: wall-clock measurement.
- The runner's subprocess, `validate_config_with_vector`, version detection and production patterns: I/O and thin wrappers.
- The wording of reasons and errors, beyond the paths, fields, names and diagnostic texts used above.
- Transform names that are not text, which a YAML config can hold.
