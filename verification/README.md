# Verified model of karstflow-tests

A Dafny model of the algorithms inside the karstflow test suite, with proofs of what they promise. The suite
drives a Solana-compatible validator over JSON-RPC and WebSocket; most of it is plumbing, but a handful of its
parts are real protocols and algorithms, and those are modelled here.

| file | part of the suite |
|---|---|
| `Bytes.dfy` | little-endian integers and slices, shared by the byte layouts |
| `Loader.dfy` | Write/Finalize instruction bytes of both BPF loaders, and their effect on an account |
| `Upload.dfy` | the chunked upload as a state machine: client, network and account, and the invariant of every step |
| `UploadTheorems.dfy` | what holds in every run of that machine |
| `UploadClient.dfy` | `deploy_program`, `_write_buffer` and `wait_for_confirmation` as loops that drive the machine |
| `Keys.dfy` | sorted key sets and decimal indices |
| `Comparison.dfy`, `ComparisonRules.dfy`, `ComparisonTheorems.dfy` | `deep_compare`, its rules written out, and its exact meaning |
| `ComparisonPatch.dfy`, `ComparisonReports.dfy` | rebuilding a target from a report, and when a report determines the target |
| `ComparisonClient.dfy` | the verdict of one dual-endpoint call |
| `Ed25519.dfy` | the offset table of the Ed25519 precompile, its builders and its reader |
| `CallStats.dfy`, `Middleware.dfy` | call statistics, interceptors and interleaved instrumented calls |
| `Rpc.dfy` | request ids, batch reordering, retry with backoff |
| `PdaCounter.dfy` | the on-chain counter program |
| `Snapshots.dfy` | validator snapshots and their differences |
| `Ws.dfy` | the WebSocket subscription table |

## How the parts are modelled

**Upload.** `deploy_program` and `_write_buffer` are two settings of one machine (batches of 32 or of 1, two byte
layouts, with or without a header and a Finalize). Transactions carry the transmitted bytes; the network may make
any broadcast transaction land at any time, again and again, successfully or failing, and a request or a wait may
raise at any point. The loops in `UploadClient` run against a network that does something arbitrary at every await
(`Settle`), and each keeps a ghost run of the machine, so every theorem about runs is a theorem about the loops.

*Premise.* A signature reported confirmed did take effect. `wait_for_confirmation` tests the confirmation level
before the error (`src/karstflow_tests/wait.py:68-71`), so it accepts a transaction that landed and failed.
`DeliveredExactly` therefore gives the exact condition for the account to hold the program, in every state of every
run, without the premise; `UploadIsCorrect` adds the premise; and `ConfirmedFailureCorrupts` is a run in which every
signature was confirmed and a one-byte program was finalized as a zero byte.

**Comparison.** `Prune` is the normal form that says what the ignore rules leave visible: an ignored key disappears,
an ignored position becomes a hole, list length stays. Leaves are compared as Python does: `True` against `1` is no
difference, `1` against `True` is a type mismatch; the mirror law is proved to fail exactly there. Floats are exact
values or infinities, not NaN. An absent side of a difference is kept apart from a JSON null, which the source
represents by the same `None`.

A report names positions by path strings, and different positions can have the same path: field `b` of `a` and the
key `a.b` next to it, item 0 of `a` and the key `a[0]`, field `b` of the empty key and `b` itself. `DeterminedExactly`
says for which references this loses information: a report determines the pruned target, for all targets, if and only
if no compared field of the reference holds an object or a list. `PatchAll` rebuilds the target by reading paths back;
it works for every reference, nested or not, when the compared keys are non-empty and free of "." and "["
(`DiffRestores`), so among such targets the report always determines the target (`ReadableKeysDetermine`).

**Middleware.** The default interceptors never suspend, so an instrumented call is two atomic steps: it starts, and
it ends with `run_after`. Any interleaving of calls is a list of such steps. Times are reals and the clock is a
parameter.

**Retry and batches.** The outcomes of the posts, and the order and choice of the replies, are arbitrary parameters.
Exceptions other than connection, read and timeout errors end a request at once.

**Counter.** A panic or an error leaves the ledger as it was. Whether `counter += 1` wraps or panics depends on the
build profile, which the repository does not set, so it is a parameter of the model.

**WebSocket.** Client and server form a state machine over subscribe, unsubscribe, notification and receive events;
the server's unread frames are a queue, and its ids are fresh. The client reads one frame per request without matching
ids, so the table can part from the server's active set. `AgreementExactly` says when it does not, for every run: each
accepted subscribe must find the queue empty, and a refused one must not find a frame in front that brings an id the
table does not already hold under that name. No notification need be involved: `LateAcknowledgementIsFiled` is a run in
which the acknowledgement of an unsubscribe is filed as the id of the next subscription.

## Where code and documentation disagree

- `has_changes` is documented as "any state changed"; a new block height or epoch alone does not count
  (`src/karstflow_tests/state.py:41-49`). `HasChangesExactly` states what it does say.
- `batch` is documented as returning responses in order; if a reply in the middle is missing, every later response
  moves up (`src/karstflow_tests/rpc.py:95-105`). `AlignedExactly` states when positions match.
- The buffer header is described as 4 + 32 bytes and its size is 37 (`src/karstflow_tests/programs.py:371-372`); the
  model uses 37.
- An empty `ignore_fields` counts as none given, in the constructor and in `compare`
  (`src/karstflow_tests/comparison.py:182`, `src/karstflow_tests/comparison.py:203`).
- `request(raw=False)` records every error response with code -1, because it has been unwrapped into an exception by
  then (`src/karstflow_tests/instrumented_rpc.py:56-66`). `RecordedErrors` states when a code survives.
- `unsubscribe` is documented as True if the server acknowledged; behind a queued notification it is False although the
  server did (`src/karstflow_tests/ws.py:112`). `AnswerExactly` states when it says so.

## Model

| member | source | states |
|---|---|---|
| Bytes.DecodeEncode | src/karstflow_tests/programs.py:258 | little-endian encoding in any width decodes to the value modulo its capacity, exactly if it fits |
| Bytes.EncodeDecode | programs/pda-counter/src/lib.rs:98-100 | encoding a decoded buffer gives the buffer back |
| Bytes.FourBytes | src/karstflow_tests/programs.py:258 | the number in 4 bytes, least significant byte first, written out |
| Bytes.EightBytes | programs/pda-counter/src/lib.rs:97-100 | the number in 8 bytes, least significant byte first, written out |
| Loader.WriteRoundTrip | src/karstflow_tests/programs.py:251-265 | for both loaders, bytes are the encoding of a write if and only if they decode to it |
| Loader.WriteBytes | src/karstflow_tests/programs.py:251-265 | an instruction is built exactly when its bytes are the tag 0 or 1, offset and length as little-endian numbers of 4, 4 and 8 bytes, and the chunk |
| Loader.FinalizeBytes | src/karstflow_tests/programs.py:268-271 | Finalize is the bytes 1, 0, 0, 0 |
| Loader.WriteIsInjective | src/karstflow_tests/programs.py:391-404 | two writes with the same bytes have the same offset and chunk |
| Loader.WriteFits | src/karstflow_tests/programs.py:396 | an instruction is built exactly when offset and length fit 32 and 64 bits |
| Upload.StepKeepsInv | src/karstflow_tests/programs.py:328-356 | every client step, exception and landing keeps the invariant tying account, signatures, batches and phase together |
| UploadTheorems.FinalizeGate | src/karstflow_tests/programs.py:345-356 | Finalize is broadcast, and an upload ends, only after every chunk was broadcast and every signature confirmed |
| UploadTheorems.DeliveredExactly | src/karstflow_tests/programs.py:328-343 | in every reachable state the account holds header and program if and only if it was created and each write that never took effect carries only zeros |
| UploadTheorems.UploadIsCorrect | src/karstflow_tests/programs.py:328-356 | if confirmed implies executed, the account equals the program from Finalize on, for every order and repetition of landings and all later events |
| UploadTheorems.PremiseIsNeeded | src/karstflow_tests/wait.py:66-71 | the premise cannot be dropped: some run ends with every signature confirmed and an account that is not the program |
| UploadTheorems.ConfirmedFailureCorrupts | src/karstflow_tests/wait.py:66-71 | a run in which all signatures are confirmed, the upload ends, and the finalized account is not the program |
| UploadTheorems.OrderIsIrrelevant | src/karstflow_tests/programs.py:335-341 | the account depends only on which transactions took effect, not on order or repetition |
| UploadTheorems.InFlightIsBounded | src/karstflow_tests/programs.py:35-39 | in every reachable state at most 32 (or 1) writes are unconfirmed, and those that no block contains yet are among them |
| UploadTheorems.BlockBudget | src/karstflow_tests/programs.py:35-39 | all unconfirmed writes together reserve at most 44.8M compute units, less than half the block limit |
| UploadTheorems.BatchesAreFull | src/karstflow_tests/programs.py:330-346 | closed batches list the write signatures in order, none is empty or over the limit, only one that ends the program is short |
| UploadTheorems.DeployBatches | src/karstflow_tests/programs.py:330-343 | batches of a deployment hold 32 signatures, but for one that ends the program |
| UploadTheorems.TransmittedWrites | src/karstflow_tests/programs.py:334-343 | in every run, for every loader and batch limit, the bytes broadcast decode to a prefix of the program's chunks, and to all of them at the end |
| UploadTheorems.TransmittedBytes | src/karstflow_tests/programs.py:290-354 | in every run the account is created with room for header and program, write k has the bytes of tag, offset 900k, length and the program from there, and a finished deployment ends with 1, 0, 0, 0 |
| UploadTheorems.BatchedRefinesFlat | src/karstflow_tests/programs.py:538-550 | completed batched and sequential uploads of the same bytes sent the same (offset, chunk) sequence |
| UploadTheorems.ChunksTile | src/karstflow_tests/programs.py:328-343 | each chunk starts where the data before it ends, is non-empty, all but the last are full, and together they are the program |
| UploadTheorems.SendFailsExactly | src/karstflow_tests/programs.py:258 | the sending loop fails by itself exactly when the offset outgrows 32 bits |
| UploadTheorems.OversizeNeverEnds | src/karstflow_tests/programs.py:258 | an upload that reaches Finalize had a program of at most 4,294,967,400 bytes |
| UploadTheorems.NeverStuck | src/karstflow_tests/programs.py:329-356 | every run in which nothing raised and everything confirmed took effect extends to one that delivers the program |
| UploadClient.Network.WaitForConfirmation | src/karstflow_tests/wait.py:42-75 | the first deciding reply decides: confirmed or finalized returns, failed or not; merely processed and failed raises TransactionError; the signature is in some block |
| UploadClient.UploadBatch | src/karstflow_tests/programs.py:330-346 | one round advances the offset and leaves every signature of the batch confirmed, or fails |
| UploadClient.DeployProgram | src/karstflow_tests/programs.py:282-358 | its execution is a run of the machine with the transmitted bytes; on success all chunks were sent in order and confirmed, and the account is the executable program if what was confirmed took effect |
| UploadClient.WriteBuffer | src/karstflow_tests/programs.py:504-550 | the same for the sequential upload; the buffer after its 37-byte header is the program |
| Keys.SortedKeysAscend | src/karstflow_tests/comparison.py:111-112 | the sorted keys are without duplicates and ascend |
| Keys.LeqExactly | src/karstflow_tests/comparison.py:112 | the order of keys: a prefix first, else the first different character decides |
| Keys.DecimalRoundTrip | src/karstflow_tests/comparison.py:129 | an index printed into a path reads back |
| Keys.DigitsWrittenOut | src/karstflow_tests/comparison.py:129 | an index is printed in decimal digits, most significant first |
| Comparison.DeepCompare | src/karstflow_tests/comparison.py:98-146 | the branches and loops compute exactly the difference function the theorems are about |
| ComparisonRules.IgnoredPositionIsSilent | src/karstflow_tests/comparison.py:105-107 | nothing is reported at or below a position whose path, or its part after the last ".", is ignored |
| ComparisonRules.IgnoredKeyIsInvisible | src/karstflow_tests/comparison.py:113-115 | a key ignored by name or by its full path makes no difference: removing it from both objects gives the same report |
| ComparisonRules.ObjectReports | src/karstflow_tests/comparison.py:109-125 | two objects' reports are exactly: each key not ignored by name or path, missing, extra, or with its values' reports |
| ComparisonRules.ListReports | src/karstflow_tests/comparison.py:127-138 | two lists' reports are exactly: each index past one end, ignored or not, and the reports of each shared index |
| ComparisonRules.LeafReport | src/karstflow_tests/comparison.py:140-146 | at any other position that is not ignored: nothing if the sides are equal, with True as 1 and False as 0 on the reference side; else one report, TYPE_MISMATCH exactly if the types differ |
| ComparisonRules.ReportsFollowKeys | src/karstflow_tests/comparison.py:111-112 | reports of smaller keys come first |
| ComparisonRules.PruneKeeps | src/karstflow_tests/comparison.py:105-134 | the normal form drops exactly the keys ignored by name or path, has holes exactly at ignored positions, and keeps list lengths |
| ComparisonTheorems.SilentExactly | src/karstflow_tests/comparison.py:105-146 | no differences are reported if and only if the pruned values agree, for all values, paths and ignore sets |
| ComparisonTheorems.IgnoringMoreReportsLess | src/karstflow_tests/comparison.py:105-138 | a larger ignore set gives an order-preserving sublist of the report |
| ComparisonTheorems.MirrorLaw | src/karstflow_tests/comparison.py:109-146 | exchanging the sides mirrors the report element by element if and only if no compared position pairs a boolean with an integer |
| ComparisonPatch.DiffRestores | src/karstflow_tests/comparison.py:98-146 | at any path, with compared keys that can be read back, patching the reference with the report gives a value whose pruned form agrees with the target's, and equals it without boolean/integer pairs |
| ComparisonPatch.DiffLosesNothing | src/karstflow_tests/comparison.py:98-146 | with compared keys that can be read back, the patched reference compared with the target reports nothing |
| ComparisonReports.DeterminedExactly | src/karstflow_tests/comparison.py:98-146 | the report determines the pruned target, up to booleans written as integers, for all targets if and only if no compared field of the reference holds an object or a list |
| ComparisonReports.FlatDetermines | src/karstflow_tests/comparison.py:109-146 | for a reference without such fields, targets with one report look the same |
| ComparisonReports.NestedCollides | src/karstflow_tests/comparison.py:113-134 | for a reference with such a field, two targets that look different get one report |
| ComparisonReports.ReadableKeysDetermine | src/karstflow_tests/comparison.py:98-146 | among targets whose compared keys are non-empty and free of "." and "[", the report determines the target for every reference |
| ComparisonReports.DottedKeysLoseInformation | src/karstflow_tests/comparison.py:113 | a "." in a key: two targets that differ after pruning get the same report |
| ComparisonReports.BracketedKeysLoseInformation | src/karstflow_tests/comparison.py:129 | a "[" in a key: likewise |
| ComparisonReports.EmptyKeysLoseInformation | src/karstflow_tests/comparison.py:113 | an empty key: likewise |
| ComparisonClient.Client.Compare | src/karstflow_tests/comparison.py:195-263 | a result matches exactly when both calls failed with one code or both answered and agree; kind and reports are stated for each combination of failing sides, codes and ignore overrides |
| Ed25519.BuildMulti | tests/functional/programs/test_ed25519_precompile.py:142-177 | built exactly when the count fits a byte and every offset and size 16 bits; then every byte of header, descriptors and blocks is the documented one, and a reader finds for each entry its keypair's signature of its message |
| Ed25519.BlocksTile | tests/functional/programs/test_ed25519_precompile.py:150-176 | the blocks tile the payload from the end of the table to the end of the data, each being signature, key and message |
| Ed25519.LayoutRoundTrip | tests/functional/programs/test_ed25519_precompile.py:7-18 | following the descriptors as documented returns exactly the triples, in order |
| Ed25519.LayoutIsInjective | tests/functional/programs/test_ed25519_precompile.py:142-177 | different lists of triples have different instruction data |
| Ed25519.OneIsMultiOfOne | tests/functional/programs/test_ed25519_precompile.py:40-72 | the one-signature builder is the one-element case, failures included |
| Ed25519.TestInstructions | tests/functional/programs/test_ed25519_precompile.py:40-139 | bytes and reading of the genuine instruction, of the one whose signature has its first byte inverted, and of the one with a genuine signature of another message |
| CallStats.StatsMeaning | src/karstflow_tests/middleware.py:44-64 | incremental statistics are the counts, sum, least and greatest of the method's calls |
| CallStats.CodesMeaning | src/karstflow_tests/middleware.py:170-181 | the code tables count the calls that failed with that code, a missing code being -1 |
| CallStats.CodesSumToErrors | src/karstflow_tests/middleware.py:170-181 | a method's code counts sum to its error count |
| CallStats.MethodsSumToCodes | src/karstflow_tests/middleware.py:178-181 | a code's counts over the methods sum to its overall count |
| CallStats.CompletionOrderIsIrrelevant | src/karstflow_tests/middleware.py:58-64 | statistics and counts depend on which calls completed, not on their order |
| Middleware.MethodStats.Record | src/karstflow_tests/middleware.py:58-64 | one call is added to the statistics |
| Middleware.TimingInterceptor.After | src/karstflow_tests/middleware.py:76-84 | after the call the per-method objects are distinct and show the extended trace |
| Middleware.RecordingInterceptor.After | src/karstflow_tests/middleware.py:124-142 | the records are the first max_records calls of the trace |
| Middleware.ErrorClassifier.After | src/karstflow_tests/middleware.py:170-181 | both code tables hold exactly the non-zero counts of the extended trace |
| Middleware.MiddlewareChain.RunAfter | src/karstflow_tests/middleware.py:210-219 | all three interceptors agree with the extended trace |
| Middleware.IndexesAgree | src/karstflow_tests/middleware.py:67-181 | classifier rows sum to the timing error counts, classifier columns to the overall code counts |
| Middleware.InstrumentedRpcClient.EndCall | src/karstflow_tests/instrumented_rpc.py:51-70 | a finished call adds exactly one entry with its name, its milliseconds, and its result or error, -1 for exceptions and unwrapped errors; it returns or raises as the wrapped call does |
| Middleware.TraceRecordsCalls | src/karstflow_tests/instrumented_rpc.py:44-95 | in every interleaving each entry has the name, mode and start of the event that began its call and the outcome and time of the event that ended it |
| Middleware.TimesAreNotNegative | src/karstflow_tests/instrumented_rpc.py:69 | with a clock that never goes back no recorded time is negative |
| Middleware.InstrumentedRpcClient.Interleave | src/karstflow_tests/instrumented_rpc.py:44-95 | after every step of every interleaving the indexes show exactly the completed calls |
| Middleware.InterleavingIsIrrelevant | src/karstflow_tests/instrumented_rpc.py:44-95 | interleavings that complete the same calls leave the same statistics and counts |
| Middleware.RecordedErrors | src/karstflow_tests/instrumented_rpc.py:55-66 | a call counts as an error exactly when the wrapped call raised or answered with one; its code survives exactly when the call does not unwrap responses or the code is -1 |
| Middleware.UnwrappedCodeIsLost | src/karstflow_tests/instrumented_rpc.py:56-66 | an unwrapped -32601 is counted under -1 and not under its own code |
| Rpc.SortSorts | src/karstflow_tests/rpc.py:101-102 | sorting orders the replies by id and keeps exactly the replies |
| Rpc.SortedByIds | src/karstflow_tests/rpc.py:101-102 | earlier replies have smaller ids, a missing id being 0 |
| Rpc.SortIsStable | src/karstflow_tests/rpc.py:101-102 | replies with equal keys keep their order |
| Rpc.BatchRestoresOrder | src/karstflow_tests/rpc.py:91-105 | for any order of any subset of the replies, the result is the request-order subsequence |
| Rpc.BatchEndToEnd | src/karstflow_tests/rpc.py:91-105 | if all requests were answered, in any order, position i is the parsed reply to request i |
| Rpc.AlignedExactly | src/karstflow_tests/rpc.py:95 | every position answers its own request if and only if no reply is missing before one that arrived |
| Rpc.Client.NextId | src/karstflow_tests/rpc.py:48-50 | the issued ids stay 1, 2, 3 and so on; the new one was never issued before |
| Rpc.IdsAreUnique | src/karstflow_tests/rpc.py:48-64 | no id is issued twice in any run of single and batch calls |
| Rpc.Client.Batch | src/karstflow_tests/rpc.py:91-105 | a batch issues fresh consecutive ids; whatever subset was answered in whatever order, it returns the request-order subsequence, and position i carries id, result and error of the reply to request i if all were |
| Rpc.SendWithRetry | src/karstflow_tests/rpc.py:107-136 | at most max_retries + 1 posts, going on exactly after network errors and listed codes; the last outcome is returned or raised; sleep i is the lesser of base * 2^i and the cap, one per retry |
| Rpc.PostedIsUnique | src/karstflow_tests/rpc.py:107-136 | the outcomes determine the number of posts and the result |
| Rpc.ConnectionErrorExactly | src/karstflow_tests/rpc.py:126-136 | ConnectionError exactly when all outcomes before the last attempt are retryable and the last is a network failure, or no attempt is allowed |
| Rpc.DoubledIsProduct | src/karstflow_tests/rpc.py:119-122 | the doubled delay is base times two to the attempt |
| Rpc.SleepsGrow | src/karstflow_tests/rpc.py:119-123 | delays never shorten |
| Rpc.SleepIsBounded | src/karstflow_tests/rpc.py:110-133 | time asleep is at most base * (2^r - 1) |
| Rpc.SleepIsCapped | src/karstflow_tests/rpc.py:110-133 | time asleep is at most r * max |
| PdaCounter.Bank.ProcessInstruction | programs/pda-counter/src/lib.rs:28-47 | dispatch and in-place writes compute exactly the step function, failures included |
| PdaCounter.Bank.Increment | programs/pda-counter/src/lib.rs:93-104 | the first 8 bytes are overwritten with the successor, the rest and all other accounts stay |
| PdaCounter.CounterCounts | programs/pda-counter/src/lib.rs:85-104 | in every run an account exists exactly if it was initialized, has 8 bytes, and holds the number of successful increments modulo 2^64 |
| PdaCounter.CounterIsExact | programs/pda-counter/src/lib.rs:98-100 | the counter equals the number of successful increments if and only if that is below 2^64, which overflow checks guarantee |
| PdaCounter.StepFrame | programs/pda-counter/src/lib.rs:28-115 | failures and reads change nothing; a success changes at most the account it names |
| PdaCounter.InitializeExactly | programs/pda-counter/src/lib.rs:59-83 | Initialize recovers exactly the length-prefixed seed and succeeds exactly when it derives the named, new account |
| PdaCounter.IncrementExactly | programs/pda-counter/src/lib.rs:93-104 | which accounts make it fail or panic; otherwise the number in the first 8 bytes grows by one, or wraps after 2^64 - 1, and nothing else changes |
| PdaCounter.InitializeOutcome | programs/pda-counter/src/lib.rs:50-91 | each error in the order of the checks; otherwise the new account is eight zero bytes |
| PdaCounter.OtherOutcomes | programs/pda-counter/src/lib.rs:33-47 | Read needs an account of 8 bytes; other instructions and empty data are invalid; nothing changes |
| Snapshots.Diff | src/karstflow_tests/state.py:119-148 | the loop over names, in any order, computes the difference |
| Snapshots.DiffExactly | src/karstflow_tests/state.py:119-148 | before plus changes is after, name by name; created and removed list each changed existence once |
| Snapshots.DiffMeaning | src/karstflow_tests/state.py:119-148 | slot, height, count and balance deltas added to before give after; the epoch flag; created and removed hold exactly the accounts with data on one side, in snapshot order |
| Snapshots.DiffReversed | src/karstflow_tests/state.py:129-138 | reversing a difference exchanges the two lists exactly and negates the deltas |
| Snapshots.HasChangesExactly | src/karstflow_tests/state.py:40-49 | has_changes is false if and only if slot, transaction count, balances and existence are unchanged |
| Snapshots.NewEpochIsNotAChange | src/karstflow_tests/state.py:40-49 | a new epoch and block height are not reported as a change |
| Snapshots.DiffsCompose | src/karstflow_tests/state.py:119-148 | along any sequence of snapshots, changes and deltas add up to the difference of first and last |
| Snapshots.ExistenceIsConserved | src/karstflow_tests/state.py:129-138 | creations minus removals is final minus initial existence |
| Snapshots.CreationsAlternate | src/karstflow_tests/state.py:129-138 | between two creations of a name there is a removal, and the other way round |
| Ws.TableIsDerived | src/karstflow_tests/ws.py:15-25 | the table of unsubscribe methods holds what the fallback derives |
| Ws.DerivedMethod | src/karstflow_tests/ws.py:120-123 | topicSubscribe is undone by topicUnsubscribe for every topic, in the table or not |
| Ws.AgreementExactly | src/karstflow_tests/ws.py:28-139 | in every run of requests, notifications and receives, the table is the server's active set throughout if and only if each subscribe was made in a state that keeps it so |
| Ws.StepAgreesExactly | src/karstflow_tests/ws.py:66-90 | agreement survives an accepted subscribe if and only if nothing is queued, a refused one if and only if no first frame brings a foreign id, and everything else always |
| Ws.QuietSubscribesAgree | src/karstflow_tests/ws.py:66-90 | if the next frame after each subscribe is its reply, the table agrees after every event, notifications in between included |
| Ws.AnswerExactly | src/karstflow_tests/ws.py:111-139 | while the table agrees the server acknowledges every unsubscribe, and the client says so exactly on an empty queue or behind a frame that passes for an acknowledgement |
| Ws.LateAcknowledgementIsFiled | src/karstflow_tests/ws.py:82-90 | a run without a queued notification in which an acknowledgement is filed as a subscription id |
| Ws.WsClient.Subscribe | src/karstflow_tests/ws.py:66-90 | the first frame is read as the reply: its id is returned and filed, an error raised, a notification fails; after an accepted subscribe the table agrees if and only if nothing was queued |
| Ws.WsClient.RecvNotification | src/karstflow_tests/ws.py:92-98 | the first frame is consumed; it fails unless it is a notification |
| Ws.WsClient.Unsubscribe | src/karstflow_tests/ws.py:111-139 | the table keeps agreeing whatever is queued; the answer is True exactly for a known id on an empty queue or behind a frame that passes for an acknowledgement |
| Ws.WsClient.Close | src/karstflow_tests/ws.py:49-54 | closing empties the table, and the server's active set if they agreed |
| Ws.Session | src/karstflow_tests/ws.py:28-139 | over any list of events the table agrees at each point exactly as the machine says; after closing, the table is empty, the server too if they agreed, and a later unsubscribe is refused |

## Left out

- HTTP, sockets, subprocesses, Docker, clocks and real sleeping: outcomes, schedules and times are parameters or nondeterministic choices.
- Cryptography, address derivation, base58 and the `solders` types: signing and derivation are uninterpreted deterministic functions.
- The validator and the loaders beyond creating an account, writing at an offset and finalizing; compute budgets beyond the constants; deployment from a filled buffer (`deploy_program_upgradeable`, `upgrade_program`).
- The token, memo, nonce and compute-budget builders: flat encoders that would only add easy members.
- The other test programs: fixed buffers and system calls, or a domain small enough to enumerate.
- `RequestBuilder`, scenarios, suites, coverage, lifecycle, node management and all textual reports.
- Floating-point rounding and NaN: times are reals, JSON floats are exact.
- Null and non-integer ids in batch replies, on which the source's sort raises; task cancellation.
- Custom interceptors that suspend: only the default chain is modelled.
- Resets of the interceptors, and adding interceptors to a chain.
- Client errors while an unsubscribe waits for its frame: the source swallows them, answers False and drops the entry.
- Accounts the counter program does not own, which the runtime would refuse to let it write.
- ComparisonPatch.DiffRestores: rebuilding reads the path strings back, so compared keys must be non-empty and free of "." and "["; with other keys paths can be ambiguous, and `DeterminedExactly` says exactly for which references a report still determines the target.
- ComparisonPatch.DiffLosesNothing: the same condition on compared keys, for the same reason.
- Receiving several notifications at once (`recv_notifications`): a repetition of receiving one.
- Taking the snapshot itself, which only copies RPC answers into two dictionaries.
