# Verified models of the proxy's decision logic

This project models the parts of the proxy whose results are decided by its own code, and proves what they promise.
`dafny verify dfyconfig.toml` checks everything.

| files | what they model |
|---|---|
| `dependency`, `kahn`, `cycle_search`, with `digraph`, `renaming`, `orders` | the configuration dependency graph: order of construction or a named cycle |
| `sparse_index`, `match_sets`, `match_index`, `port_tree` | posting lists over names, networks and ports |
| `policy_rules`, `policy_candidate`, `policy_eval`, `policy_runs`, `admission` | DNS policy rules, their index and its limits, and the evaluation that must not tell it from a linear scan |
| `wire`, `keys`, `key_tracker`, `key_evidence` | the incremental handshake parser and what it puts on record |
| `framing`, `budget`, `decode`, `decode_meaning` | replay of a capture, the buffers it fills on the way, and the decision whether it is complete |
| `generation`, `selector`, `selector_runs` | one-shot change subscriptions and concurrent selector switching |
| `route_graph`, `route_source`, `route_names`, `route` | compilation of the selector graph and resolution through it |
| `response` | alias chains and cacheable answers |
| `registry`, `leases`, `lease_history` | the dashboard's connection registry over all generations |
| `iface_cache`, `iface_runs` | the interface-resolution cache under concurrent use |
| `deadline` | sharing one deadline among name-server targets |

Components that change fields in place are classes or methods whose contracts tie the new state to a specification
function or relation; lemmas then say what that specification means, in terms of the inputs and results alone: tags and
hops rather than positions, calls and answers rather than states, bytes and records rather than parsers. Concurrent protocols are state machines whose
steps are the lock regions and atomic accesses of the code, and the theorems hold for every run. For subscriptions, the
connection registry and the interface cache, these steps use the very functions the classes are proved against.

Some results differ from what one might expect of the code:

- A range occupies at most 30 nodes of the port tree (`PortTree.RangeIsSmall`).
- Between chunks the handshake parser holds at most 38 bytes (`Keys.FeedSettles`).
- Whether a capture counts as complete also depends on the buffer budget all open connections share
  (crates/ferrum2-rocom/src/decode/stream.rs:56-66): a chunk that overruns it is an integrity error, so this is part of
  what makes a capture well formed. The condition is exact (`Framing.FeedFrames`), the room it refers to lies between
  the budget less what the other directions have unfinished and less twice that (`Budget.RoomBetween`), and a connection
  that is open alone never meets it (`Decode.AloneNeverOverruns`).
- A capture position or sequence number at the 64-bit limit ends the replay without a report; such a capture does not
  count as well formed.
- The error kept for a later target of a name server is never returned unless there is no target at all
  (`Deadlines.TryTargets`).
- The compare-exchange loop of a selector change never retries (`Selectors.ExchangeAlwaysSucceeds`).
- A poll misses publications exactly when the generation it began from has come back (`Generations.ReadyExactly`,
  with a run that does in `Generations.ReuseHidesAChange`); its waker is still woken. Both publishers of the repository
  only go up (crates/ferrum2-core/src/selector.rs:253-262 and crates/ferrum2-rule/src/registry.rs:503), so it takes a
  caller that prepares notifications itself (`Generations.RisingNeverMisses`).
- The byte counts sealed when a lease finishes fall short by what was past the finished check and not yet added
  (`Leases.SealedCountsMissLate`, with a run in `Leases.SealedCanMissBytes`). They are exact for good exactly if the I/O
  owners had stopped, which is what the code asks of its callers (`Leases.StoppedOwnersSealExactly`).
- A response that nothing asked for is an error, but no awaited response ever gets it (`PolicyRuns.CallKeepsPending`).

## Model

| member | source | states |
|---|---|---|
| `Dependency.DependencyGraph.TryAddNode` | crates/ferrum2-config/src/dependency.rs:227-240 | the node list gains the node once and keeps its order; edges stay |
| `Dependency.DependencyGraph.TryAddEdge` | crates/ferrum2-config/src/dependency.rs:242-278 | accepted exactly when the source is one that declares dependencies of the node; then exactly both ends and the edge are added, else nothing changes |
| `Dependency.OwnerDeclares` | crates/ferrum2-config/src/dependency.rs:112-123 | each kind of node has its own kinds of source, and only they own it |
| `Dependency.OrderedByKind` | crates/ferrum2-config/src/dependency.rs:22-31 | nodes compare by kind, the system resolver first, then by index |
| `Dependency.DependencyGraph.TopologicalOrder` | crates/ferrum2-config/src/dependency.rs:347-426 | the result is the one outcome the abstract graph determines; no inconsistency error can come out of a graph built by the two methods above |
| `Dependency.IndexEdges` | crates/ferrum2-config/src/dependency.rs:352-385 | positions of the edges in the sorted node list, ascending, without repetition, and no others |
| `Dependency.ResultMeaning` | crates/ferrum2-config/src/dependency.rs:347-426 | success exactly on acyclic graphs; the order is a permutation with every dependency first and lexicographically least among all such orders; a failure carries a closed path of edges repeating no other node |
| `Dependency.InsertionIndependent` | crates/ferrum2-config/src/dependency.rs:347-426 | two graphs with the same nodes and edges give the same result, however they were built |
| `Kahn.Run` | crates/ferrum2-config/src/dependency.rs:387-415 | the loop places positions greedily, least available first, until none is available, and the remaining counts are zero exactly for those placed |
| `Kahn.InsertReadySorted` | crates/ferrum2-config/src/dependency.rs:428-432 | the ready stack stays strictly descending and gains exactly the node |
| `CycleSearch.NeverBacktracks` | crates/ferrum2-config/src/dependency.rs:466-520 | the top frame always has an edge left to try, so the backtracking branch is dead |
| `CycleSearch.PushFrame` | crates/ferrum2-config/src/dependency.rs:529-546 | colours, path positions and frames again describe one path of distinct stuck nodes, with the frame on the node's own edge range |
| `CycleSearch.FindCycle` | crates/ferrum2-config/src/dependency.rs:440-527 | the cycle found is the one obtained from the least stuck node by always following the least stuck dependency until a node repeats |
| `Digraph.GreedyIsLeast` | crates/ferrum2-config/src/dependency.rs:387-415 | taking the least available node each time is lexicographically no greater than any order with dependencies first |
| `Digraph.OutcomeMeaning` | crates/ferrum2-config/src/dependency.rs:347-527 | an order exactly when no cycle exists, else a simple cycle |
| `Digraph.OutcomeUnique` | crates/ferrum2-config/src/dependency.rs:347-527 | a graph has only one such outcome |
| `Renaming.RenameIsOutcome` | crates/ferrum2-config/src/dependency.rs:388-426 | working on positions of the sorted nodes gives the outcome over the nodes themselves, order or cycle |
| `SparseIndex.Build` | crates/ferrum2-rule/src/candidate.rs:101-134 | keys ascend without repetition; each key's posting list is strictly ascending and holds exactly the candidates added for it |
| `SparseIndex.CollectRun` | crates/ferrum2-rule/src/candidate.rs:111-131 | the candidates of one run of equal keys, each once, ascending |
| `SparseIndex.VisitCandidateList` | crates/ferrum2-rule/src/candidate.rs:55-72 | binary search visits at most one list, holding exactly the candidates added for the key |
| `MatchSets.LabelSuffixMember` | crates/ferrum2-rule/src/match_set.rs:320-335 | the probed strings are exactly the name itself and what follows each of its dots |
| `MatchSets.MaskedPrefix` | crates/ferrum2-rule/src/candidate.rs:469-483 | a masked address equals a canonical network exactly when their prefixes agree |
| `MatchSets.CategoryMeaning` | crates/ferrum2-rule/src/match_set.rs:266-350 | each category matches by its own values alone: equality, a dot and the suffix at the end, a part of the name, a containing network |
| `MatchSets.NetworkMeaning` | crates/ferrum2-rule/src/match_set.rs:266-350 | a network contains the addresses of its family that agree bit by bit up to its length |
| `MatchIndex.MatchCandidateIndexBuilder.TryAddMatchSet` | crates/ferrum2-rule/src/candidate.rs:300-336 | success appends the set under its candidate and categories; the only error is a candidate beyond 32 bits that contributes a key |
| `MatchIndex.MatchCandidateIndexBuilder.Finish` | crates/ferrum2-rule/src/candidate.rs:338-348 | the index built is that of exactly the added sets; the only error is the keyword limit, returned exactly when a keyword is too long or the different ones are together |
| `MatchIndex.VisitSuffixes` | crates/ferrum2-rule/src/candidate.rs:235-246 | the suffix walk visits exactly the candidates posted under a label suffix of the name |
| `MatchIndex.VisitKeywords` | crates/ferrum2-rule/src/candidate.rs:149-172 | exactly the candidates of keywords that occur in the name are visited |
| `MatchIndex.VisitPrefixes` | crates/ferrum2-rule/src/candidate.rs:179-217 | one probe per prefix length visits exactly the candidates of the networks the masked address equals |
| `MatchIndex.NameParts` | crates/ferrum2-rule/src/candidate.rs:253-279 | a candidate's sets accept a name exactly when it is posted under the exact name, a label suffix, or an occurring keyword |
| `MatchIndex.Net4Part` | crates/ferrum2-rule/src/candidate.rs:199-217 | the 33 probes of an IPv4 address reach exactly the candidates with a network containing it |
| `MatchIndex.Net6Part` | crates/ferrum2-rule/src/candidate.rs:199-217 | the same for IPv6 and 129 probes |
| `MatchIndex.VisitMatchCandidateLists` | crates/ferrum2-rule/src/candidate.rs:253-279 | the visited lists are ascending and together hold exactly the candidates with an accepting match set in the chosen categories |
| `MatchIndex.VisitMatches` | crates/ferrum2-rule/src/candidate.rs:228-251 | a candidate is visited exactly when a match set added under it accepts the name or address |
| `PortTree.CoverExact` | crates/ferrum2-rule/src/candidate.rs:387-423 | inside a tree node the covering nodes of a range meet a port's path once if the port is in the range, else never |
| `PortTree.RangeHitsOnce` | crates/ferrum2-rule/src/candidate.rs:374-423 | an added range is met by exactly one node on the path of each port inside it and by none for other ports |
| `PortTree.RangeIsSmall` | crates/ferrum2-rule/src/candidate.rs:374-423 | a range occupies at most 30 nodes, all numbered below 2^17 |
| `PortTree.PortRangeCandidateIndexBuilder.TryAdd` | crates/ferrum2-rule/src/candidate.rs:374-385 | an empty range and an oversized candidate are the only errors; otherwise exactly the range is added |
| `PortTree.PortRangeCandidateIndexBuilder.TryAddInner` | crates/ferrum2-rule/src/candidate.rs:387-423 | the recursion ends, tags exactly the covering nodes, and its numbering never reaches the overflow branches |
| `PortTree.EntriesOnPath` | crates/ferrum2-rule/src/candidate.rs:374-467 | a candidate is tagged on a port's path exactly when one of its ranges holds the port |
| `PortTree.VisitPort` | crates/ferrum2-rule/src/candidate.rs:447-467 | the walk down the tree visits the non-empty lists on the port's path, which hold exactly the candidates whose ranges hold the port |
| `PolicyRules.NotCandidateIsSkipped` | crates/ferrum2-dns/src/policy/model.rs:484-522 | a rule some field rules out is skipped by the full matcher, whatever the response |
| `PolicyRules.VerdictByFields` | crates/ferrum2-dns/src/policy/evaluation.rs:317-356 | conversely a rule that every field leaves possible matches, or waits for a response, or is decided by the response's addresses |
| `PolicyCandidate.TryBuild` | crates/ferrum2-dns/src/policy_candidate.rs:71-170 | the index holds, field by field, exactly the rules constrained to each key and those unconstrained; otherwise the error is the first that applies of too many rules, an empty port range, and the keyword limits |
| `PolicyCandidate.BuildSnapshot` | crates/ferrum2-rule/src/registry.rs:358-414 | every rule set is indexed under its id; otherwise the error is the first that applies of the admission limits, an id beyond 32 bits, and the keyword limits |
| `Admission.AdmitAll` | crates/ferrum2-rule/src/registry/limits.rs:41-56 | admitting sets one by one goes through exactly when they fit the limits together |
| `Admission.EachValueCounts` | crates/ferrum2-rule/src/match_set.rs:154-186 | every value is an entry, names and keywords add their bytes, keywords also to the keyword bytes |
| `PolicyCandidate.VisitField` | crates/ferrum2-dns/src/policy_candidate.rs:237-276 | the lists visited are the ones a function of index, field and query names; they are ascending and hold exactly the rules the field does not constrain or whose constraint fits the query |
| `PolicyCandidate.SelectDriver` | crates/ferrum2-dns/src/policy_candidate.rs:172-206 | none exactly when no field constrains any rule; otherwise the driver of the first constrained field that walks fewest entries, counted over the very lists the field visits, with the dense walk replacing a rule-set walk at least half as long |
| `PolicyCandidate.OfferMeaning` | crates/ferrum2-dns/src/policy_candidate.rs:185-199 | the dense walk visits every rule once; it replaces the rule-set walk exactly for address queries whose walk is at least half as long as the rule list |
| `PolicyCandidate.LeastFrom` | crates/ferrum2-dns/src/policy_candidate.rs:215-235 | the least entry at or after the cursor among all lists, or none exactly when there is no such entry |
| `PolicyCandidate.NextCandidate` | crates/ferrum2-dns/src/policy_candidate.rs:208-235 | the least rule at or after the cursor that the driver enumerates |
| `PolicyEval.DriverLeavesOutSkipped` | crates/ferrum2-dns/src/policy/evaluation.rs:382-405 | whichever driver is chosen, the rules it leaves out would be skipped by the full matcher |
| `PolicyEval.ScanSkips` | crates/ferrum2-dns/src/policy/evaluation.rs:303-380 | skipped rules do not show in a linear scan |
| `PolicyEval.DnsPolicyEvaluation.NextCandidateRule` | crates/ferrum2-dns/src/policy/evaluation.rs:383-405 | every rule passed over is one the full matcher skips |
| `PolicyEval.DnsPolicyEvaluation.NextStep` | crates/ferrum2-dns/src/policy/evaluation.rs:229-241 | the step and the new state are those of the reference that tries every rule in order |
| `PolicyEval.DnsPolicyEvaluation.Evaluate` | crates/ferrum2-dns/src/policy/evaluation.rs:243-272 | the same after a response, which makes the awaited route the latest, with its errors and its early-acceptance branch |
| `PolicyEval.DnsPolicyEvaluation.Turn` | crates/ferrum2-dns/src/policy/evaluation.rs:303-380 | one candidate tried leaves the scan's outcome as it was, or gives it |
| `PolicyRuns.CallKeepsPending` | crates/ferrum2-dns/src/policy/evaluation.rs:243-272 | after any call a rule is pending only if the evaluation goes on, and a response to it is never unexpected |
| `PolicyRuns.Drive` | crates/ferrum2-dns/src/policy/evaluation.rs:229-272 | an evaluation put through any calls gives what the reference without an index gives for them |
| `PolicyRuns.RunExplained` | crates/ferrum2-dns/src/policy/evaluation.rs:229-380 | every answer follows from the calls and answers before it: the first later rule not skipped decides, a respond rule accepts the last evaluation asked for and is an error if there was none, no rule gives the final route, and calls out of turn give their errors |
| `PolicyRuns.AnswersOnce` | crates/ferrum2-dns/src/policy/evaluation.rs:229-380 | that leaves calls only one sequence of answers |
| `PolicyRuns.IndexIsInvisible` | crates/ferrum2-dns/src/policy/evaluation.rs:229-272 | an indexed evaluation and one of the same rules without their index give equal answers for any calls, those explained above |
| `PolicyRuns.EvaluatePolicy` | crates/ferrum2-dns/src/policy/evaluation.rs:229-272 | from rules and rule sets: unless one of the listed limits stops an index from being built, any calls get the answers explained above |
| `PolicyEval.CompileProgram` | crates/ferrum2-rule/src/compiled_program.rs:3-40 | up to 64 rules stay linear, more carry a correct index, and it fails exactly when that index cannot be built, for the same reason |
| `Wire.ParseEncoded` | crates/ferrum2-rocom/src/wire.rs:25-61 | parsing an encoded header gives its own fields back |
| `Wire.ParseAcceptsExactly` | crates/ferrum2-rocom/src/wire.rs:25-57 | accepted are exactly the bytes that begin with the header of a well-formed packet |
| `Wire.FieldPlaces` | crates/ferrum2-rocom/src/wire.rs:25-57 | where each field of an accepted header stands, numbers big-endian, and the limits they keep |
| `Wire.RejectedFor` | crates/ferrum2-rocom/src/wire.rs:25-57 | the error of each rejected header, by its bytes |
| `Keys.KeyStateCell.Observe` | crates/ferrum2-rocom/src/keys.rs:43-74 | a handshake replaces or clears the key and gives one snapshot; any other command changes nothing |
| `Keys.Stream.Observe` | crates/ferrum2-rocom/src/keys.rs:91-154 | consuming a chunk in slices has the outcome of feeding its bytes one by one |
| `Keys.FeedConcat` | crates/ferrum2-rocom/src/keys.rs:91-154 | feeding two pieces is feeding their concatenation: same snapshots, parser and key |
| `Keys.FragmentationInsensitive` | crates/ferrum2-rocom/src/keys.rs:91-154 | the same for any cutting into chunks |
| `Keys.FeedSettles` | crates/ferrum2-rocom/src/keys.rs:91-154 | between chunks at most 38 bytes are buffered |
| `KeyTrackers.KeyTracker.Observe` | crates/ferrum2-rocom/src/keys.rs:165-174 | a chunk reaches its own direction's stream and the shared key |
| `KeyTrackers.TrackerFragmentation` | crates/ferrum2-rocom/src/keys.rs:161-174 | cutting any chunk of a two-way run in two leaves snapshots and final state unchanged |
| `KeyTrackers.KeyHeldOnlyByLatest` | crates/ferrum2-rocom/src/keys.rs:43-74 | after any run a key is held only if the latest handshake of either direction was an acknowledgement by method 2 with a full 16-byte key, and it is that key |
| `KeyTrackers.FeedPacket` | crates/ferrum2-rocom/src/keys.rs:91-154 | one encoded packet has exactly the effect of its header, extension and length |
| `KeyTrackers.RoundTrip` | crates/ferrum2-rocom/src/keys.rs:91-154 | feeding the encoding of any list of well-formed packets gives exactly the expected snapshots and state |
| `KeyTrackers.RoundTripInChunks` | crates/ferrum2-rocom/src/keys.rs:91-154 | the same in any chunking |
| `KeyTrackers.OneSnapshotPerHandshake` | crates/ferrum2-rocom/src/keys.rs:43-154 | exactly one snapshot per handshake of the direction, at the summed length of the packets before it |
| `KeyEvidence.AckReportsKey` | crates/ferrum2-rocom/src/keys.rs:43-74 | an acknowledgement at a packet boundary reports the sixteen bytes after method 2 and length 16, with the encryption last set, and no key if it carries none |
| `KeyEvidence.SynSetsEncryption` | crates/ferrum2-rocom/src/keys.rs:43-74 | an upload request clears the key and sets the encryption to its second extension byte |
| `KeyEvidence.OtherPacketsAreSilent` | crates/ferrum2-rocom/src/keys.rs:91-154 | any other packet, a handshake in the wrong direction included, reports and changes nothing |
| `KeyEvidence.EvidenceOfNext` | crates/ferrum2-rocom/src/keys.rs:91-174 | what one more packet adds to the evidence of a connection after any exchange in both directions, acknowledgements repeating the encryption last asked for |
| `KeyEvidence.BadHeaderIsFinal` | crates/ferrum2-rocom/src/keys.rs:91-154 | a header that cannot be parsed ends the evidence of its direction for good |
| `Framing.UnfinishedMeaning` | crates/ferrum2-rocom/src/decode/stream.rs:30-140 | what a direction has left unfinished is exactly what remains after complete packets |
| `Framing.UnfinishedIsShort` | crates/ferrum2-rocom/src/decode/stream.rs:47-55 | it is always shorter than the packet limit |
| `Framing.FeedFrames` | crates/ferrum2-rocom/src/decode/stream.rs:30-140 | however bytes are cut, the buffer holds what is unfinished; feeding fails exactly when a byte arrives for a packet that already fills the capacity limit; the capacity stays within the limit |
| `Framing.GrowsTwofold` | crates/ferrum2-rocom/src/decode/stream.rs:56-76 | capacity grows only when needed, and then at least twofold as far as the limit allows |
| `Framing.PacketStream.Feed` | crates/ferrum2-rocom/src/decode/stream.rs:30-140 | the loop over slices gives the framing and the capacity the reference gives |
| `Framing.PacketStream.Reject` | crates/ferrum2-rocom/src/decode/stream.rs:159-190 | a direction given up lets go of its buffer and stays stopped |
| `Budget.BudgetedWith` | crates/ferrum2-rocom/src/decode.rs:240-306 | replacing one buffer by one that fits the room left to it keeps the sum of all capacities within the budget, and changes the sum by just the difference |
| `Budget.RoomBetween` | crates/ferrum2-rocom/src/decode/stream.rs:56-76 | growing at most twofold, buffers leave a direction at least the budget less twice what the others have unfinished, and at most the budget less just that |
| `Budget.RoomIsEnough` | crates/ferrum2-rocom/src/decode.rs:234-241 | while the other buffers leave room for one whole packet nothing overruns |
| `Decode.FramersAreBudgeted` | crates/ferrum2-rocom/src/decode.rs:232-306 | after any events the buffers of the open connections are valid and together within 64 MiB |
| `Decode.AcceptsExactly` | crates/ferrum2-rocom/src/decode.rs:162-390 | the fields of the loop decide about an event exactly as the events before it do |
| `Decode.AloneNeverOverruns` | crates/ferrum2-rocom/src/decode.rs:234-241 | the only open connection never overruns the budget |
| `Decode.Decoder.Handle` | crates/ferrum2-rocom/src/decode.rs:135-390 | without earlier errors the loop stays clean exactly on a line that continues a well-formed capture, and its state is then what the events so far say; on every line the buffer count is the sum of the open capacities and within the budget |
| `Decode.Decoder.OnData` | crates/ferrum2-rocom/src/decode.rs:207-308 | a data record is clean exactly when its connection is open, its payload fits, its offset continues the direction and its packet decoder has room; tracker, packet decoder, offset and owed keys then advance by it |
| `Decode.Decoder.OnConnection` | crates/ferrum2-rocom/src/decode.rs:192-206 | a connection record is clean exactly for a fresh nonzero id within both limits |
| `Decode.Decoder.OnStopped` | crates/ferrum2-rocom/src/decode.rs:365-388 | a footer is clean exactly with a known reason and no false claim of completeness |
| `Decode.Replay` | crates/ferrum2-rocom/src/decode.rs:135-390 | the loop is cut short only by a line that is not well formed |
| `Decode.Run` | crates/ferrum2-rocom/src/decode.rs:135-404 | a report says complete exactly when the capture is well formed, its buffers staying within the budget included, and is the hashed file; every well-formed capture gets a report |
| `DecodeMeaning.AllOkMeaning` | crates/ferrum2-rocom/src/decode.rs:162-390 | all lines are accepted exactly if each fits those before it by position: opened and not closed since, continuing the latest piece of data, the key record that is due |
| `DecodeMeaning.WellFormedMeaning` | crates/ferrum2-rocom/src/decode.rs:135-404 | and the capture is well formed exactly if in addition it ends in a complete shutdown with no key record due |
| `Decode.DataKeysDelivered` | crates/ferrum2-rocom/src/decode.rs:276-330 | in a well-formed capture every piece of data is followed by exactly the key records its tracker produces |
| `Decode.WellFormedShape` | crates/ferrum2-rocom/src/decode.rs:135-404 | a well-formed capture starts once, stops once and last, and ends every connection |
| `Generations.GenerationSignal.PrepareNotification` | crates/ferrum2-core/src/generation.rs:144-158 | an unchanged generation detaches nothing; a new one detaches every registered waker |
| `Generations.GenerationSignal.NextSubscriber` | crates/ferrum2-core/src/generation.rs:197-205 | the least number from the counter on that nobody holds |
| `Generations.GenerationChange.Poll` | crates/ferrum2-core/src/generation.rs:30-71 | both sides change as specified and the answer is ready exactly when the change has completed |
| `Generations.GenerationChange.Drop` | crates/ferrum2-core/src/generation.rs:75-85 | dropping unregisters the waker |
| `Generations.NoChangeIsLost` | crates/ferrum2-core/src/generation.rs:27-86 | in every interleaving a subscription last seen pending is registered with its latest waker at an unchanged generation, or the first publication since has woken that waker once or still has it to wake, even when generations recur |
| `Generations.OnlyLiveAreRegistered` | crates/ferrum2-core/src/generation.rs:51-86 | only live subscriptions have a waker registered, each its own latest: dropping leaves none behind |
| `Generations.ReadyExactly` | crates/ferrum2-core/src/generation.rs:30-50 | for any history: a poll is ready exactly if the generation differs from the one subscribed at, hence misses publications exactly if that one has come back; once ready it stays so with the same generation |
| `Generations.ReadyExactlyAfterAChange` | crates/ferrum2-core/src/generation.rs:30-50 | so when no generation recurs, a poll is ready exactly if something was published since the baseline |
| `Generations.RisingNeverMisses` | crates/ferrum2-rule/src/registry.rs:494-515 | and in particular when published generations only go up |
| `Generations.QuietMeansWoken` | crates/ferrum2-core/src/generation.rs:183-187 | once nothing is left to wake, every subscription pending across a publication was woken exactly once for it |
| `Generations.ReuseHidesAChange` | crates/ferrum2-core/src/generation.rs:41-50 | a concrete run in which the baseline generation comes back and a poll stays pending after two publications |
| `Selectors.SelectorState.Switch` | crates/ferrum2-core/src/selector.rs:358-379 | alone, a switch to another member selects it and advances the generation by two, detaching every waker; errors and repeats change nothing |
| `Selectors.SelectorChange.Drop` | crates/ferrum2-core/src/selector.rs:253-265 | the guard restores or advances the generation and notifies only after a change |
| `Selectors.OddExactlyInside` | crates/ferrum2-core/src/selector.rs:206-265 | in every interleaving the generation is odd exactly while one switch, and only one, is inside its change |
| `Selectors.GenerationsAgree` | crates/ferrum2-core/src/selector.rs:253-265 | whenever the update lock is free both generations are twice the number of effective switches |
| `Selectors.EffectiveChangesSelection` | crates/ferrum2-core/src/selector.rs:373-378 | a step counts as an effective switch exactly when it changes a selection |
| `Selectors.ExchangeAlwaysSucceeds` | crates/ferrum2-core/src/selector.rs:211-235 | the lock holder never meets an odd generation and its exchange never fails |
| `Selectors.SwitchIsInEffect` | crates/ferrum2-core/src/selector.rs:358-379 | until a switch gives the lock back, what it asked for is selected |
| `SelectorRuns.DoneTookEffect` | crates/ferrum2-core/src/selector.rs:358-379 | in every run a switch that is through had its member selected at some point since it began |
| `SelectorRuns.SwitchAlone` | crates/ferrum2-core/src/selector.rs:358-379 | begun with the lock free and run alone, a switch ends with its member selected and nothing else changed, counted exactly if that is a change |
| `Selectors.SameGenerationCoexisted` | crates/ferrum2-core/src/selector.rs:183-204 | a reader of the same generation before and after used selections all in effect at both reads |
| `SelectorRuns.LoadsAreConsistent` | crates/ferrum2-core/src/selector.rs:183-204 | each load of such a reader saw what was selected at the moment, and that is what was selected at both ends |
| `Selectors.WatchMissesNothing` | crates/ferrum2-core/src/selector.rs:329-355 | a poll at any time, also between the steps of a switch, is ready exactly if a switch was published since the baseline; one left pending is registered, and at most the publication of the switch now holding the lock is still to come |
| `SelectorRuns.SubscriptionWaits` | crates/ferrum2-core/src/selector.rs:333-340 | however long after, polling a subscription is ready exactly if a switch was published since it was made |
| `SelectorRuns.EarlierSubscriptionWaits` | crates/ferrum2-core/src/selector.rs:348-355 | one made from an earlier read is ready exactly if a switch was published since that read |
| `Selectors.PendingIsCarried` | crates/ferrum2-core/src/generation.rs:27-86 | a pending subscription of a selector is registered while nothing was published, and the first publication carries its latest waker, to be woken once |
| `RouteGraph.VisitAcyclic` | crates/ferrum2-core/src/route.rs:292-312 | a visit that succeeds puts everything the selector leads to before it; one that fails exhibits a cycle |
| `RouteGraph.ValidateAcyclic` | crates/ferrum2-core/src/route.rs:291-319 | accepts exactly when no selector reaches itself |
| `RouteGraph.VisitReachable` | crates/ferrum2-core/src/route.rs:327-344 | marks only what is reachable, the action itself, and every member of each newly marked selector |
| `RouteGraph.MarkReachable` | crates/ferrum2-core/src/route.rs:346-350 | the tables mark exactly what the roots reach |
| `RouteGraph.SelectorRouteIsShort` | crates/ferrum2-core/src/selector.rs:183-194 | a route through selectors repeats none, so it is no longer than there are selectors |
| `RouteGraph.Resolve` | crates/ferrum2-core/src/selector.rs:183-194 | resolution takes the member it loads at each selector and ends at an in-range plan, whatever the loads return; the unreachable branch is dead |
| `RouteSource.IdentityMeaning` | crates/ferrum2-core/src/route.rs:180-246 | the checks pass exactly when sizes fit, tags are valid and distinct across all roles, ids are distinct, and plans hop through 2 to 8 distinct known outbounds |
| `RouteSource.TagCharMeaning` | crates/ferrum2-core/src/route.rs:248-253 | the characters of a tag are letters, digits, dot, underscore and hyphen |
| `Routes.ValidateIdentities` | crates/ferrum2-core/src/route.rs:180-246 | the checks, plan by plan, give the error of the first requirement that fails |
| `RouteNames.ReachableByName` | crates/ferrum2-core/src/route.rs:320-353 | an action is reachable exactly if the roots lead to its tag through members by name |
| `RouteNames.AcyclicByName` | crates/ferrum2-core/src/route.rs:291-319 | the selector graph is acyclic exactly if no tag leads back to itself by name |
| `RouteNames.CompiledKeepsNames` | crates/ferrum2-core/src/route.rs:267-289 | every root and every member stands for what its tag names: an outbound alone, the hops of a plan, or a selector |
| `Routes.CompileDefinition` | crates/ferrum2-core/src/route.rs:138-160 | the members' actions and the position its default names, or the definition's error |
| `Routes.ValidateReachability` | crates/ferrum2-core/src/route.rs:321-371 | the error names the first of selectors, plans and outbounds that the roots do not all lead to by name |
| `Routes.Compile` | crates/ferrum2-core/src/route.rs:123-178 | the result is exactly the first applicable error, told by tags, else an acyclic graph in range in which roots, members and defaults are those named |
| `Routes.Snapshot` | crates/ferrum2-core/src/route.rs:84-96 | every handle of an accepted graph always gives the hops its root leads to by name through the members selected at each load |
| `Responses.FinalOwner` | crates/ferrum2-dns/src/response.rs:121-152 | the walk bounded by the number of answers gives what the unbounded chain defines: the terminal owner and least alias lifetime, or nothing exactly for a cycle or an ambiguous owner |
| `Responses.FinalOwnerOnce` | crates/ferrum2-dns/src/response.rs:121-152 | no message has two outcomes |
| `Responses.FinalOwnerMeaning` | crates/ferrum2-dns/src/response.rs:121-152 | record by record: an owner is found exactly if plain aliases lead to a name without any, with the least lifetime of the alias records on the way |
| `Responses.FinalOwnerIgnoresOrder` | crates/ferrum2-dns/src/response.rs:121-152 | neither order nor repetition of records changes the outcome |
| `Responses.LongWalkRepeats` | crates/ferrum2-dns/src/response.rs:124-125 | a walk of more steps than records comes back to an owner it passed |
| `Responses.AddressesAreSeen` | crates/ferrum2-dns/src/response.rs:28-41 | the iterated addresses and lifetimes are exactly those of the address records at the terminal owner |
| `Responses.Collect` | crates/ferrum2-dns/src/response.rs:56-76 | succeeds exactly when all addresses belong and at most 16 are distinct, then lists each once with the least lifetime |
| `Responses.CacheAnswer` | crates/ferrum2-dns/src/response.rs:45-118 | an answer is cached exactly under the stated conditions: positive with each policy-visible address once, negative only with none, for the least and positive lifetime |
| `Responses.CachedMeaning` | crates/ferrum2-dns/src/response.rs:45-118 | record by record: when an answer is cached, that it lists exactly the owner's address records, and that it lives exactly as long as every record it rests on, the authority's start record and its minimum included |
| `Responses.CacheIgnoresOrder` | crates/ferrum2-dns/src/response.rs:45-118 | record order and repetition decide neither whether, nor for how long, nor which addresses are cached |
| `Registries.RegistryTable.Admit` | crates/ferrum2-dashboard/src/connection.rs:264-316 | an admission takes a row while there is room, else counts as omitted; counts and the cancellation table follow |
| `Registries.RegistryTable.Retire` | crates/ferrum2-dashboard/src/connection.rs:222-240 | a retirement undoes the counts and moves the row, if any, to the history |
| `Registries.RegistryTable.Close` | crates/ferrum2-dashboard/src/lib.rs:280-293 | exactly the addressable ids are signalled and those not signalled before are counted once |
| `Registries.PrunedExactly` | crates/ferrum2-dashboard/src/lib.rs:52-60 | with rows in order of retirement, pruning removes exactly the expired ones |
| `Registries.ArchivedKeeps` | crates/ferrum2-dashboard/src/connection.rs:235-240 | the newest row comes last, nothing else is new, and the history stays ordered and within its limit |
| `Registries.ArchivedExactly` | crates/ferrum2-dashboard/src/connection.rs:235-240 | every older row less than five minutes old stays, in order, but the oldest of 512 |
| `LeaseHistory.RetireKeepsOthers` | crates/ferrum2-dashboard/src/connection.rs:230-240 | the same of a generation's history when a lease retires in any run |
| `LeaseHistory.HistoryIsRecent` | crates/ferrum2-dashboard/src/connection.rs:209-241 | over any run a history is the newest stretch of all rows retired, lacking only those five minutes old or with 512 newer ones |
| `LeaseHistory.AdmissionTracks` | crates/ferrum2-dashboard/src/connection.rs:264-316 | a lease gets a row exactly while fewer than 4096 tracked ones are unretired, and an address while the table has fewer than 65536 |
| `LeaseHistory.AddressableUntilRetired` | crates/ferrum2-dashboard/src/connection.rs:222-316 | it keeps that address until it is retired |
| `LeaseHistory.CloseCancelsNamed` | crates/ferrum2-dashboard/src/lib.rs:280-293 | closing by name cancels exactly the named leases of the current generation with a row or an address |
| `Leases.RegistriesStayBounded` | crates/ferrum2-dashboard/src/connection.rs:208-325 | in every run active equals live rows plus omitted leases, all tables stay within limits, and no id is both live and in history, whose rows are all sealed |
| `Leases.RetiresOnce` | crates/ferrum2-dashboard/src/connection.rs:209-241 | a sealed lease can always be retired; its final state never changes and it retires by exactly one step |
| `Leases.SealedCountsMissLate` | crates/ferrum2-dashboard/src/connection.rs:209-221 | in every continuation the sealed counts fall short of the lease's counters by exactly the updates that had passed the finished check and reached the record since, and are exact exactly if there are none |
| `Leases.StoppedOwnersSealExactly` | crates/ferrum2-dashboard/src/connection.rs:209-221 | the sealed counts stay exact in every continuation exactly when no update was past the check at the seal |
| `Leases.SealedCanMissBytes` | crates/ferrum2-dashboard/src/connection.rs:368-393 | a concrete run that seals zero bytes and then records five |
| `Leases.TotalsAreSums` | crates/ferrum2-dashboard/src/connection.rs:368-393 | with no update in flight a generation's byte totals are the sums of its leases' counters |
| `Leases.CloseAllIsExact` | crates/ferrum2-dashboard/src/lib.rs:298-306 | close-all cancels exactly the leases its generation admitted before, and returns how many are unretired |
| `Leases.OnlyCloseCancels` | crates/ferrum2-dashboard/src/connection.rs:397-404 | a lease starts uncancelled, stays cancelled, and is cancelled only by being named or by a close-all while its generation is current |
| `InterfaceCache.ResolutionCache.Lookup` | crates/ferrum2-net/src/resolver.rs:200-215 | a newer observation empties the cache, an older one misses, and a hit is marked |
| `InterfaceCache.ResolutionCache.Insert` | crates/ferrum2-net/src/resolver.rs:217-229 | ignored for another observation or a present key; otherwise appended after evicting the oldest while full |
| `InterfaceCache.HitsAreGenuine` | crates/ferrum2-net/src/resolver.rs:255-283 | under any interleaving a hit gives what an uncached resolution of the identical key came to before |
| `InterfaceCache.AnswersAreGenuine` | crates/ferrum2-net/src/resolver.rs:255-283 | whatever a thread returns was computed for the key it asked with |
| `InterfaceCache.CacheIsRecent` | crates/ferrum2-net/src/resolver.rs:199-230 | entries and queue hold the same distinct keys, at most 256, all of the newest observation: the most recent accepted insertions, oldest first |
| `InterfaceRuns.InsertStores` | crates/ferrum2-net/src/resolver.rs:217-229 | an insertion for the newest observation looked up is stored and found, pushing out only the oldest of 256; any other changes nothing |
| `InterfaceRuns.StaysFound` | crates/ferrum2-net/src/resolver.rs:199-230 | an entry is found again with its decision until 256 newer insertions or a newer observation |
| `Deadlines.TryTargets` | crates/ferrum2-dns/src/resolver.rs:105-135 | the first target with no time left, an answer, a final error, or last in line decides the result; each earlier one was offered its even share |
| `Deadlines.DecidesMeaning` | crates/ferrum2-dns/src/resolver.rs:105-135 | another target is asked only after a time-out, transport, protocol or runtime failure with time left; each attempt's deadline is the even share of what is left |
| `Deadlines.LookupBoth` | crates/ferrum2-dns/src/resolver.rs:200-244 | a missing family is no error, any other error ends the lookup, else both families' addresses in order |
| `Deadlines.NextShare` | crates/ferrum2-dns/src/resolver.rs:392-400 | the next share is no smaller exactly when the present one fits as often as there are targets left |
| `Deadlines.SharesNeverShrink` | crates/ferrum2-dns/src/resolver.rs:392-400 | if each failed attempt ends by its own deadline, no target is offered less than the one before |
| `Deadlines.EveryTargetGetsItsPart` | crates/ferrum2-dns/src/resolver.rs:392-400 | then each is offered at least an even part of the whole, none past the overall deadline, the last all that is left |
| `Deadlines.OnTimeNeverRunsOut` | crates/ferrum2-dns/src/resolver.rs:392-400 | with a nanosecond per target, attempts ending on time never leave the next one without time |

## Left out

- Dependency: bulk insertion of selector members and chain hops, index conversion, and rendering of cycles.
- Allocation failures everywhere; reservations are taken to succeed.
- Aho-Corasick: keyword search is all occurrences of the keywords; the limits on keyword bytes are kept as an error.
- MatchSets: addresses are their bits; names are strings already in canonical form, one byte a character.
- PolicyCandidate.SelectDriver: saturation of counts at the word size is not modelled.
- PolicyRules: a response is its code and the addresses policy sees in it; the extraction itself is the subject of `response`.
- PolicyEval: observations and metrics recorded along the way.
- Decode: message and failure counters, emitted output, and reading and hashing of the file.
- Decode.Run: whether the replayed bytes have the hash of the first pass is given.
- Framing: what is decoded from a complete packet, which raises no integrity error; offsets of messages; a reservation gives exactly the capacity asked for.
- Decode.Decoder.Handle: after a first integrity error only the fact of the error is tracked, since completeness is then decided.
- Generations.GenerationSignal.NextSubscriber: numbers are unbounded, because reuse needs 2^64 registrations.
- Selectors: weak memory orderings and the wrap of the generation; the snapshot and tag queries.
- Selectors.SelectorState.Switch: states an uninterrupted switch; interleavings are the subject of the state machine beside it, which models switches and readers on values.
- Leases: the lease itself is modelled on values, since its fields are only reached through atomics and locks; captured endpoint facts, rates and views are not modelled.
- Registries: a weak handle in the cancellation table is taken to be alive until its lease retires.
- InterfaceCache: the branches of an uncached resolution; its result is arbitrary, since the platform route lookup is.
- Deadlines: transport setup and the TCP retry of a truncated UDP answer.
- Responses: case folding of names; they are values compared by equality.
- Poisoned locks, I/O, sockets, metrics, logging, and the web interface.
