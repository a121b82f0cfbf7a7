# Policy decision service: a verified model

This project models the decision core of the policy decision service and proves what the code promises
about it. Four parts, each a few modules:

- **Keyword matcher** (`TriePaths`, `AhoMatcher`): the Aho-Corasick automaton as a class over a growing
  list of nodes. It is related to one line of specification: some non-empty keyword is a contiguous part
  of the value. The order in which Go iterates over a map is left open: any remaining key may come next.
- **Rules** (`RuleFiles`, `RuleOrder`, `Loader`, `Decisions`, `RuleEngine`, `RuleMeaning`, `Snapshots`,
  `FileDecisions`): loading with its depth-first sort, the single pass over the rules, and the combination
  of results, related to reference cycles, to a naive unfolding of the references, and to a recursive
  meaning of a set of rules that knows no order. `FileDecisions.DecisionOfFile` says what a decision is in
  the words of the rule file alone. What a leaf rule finds is an arbitrary function of its id.
- **Rate limiter** (`RateLimit`, `RateBounds`): the counting script on a store of expiring counters,
  related to histories of attempts in which no counter occurs.
- **Sinks** (`AuditModel`, `AuditCompletion`, `AuditBatch`, `AuditWriter`, `KafkaModel`, `KafkaSink`,
  `Logs`, `Turns`): producers, one consumer and a shutdown as step systems with arbitrary interleavings and
  failures. The classes keep the form of the source; each of their methods is shown to perform steps of
  the system, recorded in the ghost field `run`, so that every theorem about runs holds of every object.

Five results deserve a reader's attention, because they say that something one might expect is not so:

- A limit of `limit` per window is not kept in the `w` seconds from every moment on. The window from time
  `from` on can see exactly up to `limit * (w + o - 1) / w` allowed attempts, where `o` is the number of
  seconds, partial ones included, that it reaches into the next bucket (`RateBounds.AllowedExactly`). So
  the limit holds in every window only if `w` is 1 or `limit` is 1 (`RateBounds.LimitHoldsExactly`); in
  general up to `limit * (2w - 1) / w` are allowed, less than twice the limit. Allowed are evaluations whose
  reply arrived and did not exceed the limit; what else the engine lets through is said under "Left out".
- With the scope of an actor and an action and no filter on the action, two requests can share a counter
  although they agree in neither: `RateLimit.SharedByTwo` gives two, and `RateLimit.SharedExactly` says
  exactly when, which takes a colon in an actor (`RateLimit.NoColonNoOverlap`).
- The notes about failed dependencies that README.md, line 34, of the service promises in the decision's
  `Reason.Detail` get there only for an `any` combiner that matches in spite of the failure and has no
  disabled dependency (`Snapshots.NotesReachDecision`). The reason of a combiner that does not match is
  discarded: `Snapshots.NotesLostAndKept` shows an `all` that loses its note.
- A record that cannot be inserted keeps every later record out of the table for good
  (`AuditModel.RefusedBlocks`), because a failed batch is retained and tried again from its start. Such a
  record is one that the table refuses every time, for instance for U+0000 in a string of the request,
  which a `jsonb` column does not take. An accepted record can still get its row exactly if neither it nor
  one before it is of this kind (`AuditCompletion.GetsRowExactly`), and the final flush can still be
  complete exactly if no accepted record is (`AuditCompletion.CompletesExactly`).
- `batchSize` does not always bound the batch of the audit writer. The open writer has never held more
  records than that exactly if its consumer has taken no record while a failed flush of a full batch was
  still to be made good (`AuditBatch.OverflowsExactly`). If flushes go on failing, for their inserts or for
  a first record that cannot be inserted, any records whatever pile up (`AuditBatch.BatchIsUnbounded`).

## Model

| member | source | states |
|---|---|---|
| TriePaths.LongestUnique | internal/rules/aho_matcher.go:38-66 | the longest suffix that a trie spells is determined by being a suffix, being spelled, and being longest |
| TriePaths.LongestDependsOnMembers | internal/rules/aho_matcher.go:38-66 | it does not depend on how the nodes are numbered |
| TriePaths.LongestExtends | internal/rules/aho_matcher.go:82-92 | after one more byte it can be found from the previous longest suffix alone |
| TriePaths.KeywordEndsLongest | internal/rules/aho_matcher.go:60-62 | a keyword ends a string exactly when it ends the longest suffix that the trie spells |
| TriePaths.OccursByPrefix | internal/rules/aho_matcher.go:68-80 | a keyword occurs in the value exactly when some prefix of the value ends with one |
| AhoMatcher.WithChildIsTrie | internal/rules/aho_matcher.go:24-30 | adding a missing node keeps the paths distinct, closed under prefixes, and all edges present |
| AhoMatcher.Matcher.Insert | internal/rules/aho_matcher.go:17-33 | inserting a keyword adds exactly its prefixes and marks exactly its last node |
| AhoMatcher.NoDeeperIsQueued | internal/rules/aho_matcher.go:44-65 | the queue is in breadth-first order: when a node is handled, every node no deeper than it has been queued |
| AhoMatcher.AllQueuedAtEnd | internal/rules/aho_matcher.go:44-65 | the pass reaches every node |
| AhoMatcher.FrontierGrows | internal/rules/aho_matcher.go:46-64 | the queue holds each node once, in order of depth, exactly when its parent has been handled |
| AhoMatcher.ReadByte | internal/rules/aho_matcher.go:47-59 | one step along a right link: the child spells the longest suffix, or the shorter node behind the link has the same answer |
| AhoMatcher.FlagFromLink | internal/rules/aho_matcher.go:60-62 | inheriting the flag of the link makes a node terminal exactly when some keyword is a suffix of its path |
| AhoMatcher.Matcher.FindLink | internal/rules/aho_matcher.go:47-59 | the loop over links ends at the node of the longest proper suffix that the trie spells |
| AhoMatcher.Matcher.LinkChild | internal/rules/aho_matcher.go:46-63 | link and flag of the child are right, and no other node changes |
| AhoMatcher.Matcher.LinkChildren | internal/rules/aho_matcher.go:44-65 | one turn of the pass finishes and queues exactly the children of one node, in any order of the map |
| AhoMatcher.Matcher.BuildFailures | internal/rules/aho_matcher.go:38-66 | afterwards every link leads to the longest proper suffix and every flag is right; edges are untouched |
| AhoMatcher.Matcher.constructor | internal/rules/aho_matcher.go:13-36 | for every list of keywords the result is the automaton of its non-empty keywords |
| AhoMatcher.AutomatonUnique | internal/rules/aho_matcher.go:13-66 | the automaton is determined by the set of non-empty keywords, whatever the order of keywords and map iterations |
| AhoMatcher.FailIsShorter | internal/rules/aho_matcher.go:82-92 | links strictly shorten the path, so following them ends |
| AhoMatcher.Matcher.NextState | internal/rules/aho_matcher.go:82-92 | the next state spells the longest suffix after the byte, and every extra turn is paid by the length of the path |
| AhoMatcher.Matcher.Match | internal/rules/aho_matcher.go:68-80 | true exactly when some non-empty keyword is a contiguous part of the value, with at most two turns of the inner loop per byte |
| RuleOrder.CycleOnStack | internal/rules/loader.go:200-202 | a temporary rule that is met again lies on a cycle of references |
| RuleOrder.OrderedHasNoCycle | internal/rules/loader.go:187-226 | rules that can be ordered have known references and no cycle |
| RuleOrder.Sorter.Visit | internal/rules/loader.go:195-219 | visiting a rule appends exactly those rules of its naive unfolding that were missing, in that order; an error is justified |
| RuleOrder.OrderRules | internal/rules/loader.go:187-226 | on any list: success exactly when references are known and acyclic; the order is the unfolding without repetitions, dependencies first, each rule once, a permutation if ids are distinct, an ordered list is returned as it is, and an error names a rule on a cycle or a reference to no rule |
| RuleOrder.OrderedStaysPut | internal/rules/loader.go:187-226 | a list that is already ordered is its own unfolding |
| RuleOrder.OrderPermutes | internal/rules/loader.go:187-226 | with distinct ids the order is a permutation |
| Loader.BlankExactly | internal/rules/loader.go:79-81 | an id is blank when all of it is white space |
| Loader.CheckIds | internal/rules/loader.go:78-90 | the first loop accepts exactly distinct, non-blank ids of known types, and its errors are true |
| Loader.CheckRefs | internal/rules/loader.go:92-101 | the second loop accepts exactly lists whose combiners refer to rules of the list |
| Loader.BuildEnabled | internal/rules/loader.go:108-120 | the third loop builds exactly the enabled rules, in order |
| Loader.Build | internal/rules/loader.go:142-186 | builds exactly what has a code, one of the three verdicts and a complete combiner or a leaf that can be made, and the rule has the verdict, code and operator that the file spells |
| Loader.SnapshotSays | internal/rules/loader.go:107-120 | every rule of the snapshot says what an enabled raw rule says, and every enabled one, with the flag or without, is there |
| Loader.Load | internal/rules/loader.go:71-127 | a file loads exactly when it has none of the defects; the result is its snapshot, of rules that say what the enabled raw rules say, and an error names a defect that is there |
| Decisions.Combine | internal/engine/combine.go:11-36 | the verdict is the most severe among matched results; reasons are those of matched results with a code; all ids are listed |
| Decisions.VerdictExactly | internal/engine/combine.go:15-30 | block exactly if a matched result says block, flag exactly if none does and one says flag, and allow otherwise |
| Decisions.ResponseUnique | internal/engine/combine.go:11-36 | there is one such response |
| Decisions.CombineConcat | internal/engine/combine.go:15-30 | combining distributes over concatenation |
| Decisions.VerdictOfSameMembers | internal/engine/combine.go:15-30 | the verdict does not depend on the order or number of results |
| RuleEngine.EvaluateWithResults | internal/rules/combiner.go:52-97 | the counting loop gives the declarative result: an error if any reference has no result, all or any over matched and not failed references, and a note per failed one |
| RuleEngine.NotesNameFailed | internal/rules/combiner.go:69-72 | one note for every failed reference, in order, that names it |
| RuleEngine.JoinSplits | internal/rules/combiner.go:88 | notes are joined with the separator between them |
| RuleEngine.Engine.Evaluate | internal/engine/engine.go:106-131 | the loop gives the response of the pass in which every rule sees the results before it |
| RuleMeaning.RanksDoNotMatter | internal/rules/combiner.go:62-82 | the recursive meaning of a rule is one, however its recursion is justified |
| RuleMeaning.MeaningUnfolds | internal/rules/combiner.go:62-82 | the defining equation of the meaning |
| RuleMeaning.CombinerAgrees | internal/rules/combiner.go:62-96 | a combiner that sees the meant results of its references gives its own meant result |
| RuleMeaning.PassIsMeaning | internal/engine/engine.go:106-129 | the single pass over a loaded list gives every rule the full result that the recursive meaning demands |
| Snapshots.EnabledKeepsOrder | internal/rules/loader.go:108-112 | leaving out disabled rules keeps dependencies first |
| Snapshots.SnapshotIsRuleList | internal/rules/loader.go:103-120 | a snapshot holds exactly the built enabled rules, once each, dependencies first |
| Snapshots.LoadingIgnoresOrder | internal/rules/loader.go:78-120 | whether a file loads does not depend on the order of its rules |
| Snapshots.ReorderingChangesNothing | internal/rules/loader.go:103-120 | reordering the rules of a file changes no result of any rule and not the verdict |
| Snapshots.EvaluatedAreTheEnabled | internal/engine/combine.go:14-16 | the response lists the enabled rules in load order, each once |
| Snapshots.FailsOnlyOnDisabled | internal/rules/combiner.go:64-68 | a combiner fails for want of a dependency exactly when it refers directly to a disabled rule |
| Snapshots.FewerMatches | internal/rules/combiner.go:64-82 | turning leaf outcomes into failures makes no rule match that did not |
| Snapshots.FailuresNeverRaiseVerdict | internal/engine/engine.go:122-125 | failing open: failures of leaf rules never raise the verdict: a block stays one without them, and a flag stays or becomes a block |
| Snapshots.NotesReachDecision | internal/rules/combiner.go:64-96 | the notes about failed dependencies reach the decision exactly for an any combiner that matches all the same and refers to no disabled rule |
| Snapshots.NotesLostAndKept | internal/rules/combiner.go:79-96 | over a failed and a matched rule, the note of an all combiner is in no reason of the decision, and that of an any combiner is in one |
| FileDecisions.OutcomesUnique | internal/engine/engine.go:106-129 | the equations that a file states for its enabled rules have exactly one solution, whatever the leaf rules find |
| FileDecisions.DecisionOfFile | internal/engine/engine.go:106-131 | given that solution, the decision blocks exactly if an enabled rule with verdict "block" has matched, flags exactly if none has but one with "flag", and has exactly the reasons of the matched rules, with their notes |
| RateLimit.DigitsHaveValue | internal/rules/rate_limit.go:86-91 | the digits of a bucket in a key stand for its number |
| RateLimit.RateLimiter.RunScript | internal/rules/rate_limit.go:15-23 | the script increments and refreshes the first counter and reads the second, expired counters being gone |
| RateLimit.KeysDiffer | internal/rules/rate_limit.go:86-91 | different prefixes or buckets have different keys |
| RateLimit.SharedExactly | internal/rules/rate_limit.go:121-130 | exactly when two requests that a rule counts have one prefix, and so one counter, in each scope |
| RateLimit.NoColonNoOverlap | internal/rules/rate_limit.go:121-130 | requests whose actors have no colon never overlap, so actor and action have a counter of their own |
| RateLimit.SharedByTwo | internal/rules/rate_limit.go:121-130 | two different actors with different actions that share a counter |
| RateLimit.CountersAreExact | internal/rules/rate_limit.go:83-105 | no counter that is read has expired, so it is the exact number of counted evaluations of its bucket |
| RateLimit.WholeSeconds | internal/rules/rate_limit.go:84 | that many whole seconds fit in the window, and one more does not |
| RateLimit.TtlRoundsUp | internal/rules/rate_limit.go:92 | two windows, rounded up to a second and no further |
| RateLimit.TtlIsLongEnough | internal/rules/rate_limit.go:92 | a counter outlives the bucket after its own |
| RateLimit.CountsExactly | internal/rules/rate_limit.go:79-81 | without an action filter every request is counted, with one those of its action |
| RateLimit.RateLimiter.Attempt | internal/rules/rate_limit.go:88-110 | script and comparison decide by the exact numbers of evaluations in both buckets |
| RateLimit.RateLimiter.Evaluate | internal/rules/rate_limit.go:77-119 | answers that the limit is exceeded exactly if the history says so, and adds just that verdict to it; a request that is not counted is no match and leaves no trace; errors before and after the script has run |
| RateBounds.AllowedPerBucket | internal/rules/rate_limit.go:107-112 | at most limit evaluations are allowed in a bucket |
| RateBounds.RoomAfterAllowed | internal/rules/rate_limit.go:107-112 | once one is allowed in the first o seconds of a bucket, the allowed ones there and the bucket before, at its least weight, fit the limit |
| RateBounds.AllowedInTwoBuckets | internal/rules/rate_limit.go:107-112 | two adjacent buckets allow at most limit * (2w - 1) / w |
| RateBounds.AllowedInAnyWindow | internal/rules/rate_limit.go:107-112 | the w seconds from any moment on, a whole second or not, see at most limit * (w + o - 1) / w allowed evaluations, where o is their reach into the next bucket, and so at most limit * (2w - 1) / w |
| RateBounds.AllowedExactly | internal/rules/rate_limit.go:107-112 | that bound is attained: for every start of the window, n can be allowed in it if and only if n does not exceed the bound |
| RateBounds.TwoBurstsAllowed | internal/rules/rate_limit.go:107-112 | the history that attains it: a burst at the start of the window and one in the last second of its reach |
| RateBounds.LimitHoldsFromExactly | internal/rules/rate_limit.go:107-112 | the limit holds in the windows from a given time on, in every history, if and only if limit * (o - 1) < w |
| RateBounds.LimitHoldsExactly | internal/rules/rate_limit.go:107-112 | at most limit in the w seconds from any moment on, in every history, if and only if w is 1 or limit is 1 |
| RateBounds.EstimateBracketsTruth | internal/rules/rate_limit.go:107-109 | the estimate and the true count of the last w seconds, to the nanosecond, lie between the attempts of this bucket and those of both |
| RateBounds.WhenAllowed | internal/rules/rate_limit.go:110-112 | few attempts are never rejected, too many always, and after a quiet bucket exactly the first limit attempts pass |
| RateBounds.SteadyEstimateIsExact | internal/rules/rate_limit.go:107-109 | after a bucket with the same number of attempts in every second, the estimate is the true number of attempts from the second w seconds before this one on |
| AuditModel.InvariantHolds | internal/store/audit.go:40-167 | what every interleaving keeps: order, rows, capacity, and when the writer is closed |
| AuditModel.FifoOrder | internal/store/audit.go:72-104 | accepted is flushed, then batch, then queue, in order, without loss or duplication |
| AuditModel.FirstRowsById | internal/store/audit.go:138-146 | with inserts that skip known ids, the row of an id is the first record with it |
| AuditModel.RowsAfterInsert | internal/store/audit.go:127-167 | an insert, whether it succeeds, fails, or fails after taking effect, keeps the table the rows of a prefix |
| AuditModel.TableIsPrefix | internal/store/audit.go:127-167 | the table holds exactly the first rows of a prefix of what was accepted that contains all that was flushed |
| AuditModel.CompleteStop | internal/store/audit.go:75-81 | if the final flush succeeds, every accepted id has one row, that of the first record with it |
| AuditModel.CallsAreCounted | internal/store/audit.go:40-57 | accepted, dropped and ignored calls add up to all calls |
| AuditModel.ClosedForGood | internal/store/audit.go:107-111 | after closing nothing is accepted or dropped, and after stopping the state does not change at all |
| AuditModel.RefusedBlocks | internal/store/audit.go:127-167 | a record that cannot be inserted keeps later records out of the table, and no flush completes |
| AuditModel.ShutdownEnds | internal/store/audit.go:75-81 | a closed writer can always go on and each step of its consumer brings it closer to the end |
| AuditCompletion.RunOn | internal/store/audit.go:66-105 | from any run not stopped by a failure, the writer can go on until the records accepted first, all insertable, have their rows |
| AuditCompletion.CompletesExactly | internal/store/audit.go:66-105 | a run that has not stopped can still end with a complete flush, without new records, if and only if every accepted record can be inserted |
| AuditCompletion.GetsRowExactly | internal/store/audit.go:127-167 | the first record with its id can still get its row, without new records, if and only if it and all accepted before it can be inserted |
| AuditCompletion.RefusedRecordCostsTheNext | internal/store/audit.go:75-81 | a run in which a refused record costs the good one behind it its row at shutdown, although no insert failed that could have succeeded |
| AuditBatch.PendingIsFull | internal/store/audit.go:92-103 | between two turns of the loop the batch is full exactly when a failed flush of a full batch has not been made good |
| AuditBatch.OverflowsExactly | internal/store/audit.go:92-103 | the open writer has held more than batchSize records if and only if a record was taken while a failed flush of a full batch was pending |
| AuditBatch.BatchIsBounded | internal/store/audit.go:75-103 | otherwise the batch holds at most batchSize records, and at most the capacity of the queue more after closing |
| AuditBatch.NoFailuresNoOverflow | internal/store/audit.go:92-103 | in particular, while no insert fails, no record is taken past a failed flush |
| AuditBatch.BatchIsUnbounded | internal/store/audit.go:92-103 | any records pile up in the batch before closing, whatever batchSize is, if all inserts fail, or if all succeed but the first record cannot be inserted |
| AuditWriter.Writer.constructor | internal/store/audit.go:26-38 | the defaults, and the initial state |
| AuditWriter.Writer.Enqueue | internal/store/audit.go:40-57 | accepts, drops or ignores the record, as a step of the system |
| AuditWriter.Writer.DrainQueued | internal/store/audit.go:113-125 | moves the whole queue to the end of the batch, as steps of the system |
| AuditWriter.Writer.InsertRecord | internal/store/audit.go:128-164 | performs the insert step and tells whether it succeeded |
| AuditWriter.Writer.Flush | internal/store/audit.go:127-167 | succeeds exactly if every record can be inserted and every insert succeeds, and has inserted the batch in order up to the first failure |
| AuditWriter.Writer.Finish | internal/store/audit.go:75-81 | closes, drains, and makes one final attempt to insert all that was left, which is complete exactly if all its inserts succeed |
| AuditWriter.Writer.TakeTurn | internal/store/audit.go:73-104 | a tick flushes the batch, and a record goes to the batch, which is flushed if that fills it, unless the context is cancelled: then all that is left is flushed once, and this turn is the last; a batch that is not flushed completely stays |
| AuditWriter.Writer.React | internal/store/audit.go:40-105 | what each event does to cancellation, loop, calls, choices and the number of waiting records, and what a turn does to batch and table |
| AuditWriter.Writer.Run | internal/store/audit.go:66-105 | among any events the writer stays in a reachable state, its run holds exactly the calls and the turns that were ready, and the events alone say whether it is cancelled and has stopped, and how many records wait |
| Turns.NextSignal | internal/store/audit.go:73-82 | how one event changes what waits, what is cancelled, what has ended and which turns are taken |
| Turns.EndsWhenCancelled | internal/store/audit.go:75-91 | the loop ends only when cancelled; then the next done turn ends it, or a record turn while a record waits |
| Turns.EndedForGood | internal/store/audit.go:75-91 | after the end no turn is taken |
| Turns.ArrivesAndIsTaken | internal/store/audit.go:82-83 | a record that arrives in an empty queue is taken by the next record turn |
| Turns.ArrivalsAreTaken | internal/store/audit.go:82-83 | before the end, with room for all, every record that arrived waits or was taken, one by each record turn |
| KafkaModel.InvariantHolds | internal/sink/kafka.go:73-161 | what every interleaving keeps |
| KafkaModel.PublishedInOrder | internal/sink/kafka.go:104-161 | accepted is what was tried, the record in flight, then the queue; each record is tried once, in order |
| KafkaModel.DrainedWhenStopped | internal/sink/kafka.go:139-161 | when Run has returned, every accepted record was tried unless the deadline passed |
| KafkaModel.CallsAreCounted | internal/sink/kafka.go:73-95 | accepted, dropped and ignored calls add up to all calls |
| KafkaModel.AttemptsAreCounted | internal/sink/kafka.go:163-194 | every attempt is one publish, and the failures are those that failed |
| KafkaModel.ClosedForGood | internal/sink/kafka.go:127-131 | after closing nothing is accepted or dropped, and after stopping nothing changes |
| KafkaModel.ShutdownEnds | internal/sink/kafka.go:139-161 | a closed sink can always go on and each step of its consumer brings it closer to the end |
| KafkaSink.Sink.constructor | internal/sink/kafka.go:55-71 | the default, and the initial state |
| KafkaSink.Sink.Enqueue | internal/sink/kafka.go:73-95 | accepts, drops or ignores the record, as a step of the system |
| KafkaSink.Sink.PublishRecord | internal/sink/kafka.go:133-137 | one attempt, counted as a failure exactly if it fails |
| KafkaSink.Sink.Drain | internal/sink/kafka.go:139-161 | tries the record in hand and then the queue in order, until it is empty or the deadline has passed and the select statement takes that branch; counts the failures |
| KafkaSink.Sink.TakeTurn | internal/sink/kafka.go:108-124 | one turn of the loop publishes the first queued record, or when the context is cancelled closes, drains and is the last; it loses nothing |
| KafkaSink.Sink.React | internal/sink/kafka.go:73-125 | what each event does to cancellation, loop, calls, choices, attempts and the number of waiting records |
| KafkaSink.Sink.Run | internal/sink/kafka.go:104-125 | among any events the sink stays in a reachable state, its run holds exactly the calls and the turns that were ready, and the events alone say whether it is cancelled and has stopped, how many records wait and how many were tried |

## Left out

- Evaluations let through by failing open: a call of the limiter that fails, before its script has run or because its reply is lost, makes the engine count no match; the bounds count only evaluations whose reply arrived and was within the limit.
- CEL rules: their compilation and evaluation is a foreign library; a CEL rule is an arbitrary leaf outcome.
- Parsing and files: YAML, SHA-256 versions, keyword files and `strings.ToLower`; the model starts from a parsed file and from byte strings.
- Leaf constructors: whether a keyword, rate-limit or CEL rule builds is the parameter `leafBuilds`; only its verdict and code are checked here.
- Verdict strings other than allow, flag and block: `RuleAction.validate` refuses them, so results carry one of three values.
- Cancellation inside `RuleEngine.Evaluate`: the model is of evaluations whose context is not cancelled, and of combiners called with a result map.
- Rounding and reply decoding in the rate limiter: the estimate is compared exactly, multiplied by the window, where the source uses float64; counters are unbounded.
- Rate-limit keys shared by several rules: `keyPrefix` has no rule id, so the model assumes one rule per prefix; and it has no time before 1970.
- Clock: the rule and the store read one clock that does not go back; with several clocks the exactness of the counters does not follow.
- Sinks without a pool or a publisher: their methods return at once and are not modelled.
- UUIDs, latencies, metrics, event payloads, the HTTP and gRPC handlers, configuration and the feature providers: no property of interest here.
- Fairness of the select statements: before the writer is closed it may keep choosing the ticker, so only what follows the closing is shown to end.
- AuditWriter.Writer.Run: producers come between the turns of the loop; the finer interleavings, between any two steps, are those of AuditModel.
- KafkaSink.Sink.Run: likewise; the finer interleavings are those of KafkaModel.
