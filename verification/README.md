# Verification of the offline routing benches and the CI controllers

A Dafny model of eight pieces of algorithmic code under `scripts/`, with proofs of what they keep over every input, every
run and every interleaving. `dafny verify dfyconfig.toml` checks the whole project.

| module | what it models |
|---|---|
| `Wrappers`, `Sums`, `Order`, `Split` | options and results; finite sums; code-point order and sorting without duplicates; splitting and joining on a separator |
| `MatrixInverse` | the in-place Gauss-Jordan inverse with partial pivoting |
| `Posterior` | the discounted ridge posteriors of the two linear bandit policies |
| `Optimism` | the exploration bonus of LinUCB: what it is meant to be, what it computes and when the two agree |
| `Shrinkage` | the discounted two-level Beta-Binomial means |
| `Feedback` | the delayed, sparse feedback channel and the order of an episode's loop |
| `Graph`, `Kinds`, `Chain` | reachability, Kahn's algorithm, the canonical order of kinds, the canonical chain builder and the motif adapter |
| `Ignore`, `IgnoreSegments`, `IgnorePaths`, `IgnorePlain`, `IgnoreReadings`, `IgnoreRules` | the Docker ignore compiler, what a compiled rule denies, what plain rules mean, when the segment-by-segment reading of it is right, and last-match rule resolution |
| `QueueHistory`, `QueueRuns`, `StatusPage`, `Admission`, `Requests`, `Passes`, `NameStatus` | merge-queue failure attribution and quarantine, the same read off the runs themselves, the page of statuses it is decided on, the admission protocol, what its requests mean and how its passes end, the NUL-delimited change parser |
| `Fleet`, `FleetFacts` | the escalation driver of the fleet bench, and what its scopes, stages and attempts come to |
| `Notes` | the folded AC-state notes and their pruning |
| `Evidence`, `EvidenceFormat` | content-addressed build evidence, and its manifests field by field |
| `Strategies` | the three delivery strategies and the settlement of their calls |

Floats are reals. Objects the source mutates are classes whose `Valid()` equates every field with a function of the whole
history of calls (a ghost field); each method says which call it appends to that history, so its contract fixes the whole new
state. Loops are methods proved against specification functions, and what the source promises is proved about those.

## What the code does not do

Six statements in the code's own documentation, or that one would expect of it, are false. The code is modelled as it is;
each has a counterexample and the exact condition under which the statement holds.

* `chain_structure` says its edges honor every stated ordering pair. It places kinds by first mention, so the pairs
  (`coder`, `reviewer`), (`scout`, `coder`) come out broken although they are acyclic (`Chain.ChainRefusesSatisfiable`). It honors them
  exactly when the pairs, read in order, mention every source before its target (`Chain.ChainSatisfiesExactly`). When they
  do not, the adapter refuses the spec.
* That the `reviewer` kind lands last, so that a chain is validated, whenever no pair places a kind after it, fails for
  (`scout`, `reviewer`), (`scout`, `coder`) (`Chain.ReviewerCanLandMidChain`). It holds exactly when the pairs mention the
  `reviewer` kind after every other kind they mention (`Chain.ReviewerLastExactly`).
* The optimism bonus of LinUCB is meant to be the posterior variance x'A⁻¹x. The code multiplies both sums by `x[i]`, which
  computes x'A⁻¹1 (`Optimism.WidthIsRowSums`): after one label it is 1.6 where the variance is 2.2
  (`Optimism.WidthIsNotVariance`). It never exceeds the variance, and the two agree exactly when every label the arm ever had
  carried this very context (`Optimism.WidthIsVarianceExactlyWhen`). It can even be negative, so that the clamp leaves no
  bonus to a context never seen (`Optimism.WidthCanBeNegative`).
* The quarantine bound is described as the first success of the gate. Only the newest hundred statuses are read, so later
  statuses can bury that success and release a quarantined head (`StatusPage.BuriedSuccessReleases`); the page decides as the full
  list would exactly when its first success is the list's (`StatusPage.PageHoldsExactly`).
* Attribution can blame nobody for a failed stack: behind an entry that was merely cancelled a failing one is excused
  (`QueueHistory.CancelledFrontExcuses`), and so are two failing entries recorded as built on each other
  (`QueueHistory.CycleExcuses`). On an acyclic stack somebody at or ahead of an entry is reported whenever the unsuccessful
  entry at its front has a failing run, and, if no PR stands in it twice, only then (`QueueHistory.FrontDecidesReport`);
  with two entries of one PR somebody may be reported without it (`QueueHistory.RequeuedIsReported`). So somebody always is
  when every unsuccessful entry has a failing run (`QueueHistory.SomeoneIsReported`).
* Everything but `**` in an ignore pattern is said to be confined to one path segment. A `*` or `?` is, but a negated
  bracket class can match a separator (`IgnoreReadings.BracketCrosses`). Which paths a rule denies is proved for every
  rule (`IgnorePaths.DeniesExactly`), and the segment-by-segment reading misses exactly the paths on which some
  pattern segment takes several path segments and which no reading by single segments matches
  (`IgnoreReadings.SegmentReadingExactly`); rules whose classes admit no separator have none
  (`IgnoreReadings.ConfinedRuleExactly`).

## Model

| member | source | states |
|---|---|---|
| MatrixInverse.PickPivot | scripts/bench_outcome_routing.py:476 | The pivot row is the first of those with the largest magnitude in the column, from the diagonal down. |
| MatrixInverse.RaisePivot | scripts/bench_outcome_routing.py:479-481 | Swap and scale, in place, keep right half times A equal to left half and finished columns unit columns, and leave a leading 1. |
| MatrixInverse.ClearColumn | scripts/bench_outcome_routing.py:482-485 | Eliminating every other row, in place, makes the column a unit column and keeps both invariants. |
| MatrixInverse.ReduceColumn | scripts/bench_outcome_routing.py:475-485 | One column either progresses with a pivot of at least 1e-12 or stops with evidence that A is singular to that precision. |
| MatrixInverse.MatInverse | scripts/bench_outcome_routing.py:471-486 | On every square matrix: a two-sided inverse, or a vector with an entry 1 that A maps below 1e-12 everywhere; when v.Av >= v.v every pivot is at least 2/(n+1), so no raise happens as long as that exceeds 1e-12. |
| MatrixInverse.PivotEvidence | scripts/bench_outcome_routing.py:476-478 | A rejected pivot exhibits a near-null vector of the original matrix; v.Av >= v.v forces every pivot to at least 2/(n+1). |
| MatrixInverse.DominanceSeparates | scripts/bench_outcome_routing.py:477-478 | Under v.Av >= v.v no vector with an entry 1 is mapped below 2/(n+1) in every entry. |
| MatrixInverse.Recovers | scripts/bench_outcome_routing.py:486 | Applying the returned matrix to A v gives v back. |
| MatrixInverse.Solves | scripts/bench_outcome_routing.py:486 | A v == w has the one solution the returned matrix gives. |
| MatrixInverse.InverseExcludesNull | scripts/bench_outcome_routing.py:477-478 | A matrix that was inverted has no non-zero null vector, so exactly singular input always raises. |
| MatrixInverse.InverseUnique | scripts/bench_outcome_routing.py:486 | There is only one matrix the method can return for A. |
| Posterior.RenewForm | scripts/bench_outcome_routing.py:556-568 | An update discounts the quadratic form, re-adds (1-g) of the norm and adds the squared prediction. |
| Posterior.RenewDominates | scripts/bench_outcome_routing.py:556-568 | The update keeps v.Av >= v.v for every v. |
| Posterior.PosteriorStaysAboveIdentity | scripts/bench_outcome_routing.py:553-570 | After any observation history every posterior matrix is 8x8, symmetric and satisfies v.Av >= v.v. |
| Posterior.InvertPosterior | scripts/bench_outcome_routing.py:559-566 | Inverting the posterior of any history returns its inverse: it never raises, however many labels an arm has seen. |
| Posterior.FeaturesAre | scripts/bench_outcome_routing.py:503-511 | Slot by slot the features are the task one-hot, the complexity one-hot and two ones. |
| Posterior.FeaturesMissBlindDirection | scripts/bench_outcome_routing.py:503-511 | The two intercept slots always agree, so every feature vector is orthogonal to their difference. |
| Posterior.BlindEigenvalueIsOne | scripts/bench_outcome_routing.py:559-566 | Along that direction the eigenvalue of the posterior is exactly 1 after any history. |
| Posterior.LossIsForm | scripts/bench_outcome_routing.py:553-569 | The matrix and weights of an arm are the quadratic and linear part of its discounted squared loss with a ridge of weight exactly 1. |
| Posterior.ThetaSolves | scripts/bench_outcome_routing.py:536 | theta solves the normal equations A theta == b. |
| Posterior.ThetaMinimisesLoss | scripts/bench_outcome_routing.py:533-539 | After any history no weight vector has a smaller discounted ridge loss than the policy's theta. |
| Optimism.VarianceBounded | scripts/bench_outcome_routing.py:538-539 | The variance the bonus is meant to take the root of lies between 0 and x.x for any context and history. |
| Optimism.WidthIsRowSums | scripts/bench_outcome_routing.py:538 | The bonus' sum is x.(A⁻¹1), not x.(A⁻¹x). |
| Optimism.WidthIsVarianceExactlyWhen | scripts/bench_outcome_routing.py:533-539 | After any history the sum never exceeds the variance of a context, and equals it iff every label of the arm carried that context. |
| Optimism.WidthIsNotVariance | scripts/bench_outcome_routing.py:538 | One chat label makes it 1.6 against a variance of 2.2 for a code context. |
| Optimism.WidthCanBeNegative | scripts/bench_outcome_routing.py:538-539 | Six labels make it negative for a context never seen, whose variance is positive, so the clamp removes its bonus. |
| Posterior.RenewInPlace | scripts/bench_outcome_routing.py:556-568 | The nested loops, reading each entry just before overwriting it, compute the update of every entry from the old matrix. |
| Posterior.LinUcb.constructor | scripts/bench_outcome_routing.py:520-531 | Every arm starts at the identity, with its inverse, and no history. |
| Posterior.LinUcb.Observe | scripts/bench_outcome_routing.py:553-570 | Matrix, weights, inverse and label count of every arm are those of the extended history; the inversion cannot raise. |
| Posterior.ThompsonLinear.constructor | scripts/bench_outcome_routing.py:584-594 | Every arm starts at the identity with no inverse computed. |
| Posterior.ThompsonLinear.Observe | scripts/bench_outcome_routing.py:623-636 | The same posterior as LinUCB, the stale inverse dropped. |
| Posterior.ThompsonLinear.PosteriorMean | scripts/bench_outcome_routing.py:596-604 | The lazily refreshed inverse is that of the current posterior and the mean is read off it. |
| Posterior.LazyAgreesWithEager | scripts/bench_outcome_routing.py:596-604 | Fed the same labels both policies hold the same mean. |
| Shrinkage.CellsAddUp | scripts/bench_outcome_routing.py:439-453 | After any history an arm's success and failure counts equal the sums over its context cells. |
| Shrinkage.EvidenceClosedForm | scripts/bench_outcome_routing.py:439-453 | After n labels the total evidence over all arms is (1 - g^n)/(1 - g). |
| Shrinkage.EvidenceBounded | scripts/bench_outcome_routing.py:439-447 | So it stays below 1/(1 - g) for ever. |
| Shrinkage.CountsNonNegative | scripts/bench_outcome_routing.py:439-453 | With rewards in the unit interval no discounted count ever goes negative. |
| Shrinkage.EvidenceNonNegative | scripts/bench_outcome_routing.py:439-453 | Successes and failures of an arm or a cell never total below zero, whatever the rewards. |
| Shrinkage.ShrunkBalances | scripts/bench_outcome_routing.py:410-420 | A shrunken mean solves its shrinkage equation, and is its prior when there is no evidence. |
| Shrinkage.ShrunkBetween | scripts/bench_outcome_routing.py:410-420 | With non-negative counts a shrunken mean lies strictly inside (0, 1) and on the side of its prior the evidence points to. |
| Shrinkage.PriorsAre | scripts/bench_outcome_routing.py:399-420 | The catalog counts for eight labels and an arm for four; the catalog's qualities. |
| Shrinkage.CountsAreDiscounted | scripts/bench_outcome_routing.py:439-453 | Each count is the sum of the rewards of its labels, or of what they lack of 1, each discounted by 0.99 per later label on any arm. |
| Shrinkage.ColdCell | scripts/bench_outcome_routing.py:416-420 | A cell never observed has no evidence. |
| Shrinkage.CatalogPriorMean.constructor | scripts/bench_outcome_routing.py:399-408 | All counts start at zero. |
| Shrinkage.CatalogPriorMean.Observe | scripts/bench_outcome_routing.py:439-453 | Ageing everything and crediting one arm and one cell yields the discounted counts of the extended history, for any reward. |
| Shrinkage.CatalogPriorMean.Mean | scripts/bench_outcome_routing.py:410-420 | Both means solve their shrinkage equations, an unseen cell falls back to its arm, and for rewards in the unit interval both lie strictly inside (0, 1). |
| Feedback.DeliveredAtFirstChance | scripts/bench_outcome_routing.py:316-333 | Over every call sequence an accepted label is delivered at exactly the first later call at or after its arrival, once, in queue order; the rest are pending; accepted equals delivered plus pending. |
| Feedback.EpisodeDelivery | scripts/bench_outcome_routing.py:736-784 | In an episode a label accepted at step s reaches the policy exactly at step max(s+1, s+delay+jitter). |
| Feedback.PolicyLearns | scripts/bench_outcome_routing.py:316-333 | What the policy learned and will learn are the context, arm and outcome of the calls that queued them, 1 for a success and 0 for a failure. |
| Feedback.EachLabelLearnedOnce | scripts/bench_outcome_routing.py:316-333 | An accepted label is learned from exactly once, at its first chance and with its own outcome, and nothing else is. |
| Feedback.FeedbackChannel.constructor | scripts/bench_outcome_routing.py:298-314 | The channel starts empty with a fresh policy. |
| Feedback.FeedbackChannel.Enqueue | scripts/bench_outcome_routing.py:316-322 | A rejected label only counts as dropped; an accepted one is queued with its context, arm and outcome as 1 or 0, to arrive at step plus delay plus jitter. |
| Feedback.FeedbackChannel.DeliverDue | scripts/bench_outcome_routing.py:324-333 | The policy observes exactly the due labels in queue order; its label count equals delivered, and enqueued equals delivered plus pending. |
| Graph.Adjacency | scripts/bench_graph_pattern_reuse.py:293-295 | The adjacency map lists exactly the successors of each node. |
| Graph.Expand | scripts/bench_graph_pattern_reuse.py:300-305 | One expansion reports the target iff it is a successor and otherwise marks and queues the unseen successors. |
| Graph.Reaches | scripts/bench_graph_pattern_reuse.py:290-306 | The worklist answers true iff a path leads from source to target (both directions, terminating). |
| Graph.CountDegrees | scripts/bench_graph_pattern_reuse.py:314-322 | Indegrees and adjacency are those of the edge set, unless there is a self-loop. |
| Graph.InitiallyReady | scripts/bench_graph_pattern_reuse.py:323 | The first ready nodes are exactly those without predecessor. |
| Graph.KahnVerdict | scripts/bench_graph_pattern_reuse.py:325-332 | Once no node is ready, all were popped iff the edges have no cycle. |
| Graph.RankedIsAcyclic | scripts/bench_graph_pattern_reuse.py:308-332 | A pop order that ranks every edge upwards excludes cycles. |
| Graph.WalkBackComesRound | scripts/bench_graph_pattern_reuse.py:308-332 | A finite set in which every node has a predecessor inside contains a cycle. |
| Graph.OrderingsSatisfiable | scripts/bench_graph_pattern_reuse.py:308-332 | True iff the union of the structure's edges and the spec's orderings has no cycle, self-loops included. |
| Kinds.SortKinds | scripts/bench_graph_pattern_reuse.py:341-348 | The result lists the set under the canonical order of kinds: scout, coder, planner, llm.summarize, transform.extract_field, other names by code point, reviewer. |
| Kinds.KindOrderMeans | scripts/bench_graph_pattern_reuse.py:341-348 | The sort key orders kinds exactly so, stated on the names themselves. |
| Order.LexMeans | scripts/bench_graph_pattern_reuse.py:348 | Strings compare by the first code point they differ in, a proper prefix coming first. |
| Chain.ChainStructure | scripts/bench_graph_pattern_reuse.py:351-381 | The two placement loops build the specified chain: given kinds laid out as below, each joined to the next. |
| Chain.ChainIsLaidOut | scripts/bench_graph_pattern_reuse.py:364-380 | The chain is the mentioned kinds in order of first mention, the other kinds except the reviewer as one block in canonical order right before a mentioned reviewer, else at the end, and then an unmentioned reviewer. |
| Chain.ChainShape | scripts/bench_graph_pattern_reuse.py:351-381 | The chain holds exactly the given kinds, each once, and mentioned kinds stand in order of first mention. |
| Chain.ChainReaches | scripts/bench_graph_pattern_reuse.py:290-306 | Along a chain a kind reaches exactly itself and what stands after it. |
| Chain.ChainHonours | scripts/bench_graph_pattern_reuse.py:308-338 | Orderings are satisfiable against a chain iff each pair runs forward along it. |
| Chain.ChainSatisfiesExactly | scripts/bench_graph_pattern_reuse.py:351-381 | Over any superset of the required kinds the chain meets the spec iff its pairs are stated in order. |
| Chain.StatedInOrderIsAcyclic | scripts/bench_graph_pattern_reuse.py:364-368 | Pairs stated in order are satisfiable. |
| Chain.ChainRefusesSatisfiable | scripts/bench_graph_pattern_reuse.py:351-358 | The converse fails: an acyclic pair list the chain breaks. |
| Chain.ValidatedExactly | scripts/bench_graph_pattern_reuse.py:280-288 | A chain is validated iff the `reviewer` kind is its last element. |
| Chain.ReviewerLastExactly | scripts/bench_graph_pattern_reuse.py:341-381 | That is iff the `reviewer` kind is given and the pairs mention it after every other given kind they mention. |
| Chain.ReviewerCanLandMidChain | scripts/bench_graph_pattern_reuse.py:351-381 | Not placing any kind after it is not enough. |
| Chain.SpecOf | scripts/bench_graph_pattern_reuse.py:165-176 | A built spec requires the given kinds but the dropped one, and keeps exactly the pairs among those. |
| Chain.KeptSplits | scripts/bench_graph_pattern_reuse.py:173-175 | The kept pairs stay in their order, each as often as stated. |
| Chain.Meets | scripts/bench_graph_pattern_reuse.py:334-338 | True iff the required kinds are covered and the orderings are acyclic with the edges. |
| Chain.Adapt | scripts/bench_graph_pattern_reuse.py:805-818 | Either a spec-satisfying superset with edits equal to the number of kinds added, or a refusal; it refuses a well-formed spec iff its pairs are not stated in order. |
| Chain.AdaptIsIdempotent | scripts/bench_graph_pattern_reuse.py:805-818 | Adapting an adapted structure changes nothing at no cost. |
| Ignore.SegmentRegex | scripts/check-build-context.py:179-206 | The indexed loop emits one regex part per token of the segment; what those accept is TextCompiles. |
| Ignore.PatternRegex | scripts/check-build-context.py:211-225 | The compiled pattern is its segments' parts, separators and spans, and the directory suffix. |
| IgnoreSegments.SegmentCompiles | scripts/check-build-context.py:179-206 | A compiled segment accepts exactly what the character matcher accepts, bracket classes that admit the separator included. |
| IgnoreSegments.TokensRead | scripts/check-build-context.py:191-205 | The tokens match exactly what the segment's own text reads as: a star any run without separators, a question mark one character that is none, a bracket up to the next closing one a character of that class, any other character itself. |
| IgnoreSegments.TextCompiles | scripts/check-build-context.py:179-206 | The compiled segment takes a prefix of a text iff the segment's own text reads as it. |
| IgnorePaths.PathCompiles | scripts/check-build-context.py:211-225 | The compiled regex accepts a path iff the path or an ancestor matches the pattern, each pattern segment taking one path segment or, through a class, several. |
| IgnorePaths.DeniesExactly | scripts/check-build-context.py:228-237 | Every rule denies a path of non-empty newline-free segments iff the path or an ancestor directory matches the text of the rule, final ** spanning one or more segments, any other zero or more, any other pattern segment one or, through a class, several. |
| IgnoreReadings.SegmentReadingExactly | scripts/check-build-context.py:211-217 | The segment-by-segment reading is sound, and misses a denial iff a pattern segment spans several path segments where no such reading matches. |
| IgnoreReadings.ConfinedRuleExactly | scripts/check-build-context.py:197-203 | A rule whose classes do not admit the separator denies exactly by the segment-by-segment reading. |
| IgnorePaths.DenialInherited | scripts/check-build-context.py:214-216 | Everything below a denied path is denied, under every rule. |
| IgnorePlain.TrimmedRuleDenies | scripts/check-build-context.py:236 | Slashes before and after a rule do not change what it denies. |
| IgnorePlain.NameDenies | scripts/check-build-context.py:228-237 | A plain name denies the top-level entry of that name and all below it; after **/ any entry of that name. |
| IgnorePlain.EndingDenies | scripts/check-build-context.py:182-184 | A star before a plain ending denies the top-level entries that end so and all below them; after **/ any such entry. |
| IgnoreReadings.BracketCrosses | scripts/check-build-context.py:197-203 | A bracket class that admits the separator denies a path no segment matches. |
| IgnoreRules.LastMatchIsLast | scripts/check-build-context.py:240-251 | The deciding rule matches and no later rule does. |
| IgnoreRules.EffectiveRule | scripts/check-build-context.py:240-251 | The loop compiles and matches each rule and returns the last matching one, or none. |
| IgnoreRules.DeniedByLast | scripts/check-build-context.py:254-257 | A path is denied iff some rule not beginning with an exclamation mark matches it and no later rule does. |
| IgnoreRules.ExceptionApplies | scripts/check-build-context.py:249 | The exclamation marks of an exception do not change which paths it matches. |
| IgnoreRules.OnlyNarrowerExceptionReincludes | scripts/check-build-context.py:240-257 | Under any rule set, below a denied path only an exception matching the descendant but not the path re-includes anything. |
| IgnoreRules.AppendedRuleWins | scripts/check-build-context.py:240-257 | A rule written last decides every path it matches and no other. |
| QueueHistory.BehindFailedEntry | scripts/check-enqueue-merge-queue.py:157-174 | On every parent map, cyclic ones included, the walk ends and answers true iff an unsuccessful entry lies ahead before any entry of the same PR. |
| QueueHistory.SomeoneIsBlamed | scripts/check-enqueue-merge-queue.py:177-228 | On an acyclic stack whose unsuccessful entries all have failing runs, every failed entry has a blamed entry at or ahead of it. |
| QueueHistory.FrontDecidesBlame | scripts/check-enqueue-merge-queue.py:157-228 | On an acyclic stack a failing run in the frontmost unsuccessful entry puts blame on somebody at or ahead of the entry; when no PR stands in the stack twice, nothing else does. |
| QueueHistory.BlamedIsReported | scripts/check-enqueue-merge-queue.py:216-228 | An entry is among the failures returned for its PR iff it is blamed. |
| QueueHistory.SomeoneIsReported | scripts/check-enqueue-merge-queue.py:177-228 | On an acyclic stack whose unsuccessful entries all have failing runs, the failures returned for the runs include one at or ahead of every failed entry. |
| QueueHistory.FrontDecidesReport | scripts/check-enqueue-merge-queue.py:177-228 | The same exact condition for the failures returned for a list of runs. |
| QueueHistory.RequeuedIsReported | scripts/check-enqueue-merge-queue.py:166-170 | Runs of two entries of one PR, where a failure is reported though the front of its stack has no failing run. |
| QueueHistory.CancelledFrontExcuses | scripts/check-enqueue-merge-queue.py:177-228 | Runs of a failing entry built on a cancelled one, for which no failure of any PR is returned. |
| QueueHistory.CycleExcuses | scripts/check-enqueue-merge-queue.py:157-174 | Runs of two failing entries whose branch names and heads make each the parent of the other: no failure of any PR is returned. |
| QueueHistory.CollectConsistent | scripts/check-enqueue-merge-queue.py:193-213 | A collected entry has a time iff it failed, and every failed entry is unsuccessful. |
| QueueHistory.CollectMeans | scripts/check-enqueue-merge-queue.py:193-213 | An entry exists, failed, or is unsuccessful iff one of its runs says so. |
| QueueHistory.CollectDates | scripts/check-enqueue-merge-queue.py:206-211 | A failed entry carries the time of its earliest failing run and exactly the names of its failing runs. |
| QueueHistory.CollectFailsExactly | scripts/check-enqueue-merge-queue.py:193-213 | Collecting fails iff a failing run of a queue entry has no usable time. |
| QueueHistory.OwnFailuresExactly | scripts/check-enqueue-merge-queue.py:216-228 | The failures of a PR are exactly its entries that failed and are not behind a failure. |
| QueueHistory.OwnQueueFailures | scripts/check-enqueue-merge-queue.py:177-228 | The two loops fail exactly when collecting does and otherwise return, for every PR, its failures in the order its entries were first seen. |
| QueueRuns.HeadsAreOfRuns | scripts/check-enqueue-merge-queue.py:203-205 | An entry holds exactly the heads of its runs. |
| QueueRuns.ByHeadMeans | scripts/check-enqueue-merge-queue.py:215 | A head leads to the entry that holds it, and of several to the one whose first run appears last. |
| QueueRuns.BehindMeans | scripts/check-enqueue-merge-queue.py:157-174 | The walk finds a failure ahead iff the runs lead, entry by entry over other PRs with no run against them, to one of another PR with a run that neither passed nor is running. |
| QueueRuns.ReportedFromRuns | scripts/check-enqueue-merge-queue.py:177-228 | From the runs alone: the failures of a PR are those of its entries with a failing run and no such path, each with the time of its earliest failing run and the names of all of them. |
| QueueRuns.ReportedInOrder | scripts/check-enqueue-merge-queue.py:217-220 | They are listed in the order their entries' first runs appear. |
| QueueRuns.UnusableExactly | scripts/check-enqueue-merge-queue.py:207-209 | Attribution fails iff a run of a queue entry concluded in one of the four failing ways has no usable time. |
| QueueHistory.FirstSuccessMeans | scripts/check-enqueue-merge-queue.py:245-252 | The bound is the time of some success and no success is earlier. |
| QueueHistory.ByTimeSorts | scripts/check-enqueue-merge-queue.py:253 | Sorting by time keeps the failures and orders them. |
| QueueHistory.FirstFromMeans | scripts/check-enqueue-merge-queue.py:253-256 | The scan returns the earliest failure at or after the bound, or none iff all are older. |
| QueueHistory.QueueFailureForHead | scripts/check-enqueue-merge-queue.py:231-256 | The loop decides the hold of the head from its statuses and its PR's failures. |
| QueueHistory.HoldExactly | scripts/check-enqueue-merge-queue.py:231-256 | A head is held iff some own-tree failure is not older than its first success, and then by the earliest such. |
| QueueRuns.HeldExactly | scripts/check-enqueue-merge-queue.py:245-256 | From the statuses alone: fails iff some gate success has no usable time, and otherwise holds by the earliest failure dated at or after some gate success, the first listed of those, or not at all. |
| QueueHistory.LatestMeans | scripts/check-enqueue-merge-queue.py:259-268 | The chosen status is the first listed of those no other status of the context is newer than. |
| QueueHistory.GreenExactly | scripts/check-enqueue-merge-queue.py:259-268 | The gate is green iff the latest status of its context, the first listed of several, is a success. |
| Admission.StepKeepsInv | scripts/check-enqueue-merge-queue.py:585-765 | Every controller step and every change of the world keeps the phase evidence and all requests justified. |
| Admission.RequestsAreJustified | scripts/check-enqueue-merge-queue.py:690-765 | The same for every state of every run, restarts and crashes included. |
| Requests.RequestedHeadIsClean | scripts/check-enqueue-merge-queue.py:663-743 | A requested head has no own-tree failure in the history read that is dated at or after any success of its gate seen up to then, as long as one page held its statuses. |
| Requests.EveryRequestIsClean | scripts/check-enqueue-merge-queue.py:430-445 | Over every interleaving a request names a head read open, non-draft, unarmed, develop-based and green, assessed at that head against a base equal to the controller's revision, the base fetched again unchanged, the history readable, and no failure in it at or after a success. |
| Requests.FreshHeadIsNotHeld | scripts/check-enqueue-merge-queue.py:663-687 | A green head all of whose successes postdate the PR's failures proceeds to assessment. |
| Requests.QuietWorldAdmits | scripts/check-enqueue-merge-queue.py:690-743 | While nothing moves, a green, unheld, eligible head of an open, non-draft, develop-based PR is requested in four steps, against the controller's revision, and nothing else is. |
| Requests.UnreadableAdmitsNothing | scripts/check-enqueue-merge-queue.py:747-754 | Over every run, from an unreadable history on until the next restart the pass stays ended with code 1 and nothing is requested. |
| Passes.FailuresCounted | scripts/check-enqueue-merge-queue.py:690-754 | A step counts a controller failure iff a gate success of the head has no usable time, the PR cannot be read again, the base is not the controller's revision, or the policy breaks; an answer to a request may count one. |
| Passes.PassEndsWith | scripts/check-enqueue-merge-queue.py:747-795 | A pass without a crash ends with 2 iff it has no revision, else with 1 iff the history was unusable or a failure was counted, else with 0. |
| StatusPage.PageHoldsExactly | scripts/check-enqueue-merge-queue.py:547-553 | Reading one page of statuses never holds too much and releases too much iff the first success is off the page. |
| StatusPage.BuriedSuccessReleases | scripts/check-enqueue-merge-queue.py:547-553 | A head the full list quarantines and the page releases. |
| NameStatus.Parse | scripts/check-enqueue-merge-queue.py:330-364 | The index loop returns the specified records, their paths decoded, or fails on a missing terminator, a non-ASCII status or an incomplete record. |
| NameStatus.ParseInvertsEmit | scripts/check-enqueue-merge-queue.py:330-364 | Parsing the emission of any list of printable records returns that list, decoded. |
| NameStatus.EmitInvertsParse | scripts/check-enqueue-merge-queue.py:330-364 | Any accepted input is exactly the emission of the records read from it, all of them printable. |
| NameStatus.ReemitsExactly | scripts/check-enqueue-merge-queue.py:349-362 | Encoding and printing the decoded result gives the input back iff every path survives decoding. |
| NameStatus.OneRecord | scripts/check-enqueue-merge-queue.py:338-363 | Byte by byte: a status starting with R or C takes an old and a new path, any other one path, and the rest is read on its own. |
| NameStatus.NoRecord | scripts/check-enqueue-merge-queue.py:333-361 | An input not ending in NUL, a status that is not ASCII and a record cut short are errors; nothing is no record. |
| Fleet.ObservableFailureExactly | scripts/bench_fleet_routing.py:412-484 | An attempt fails observably iff it does not fit or the provider limits it, whatever the difficulty and outcome draws; it then succeeds never and costs nothing. |
| FleetFacts.AttemptMeans | scripts/bench_fleet_routing.py:422-452 | An attempt meets the capacity wall, is refused by a hosted provider under pressure on a draw below 0.35, or succeeds on a draw below its rate; misses its deadline iff it takes longer; failures at the seam bill nothing. |
| FleetFacts.AttemptInTheMiddle | scripts/bench_fleet_routing.py:473-484 | At the middle of their draws latency is the model's own scaled by the context and the output is the expected one. |
| FleetFacts.SuccessFalls | scripts/bench_fleet_routing.py:457-465 | The success rate stays within 0.02 and 0.98, falls with difficulty and gains from reasoning capability. |
| FleetFacts.SuccessInComfort | scripts/bench_fleet_routing.py:435-465 | Within its comfort a tier succeeds at its own rate, adjusted for reasoning and tools. |
| Fleet.ScopeExactly | scripts/bench_fleet_routing.py:590-610 | A name is in scope iff a catalog model of that name passes every filter. |
| FleetFacts.ScopeMeans | scripts/bench_fleet_routing.py:590-610 | A model passes iff it is not excluded and meets every filter the stage sets. |
| FleetFacts.ScopeInOrder | scripts/bench_fleet_routing.py:598-609 | Scopes list the passing models in catalog order. |
| FleetFacts.StagesMean | scripts/bench_fleet_routing.py:650-713 | The stages of each shipped policy, by the models they take. |
| FleetFacts.OfferIsRouted | scripts/bench_fleet_routing.py:631-638 | A stage is offered what the seam returns for the task type, its budget and its scope. |
| Fleet.EscalationShape | scripts/bench_fleet_routing.py:624-647 | Attempted models are distinct, at most one per stage, and all but the last failed observably. |
| Fleet.RouteExactly | scripts/bench_fleet_routing.py:624-647 | The attempts are the one list for which some increasing stage indices exist such that each attempt is the first offer of an untried model after the previous one, all but the last failed observably, and no later stage is offered anything unless the last attempt settled; so a task is unrouted iff no stage is offered a model. |
| Fleet.RouteIgnoresHidden | scripts/bench_fleet_routing.py:624-647 | Outcomes the egress cannot tell apart give the same model sequence. |
| Fleet.RowsCover | scripts/bench_fleet_routing.py:766-767 | Every task finds a row of its id. |
| Fleet.RowsAgree | scripts/bench_fleet_routing.py:766-767 | Corpora that agree on tasks give rows that agree on tasks, repeated ids included. |
| Fleet.HiddenDifficultyDoesNotRoute | scripts/bench_fleet_routing.py:612-647 | Two corpora agreeing on observable fields, with any difficulties and outcome draws, route every task through the same models under any policy of stages. |
| Fleet.FleetPolicy.constructor | scripts/bench_fleet_routing.py:582-585 | A policy starts without route failures. |
| Fleet.FleetPolicy.ScopedNames | scripts/bench_fleet_routing.py:590-610 | The filter loop lists the names in scope in catalog order. |
| Fleet.FleetPolicy.RunTask | scripts/bench_fleet_routing.py:624-647 | The stage loop attempts the specified models and counts a route failure iff there was none. |
| Fleet.FleetPolicy.RouteAll | scripts/bench_fleet_routing.py:762-771 | Every task is routed against the corpus rows, and route failures count the unrouted. |
| Fleet.FittedStageFailsOnRateLimitOnly | scripts/bench_fleet_routing.py:596-610 | An offered model is in scope, so a fitted stage never meets the capacity wall and a fitted local stage never fails over. |
| Fleet.ShippedCompositions | scripts/bench_fleet_routing.py:650-710 | Scoped fleets attempt once at most and inside their providers; local-first settles an easy task with a fitting local model in one local attempt. |
| Fleet.Adequate | scripts/bench_fleet_routing.py:731-736 | The oracle considers exactly the available models that fit. |
| Fleet.Best | scripts/bench_fleet_routing.py:741 | The oracle picks the first model of greatest realized utility. |
| FleetFacts.UtilityTrades | scripts/bench_fleet_routing.py:411-416 | A success is worth 1.25 more than a failure, and a cent as much as 250 ms. |
| Fleet.OracleLeaks | scripts/bench_fleet_routing.py:729-754 | The positive control: two difficulties of one task make the oracle choose differently. |
| Notes.Fold | scripts/ac_state_notes.py:198-217 | Bounds exactly the recorded counters, each by its tightest recorded value; fails iff two notes record a counter of unknown direction. |
| Notes.FoldMeans | scripts/ac_state_notes.py:198-217 | In the bounds design coverage is the greatest recorded value, any other counter the least. |
| Notes.ClashMeans | scripts/ac_state_notes.py:189-195 | Two notes clash over exactly the counters outside the eleven known ones. |
| Notes.FoldOne | scripts/ac_state_notes.py:207-216 | Folding in one note, its counters in any order, gives the fold of one note more. |
| Notes.FoldDetermined | scripts/ac_state_notes.py:198-217 | The fold depends on which notes there are, not on order or repetition. |
| Notes.ClashIgnoresOrder | scripts/ac_state_notes.py:189-217 | Whether it fails does not depend on order. |
| Notes.ParsedNeverClash | scripts/ac_state_notes.py:139-143 | Parsed notes always fold. |
| Notes.ParsedNeverRaise | scripts/ac_state_notes.py:139-143 | Pruning parsed notes never raises. |
| Notes.MoreNotesTighten | scripts/ac_state_notes.py:13-16 | Adding notes loses no bound and loosens none. |
| Notes.CoveredFoldsAlike | scripts/ac_state_notes.py:365-376 | Notes dominated by the kept ones do not change any bound. |
| Notes.Needed | scripts/ac_state_notes.py:383-389 | For any note: raises iff the fold of the others does or a repeated counter of unknown direction is reached first, and is otherwise true iff the others do not already say everything the note says. |
| Notes.Stale | scripts/ac_state_notes.py:365-393 | For any notes: raises iff some note does at its turn; otherwise pruning everything reported leaves the fold unchanged and the survivors irredundant, and reported is, in order, each note dominated by what is left at its turn. |
| Notes.SparingLoosens | scripts/ac_state_notes.py:365-376 | Sparing any survivor loses a counter or loosens a bound, unless it is the only note and says nothing. |
| Evidence.ValidatedInputs | scripts/build-evidence.py:162-171 | The loop threading the previous path accepts and rebuilds the specified list. |
| Evidence.InputsExactly | scripts/build-evidence.py:148-171 | Accepted input lists are exactly the entries of well-formed digests in strictly ascending path order. |
| Evidence.ValidationIsFixed | scripts/build-evidence.py:174-195 | What validation rebuilds is what it was given. |
| EvidenceFormat.IdentityExactly | scripts/build-evidence.py:174-195 | Validation accepts exactly the manifests of the six fields, schema 1, a command that is not blank, a runtime of two non-empty texts, tools and input paths in strictly ascending code-point order, lower-case sha256 digests and the key of the rest. |
| Evidence.KeyIdentifies | scripts/build-evidence.py:192-195 | Two valid identities share a key only if they are equal or the digest collides on them. |
| Evidence.VerifyExactly | scripts/build-evidence.py:248-290 | A manifest verifies iff it is the zero-exit completion of the expected identity at its recorded duration, read as a float, and is returned unchanged. |
| Evidence.CompleteThenVerify | scripts/build-evidence.py:207-290 | A zero-exit completion verifies against its identity; a failed one, or another identity, never verifies. |
| EvidenceFormat.CompletedExactly | scripts/build-evidence.py:207-236 | Completion yields exactly one manifest, success for exit code 0 and failure for any other, or refuses an invalid identity, a negative code or a duration that is not finite and non-negative. |
| EvidenceFormat.VerifiedExactly | scripts/build-evidence.py:253-290 | Verification accepts exactly the completions of the expected identity by a command that exited with 0. |
| Evidence.RecordWalk | scripts/build-evidence.py:97-101 | One walk is recorded by path unless it contradicts what was seen. |
| Evidence.DigestInputs | scripts/build-evidence.py:91-104 | The distinct digests in path order, or failure iff an input is missing, a file changed while hashing, or nothing was found. |
| Evidence.BuildManifest | scripts/build-evidence.py:107-129 | The keyed identity of a non-blank command, its sorted tools and its digests. |
| EvidenceFormat.BuiltExactly | scripts/build-evidence.py:91-129 | Building fails iff the command is blank, an input is missing, a file was read with two digests or none was found, and otherwise lists exactly the tools named and files found, each once in ascending order, under the key of it all. |
| Evidence.BuiltInputsCanonical | scripts/build-evidence.py:91-104 | Built digests ascend strictly by path and are not empty. |
| Evidence.BuiltValidates | scripts/build-evidence.py:107-195 | Every built identity passes validation as it stands. |
| Evidence.BuiltForgetsOrder | scripts/build-evidence.py:91-129 | Identities do not depend on the order or repetition of inputs and tools, failures included. |
| Strategies.ScheduleIsPhysical | scripts/bench_speculative_parallel.py:233-259 | Every scheduled outcome has positive latency, an acceptable one did not fail, and the verifier's noise is at most 0.1. |
| Strategies.ScheduleFails | scripts/bench_speculative_parallel.py:231-249 | A call fails on a draw below 0.02 or in its provider's outage, every seventh task hitting the next provider in turn, and is acceptable iff it did not fail and its draw is below the pass rate. |
| Strategies.ScheduleFollowsDraws | scripts/bench_speculative_parallel.py:244-259 | Latency and scores at the middle and the bottom of their draws. |
| Strategies.EffectKeyIdentifies | scripts/bench_speculative_parallel.py:264-265 | Under one label an effect key names one task and model. |
| Strategies.RunCascade | scripts/bench_speculative_parallel.py:430-444 | The accumulating loop delivers the specified outcome. |
| Strategies.CascadeMeans | scripts/bench_speculative_parallel.py:417-444 | The cascade succeeds iff a candidate is acceptable, and takes at least as long as its winner, or as every candidate when it fails. |
| Strategies.CascadeTakesFirst | scripts/bench_speculative_parallel.py:430-444 | The first acceptable candidate wins after the total latency up to and including it. |
| Strategies.CascadeHonest | scripts/bench_speculative_parallel.py:430-444 | A cascade delivers the true score of its acceptable winner, or nothing after the latency of all candidates. |
| Strategies.EarlyStopDelivers | scripts/bench_speculative_parallel.py:447-487 | Early stop delivers the first acceptable answer to arrive, ties by name, or nothing once the slowest call is back. |
| Strategies.VerifierDelivers | scripts/bench_speculative_parallel.py:490-521 | The verifier waits for the slowest call, delivers the acceptable answer that looks best, ties by name, and errs iff another is truly better. |
| Strategies.Earliest | scripts/bench_speculative_parallel.py:461 | The early-stop winner has the least latency, ties by name. |
| Strategies.Favourite | scripts/bench_speculative_parallel.py:512 | The verifier's pick has the greatest noisy score, ties by name. |
| Strategies.SucceedAlike | scripts/bench_speculative_parallel.py:417-521 | Over the same candidates cascade and early stop succeed alike always, the verifier iff not every acceptable call raised; so all three when acceptable implies not failed. |
| Strategies.EarlyStopIsFastest | scripts/bench_speculative_parallel.py:447-521 | Early stop never takes longer than the cascade or the verifier. |
| Strategies.VerifierRegret | scripts/bench_speculative_parallel.py:490-521 | The verifier's answer is within 0.2 of the best acceptable one, and without a reported error at least as good as what the others deliver. |
| Strategies.Progress | scripts/bench_speculative_parallel.py:554 | Accrued progress lies between 0 and 1, is the elapsed share of the call while the call is longer, and 1 from then on. |
| Strategies.OutputDueMeans | scripts/bench_speculative_parallel.py:532-555 | A winner, a completed call and, without a winner, a call in flight owe all their units; a failed loser owes what it was charged; a cancelled one the share of its latency elapsed when the winner landed. |
| Strategies.NeverOvercharged | scripts/bench_speculative_parallel.py:532-555 | No call owes more than its full units; the winner, and a call that would have finished, owe all of them. |
| Strategies.SettleOne | scripts/bench_speculative_parallel.py:541-555 | One record is charged in place what its state owes, and a winning record is copied to the outcome. |
| Strategies.SettleBilling | scripts/bench_speculative_parallel.py:524-555 | Afterwards every record, listed once or more often, is charged so: completed calls, the winner and, without a winner, all that did not fail in full, failed losers as before, cancelled ones by the share of their latency elapsed; input always; and the outcome carries a winner's charge. |

## Left out

- Floating-point rounding, overflow of an integer duration to a float, the sign of zero and the rounding of reports: reals are exact. NaN and the infinities appear only where the code tests for them, in the evidence durations; counters of notes are real.
- The `select` methods of the bandit policies, Cholesky sampling, square roots and Gaussian draws: they read the posteriors and do not change them.
- Random draws and hashes (corpus, outcome, rate-limit and label draws; blake2b and SHA-256) are arbitrary parameters, so the proofs hold for all of them.
- DeliverDue: the channel is wired to the Beta-Binomial policy; the callback of another policy is called the same way.
- `CostAwareRouter`, the provider registry, graph templates and run recording are not part of this model. The router is any function of task type, budget and scope that returns a catalog model named in the scope, or none.
- MatInverse: says nothing about how accurate the inverse is in floating point.
- RenewInPlace: rows are values, so two arms sharing one row object is not modelled; the source builds each arm's rows afresh.
- DeniesExactly: what a bracket class admits is left to the regex engine; a class whose closing bracket comes first, which the engine reads differently, and patterns the engine rejects are not modelled. Paths with newlines are excluded.
- OwnQueueFailures: branch names are parsed beforehand and workflow names are kept as a set instead of a sorted tuple; timestamps are integers, so `latest_status_state` compares times where the code compares their texts, which agree for the API's fixed format.
- PassEndsWith: a missing token or a repository name without a slash also ends the process with 2; only the revision is modelled.
- Parse: the replacing UTF-8 decoder is any function of bytes to text.
- EveryRequestIsClean: the history is whatever the bounded listing of runs returned, `git fetch` observes base and head of one moment, the policy verdict is any function of base and head, and the request's outcome is not read back. That statuses are only ever added is a hypothesis about GitHub.
- Fleet's outcome table, scoring and utilization reports, and Run recording.
- Stale: loading notes and the choice of base revision are left out.
- DigestInputs: what walking an input yields is a parameter; the file system, symbolic links and path normalisation are left out. Two mathematically equal durations written as an integer and a float are one in the theorem, as they are equal in Python.
- Strategies' gateway, egress and asyncio scheduling: which calls are completed or still in flight when the winner lands is a parameter of the settlement, and which calls raised a parameter of the verifier.
- The other `check-*` scripts: mostly regex scans and registry validation.
