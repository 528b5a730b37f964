# AthenaAI control logic in Dafny

A model of the control logic of AthenaAI and proofs about it: the resilience primitives (token bucket,
circuit breaker, retry), the router that consults the breakers, the ingest pipeline (normalise, chunk,
embed, store), context assembly (packing, budgets, ranking) and the agent loop.
`dafny verify dfyconfig.toml` checks the whole project.

Clocks, tokens, scores and embeddings are exact reals. The monotonic clock, random jitter, UUIDs, the
HTTP endpoint, the language model and the tools are inputs: a theorem holds for everything they may do.
An `async with self._lock` body contains no await, so it is one atomic step; for the same reason `call` does
not suspend between its half-open check and the start of `fn`, and a run of the breaker that respects this is
called prompt. Safety is proved for all runs, existence by prompt ones. Objects whose methods update
fields are classes here, and each of their methods is proved equal to a function on values; the theorems
are about runs of those functions.

| file | what it models |
|---|---|
| `RateLimiter.dfy` | the token bucket, and the sliding-window law it implements |
| `CircuitBreaker.dfy`, `BreakerProtocol.dfy` | the breaker object; any number of interleaved calls on one breaker |
| `Retry.dfy`, `RetryBreaker.dfy` | the retry loop; the retry loop around a breaker |
| `Scorer.dfy`, `Router.dfy`, `RoutingSafety.dfy` | model scores, circuit-aware selection, selection over breaker runs |
| `Text.dfy`, `Parser.dfy`, `Chunker.dfy` | Python's whitespace methods, normalisation, the sliding-window chunker |
| `Embedder.dfy`, `ChunkStore.dfy`, `Loader.dfy` | batched embedding, the chunk table, ingest and reingest |
| `Packing.dfy`, `Budget.dfy`, `Ranking.dfy` | greedy packing, token accounting, cosine ranking |
| `AgentState.dfy`, `Executor.dfy` | the status machine, the tool-call protocol and the agent loop |
| `Prelude.dfy`, `Reals.dfy`, `StableSort.dfy` | options and slices, products of reals, Python's `sorted` |

## Where the code and its text differ

The model follows the code. Each difference is a lemma that says exactly when the text is right.

- HALF_OPEN is described as letting one probe through (`src/athenai/resilience/circuit_breaker.py:16-17`).
  No configuration does that: `BreakerProtocol.ProbesUnbounded` takes any fresh breaker to HALF_OPEN with any
  number of calls inside `fn` at once.
- The successes that close a HALF_OPEN circuit are described as those of probes
  (`src/athenai/resilience/circuit_breaker.py:16-17`). The code counts the success of any call, also of one
  dispatched before the circuit opened. `BreakerProtocol.FreshClosesUnprobed` closes any breaker without a
  probe succeeding; `BreakerProtocol.ClosesUnprobedIff` says exactly when this can happen.
- `is_open` tests `_opened_at` for truth, so a breaker opened at clock value 0.0 is reported open for ever
  (`src/athenai/resilience/circuit_breaker.py:93`): `CircuitBreaker.ReportsOpenIffRejects`.
- `closed_to_open_transitions` counts reopenings too, so it is what its name says exactly while no probe has
  failed: `BreakerProtocol.TransitionsAreOpenings`, with runs in `BreakerProtocol.ReopensCounted`.
- A free model is scored like one that costs a dollar, so it can lose to a paid one that it dominates
  (`src/athenai/routing/scorer.py:48-51`): `Scorer.DominanceRespectedIff`.
- Chunks are described as not splitting words (`src/athenai/rag/chunker.py:69-71`). The next window starts a
  fixed step on, wherever the cut fell, and a window without a space is cut anywhere: `Chunker.NoWordSplitIff`
  says exactly when no word is split, and `Chunker.ShortWordSplit` splits a three-letter word under every
  setting.
- Part of a long word can even be in no chunk at all: `Chunker.CharsLostIff` says exactly when that happens.
  Words of at most `4 * overlap` letters always stay whole in some chunk (`Chunker.RawWordKept`); one letter
  more is too long under every setting (`Chunker.LongWordLost`).
- The system prompt is described as never dropped (`src/athenai/context/packing.py:16`); all of it is kept
  exactly when it fits the ceiling on its own: `Packing.SystemPromptKeptIff`.
- Overflow is described as truncating the lowest-priority bucket first (`src/athenai/context/packing.py:2` and
  `:60-61`). An item that does not fit is skipped, and items of lower-priority buckets are still kept:
  `Packing.LowestBucketFirstIff` says exactly when the text is right, `Packing.LowestBucketNotFirst` gives
  buckets for which it is not.
- 0.0 is described as the lowest possible relevance (`src/athenai/context/ranking.py:17`). Cosines go down to
  -1: `Ranking.DirectionlessLastIff`, with the input `Ranking.OppositeOutranked`.

## Model

| member | source | states |
|---|---|---|
| RateLimiter.TokenBucketRateLimiter.Acquire | src/athenai/resilience/rate_limiter.py:59-78 | succeeds iff the refilled bucket holds the tokens; a rejection deducts nothing but still credits the elapsed time |
| RateLimiter.LevelIsTightestWindow | src/athenai/resilience/rate_limiter.py:55-78 | after any run, the bucket level is the tightest of all sliding windows (opened now, at construction, at each earlier request), each with room capacity + elapsed * rate - granted |
| RateLimiter.AdmitsIffAllWindows | src/athenai/resilience/rate_limiter.py:66-78 | an acquire succeeds iff every sliding window has room for it |
| RateLimiter.ThroughputBound | src/athenai/resilience/rate_limiter.py:49-56 | tokens granted in any window are at most capacity + length * rate |
| RateLimiter.RejectedLeavesNoTrace | src/athenai/resilience/rate_limiter.py:62-64 | a rejected acquire changes the outcome of no later acquire |
| RateLimiter.BurstExact | src/athenai/resilience/rate_limiter.py:19-23 | without refill, n one-token requests get exactly min(n, capacity) grants |
| CircuitBreaker.CircuitBreaker.IsOpen | src/athenai/resilience/circuit_breaker.py:81-96 | reports open whenever `call` would be rejected, and changes nothing |
| CircuitBreaker.CircuitBreaker.MaybeTransitionToHalfOpen | src/athenai/resilience/circuit_breaker.py:98-106 | the whole new state of the half-open step |
| CircuitBreaker.CircuitBreaker.RecordFailure | src/athenai/resilience/circuit_breaker.py:108-131 | the whole new state after a failure report |
| CircuitBreaker.CircuitBreaker.RecordSuccess | src/athenai/resilience/circuit_breaker.py:133-149 | the whole new state after a success report |
| CircuitBreaker.CircuitBreaker.Call | src/athenai/resilience/circuit_breaker.py:151-164 | for a call that nobody interrupts: touches the dependency iff the breaker is not cooling down; a rejection leaves the breaker alone; the function's own outcome is passed on and recorded |
| BreakerProtocol.FreshIsInit | src/athenai/resilience/circuit_breaker.py:57-75 | a new breaker starts every run, with the configuration it was given |
| CircuitBreaker.ReportsOpenIffRejects | src/athenai/resilience/circuit_breaker.py:81-106 | `call` is rejected iff the cooldown is running; `is_open` agrees iff it is not a breaker opened at 0.0 whose cooldown is over |
| BreakerProtocol.NoDispatchWhileCooling | src/athenai/resilience/circuit_breaker.py:98-164 | in every interleaving, no function is dispatched between an opening and the end of its cooldown |
| BreakerProtocol.StaysOpenWhileCooling | src/athenai/resilience/circuit_breaker.py:98-131 | an opened circuit stays OPEN, with its timer not reset, until its cooldown is over |
| BreakerProtocol.OpeningsSpaced | src/athenai/resilience/circuit_breaker.py:98-131 | successive openings are at least a cooldown apart |
| BreakerProtocol.KthOpening | src/athenai/resilience/circuit_breaker.py:98-131 | opening number k comes at least k cooldowns after the first |
| BreakerProtocol.AlwaysConsistent | src/athenai/resilience/circuit_breaker.py:98-149 | the state invariant of every reachable state: counts, timer, probes, trips against closes, transition count, failures per trip |
| BreakerProtocol.ChangesExactlyWhen | src/athenai/resilience/circuit_breaker.py:98-149 | when the state changes, in terms of recorded outcomes and clock only: threshold-th failure in a row, any failure while HALF_OPEN, last required success, entry after the cooldown, and nothing else |
| BreakerProtocol.OpenedAtIsLastOpening | src/athenai/resilience/circuit_breaker.py:119-130 | unless CLOSED, the timer holds the time of the last opening |
| BreakerProtocol.TransitionsAreOpenings | src/athenai/resilience/circuit_breaker.py:74-75 | `_transition_count` is the number of openings, trips plus reopenings; it is the number of CLOSED to OPEN moves iff nothing reopened |
| BreakerProtocol.ReopensCounted | src/athenai/resilience/circuit_breaker.py:166-168 | under every configuration, for every n a fresh breaker has a prompt run with one move from CLOSED to OPEN and a count of 1 + n |
| BreakerProtocol.SimultaneousFailures | src/athenai/resilience/circuit_breaker.py:19-23 | of any number of failures at one instant exactly one fires the transition, the one that reaches the threshold |
| BreakerProtocol.ProbesUnbounded | src/athenai/resilience/circuit_breaker.py:151-164 | under every configuration, for every n > 0 a fresh breaker has a prompt run that ends in HALF_OPEN with n calls inside the function at once |
| BreakerProtocol.CooldownEndsWithDispatch | src/athenai/resilience/circuit_breaker.py:151-160 | in a prompt run the call that takes the circuit out of OPEN is dispatched |
| BreakerProtocol.ClosesUnprobedIff | src/athenai/resilience/circuit_breaker.py:133-160 | from HALF_OPEN with no success yet, some prompt run closes the circuit without any probe succeeding (the given ones or any dispatched later) iff at least as many other calls are inside the function as successes are required |
| BreakerProtocol.FreshClosesUnprobed | src/athenai/resilience/circuit_breaker.py:133-160 | under every configuration a fresh breaker has a prompt run that is OPEN, from then on dispatches only one call, which never succeeds, and ends CLOSED |
| BreakerProtocol.CallIsRun | src/athenai/resilience/circuit_breaker.py:151-164 | an uninterrupted call is one prompt schedule of the protocol and leaves the breaker as the method does |
| Retry.WithRetry | src/athenai/resilience/retry.py:43-70 | calls up to the first success, the first exception that is not retryable or the last attempt, yields that value or re-raises that exception, and sleeps once between calls for the policy's delays, in total at most the smaller of the exponential and the capped sum |
| Retry.SleepLawsHold | src/athenai/resilience/retry.py:64-68 | for non-negative settings those delays are the base delay, then each the double of the previous, all capped, exactly base * (2^k - 1) in total while the cap is not reached; with jitter each is its fraction of that |
| Retry.DelayIsBackoff | src/athenai/resilience/retry.py:64 | capping at every doubling is capping the exponential |
| Retry.WithinSleepBudget | src/athenai/resilience/retry.py:62-68 | capped, jittered delays add up to at most min(base * (2^(n-1) - 1), (n-1) * max) |
| RetryBreaker.BeforeTrip | src/athenai/resilience/circuit_breaker.py:126-131 | until the breaker trips every attempt reaches the dependency, and the attempt that completes the threshold trips it |
| RetryBreaker.AfterTrip | src/athenai/resilience/circuit_breaker.py:98-131 | the p-th touch after the trip starts at least p cooldowns after it, and none while the first cooldown runs |
| RetryBreaker.TouchBound | src/athenai/resilience/retry.py:56-70 | attempts touch an always-failing dependency at most once each, and at most (threshold - count) + floor(time since trip / cooldown) times |
| RetryBreaker.RetryThroughBreaker | src/athenai/resilience/retry.py:7-8 | retry around a breaker makes all its attempts yet touches the dependency at most that often, and exactly min(attempts, threshold - count) times if no cooldown ends |
| RetryBreaker.QuickRetries | src/athenai/resilience/retry.py:56-70 | when the policy's sleep budget plus the time of the attempts before the last is below the cooldown, the dependency is touched exactly min(attempts, threshold - count) times |
| RetryBreaker.FailThrough | src/athenai/resilience/retry.py:56-70 | the attempts made on the breaker object touch exactly what the value model says |
| Scorer.DominatorScores | src/athenai/routing/scorer.py:40-71 | a model at least as good in every dimension never scores lower, and scores higher when its quality is higher and counts |
| Scorer.DominanceRespectedIff | src/athenai/routing/scorer.py:48-51 | a dominating model wins under every policy iff it is not a free model against one cheaper than a dollar |
| Scorer.ScoreIsLinear | src/athenai/routing/scorer.py:67-71 | each weight of the policy multiplies the score under its own criterion alone |
| Scorer.ScoreUnderOne | src/athenai/routing/scorer.py:48-65 | under one criterion the score is the quality, or inversely proportional to cost or latency with full marks up to a cent and up to 100 ms; a free model counts as one dollar |
| Scorer.OneCriterionOrder | src/athenai/routing/scorer.py:59-65 | under one criterion a model scores at least as high as another iff it is at least as good in it, up to the thresholds |
| Scorer.UnavailableScoresLowest | src/athenai/routing/scorer.py:41-46 | an unavailable model scores -1, below every available one |
| Scorer.RankIsStable | src/athenai/routing/scorer.py:73-82 | ranking keeps exactly the available models, best score first, ties in catalogue order |
| Router.SelectRaisesIff | src/athenai/routing/router.py:102-110 | selection fails iff every catalogue entry is unavailable or behind an open circuit |
| Router.SelectPicksBest | src/athenai/routing/router.py:112-127 | the decision is the first usable entry of the matching role, else the first usable entry of maximal score; its role is available and not cooling down, and its estimated cost is that of the tokens but at least 0.0001 |
| Router.SizeDecides | src/athenai/routing/router.py:37-55 | fewer than 500 tokens go to "fast" and 2000 or more to "reasoning" if usable; every other request to the first best score |
| Router.OneCriterionDecides | src/athenai/routing/router.py:112-119 | when one criterion counts, a request decided by score goes to the first usable model of best quality, lowest cost or lowest latency, up to the thresholds |
| Router.SelectedNotBeaten | src/athenai/routing/router.py:112-119 | on the ranked path no usable dominator has strictly better quality |
| Router.SkippedIffCallRejects | src/athenai/routing/router.py:75-84 | a role is skipped iff `call` on its breaker would be rejected at that instant, except for a breaker opened at 0.0 |
| Router.SelectedIsCallable | src/athenai/routing/router.py:75-110 | the selected role is never cooling down; a call on it at that instant is let through |
| Router.OpenCircuitRemovesRole | src/athenai/routing/router.py:59-64 | with a role's circuit open, selection decides as if the role were not in the catalogue |
| RoutingSafety.OpenedRoleNotSelected | src/athenai/routing/router.py:102-105 | after any opening in any interleaved run, the role is not selected until that cooldown is over |
| StableSort.SortIsStable | src/athenai/routing/scorer.py:78-82 | the sort is sorted, stable and a permutation |
| StableSort.StableSortUnique | src/athenai/routing/scorer.py:78-82 | sortedness and stability determine the result |
| StableSort.SortedLastIff | src/athenai/context/ranking.py:90 | elements that share a key come last iff every other element has a smaller key, or the same key and an earlier place |
| StableSort.SortPermutes | src/athenai/context/ranking.py:90 | the sorted list is a permutation of the input that puts smaller keys first and equal keys in input order |
| Parser.ParseNormalises | src/athenai/rag/parser.py:52-60 | fails iff there are no words; otherwise the output has no leading, trailing or adjacent whitespace, the same words, and is a fixed point; id, source and metadata are passed on |
| Parser.SplitKeepsCharacters | src/athenai/rag/parser.py:54 | splitting loses no character but whitespace |
| Parser.SplitJoin | src/athenai/rag/parser.py:54 | splitting undoes joining with single spaces |
| Parser.NormalIsFixed | src/athenai/rag/parser.py:44-47 | a normal text is its own normalisation |
| Parser.StripKeepsWord | src/athenai/rag/chunker.py:95 | stripping a piece of text loses none of its whole words |
| Text.StripMeans | src/athenai/rag/chunker.py:95 | stripping removes whitespace on both sides and nothing else |
| Chunker.SlidingWindowChunker.Create | src/athenai/rag/chunker.py:52-56 | rejected iff the overlap is not smaller than the chunk size |
| Chunker.SlidingWindowChunker.ChunkDocument | src/athenai/rag/chunker.py:66-114 | the loop terminates and yields one chunk per non-blank window, for every chunk size and overlap the constructor accepts |
| Chunker.ChunkCount | src/athenai/rag/chunker.py:79-112 | on parser output the number of chunks is 1 or 1 + ceil((n - size) / step), and the last chunk ends with the text |
| Chunker.ChunkShape | src/athenai/rag/chunker.py:95-108 | on parser output chunk i has index i and start i * step, and its content is the stripped, non-blank text between its offsets |
| Chunker.UncoveredAreGaps | src/athenai/rag/chunker.py:87-112 | the positions no window covers are exactly the gaps between a cut and the next start |
| Chunker.CutsMonotone | src/athenai/rag/chunker.py:88-93 | cuts never move backwards from one window to the next |
| Chunker.CharsLostIff | src/athenai/rag/chunker.py:90-93 | on normal text no word character is lost iff every window that stops short of the end has no space to retreat to or one at the end of its step or later |
| Chunker.NoWordSplitIff | src/athenai/rag/chunker.py:69-71 | on normal text no window starts or ends inside a word iff after every window that stops short of the end the next start is at a word boundary and there is a space to cut at |
| Chunker.ChunksSplitNoWordIff | src/athenai/rag/chunker.py:69-71 | the same for the offsets of the chunks of parser output |
| Chunker.ShortWordSplit | src/athenai/rag/chunker.py:69-71 | under every setting some text of words of at most three letters has a window that starts inside a word |
| Chunker.WordInWindow | src/athenai/rag/chunker.py:87-112 | a word no longer than the overlap is whole in some window |
| Chunker.NoWordLost | src/athenai/rag/chunker.py:87-112 | on parser output whose words fit the overlap, every word character is in some chunk's content at its own place |
| Chunker.RawWordKept | src/athenai/rag/chunker.py:79-114 | parsing and chunking any content, each of its words of at most 4 * overlap letters is, in one piece, a word of some chunk |
| Chunker.RawTextKept | src/athenai/rag/chunker.py:79-114 | when all words of the raw content are that short, every word character of the parsed text is in some chunk at its own place |
| Chunker.LongWordLost | src/athenai/rag/chunker.py:90-93 | under every setting with an overlap, some text of words of at most 4 * overlap + 1 letters loses a letter |
| Parser.JoinRuns | src/athenai/rag/parser.py:54 | joining words of at most n letters gives a text whose runs are at most n long |
| Embedder.Embed | src/athenai/rag/embedder.py:49-58 | the batch loop yields all batches in order or the first failure, for every batch size |
| Embedder.BatchAligned | src/athenai/rag/embedder.py:60-85 | whatever order the reply's items come in, the batch result is in request order |
| Embedder.EmbedAligned | src/athenai/rag/embedder.py:49-85 | with an answering endpoint, entry i of the result is the embedding of text i |
| Embedder.EmbeddedAligned | src/athenai/rag/embedder.py:49-85 | whichever batches fail, a result with one vector per text is aligned |
| Embedder.OnePerTextIff | src/athenai/rag/embedder.py:49-85 | there is one vector per text iff the batch size is positive, every batch is answered and the replies hold as many items as there are texts |
| Embedder.FirstFailure | src/athenai/rag/embedder.py:49-85 | a failure carries the status of the first batch that was not answered |
| ChunkStore.PgVectorRetriever.StoreChunks | src/athenai/rag/retriever.py:82-110 | fails iff the lengths differ, then changing nothing; otherwise inserts each chunk whose id is new |
| ChunkStore.InsertAllKeeps | src/athenai/rag/retriever.py:86-89 | existing rows are never overwritten; every new row is one of the given pairs |
| ChunkStore.StoredDocument | src/athenai/rag/retriever.py:94-110 | with fresh ids a document's rows become its old ones plus one per chunk, and other documents' rows stay |
| Loader.DocumentLoader.Ingest | src/athenai/rag/loader.py:47-67 | the whole effect on the table and the result, error paths included |
| Loader.DocumentLoader.Reingest | src/athenai/rag/loader.py:69-78 | the whole effect of delete followed by ingest |
| Loader.IngestStores | src/athenai/rag/loader.py:55-67 | a new document ends up with exactly its chunks, each row with the document's id and metadata, its number, its text and the embedding of that text; no other row changes |
| Loader.IngestIdempotent | src/athenai/rag/loader.py:29-33 | a second ingest of the id, with anything, returns the same count and leaves the table identical |
| Loader.ReingestReplaces | src/athenai/rag/loader.py:69-78 | afterwards the document's rows are exactly its new chunks and other documents are untouched |
| Loader.FailureLeaves | src/athenai/rag/loader.py:55-78 | `reingest` fails iff there are no words, a batch is not answered or the number of vectors is wrong, and has then deleted the document; `ingest` fails iff moreover the document is not stored, and then changes nothing |
| Loader.WorkingFailsIff | src/athenai/rag/loader.py:59-66 | built as intended and with a working endpoint, `reingest` fails iff the content has no words, and has then deleted the document |
| Loader.DocumentLostIff | src/athenai/rag/loader.py:69-78 | `reingest` loses a stored document iff the pipeline fails (or makes no chunks, which only a negative overlap allows); other documents are never touched |
| Loader.StaysAligned | src/athenai/rag/loader.py:64-66 | under every setting each row keeps carrying the embedding of its own content, even when ids collide, batches fail or the number of vectors is wrong; the endpoint need only be right in what it answers with status 200 |
| Packing.Pack | src/athenai/context/packing.py:64-99 | keeps the greedy choice over the flattened items, reports the dropped buckets and the total, and writes every item's priority |
| Packing.SlotsSorted | src/athenai/context/packing.py:76-89 | items are considered in order of bucket priority |
| Packing.FlattenListsAll | src/athenai/context/packing.py:76-89 | flattening loses and invents no item |
| Packing.FlattenOrder | src/athenai/context/packing.py:76-89 | the flattened order is system, conversation, memory, rag, tools with ranks 0 to 4, then the other buckets |
| Packing.UnknownOrder | src/athenai/context/packing.py:84-89 | the other buckets follow in insertion order with rank 5 |
| Packing.PackedInOrder | src/athenai/context/packing.py:91-97 | kept items and the bucket names of dropped ones stand in flattened order |
| Packing.GreedyIsOptimal | src/athenai/context/packing.py:91-97 | for non-negative counts the choice is the one lexicographically greatest subset within the ceiling |
| Packing.GreedyGreatestStepwise | src/athenai/context/packing.py:91-97 | for any counts the choice is the greatest one that never exceeds the ceiling when an item is added |
| Packing.LowerPriorityIrrelevant | src/athenai/context/packing.py:91-97 | lower-priority items never change what happens to higher-priority ones |
| Packing.LowestBucketFirstIff | src/athenai/context/packing.py:60-61 | no item is kept while one of a higher-priority bucket is dropped iff at every bucket boundary all items before it fit together or no later item fits on top of what packing those alone uses |
| Packing.LowestBucketNotFirst | src/athenai/context/packing.py:76-97 | a large conversation item is dropped and a small tool result kept |
| Packing.KeepsPrefixIff | src/athenai/context/packing.py:91-97 | what is kept is a prefix of the flattened items iff every item from the first overflow on exceeds what the items before it leave |
| Packing.DroppedWouldNotFit | src/athenai/context/packing.py:92-97 | no dropped item would fit into what remains at the end |
| Packing.SystemPromptKeptIff | src/athenai/context/packing.py:16 | all items of the system bucket are in the result, ahead of the others, iff their total is within the ceiling |
| Packing.TopBucketsKeptIff | src/athenai/context/packing.py:76-97 | the same for the k buckets of highest priority together |
| Packing.PackConserves | src/athenai/context/packing.py:91-99 | every item is kept or dropped exactly once, and the total is the cost of the kept ones |
| Budget.TokenBudgetManager.AllocateTokens | src/athenai/context/budget.py:54-76 | grants or names the error; a failed call changes nothing |
| Budget.RemainingIsRoom | src/athenai/context/budget.py:78-81 | a positive request passes its bucket's check iff it asks for no more than `remaining` |
| Budget.TokenBudgetManager.RemainingTokens | src/athenai/context/budget.py:78-81 | the room left under the bucket's limit, never negative, and 0 for an unknown bucket |
| Budget.TokenBudgetManager.Reset | src/athenai/context/budget.py:83-84 | all usage back to zero, limits kept |
| Budget.SucceedIffAffordable | src/athenai/context/budget.py:54-76 | a sequence of requests all succeeds iff each bucket has a limit and room for its sum and the ceiling has room for everything |
| Budget.UsedIsAsked | src/athenai/context/budget.py:69-75 | while all succeed, usage per bucket and in total is what was asked |
| Budget.OrderIrrelevant | src/athenai/context/budget.py:54-76 | any permutation of the requests succeeds too and ends in the same ledger |
| Budget.CeilingUnreachable | src/athenai/context/budget.py:39-44 | without a "total" entry and with non-negative limits the global check never fails, after any requests |
| Budget.NewSucceedsIff | src/athenai/context/budget.py:39-44 | from a new manager a sequence succeeds iff every bucket's limit covers its sum and the "total" entry, if any, covers everything |
| Budget.CeilingHitIff | src/athenai/context/budget.py:69-73 | a request runs into the "total" entry iff its bucket has room and all use plus the request exceeds the entry; use of a bucket named "total" is not counted |
| Ranking.Rank | src/athenai/context/ranking.py:41-91 | the loop, sort and cut give the specified ranking, shape errors included |
| Ranking.ScoreInRange | src/athenai/context/ranking.py:81-86 | every score lies in [-1, 1] |
| Ranking.ScoreIsCosine | src/athenai/context/ranking.py:81-86 | norms times score is the dot product of query and embedding; a candidate without a direction scores 0 |
| Ranking.RankLaw | src/athenai/context/ranking.py:69-91 | the result lists the candidates by how closely they point to the query, compared by dot products and norms, equally close ones in input order, each with its content, metadata and cosine, cut at top_k |
| Ranking.ZeroQueryLaw | src/athenai/context/ranking.py:57-67 | a zero query returns the first top_k candidates as listed with score 0 |
| Ranking.RankScaleInvariant | src/athenai/context/ranking.py:69-91 | scaling the query and every embedding by positive factors changes nothing |
| Ranking.TopScores | src/athenai/context/ranking.py:90-91 | the result is a prefix of all candidates in stable score order; no omitted one scores higher than a returned one |
| Ranking.ZeroQueryIsAllZeroScores | src/athenai/context/ranking.py:57-67 | the zero-query branch is the general branch with all scores 0 |
| Ranking.DirectionlessLastIff | src/athenai/context/ranking.py:14-19 | candidates with a missing or zero embedding come after all others iff the dot product of each of the others with the query is positive, or 0 and the candidate was listed earlier |
| Ranking.ScoreSign | src/athenai/context/ranking.py:81-86 | the sign of a score is the sign of the dot product of query and embedding |
| Ranking.RankRaisesIff | src/athenai/context/ranking.py:81-86 | ranking raises iff the query is not zero and some non-zero embedding has another number of components |
| Ranking.OppositeOutranked | src/athenai/context/ranking.py:77-91 | a candidate pointing away from the query is outranked by one without an embedding |
| AgentState.LegalIff | src/athenai/agents/state.py:36-51 | the legal histories are exactly CREATED, then RUNNING and AWAITING_TOOL in turn, possibly ended by FAILED later or by COMPLETED after RUNNING |
| AgentState.TerminalIsLast | src/athenai/agents/state.py:36-51 | in a legal history a terminal status is last and CREATED is first |
| Executor.ParseToolCalls | src/athenai/agents/executor.py:157-177 | the loop yields, in line order, the objects with a name and arguments that the directives decode to, and skips the rest |
| Executor.ParseRender | src/athenai/agents/executor.py:195-201 | reading a reply in the documented format gives back exactly the names and arguments of its calls, whatever prose and malformed directives stand between and whichever line breaks end the lines |
| Executor.ExecuteTools | src/athenai/agents/executor.py:119-136 | results and tool messages match the calls by position, failures included |
| Executor.Run | src/athenai/agents/executor.py:64-155 | every step is what its iteration makes of the messages so far; COMPLETED iff the last step calls no tool, else FAILED after max_iterations steps; the statuses are CREATED, RUNNING, then AWAITING_TOOL and RUNNING per tool step, then the final one, all legal moves |
| Executor.RunUnique | src/athenai/agents/executor.py:64-155 | the model and the tools determine the result |
| Executor.StepShape | src/athenai/agents/executor.py:78-142 | each step asks the model with all messages so far, takes structured calls first, and a tool step appends one message per call and the assistant turn; results and messages report the outcome of the call at their position, failures as errors |

## Left out

- CircuitBreaker.CircuitBreaker.Call: models a call that no other coroutine interrupts; interleaved calls are modelled on values, in BreakerProtocol, because a method body cannot be suspended halfway.
- CircuitBreaker.CircuitBreaker.IsOpen: reads the clock as one input; `select` reads the clock once per role, the model once per selection.
- Retry.WithRetry: exception classes are reduced to retryable or not, and an exception object counts as true in `last_exc or RuntimeError`.
- RetryBreaker.QuickRetries: a sleep lasts as long as asked.
- Loader.IngestIdempotent: a claim about one caller at a time; the count and the inserts of concurrent ingests are not one transaction.
- Ranking.Rank: exact reals instead of float32, and the array library's norm is any function that satisfies the definition of a norm.
- Executor.ParseToolCalls: the JSON decoder is a parameter that yields an error, an object with its fields, or another value; field values are opaque texts, and fields beyond name and arguments are not carried along.
- Executor.Run: JSON encoding is a parameter; a tool that is not registered is one whose run raises.
- RoutingDecision's `reason` text and empty metadata, and the `created_at` column of the chunk table: constants and timestamps.
- `MockEmbedder`: sines of a checksum, no control logic.
- pgvector search, ANN ordering, SQL text and column encoding: database semantics.
- Gateway, schemas, logging, metrics, configuration and lifecycle: HTTP and environment plumbing.
- `CloudModel`, `LocalModel`, `HTTPTool`, `SQLTool`, conversation and semantic memory: thin wrappers over client libraries.
- `CalculatorTool`, `ToolValidator`, `ToolRegistry`, `CosineReranker`, `SummaryMemory`, `with_timeout`, `ContextEngine.build`: easy members or library semantics.
- The `window_s` parameter of the breaker and the advisory limits of routing policies: the code does not use them.
- Floating-point rounding, the fairness of locks, and the actual passing of time while sleeping.
