# Search, scheduling and storage algorithms, verified

This project models the algorithms and protocols inside the C programs under `examples/` and the
text transformation in `strip_malformed_asserts.py`, and proves what they are for. Code that works
in place is modelled by methods over arrays and classes, proved against specifications; threads
sharing memory are modelled as state machines in which every critical section or atomic access is
one step, sleepers may wake spuriously, and theorems range over all runs and schedules.

- **Literal search** (`Bytes`, `LiteralSpec`, `SkipTables`, `BoyerMoore`, `HashSearch`,
  `SearchBuffer`). `Occurs` is the naive meaning of an occurrence. The good-suffix table built by
  two loops that overwrite each other is shown to hold, entry by entry, the least shift compatible
  with the characters seen; both searchers return the leftmost occurrence; and the buffer search
  reports exactly what a naive scan reports, because the jump over a rejected word match is the
  smallest period of the pattern.
- **Fuzzy matching** (`FuzzyScore`, `FuzzyMatch`). Scores are integers in units of 0.005, with
  infinities beside them. The two-row and the full-matrix version are both proved to compute the
  maximum over all increasing embeddings, and the backtrack to find one.
- **Parallel search** (`FuzzySearch`, `BinomialJoin`, `ParallelSearch`). The result list does not
  depend on the number of workers or on the schedule, and the binomial join tree stops every
  thread before it returns.
- **Pipeline and parallel loop** (`KtPipeline`, `PipelineRuns`, `PipelineSource`, `PipelineWorkers`,
  `KtFor`). Order, mutual exclusion, no lost wake-up
  and termination of the pipeline; exactly-once execution and a cursor bound for the loop.
- **Thread pool** (`JobQueue`, `ThreadPool`). A first-in first-out queue, jobs that run at most once,
  no stranded job, and an idle wait that is right although it reads the queue length unlocked.
- **Hash table** (`Arithmetic`, `HashChains`, `OrderList`, `HashTable`, `KeySet`). Doubly linked
  bucket chains, relinked through pointers, and the doubly linked list of all elements in the order
  of their addition refine a set of keys through any number of doublings. `Valid` of
  `HashTable.Table` says that each element sits in the bucket of its hash, that the bucket counts
  are the chain lengths and add up to the number of items, that there are 2^log2 buckets, and that
  the order list links the same elements both ways.
- **Ring buffer** (`AsyncBuffer`). The two indices with separate full and empty flags refine a
  bounded byte queue; ghost logs tie all bytes accepted to all bytes delivered.
- **Assertion eraser** (`AssertEraser`). Line and column invert newline counting, and the eraser
  replaces exactly the outermost recorded segments without disturbing parentheses or quotes.

Six places where the code does less than it seems to promise are kept as they are; for each the
case that fails and the exact condition under which the promise holds are stated and proved:

- A literal query for which the word table has too few cells never gets searched for: filling the
  table goes round a full table for ever (`examples/the_silver_searcher.c:5555`). That is so from
  16450 bytes on in insensitive mode, from 65795 in sensitive mode, and for no shorter query.
- Equally long strings score plus infinity without being compared (`examples/fzy.c:933`), and an
  empty needle or a haystack of more than 1024 characters scores minus infinity although the greedy
  test may accept it (`examples/fzy.c:918`, `examples/fzy.c:925`).
- A pipeline with a single step never ends, since that step is also the last, whose null result is
  not looked at (`examples/klib.c:521`); with two or more steps it does.
- A pool without threads accepts jobs and runs none (`examples/C-Thread-Pool.c:306`).
- Putting zero bytes into an empty log buffer clears the empty flag, after which the whole ring
  counts as used (`examples/EasyLogger.c:1338`).
- An assertion name after which no parenthesis stands outside quotes is recorded and erases the
  rest of the file (`strip_malformed_asserts.py:104`). A name inside quotes is recorded as if it
  stood outside, and then what follows it decides whether the text behind the segment is disturbed
  (`strip_malformed_asserts.py:84`).

## Model

| member | source | states |
|---|---|---|
| Bytes.LettersPaired | examples/the_silver_searcher.c:5381-5392 | The case mapping pairs the letters in alphabetical order and leaves everything else alone |
| LiteralSpec.LeftmostUnique | examples/the_silver_searcher.c:3724-3738 | Leftmost occurrence is a unique answer, so the two searchers agree on every text and pattern |
| SkipTables.KeyedIsFold | examples/the_silver_searcher.c:5377-5394 | The table entries written for a lowercase pattern character are those of exactly the text characters that fold to it |
| SkipTables.GenerateAlphaSkip | examples/the_silver_searcher.c:5359-5396 | Every entry is the distance from the pattern's end to the last earlier copy of the character, the pattern length without one |
| SkipTables.IsPrefix | examples/the_silver_searcher.c:5400-5436 | True exactly when the offset is a period of the pattern |
| SkipTables.SuffixLen | examples/the_silver_searcher.c:5437-5473 | The result is the longest agreement, stopping at the position itself, of the text before it with the pattern's end |
| SkipTables.CompatibleBeyond | examples/the_silver_searcher.c:5488-5497 | Shifts beyond the mismatch are possible exactly when they are periods, which is what the first loop enters |
| SkipTables.CompatibleWithin | examples/the_silver_searcher.c:5499-5505 | Shifts within the mismatch are possible exactly when the suffix has the matched length and another character before it |
| SkipTables.PrefixStep | examples/the_silver_searcher.c:5490-5497 | One round of the first loop extends the entries that are least among the shifts beyond their mismatch |
| SkipTables.SuffixEntry | examples/the_silver_searcher.c:5499-5505 | One round of the second loop tries one shift for all entries at once: the overwritten entry is the one it is possible for, and no other entry lost a smaller shift |
| SkipTables.SuffixPassDone | examples/the_silver_searcher.c:5498-5506 | When all shifts have been tried each entry is the matched length plus the least compatible shift |
| SkipTables.GenerateFindSkip | examples/the_silver_searcher.c:5474-5507 | The table is exact: for each index the entry less the matched length is the least shift of at least one that is still compatible |
| SkipTables.FirstEntryIsPeriod | examples/the_silver_searcher.c:3754-3754 | The jump read out of the first entry is the smallest period of the pattern |
| SkipTables.PeriodSkipsNothing | examples/the_silver_searcher.c:3753-3762 | No occurrence starts less than that jump behind another occurrence |
| BoyerMoore.AlphaSkipSafe | examples/the_silver_searcher.c:5609-5611 | Moving on by the bad-character entry passes no occurrence |
| BoyerMoore.FindSkipSafe | examples/the_silver_searcher.c:5609-5611 | Moving on by the good-suffix entry passes no occurrence |
| BoyerMoore.BoyerMooreStrnstr | examples/the_silver_searcher.c:5569-5614 | The result is the leftmost occurrence, null exactly when there is none, in both case modes; the search ends although the position moves backwards while comparing |
| HashSearch.InsertWord | examples/the_silver_searcher.c:5554-5558 | In a table with a free cell the probe ends at the first one and writes there |
| HashSearch.ProbeNeverEnds | examples/the_silver_searcher.c:5555-5557 | A probe has no end exactly when no number of steps leads it to a free cell |
| HashSearch.InsertLists | examples/the_silver_searcher.c:5554-5558 | Writing an index no larger than those present lists it, and every index listed for any word stays listed |
| HashSearch.InsertKeeps | examples/the_silver_searcher.c:5555-5558 | Filling a free cell with a smaller index leaves every earlier entry reachable in probe order |
| HashSearch.SomeCellFree | examples/the_silver_searcher.c:5555-5557 | A cell is free exactly when fewer are in use than there are |
| HashSearch.CapsCover | examples/the_silver_searcher.c:5543-5563 | The capitalisations entered cover every text word that matches, the first of them alone in sensitive mode |
| HashSearch.FillUses | examples/the_silver_searcher.c:5541-5565 | The cells in use are counted for every length: none where the index stored in a byte comes out as 0, else one for each capitalisation |
| HashSearch.FillEndsExactly | examples/the_silver_searcher.c:5531-5567 | For every pattern the table can be filled exactly when the cells needed are there |
| HashSearch.FillHangs | examples/the_silver_searcher.c:5555-5557 | Beyond that, every pattern leads to a table without a free cell and a word to enter, whose probe never meets a free cell |
| HashSearch.ShortestHangs | examples/the_silver_searcher.c:5541-5565 | That begins at 16450 bytes in insensitive and 65795 in sensitive mode |
| HashSearch.FillLists | examples/the_silver_searcher.c:5541-5565 | Below 255 bytes every text word matching at an index leads to that index before any smaller one |
| HashSearch.EnterWord | examples/the_silver_searcher.c:5543-5563 | The inner loop enters one word in all its capitalisations, in sensitive mode as it stands |
| HashSearch.GenerateHash | examples/the_silver_searcher.c:5531-5567 | For every pattern with enough cells it ends with the table that the entries define, which below 255 bytes is what the searcher needs, with a cell free |
| HashSearch.WindowMatches | examples/the_silver_searcher.c:5649-5665 | The comparison of a window succeeds exactly at an occurrence |
| HashSearch.ProbeOrder | examples/the_silver_searcher.c:5645-5669 | A probe cannot end, nor turn to later starts, before it has met an occurrence that covers the probed word |
| HashSearch.ProbeWord | examples/the_silver_searcher.c:5645-5669 | One probe returns the leftmost occurrence among the starts whose window covers the word, or shows there is none |
| HashSearch.HashStrnstr | examples/the_silver_searcher.c:5616-5699 | The result is the leftmost occurrence, null exactly when there is none: the words probed and the last loop cover all starts |
| SearchBuffer.NextOccurrence | examples/the_silver_searcher.c:3724-3741 | Whichever searcher the length selects, the next occurrence at or after the offset |
| SearchBuffer.InitWordcharTable | examples/the_silver_searcher.c:5979-6022 | The table marks the letters, the digits and the underscore, and nothing else |
| SearchBuffer.NoWordCharacter | examples/the_silver_searcher.c:5989-6017 | Which characters separate words |
| SearchBuffer.HitsAreWanted | examples/the_silver_searcher.c:3741-3765 | In word mode the comparisons with the ends of the pattern accept an occurrence exactly when both of its ends are word boundaries of the text |
| SearchBuffer.GreedyIsList | examples/the_silver_searcher.c:3723-3779 | The naive scan lists boundary-valid occurrences in order, without overlap, and every other one starts inside a listed one |
| SearchBuffer.GreedyIsUnique | examples/the_silver_searcher.c:3723-3779 | It is the only list with that property |
| SearchBuffer.RejectedJump | examples/the_silver_searcher.c:3753-3762 | The jump after a rejected word match moves on and passes no hit |
| SearchBuffer.LimitedIsReported | examples/the_silver_searcher.c:3723-3779 | The list, cut by the limit, reports occurrences with word boundaries at both ends in word mode, without overlap, and every such occurrence up to the cut starts inside a reported one |
| SearchBuffer.SearchBuf | examples/the_silver_searcher.c:3720-3779 | The match list is that of the naive scan, cut to a prefix by the limit, and reports what is wanted of the text |
| SearchBuffer.LiteralSearch | examples/the_silver_searcher.c:6787-6811 | The same from the query on, through lowercasing, all three tables and the word characters, for every query whose table can be filled |
| FuzzyScore.BonusValues | examples/fzy.c:635-722 | The four bonuses and exactly which pairs of characters earn them |
| FuzzyScore.Problem.BestUnique | examples/fzy.c:899-960 | There is one best score |
| FuzzyScore.Problem.NextRow | examples/fzy.c:873-881 | What a row takes from the row above: the better of a match after a gap and a consecutive match |
| FuzzyScore.Problem.PlacesBelow | examples/fzy.c:867-895 | No way of placing a prefix of the needle scores more than its matrix entry |
| FuzzyScore.Problem.EntryReached | examples/fzy.c:867-895 | Every finite entry is the score of some placement |
| FuzzyScore.Problem.LastEntryIsBest | examples/fzy.c:959-959 | The last entry of the last row is the maximum over all embeddings of leading gap, bonuses, consecutive rewards, inner gaps and trailing gap; minus infinity exactly when there is no embedding |
| FuzzyMatch.SetupMatchStruct | examples/fzy.c:783-830 | Both strings lowercased, and the bonus of each character by the original character before it, a slash before the first |
| FuzzyMatch.MatchRow | examples/fzy.c:832-897 | The row written obeys the recurrence over the row above |
| FuzzyMatch.RollingScore | examples/fzy.c:937-959 | With two swapped rows, the best score |
| FuzzyMatch.MatchScore | examples/fzy.c:899-960 | For any two strings: the scores of the special lengths, and else the best embedding score |
| FuzzyMatch.FullMatrices | examples/fzy.c:1015-1028 | All rows obey the recurrence |
| FuzzyMatch.MatricesTraceable | examples/fzy.c:1036-1055 | From every finite entry a row can be traced back to a match, and from there to a finite entry above, as the match flag requires |
| FuzzyMatch.BacktrackRow | examples/fzy.c:1034-1063 | A row is left at its start when a match is required there, else at the last place where both matrices agree, whenever the entries promise one |
| FuzzyMatch.Backtrack | examples/fzy.c:1029-1066 | When the score is finite all positions are filled, strictly increasing, each on an equal lowercased character; a position is right before the next one when that was scored as consecutive, and else the last agreement before it |
| FuzzyMatch.MatchPositions | examples/fzy.c:962-1070 | The same score as the two-row version, and positions that form an embedding, traced back through the matrices |
| FuzzyMatch.MatchScoreUnique | examples/fzy.c:899-1070 | Both versions return equal scores |
| FuzzyMatch.Strcasechr | examples/fzy.c:723-742 | The first place that holds the character or its capital, null exactly when there is none |
| FuzzyMatch.HasMatch | examples/fzy.c:744-763 | Taking the first acceptable character each time succeeds exactly when any increasing choice of acceptable characters exists |
| FuzzyMatch.AcceptedExactly | examples/fzy.c:723-763 | What the greedy test accepts is what can be embedded with every character but a lowercase letter standing for itself alone |
| FuzzyMatch.AcceptedIsEmbedding | examples/fzy.c:744-763 | What the greedy test accepts can be embedded |
| FuzzyMatch.EmbeddingIsAccepted | examples/fzy.c:744-763 | For needles without capitals the converse |
| FuzzyMatch.AcceptedScores | examples/fzy.c:1779-1782 | A choice the greedy test accepts scores above minus infinity exactly when the needle is not empty and the haystack has at most 1024 characters |
| FuzzyMatch.LoweredAccepts | examples/fzy.c:744-763 | On lowercased strings the greedy test decides whether there is an embedding |
| FuzzyMatch.MinusInfinityExactly | examples/fzy.c:918-936 | For all strings, minus infinity tells that no embedding exists exactly when the needle is not empty, equally long strings agree up to case, and in a haystack too long to be scored the greedy test on lowercased strings finds nothing |
| FuzzyMatch.EqualLengthsNotCompared | examples/fzy.c:933-936 | A concrete pair of equally long strings without embedding that scores plus infinity |
| FuzzyMatch.LongHaystackNotScored | examples/fzy.c:925-927 | A concrete accepted needle in 1025 characters that scores minus infinity |
| FuzzyMatch.EmptyNeedleNotScored | examples/fzy.c:918-921 | The empty needle is accepted everywhere and scores minus infinity |
| FuzzyMatch.PlusInfinityExactly | examples/fzy.c:918-936 | For all strings, plus infinity is the score of equally long ones, not empty nor above 1024 characters |
| FuzzyMatch.FirstAndLast | examples/fzy.c:872-891 | Concrete scores that show the bonus at the start and the gaps before and behind |
| FuzzyMatch.FollowsAtOnce | examples/fzy.c:875-879 | A concrete score of two characters that follow each other |
| FuzzyMatch.FollowsAfterGap | examples/fzy.c:875-891 | A concrete score of two characters with a gap |
| FuzzySearch.NotAfterIsOrder | examples/fzy.c:1471-1491 | The comparison is a total order on results with different addresses |
| FuzzySearch.NotAfterIsBest | examples/fzy.c:1471-1491 | It puts the better score first, and of equal scores the smaller address |
| FuzzySearch.SortedUnique | examples/fzy.c:1788-1788 | A sorted list is determined by its elements |
| FuzzySearch.MergedElements | examples/fzy.c:1682-1750 | Merging keeps all elements of both lists, as often as they occur |
| FuzzySearch.MergedSorted | examples/fzy.c:1682-1750 | Merging sorted lists gives a sorted list |
| FuzzySearch.Merge2 | examples/fzy.c:1682-1750 | The array filled by index is the merge of the two lists |
| BinomialJoin.SetBit | examples/thread-join-binomial.c:42-42 | Setting the bit above cleared low bits adds its power of two and makes it the lowest bit |
| BinomialJoin.PartnerCovers | examples/thread-join-binomial.c:38-47 | A partner that has stopped covers just what the joining worker gains by its round |
| BinomialJoin.JoinCovers | examples/thread-join-binomial.c:38-47 | After a round more, a worker covers the interval twice as long, cut at the number of threads |
| BinomialJoin.ApplyInv | examples/thread-join-binomial.c:30-65 | Every step of every thread keeps: covered workers have stopped, children are joined once and by their parent, creation goes from last to first |
| BinomialJoin.JoinsAreSafe | examples/thread-join-binomial.c:57-61 | No worker is joined twice, each only by its number with the lowest set bit cleared, and a created worker sees all later ones created |
| BinomialJoin.RootCoversAll | examples/thread-join-binomial.c:63-64 | Once worker 0 has stopped, all have |
| BinomialJoin.AllStopped | examples/thread-join-binomial.c:63-68 | When main's join returns all threads have stopped and every worker but the first has been joined exactly once |
| BinomialJoin.NeverStuck | examples/thread-join-binomial.c:36-64 | The joins never wait in a circle: until main is done some step is possible |
| BinomialJoin.FourStepsEach | examples/thread-join-binomial.c:30-68 | No run has more than four steps for each thread, and those in which main has returned are the ones with just as many |
| ParallelSearch.EvaluateChoice | examples/fzy.c:1779-1784 | A choice is recorded exactly when it is accepted, with its address and its score |
| ParallelSearch.SearchJob.GetNextBatch | examples/fzy.c:1666-1680 | The batch handed out starts where the last one ended, has 512 choices unless it is the last, and is empty exactly when none is left |
| ParallelSearch.FetchInv | examples/fzy.c:1666-1680 | Handing out a batch keeps the count of what is recorded or about to be |
| ParallelSearch.ExamineInv | examples/fzy.c:1777-1786 | So does recording one choice |
| ParallelSearch.JoinInv | examples/fzy.c:1790-1804 | So does merging a partner's list, which adds exactly what the partner covers |
| ParallelSearch.ApplyInv | examples/fzy.c:1752-1806 | The invariant is kept by every step |
| ParallelSearch.SearchResult | examples/fzy.c:1808-1864 | When the search returns, worker 0 holds the list of exactly the recorded choices, best scores first and equal ones by address, and the batches partition all choices |
| ParallelSearch.ScheduleIndependent | examples/fzy.c:1808-1864 | Two runs over the same choices return the same list, for any worker counts and schedules |
| ParallelSearch.NeverStuck | examples/fzy.c:1752-1806 | Until main's join has returned some worker can go on |
| ParallelSearch.Terminates | examples/fzy.c:1752-1864 | No run has more than four steps for each worker and two for each choice, so every search gets its result |
| ParallelSearch.ResultIsAccepted | examples/fzy.c:1779-1784 | A choice is in the result, with its score, exactly when the greedy test accepts it |
| KtFor.FetchCalls | examples/klib.c:224-230 | A fetch from any cursor keeps the calls equal to the indices below the limit that their cursor has passed |
| KtFor.MoveInv | examples/klib.c:205-255 | Own fetches, scans that compare and store racy reads of their own, and steals of any thread keep the invariant |
| KtFor.ExactlyOnce | examples/klib.c:257-292 | Under every schedule no index is called twice or out of range, and when all threads have finished every index has been called |
| KtFor.CursorBound | examples/klib.c:224-225 | No cursor reaches n + T + 2 T T |
| KtFor.NeverStuck | examples/klib.c:214-224 | Where that bound fits in a long, every scan selects a cursor and every unfinished thread can move |
| KtFor.Terminates | examples/klib.c:240-253 | Every run has at most (2 T + 4) n + (2 T + 5) T steps |
| KtFor.CallInOrder | examples/klib.c:293-299 | Without a second thread every index is called once, in order |
| KtFor.StealWork | examples/klib.c:205-231 | Over undisturbed cursors the scan fetches from the first of the lowest ones |
| KtFor.NothingLeft | examples/klib.c:225-230 | Such a steal finds nothing exactly when no cursor is below n |
| KtFor.StealAlone | examples/klib.c:205-253 | It is a sequence of steps of one thread, which then runs the stolen index or is finished |
| KtFor.StealAfterMiss | examples/klib.c:240-253 | A thread whose own fetch finds nothing goes on to such a steal |
| KtFor.FinishedExactly | examples/klib.c:247-254 | In every run a thread has finished exactly when it has stolen in vain |
| KtPipeline.NewBlockersNever | examples/klib.c:520-534 | A worker that is free to enter stays free whatever others return |
| KtPipeline.EntersInOrder | examples/klib.c:494-519 | The worker that enters a later step takes over the first item not taken over yet, with its data |
| KtPipeline.ReturnHanded | examples/klib.c:519-528 | Data returned by a step becomes the last item to be taken over by the next |
| KtPipeline.ApplyInv | examples/klib.c:481-538 | Entering, sleeping, waking and returning keep the invariant; in particular every sleeper has a live blocker on an earlier item and no later step |
| PipelineRuns.PipelineOrder | examples/klib.c:481-538 | In every run no two workers execute one step at once, items enter every step in increasing order, and those that entered a step are, with their data, a prefix of those the step before returned |
| PipelineRuns.NoLostWakeUp | examples/klib.c:492-512 | Nobody sleeps without a blocker, and while a worker is live the earliest one can enter or is being executed |
| PipelineRuns.MeasureDrops | examples/klib.c:519-534 | Each entry and return uses up a measure, whatever sleeping and waking happens between |
| PipelineRuns.PipelineFinishes | examples/klib.c:540-591 | With two or more steps and a source of finitely many items, a bound on the entries and returns of any run |
| PipelineRuns.StuckMeansFinished | examples/klib.c:540-591 | When nothing can be entered or returned, all workers have finished and every step has taken over all that the one before returned |
| PipelineRuns.FinishedExactly | examples/klib.c:521-528 | With two or more steps, in every run, a worker has finished exactly when one of its steps before the last has returned no data |
| PipelineRuns.SourceDrained | examples/klib.c:519-528 | So a worker that has finished, and whose middle steps have passed on all data, has had no data from the source |
| PipelineSource.SourceOrder | examples/klib.c:529-533 | In every run the items enter the first step in the order of their numbers from 0 on, none left out, and with no data |
| PipelineSource.StepsOverlap | examples/klib.c:500-504 | Two items may be in two steps at once |
| PipelineRuns.OneStepNeverFinishes | examples/klib.c:521-528 | With one step no worker ever finishes, whatever the source returns |
| PipelineWorkers.Pipeline.constructor | examples/klib.c:551-574 | Workers start at step 0 with consecutive item numbers; less than one thread means one |
| PipelineWorkers.Pipeline.Scan | examples/klib.c:494-510 | The scan over the other workers is clear exactly when none blocks |
| PipelineWorkers.Pipeline.AwaitTurn | examples/klib.c:493-519 | One pass under the mutex is the enter or the sleep transition, and keeps the invariant |
| PipelineWorkers.Pipeline.Complete | examples/klib.c:520-535 | The pass after the step function is the return transition, and keeps the invariant |
| JobQueue.Queue.Push | examples/C-Thread-Pool.c:592-611 | The linked queue grows by the job at its end, and the semaphore is up |
| JobQueue.Queue.Pull | examples/C-Thread-Pool.c:614-635 | The oldest job leaves, null exactly when there is none; the semaphore is posted again when jobs are left |
| ThreadPool.ApplyRuns | examples/C-Thread-Pool.c:527-534 | Every step keeps the queue in order of addition, and each pulled job in one hand or finished, never both |
| ThreadPool.ApplyAnnounces | examples/C-Thread-Pool.c:592-635 | Every step keeps jobs in the queue announced by the semaphore or by a thread on its way |
| ThreadPool.ApplyTests | examples/C-Thread-Pool.c:676-712 | Every step keeps a raised semaphore from being missed by all sleepers |
| ThreadPool.ApplyInv | examples/C-Thread-Pool.c:345-548 | All of the invariant is kept by every step, spurious wake-ups included |
| ThreadPool.FifoAndOnce | examples/C-Thread-Pool.c:488-548 | In every run jobs are pulled in the order they were added and none is finished twice |
| ThreadPool.WaitReturnsIdle | examples/C-Thread-Pool.c:363-381 | The wait returns only when every job added before has finished, although the length is read without the queue's lock |
| ThreadPool.WaitReturnsLate | examples/C-Thread-Pool.c:363-381 | In every run, once the client is idle again after a call of wait, every job added before the call has finished |
| ThreadPool.NoLostWakeUps | examples/C-Thread-Pool.c:363-381 | No job is stranded, no sleeper is forgotten beside a raised semaphore, and a sleeping client has something to wait for |
| ThreadPool.ProductiveIsBounded | examples/C-Thread-Pool.c:521-542 | The useful steps of a run are bounded by what the client has asked for and its spurious wake-ups |
| ThreadPool.StuckMeansFinished | examples/C-Thread-Pool.c:345-381 | When no useful step is left all jobs added have been finished and the client is idle, exactly when there is a thread or there was no job |
| Arithmetic.MaskIsRemainder | examples/uthash.c:669-669 | Masking with a power of two less one is the remainder |
| HashChains.LinkFront | examples/uthash.c:675-680 | The relinked chain is the old one behind the new element, linked both ways |
| HashChains.FindInChain | examples/uthash.c:478-504 | The element with hash and key, null exactly when the chain has none |
| HashChains.Unlink | examples/the_silver_searcher.c:4757-4765 | The relinked chain is the old one without the element, linked both ways |
| OrderList.Append | examples/uthash.c:629-665 | The order list is the old one with the element behind it, linked both ways, with its two ends |
| OrderList.Detach | examples/the_silver_searcher.c:4738-4751 | The order list is the old one without the element, linked both ways, with its two ends |
| OrderList.OnlyOne | examples/the_silver_searcher.c:4727-4728 | An element has no neighbour exactly when it is the only one |
| HashTable.HalfMovedNext | examples/uthash.c:700-721 | Moving one element on extends what has been moved, and it was not in its new bucket yet |
| HashTable.AllowanceIsRatio | examples/uthash.c:708-713 | The expansion allowance of a bucket, counted up or, as in the searcher, divided out, is its length in ideal lengths, within one, and zero exactly when it is no longer than ideal |
| HashTable.MoveHandle | examples/the_silver_searcher.c:4529-4541 | One element is put in front of its new chain, counted, and counted again if in excess; the allowance follows the rule of the program |
| HashTable.MoveAll | examples/uthash.c:697-723 | All elements end in the chains of their new buckets, none is lost, and the excess over the ideal length is counted |
| HashTable.IdealChain | examples/uthash.c:690-695 | The shift and mask compute the items per new bucket, rounded up |
| HashTable.MembersAdded | examples/uthash.c:666-680 | An element with a new key may join its bucket: each element stays in the bucket of its hash, under different keys |
| HashTable.MembersRemoved | examples/the_silver_searcher.c:4752-4766 | The same after an element has left its bucket |
| HashTable.InMaskedBucket | examples/uthash.c:669-669 | Each element stands in the chain of the bucket its hash value masks to, and in no other |
| HashTable.ExcessCounts | examples/uthash.c:707-709 | The excess is the number of places at and behind the ideal length in all chains |
| HashTable.KeysCounted | examples/uthash.c:809-813 | The number of items is the number of keys |
| HashTable.Table.constructor | examples/uthash.c:629-655 | A new table is valid and empty, with 32 buckets |
| HashTable.Table.Rebuild | examples/uthash.c:683-727 | Twice the buckets hold the same elements, the ideal length is the ceiling, and the items beyond it are counted over all chains |
| HashTable.Table.Expand | examples/uthash.c:683-736 | Doubling stops for good after two in a row that leave more than half of the items in excess |
| HashTable.Table.Find | examples/uthash.c:471-509 | The element with the key, null exactly when the key is not in the table |
| HashTable.Table.Add | examples/uthash.c:626-746 | The key set gains the key, the order list and the bucket's chain the element; the table doubles exactly when the chain has reached ten times its allowance and doubling is not inhibited |
| HashTable.Table.Remove | examples/the_silver_searcher.c:4735-4767 | The key set loses the key and nothing else; order list and chain are relinked |
| KeySet.KeySet.Contains | examples/uthash.c:471-509 | True exactly for members, table or no table |
| KeySet.KeySet.AddIfAbsent | examples/the_silver_searcher.c:4353-4563 | The set gains the key; reports whether it was new |
| KeySet.KeySet.Delete | examples/the_silver_searcher.c:4587-4771 | The set loses the key; reports whether it was there; an element without neighbours in the order list is the last and takes the table with it |
| KeySet.KeySet.Fill | examples/uthash.c:323-755 | A writer leaves all its keys in the set, whatever was there |
| KeySet.KeySet.CountPresent | examples/uthash.c:142-321 | A reader counts the members among its keys |
| KeySet.KeySet.Size | examples/uthash.c:809-813 | The item count is the number of keys, zero without a table |
| KeySet.PresentIsSize | examples/uthash.c:313-321 | Counting one key at a time gives the size of the intersection |
| AsyncBuffer.RingAppends | examples/EasyLogger.c:1327-1337 | The one or two block copies append to what the ring holds |
| AsyncBuffer.RingSplits | examples/EasyLogger.c:1363-1373 | Moving the read index on leaves the rest of what the ring holds |
| AsyncBuffer.LogBuffer.GetBufUsed | examples/EasyLogger.c:1280-1301 | The used bytes lead from the read to the write index; none exactly when flagged empty, all exactly when flagged full |
| AsyncBuffer.LogBuffer.PutLog | examples/EasyLogger.c:1312-1341 | The prefix that fits is appended; the buffer stays right exactly unless nothing is put into an empty one |
| AsyncBuffer.LogBuffer.GetLog | examples/EasyLogger.c:1343-1378 | The oldest bytes that fit are removed into the log; bytes delivered followed by bytes held are always the bytes accepted |
| AssertEraser.BuildFileMap | strip_malformed_asserts.py:12-21 | The list built is the list of line lengths |
| AssertEraser.MapShape | strip_malformed_asserts.py:15-21 | The list has one entry more than there are newlines, adds up to the file, and ends with the last column |
| AssertEraser.LocationsInvert | strip_malformed_asserts.py:27-34 | A location leads to an offset exactly when it is the line and column of that offset |
| AssertEraser.ErrorsExactly | strip_malformed_asserts.py:27-34 | A line the file does not have and a column its line does not have are told apart |
| AssertEraser.TwoLines | strip_malformed_asserts.py:15-21 | A concrete file of two lines |
| AssertEraser.ScanAdvances | strip_malformed_asserts.py:84-103 | The scan for the end may be taken up at any place before it |
| AssertEraser.RecordSegment | strip_malformed_asserts.py:80-107 | The loop records the end that the scan defines, and the larger of two ends |
| AssertEraser.RecordedForward | strip_malformed_asserts.py:104-107 | A recorded segment always ends behind its start, so the copy moves on |
| AssertEraser.RecordedUnclosedExactly | strip_malformed_asserts.py:84-107 | What is recorded is not closed exactly when no parenthesis stands outside quotes between the place and the end of the file, to which it then extends |
| AssertEraser.AllRecordedOutside | strip_malformed_asserts.py:80-107 | All that is recorded at places outside quotes is as the results below need it, closed or run out |
| AssertEraser.BareNameIsRecorded | strip_malformed_asserts.py:104-107 | A concrete file whose last name is recorded without any parenthesis |
| AssertEraser.ProcessFile | strip_malformed_asserts.py:58-70 | The loop writes what the copy function defines |
| AssertEraser.LiteralIsNeutral | strip_malformed_asserts.py:95-102 | A string or character literal, with its quotes and backslashes escaped, does not move the scanner, whatever its text |
| AssertEraser.ScanArguments | strip_malformed_asserts.py:84-103 | Inside a parenthesis the scan passes over any arguments made of text, literals and parentheses in pairs |
| AssertEraser.CallRecorded | strip_malformed_asserts.py:80-107 | A call is recorded from its name to its closing parenthesis, whatever its arguments and whatever surrounds it |
| AssertEraser.OnlyNamesRecorded | strip_malformed_asserts.py:80-80 | Where another text than the name stands nothing is recorded |
| AssertEraser.CallErased | strip_malformed_asserts.py:58-70 | Erasing a recorded call leaves what stands before it, the replacement, and what stands after it |
| AssertEraser.ClosedIsNeutral | strip_malformed_asserts.py:84-103 | A closed segment leaves depth and quote as it found them |
| AssertEraser.ShallowerClosesFirst | strip_malformed_asserts.py:84-103 | Of two scans that agree on quotes, if the one with more open parentheses closes the other does not run out, and closes no later |
| AssertEraser.Nested | strip_malformed_asserts.py:58-70 | A segment recorded inside a closed one is closed within it |
| AssertEraser.OutermostReplaced | strip_malformed_asserts.py:58-70 | The output has one replacement for each outermost segment and otherwise exactly the characters in no segment |
| AssertEraser.EraserKeepsState | strip_malformed_asserts.py:58-70 | Before every retained character the scanner is in the same state in the output as in the input |
| AssertEraser.ErasedOutsideQuotes | strip_malformed_asserts.py:58-107 | Both for whatever the recorder makes at any list of places outside quotes |
| AssertEraser.QuotedNameBreaks | strip_malformed_asserts.py:80-103 | A concrete file with a name inside quotes whose erasure leaves another parenthesis open before a retained character |
| AssertEraser.SafeExactlyOutside | strip_malformed_asserts.py:80-107 | Recording a place keeps the scanner state behind the segment, whatever text follows the name, exactly when the place is outside quotes |

## Left out

- HashSearch.WindowMatches: one comparison for both loops. The probe loop compares the result of `tolower` as it is, the last loop casts it to `char` first (`examples/the_silver_searcher.c:5661`, `examples/the_silver_searcher.c:5688`); they agree for bytes from 128 on in insensitive mode only if the case table maps a negative `char` to itself, which is assumed, as in the Boyer-Moore search.
- FuzzyMatch.MatchPositions: the positions are an embedding, but not claimed to be one of best score, because the backtrack decides whether the next character must match from `M` and not from `D`.
- BoyerMoore.BoyerMooreStrnstr: the position before the first character is -1, where the original wraps an unsigned number around and back.
- ParallelSearch.SearchResult: sorting a worker's list is taken as any sorted permutation, which is what `qsort` promises for a total order; string addresses are distinct numbers.
- HashTable.Table.Add: the hash is an arbitrary function of the key, and counters do not wrap.
- KeySet.KeySet.Delete: the all-zero key that the original refuses before looking is not singled out.
- AssertEraser.SafeExactlyOutside: for names without parentheses, quotes and backslashes, as a function name has none.
- Case mapping and character classes of locales other than the ASCII one; queries with embedded null characters.
- Rounding of floating-point scores.
- Pause, resume and destruction of the thread pool, and signals.
- `kt_forpool`, which resets cursors outside its mutex.
- Regular expressions, inverted matches and multi-line printing in the searcher; terminal interface of the fuzzy finder; formatting and files of the logger.
- Loading of compiler reports and the driver around the assertion eraser.
- Failing allocations, failing thread creation, and the freeing of memory.
- The instrumentation tool itself (`src/`, `headers/`), which is mostly calls into a compiler library that is not part of this model, and its scripts.
