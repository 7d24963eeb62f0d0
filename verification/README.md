# Lock-free records, ring queues, a memoised matcher and a one-swap permutation, in Dafny

This project models five components of AlgosInC and proves what they are for.

* **The guarded record** (`ioguard/basic_ioguard.h`). One writer publishes records of several
  64-bit words between two guards; any number of readers copy the words and retry unless the
  guards agree. `StoreBuffer` is a store buffer with fences, `Seqlock` the protocol as a transition
  system with one step per load, store, fence and drain, `SeqlockQuiet` the runs without
  interference, `SeqlockRuns` what a run has done and which runs there are, `IoGuard` the code of
  the writers and of the three readers.
* **The ring queue** (`circular_queue_cpp98`, `circular_queue_cpp11`). `CircularQueue98` is the class
  with free-running 32-bit offsets, `Spsc` one producer and one consumer interleaved, `SpscRuns` the
  runs there are, `CircularQueue11` the overwriting mode, `Tickets` any number of producers that take a place first
  and fill it later.
* **The matcher** (`regex`). `RegexSpec` says what a pattern means and what the plain recursion is,
  `RegexMatcher` is the class with its memo tables and its star-free shortcut.
* **The previous permutation with one swap** (`prev_permutation_one_swap`). `OneSwap` is the
  specification over all swaps, `PrevPermutation` the scan and the three searches, `XorSwap` the
  exchange.
* **The market loop** (`smps`). `Market` is the update of a stock's venues and the drift of its
  midpoint.

Reading guide for the two protocols: a run is a list of actions, each enabled when it is taken;
`Leads` relates its ends; theorems speak of every run. Counters that never wrap stand beside the
wrapped guards and offsets that the code computes with; no step of the code depends on them.
`Modular.Rem(x, m)` is `x % m` (`Modular.RemIsMod`). `Modular.Countable` says how much may be pushed
into a queue: any number of items when `_size` divides the number of offset values, otherwise fewer
than that number.

## Where the code does not do what it is meant to

* `prev_permutation.cpp:33-34` drops the pointer that `bisect_left` returns and goes on with the left
  end of the bracket. Both readings are modelled. `PrevPermOpt1Intended` is optimal on every array;
  `PrevPermOpt1AsWritten` is optimal if and only if the galloping search closes on the leftmost
  equal entry by itself (`SearchMisses` is the exact exception; `[3, 1, 2, 2, 2]` is one), and
  otherwise makes the swap with the left end of the bracket (`MissedSwap`).
* `basic_ioguard.h:129` advances `num_try` where `try_iter` is meant. Both readings are modelled.
  `TryCopyIntended` makes at most `num_try` attempts; the text as it stands keeps that bound over all
  runs of writer and readers if and only if `num_try` is 0 or at least 2^63 (`BoundAsWrittenIff`; the
  run that breaks it, `StalledRun`, has the writer held up after its first store).
* The comment on cpp11 `begin()` says that it returns a null pointer when the front has been
  written over. The code does not notice. Before any wrap the comment holds if and only if the queue
  is not over-full (`BeginCommentIff`); after `1, 2, 3` in a queue of two the front shows 3
  (`LappedFront`, `LappedFrontExample`).
* Both `at()` and the cpp11 `begin()` compare raw offsets. They are right exactly while no offset wraps
  between the head and the tail (`BeginWrapIff` and the contracts of the three methods). On a queue
  whose one item follows the wrap cpp11 `begin()` is null (`CircularQueue11.WrappedFront`), and `at()`
  refuses the offset of the very item that `front()` returns (`CircularQueue98.WrappedFront`).

## Model

| member | source | states |
|---|---|---|
| Seqlock.StepInv | ioguard/basic_ioguard.h:58-87 | every action of the writer, of its store buffer and of any reader keeps the protocol's invariant, memory being exactly the drained part of what the writer has issued, and adds to the versions the record it hands over and nothing else |
| Seqlock.NoTornReads | ioguard/basic_ioguard.h:112-125 | over every interleaving of one writer and any number of readers, with words in any order and stores draining in any order that crosses no fence, an attempt whose check passes saw only the words of the single version it sampled, the versions being the initial record and those handed to the writer, in order |
| Seqlock.NoTornReads32 | ioguard/IOGuard.h:7-8 | the same for 32-bit guards while fewer than 2^32 writes fall between sample and check |
| Seqlock.Untorn | ioguard/basic_ioguard.h:93-106 | on any feed of loads the protocol allows, sample equal to check means every load between them met the version sampled, its front count included |
| Seqlock.AttemptSucceedsIffUndisturbed | ioguard/basic_ioguard.h:112-125 | below guard wrap the check passes if and only if no write overlaps the attempt |
| Seqlock.UndisturbedSucceeds | ioguard/basic_ioguard.h:112-125 | the check of an attempt fails only if a write newer than the version sampled has become visible by then, wrapped guards or not |
| SeqlockQuiet.IdleSucceeds | ioguard/basic_ioguard.h:127-138 | over runs: an attempt taken wholly while the writer is idle, its stores in memory, succeeds whatever the guard width and sees the latest record |
| Seqlock.SnapshotsMonotone | ioguard/basic_ioguard.h:93-106 | over every run, of two successful attempts of one reader the later one sampled, and saw, a version whose number is no less than that of the earlier one |
| Seqlock.FeedOfRun | ioguard/basic_ioguard.h:93-138 | the loads of each reader in any run form a feed of the kind the reader methods run on |
| Seqlock.VersionsHistory | ioguard/basic_ioguard.h:71-77 | over every run from any state the versions are those before and the records raised in the run, in order |
| SeqlockRuns.MemoryHistory | ioguard/basic_ioguard.h:71-77 | memory is what the stores drained in the run make of it, one after the other |
| SeqlockRuns.FeedHistory | ioguard/basic_ioguard.h:93-125 | each load of a reader meets the memory of its own moment, and a reader has no other loads |
| SeqlockRuns.WriterHistory | ioguard/basic_ioguard.h:71-77 | the writer is where its own actions have taken it in its program, whatever waits in the store buffer |
| SeqlockRuns.WriteAllWaiting | ioguard/basic_ioguard.h:71-77 | the writer never has to wait: from any state any number of writes, words in any order, may be finished while memory still shows what it showed before |
| SeqlockRuns.LastRecordShown | ioguard/basic_ioguard.h:71-77 | however many writes wait, a run leads on to memory at rest with the last of them |
| SeqlockRuns.AnyWordsShown | ioguard/basic_ioguard.h:73-75 | between the fences memory may show any set of the new words, the others already stored but waiting |
| SeqlockRuns.WritesOverlap | ioguard/basic_ioguard.h:76 | nothing keeps one write's back guard in front of the next one's front guard: memory may show two writes begun and neither ended |
| SeqlockQuiet.WriteNow | ioguard/basic_ioguard.h:71-77 | the writer alone can always complete a write: there is a run that leaves the record whole, at rest, one version later |
| SeqlockQuiet.TornAtWrap | ioguard/basic_ioguard.h:112-125 | the wrap bound is sharp: for every guard width and every record of two words or more some run with exactly that many writes inside an attempt passes the check with words of no single version |
| IoGuard.BasicIoguard.constructor | ioguard/basic_ioguard.h:37-42 | a new record is at rest at version 0 |
| SeqlockQuiet.ShownIsReached | ioguard/basic_ioguard.h:71-77 | every state the writer's code shows after one of its stores is reached by a run of the protocol |
| IoGuard.BasicIoguard.StoreFront | ioguard/basic_ioguard.h:72-73 | only the front guard changes, by one; on a record at rest the fields go from the protocol's memory before its raise to that after it |
| IoGuard.BasicIoguard.StoreWord | ioguard/basic_ioguard.h:74 | only that word changes; in a write whose front guard has been raised the fields go from the protocol's memory before that store to that after it |
| IoGuard.BasicIoguard.StoreBack | ioguard/basic_ioguard.h:75-76 | only the back guard changes; once all words are stored the record is at rest again |
| IoGuard.BasicIoguard.Store | ioguard/basic_ioguard.h:58-87 | the stores in their order, each a moment the record has really been in: the front guard, then the words one by one under the old back guard, then the back guard |
| IoGuard.BasicIoguard.CopyFrom | ioguard/basic_ioguard.h:58-87 | the record becomes the given one, one version further, both guards advanced in modular arithmetic, and is at rest at the end of a run of the protocol |
| IoGuard.LoadWords | ioguard/basic_ioguard.h:98 | each word copied is the one in the shared record at the moment of its own load |
| IoGuard.BasicIoguard.InitReverseOrder | ioguard/basic_ioguard.h:93-106 | the first round whose guards agree and whose check passes is the one returned from, and there is none exactly when the call still spins; the destination then holds one version, and both its guards are that version's |
| IoGuard.CopyToRhsReverseOrder | ioguard/basic_ioguard.h:112-125 | the first round whose guards agree and whose check passes is the one returned from, and there is none exactly when the call still spins, whichever guard the comparison loads first; the destination then holds exactly the version sampled |
| IoGuard.RoundMeans | ioguard/basic_ioguard.h:93-125 | which loads of a round must agree for it to pass, and where the next one starts when it does not |
| IoGuard.SpinMeans | ioguard/basic_ioguard.h:93-125 | the rounds of either loop over any loads, one after the other: all fail but the last, which is the one returned from, or which the loads left do not complete |
| IoGuard.SpinEnds | ioguard/basic_ioguard.h:93-125 | either loop returns: once the guards have settled it passes within two rounds |
| IoGuard.SpinEndsWhenIdle | ioguard/basic_ioguard.h:93-125 | over runs: once the writer has come to rest, whatever went before, either loop returns within 2 * words + 7 loads of the reader |
| IoGuard.TryCopyIntended | ioguard/basic_ioguard.h:127-138 | with try_iter advanced: the first successful attempt among num_try, where its loads lie, and an untorn snapshot when it returns true |
| IoGuard.TryCopyAsWritten | ioguard/basic_ioguard.h:127-138 | as the text reads: the same with a limit of 2^64 - num_try attempts, and still an untorn snapshot |
| IoGuard.BoundedTry | ioguard/basic_ioguard.h:127-138 | at most num_try attempts, all failed but the one that makes it return true; false means all failed, each overlapping a write |
| IoGuard.BoundAsWrittenIff | ioguard/basic_ioguard.h:129 | as the text reads the bound num_try holds over all runs of writer and readers if and only if num_try is 0 or at least 2^63 |
| IoGuard.LoadedSnapshot | ioguard/basic_ioguard.h:118-122 | words loaded one by one in any order inside a passed attempt make up one version |
| Spsc.StepInv | circular_queue_cpp98/circular_queue.h:111-154 | every step of producer, consumer and store buffer keeps the queue's invariant; only push_back pushes, the item of its end(), and only pop_front pops, one item |
| Spsc.FifoOverRuns | circular_queue_cpp98/circular_queue.h:100-188 | over every interleaving of single-word steps the items popped are, whole and in order, the first of the items whose push_back is in the run, one for every pop_front; never more than _size are between, and both offsets follow |
| Spsc.ItemsHistory | circular_queue_cpp98/circular_queue.h:151-188 | from any state the items pushed are those before and the items of the completed push_backs, in order, and as many are popped as there are pop_fronts |
| SpscRuns.RunHistory | circular_queue_cpp98/circular_queue.h:111-188 | memory is what the drained stores of both sides make of it, and each side is where its own actions have taken it |
| SpscRuns.PushAllWaiting | circular_queue_cpp98/circular_queue.h:111-154 | a producer may fill the queue, words in any order, while all its stores still wait and whatever the consumer is at |
| SpscRuns.PopNow | circular_queue_cpp98/circular_queue.h:121-188 | a consumer given a cell by begin() can pop the oldest item, words in any order and whatever the producer is at |
| SpscRuns.QueueDelivers | circular_queue_cpp98/circular_queue.h:100-188 | for any items, as far as the offsets bear, a run of a new queue pushes and pops exactly these |
| Spsc.NeverSameCell | circular_queue_cpp98/circular_queue.h:111-124 | the cell being written, or still waiting in the store buffer, is never the cell being read |
| Spsc.EndStays | circular_queue_cpp98/circular_queue.h:111-114 | a non-null end() stays valid, and the same cell, until the producer's own push_back |
| Spsc.BeginStays | circular_queue_cpp98/circular_queue.h:121-124 | a non-null begin() stays valid, and the same cell, until the consumer's own pop_front |
| Spsc.SettledTestsExact | circular_queue_cpp98/circular_queue.h:111-124 | once stores have become visible end() is null exactly when full and begin() exactly when empty |
| Spsc.EndGivenIff | circular_queue_cpp98/circular_queue.h:100-112 | the wrapped size() test is exact on the head the producer can see |
| Spsc.BeginGivenIff | circular_queue_cpp98/circular_queue.h:121-122 | the wrapped test for emptiness is exact on the tail the consumer can see |
| CircularQueue98.CircularQueue.constructor | circular_queue_cpp98/circular_queue.h:71-81 | a new queue is empty |
| CircularQueue98.CircularQueue.Size | circular_queue_cpp98/circular_queue.h:100 | the wrapped difference of the offsets is the number of items |
| CircularQueue98.CircularQueue.End | circular_queue_cpp98/circular_queue.h:111-114 | null exactly when full, otherwise a cell that no item occupies |
| CircularQueue98.CircularQueue.Begin | circular_queue_cpp98/circular_queue.h:121-124 | null exactly when empty, otherwise the oldest item's cell |
| CircularQueue98.CircularQueue.Front | circular_queue_cpp98/circular_queue.h:126-131 | the oldest item, or the range error exactly when empty |
| CircularQueue98.CircularQueue.Back | circular_queue_cpp98/circular_queue.h:133-138 | the newest item, or the range error exactly when empty |
| CircularQueue98.CircularQueue.Empty | circular_queue_cpp98/circular_queue.h:140-142 | true exactly when there is no item |
| CircularQueue98.CircularQueue.Fill | circular_queue_cpp98/circular_queue.h:106-114 | writing through the pointer that end() gave disturbs no item |
| CircularQueue98.CircularQueue.PushBack | circular_queue_cpp98/circular_queue.h:151-154 | the item in the slot joins at the end, all others stay |
| CircularQueue98.CircularQueue.AtomicPushBackGetEnd | circular_queue_cpp98/circular_queue.h:163-168 | the tail moves by one and the cell before it is returned; if there was room that cell joins as the last item and all others stay, on a full queue it is the oldest item's |
| CircularQueue98.CircularQueue.PopBack | circular_queue_cpp98/circular_queue.h:177-179 | the newest item leaves, its push undone |
| CircularQueue98.CircularQueue.PopFront | circular_queue_cpp98/circular_queue.h:186-188 | the oldest item leaves |
| CircularQueue98.CircularQueue.At | circular_queue_cpp98/circular_queue.h:194-199 | while no offset wraps between head and tail, the item of each live offset and the error for any other; otherwise always the error |
| CircularQueue98.CircularQueue.Run | circular_queue_cpp98/circular_queue.h:100-188 | whole runs answer as an unbounded queue bounded by _size does, and may follow one another: runs of any length when _size divides the number of offset values, otherwise while fewer items than that number have been pushed |
| CircularQueue98.FirstInFirstOut | circular_queue_cpp98/circular_queue.h:100-188 | of that unbounded queue: what was there and what found room is, in order, what was delivered and what is left, and counting tells how much that is |
| CircularQueue98.UndoTakesBack | circular_queue_cpp98/circular_queue.h:170-179 | and undoing a push gives the item back and leaves the queue as it was |
| CircularQueue98.PushesAccepted | circular_queue_cpp98/circular_queue.h:144-154 | the pushes that count against the wrap are those that find room |
| CircularQueue98.WrappedFront | circular_queue_cpp98/circular_queue.h:194-199 | a reachable queue on which at() refuses the offset of the item in front |
| CircularQueue98.CellsDistinctIff | circular_queue_cpp98/circular_queue.h:111-124 | the _size offsets from any head on have distinct cells if and only if _size divides the number of offset values or none of them wraps |
| CircularQueue98.Collision | circular_queue_cpp98/circular_queue.h:113 | otherwise two live offsets, found explicitly, share a cell |
| CircularQueue11.BeginWrapIff | circular_queue_cpp11/circular_queue.h:99-102 | the raw comparison of begin() tells emptiness if and only if no offset wraps between head and tail; the equality of cpp98 always does |
| CircularQueue11.BeginCommentIff | circular_queue_cpp11/circular_queue.h:93-102 | begin() does what its comment says if and only if the front has been written over exactly when an offset has wrapped between head and tail; so, before any wrap, if and only if at most _size items are in the queue |
| CircularQueue11.LappedFront | circular_queue_cpp11/circular_queue.h:93-102 | on every queue over which more than _size items have been written begin() is not null and shows a later item than the oldest |
| CircularQueue11.WrappedFront | circular_queue_cpp11/circular_queue.h:99-102 | a reachable queue of one item on which begin() is null |
| CircularQueue11.FillKeeps | circular_queue_cpp11/circular_queue.h:83-91 | writing the cell after the last item loses at most the item a whole round before |
| CircularQueue11.NewestSharesCell | circular_queue_cpp11/circular_queue.h:89-91 | the newest offset that maps to a cell does share it |
| CircularQueue11.CircularQueue.EndClobber | circular_queue_cpp11/circular_queue.h:89-91 | the cell the next item goes to, full or not, wrapped or not |
| CircularQueue11.CircularQueue.Fill | circular_queue_cpp11/circular_queue.h:89-91 | writing through end_clobber loses at most the item pushed _size pushes ago |
| CircularQueue11.CircularQueue.PushBack | circular_queue_cpp11/circular_queue.h:129-132 | the item joins, and the last _size of all ever pushed are intact |
| CircularQueue11.CircularQueue.ClobberAll | circular_queue_cpp11/circular_queue.h:89-132 | after any number of overwriting pushes the last min(pushed, _size) are intact |
| CircularQueue11.CircularQueue.PopNFront | circular_queue_cpp11/circular_queue.h:174-176 | the head moves by n in modular arithmetic; the queue is in order as long as that is not past the tail |
| CircularQueue11.CircularQueue.CatchUp | circular_queue_cpp11/circular_queue.h:169-176 | popping size()-_size of an over-full queue leaves at most _size items, the oldest survivor in front, and all intact but for that front where its cell has been written for the next |
| CircularQueue11.CircularQueue.Begin | circular_queue_cpp11/circular_queue.h:93-102 | null exactly when the queue is empty or an offset has wrapped between head and tail; what a front that was written over shows |
| CircularQueue11.CircularQueue.At | circular_queue_cpp11/circular_queue.h:182-187 | while no offset wraps between head and tail, an item exactly for the live offsets: the newest in the cell, the one pushed there while intact; otherwise always the error |
| Tickets.TicketsOverRuns | circular_queue_cpp11/circular_queue.h:141-147 | over every interleaving of any number of callers the tickets are numbered without gap or repetition, carry the wrapped offset of their number and are for the callers and items of the run, and each completed one of the last _size shows its own item |
| Tickets.TicketHistory | circular_queue_cpp11/circular_queue.h:141-147 | a ticket is its caller's, for the item that caller brought, and says which words that caller has stored |
| Tickets.CellsByActions | circular_queue_cpp11/circular_queue.h:141-187 | the cell of a place among the last _size, once its taker has stored all the words, holds the item for which the place was taken |
| Tickets.TakeAll | circular_queue_cpp11/circular_queue.h:141-147 | any callers may take places one after the other before anything is stored |
| Tickets.StoreSome | circular_queue_cpp11/circular_queue.h:141-147 | the holder of any of the last _size places can store its missing words, in any order |
| Tickets.NoSharedCell | circular_queue_cpp11/circular_queue.h:145-146 | tickets less than _size apart never share a cell |
| RegexSpec.PlainIsMatching | regex/my_regex_match.cpp:43-88 | for every pair of suffixes the plain recursion accepts if and only if the text splits into segments taken one for one by the atoms of the pattern |
| RegexSpec.NoStarLeft | regex/my_regex_match.cpp:57-70 | where no star is left the recursion is comparison character by character at equal length |
| RegexSpec.AcceptsConcat | regex/my_regex_match.cpp:72-84 | accepted pairs may be concatenated unless the second pattern begins with a star |
| RegexSpec.StarDoesNotConcat | regex/my_regex_match.cpp:78-80 | a concrete pair of pairs for which that restriction is needed |
| RegexSpec.GeneratedMatches | regex/regex_tests.cpp:151-179 | every pair the generator can build matches |
| RegexMatcher.TableFitsIff | regex/my_regex_match.cpp:9-13 | every cell has its index inside the tables if and only if they have fewer than 2^32 cells |
| RegexMatcher.OffsetUnique | regex/my_regex_match.cpp:50-52 | the flat index is in range and determines the cell |
| RegexMatcher.MyRegexMatch.Init | regex/my_regex_match.cpp:4-17 | any state becomes a valid matcher for the new strings with no cell marked done and the last dot and star found |
| RegexMatcher.MyRegexMatch.FindLast | regex/my_regex_match.cpp:15-16 | the last position of the character or -1 exactly when there is none; past the range of int the wrapped start; in either case nothing stands after it, compared as C compares unsigned with int |
| RegexMatcher.MyRegexMatch.MatchDot | regex/my_regex_match.cpp:34-41 | true exactly when the suffixes agree character by character |
| RegexMatcher.MyRegexMatch.Shortcut | regex/my_regex_match.cpp:57-70 | the shortcut's answer is that of the plain recursion, and leaves the invariant although it does not mark the cell |
| RegexMatcher.MyRegexMatch.Dp | regex/my_regex_match.cpp:43-88 | from any valid tables dp answers as the plain recursion and keeps them valid; calls and entries are paid for by newly marked cells |
| RegexMatcher.MyRegexMatch.Match | regex/my_regex_match.cpp:19-88 | the answer is whether text and pattern match; the general branch is entered at most once a cell and dp invoked at most 1 + 2(text_len+1)(pat_len+1) times |
| OneSwap.SwapDownIff | prev_permutation_one_swap/prev_permutation.cpp:17-24 | a swap goes down exactly when it moves a smaller value to the left |
| OneSwap.SortedHasNone | prev_permutation_one_swap/prev_permutation.cpp:22-23 | a non-decreasing array has no smaller one a swap away |
| OneSwap.BestIsLargest | prev_permutation_one_swap/prev_permutation.cpp:25-41 | swapping the start of the last descent with the leftmost of the greatest smaller values after it beats every other swap that goes down |
| OneSwap.WorseIsNotLargest | prev_permutation_one_swap/prev_permutation.cpp:33-34 | any smaller value in its place is not optimal |
| PrevPermutation.BisectMaxCrit | prev_permutation_one_swap/prev_permutation.h:10-24 | on a sorted range the last entry below crit, or the start when there is none |
| PrevPermutation.BisectLeft | prev_permutation_one_swap/prev_permutation.h:65-76 | the boundary between entries below val and the rest |
| PrevPermutation.WalkLeft | prev_permutation_one_swap/prev_permutation.h:35-60 | throws exactly when *pval is not val; otherwise stops at the exact bracket that the probes at distances 1, 4, 8, ... give |
| PrevPermutation.BracketPins | prev_permutation_one_swap/prev_permutation.h:31-34 | the bracket holds the leftmost occurrence, ends on an occurrence, and is at most max(3, r-1) wide for r equal entries |
| PrevPermutation.FindLeftmost | prev_permutation_one_swap/prev_permutation.cpp:28-36 | gallop and bisection together find exactly the leftmost occurrence |
| PrevPermutation.FindDescent | prev_permutation_one_swap/prev_permutation.cpp:13-24 | the start of the last descent, or none exactly when sorted |
| PrevPermutation.DroppedResult | prev_permutation_one_swap/prev_permutation.cpp:32-35 | when the guard of the branch that drops the result fires, and where it then leaves p_max |
| PrevPermutation.PrevPermOpt1Intended | prev_permutation_one_swap/prev_permutation.cpp:12-42 | with the bisection's result used: the greatest of all arrays below the input and one swap away, or the input when there is none |
| PrevPermutation.PrevPermOpt1AsWritten | prev_permutation_one_swap/prev_permutation.cpp:12-42 | as the text reads: a permutation one swap away and strictly smaller, or the input exactly when sorted; the greatest such if and only if the search does not have to bisect, and otherwise exactly the swap with the left end of the bracket |
| PrevPermutation.MissedPartnerUnique | prev_permutation_one_swap/prev_permutation.cpp:33-34 | the left end of the bracket is one place only: the first probe that missed, or the start of the range |
| PrevPermutation.MissingExample | prev_permutation_one_swap/prev_permutation.cpp:33-34 | a concrete array on which the text misses the best swap |
| XorSwap.XorExchange | prev_permutation_one_swap/prev_permutation.cpp:38-40 | the three exclusive ors exchange two different cells, and clear a cell exchanged with itself |
| XorSwap.XorCancels | prev_permutation_one_swap/prev_permutation.cpp:38-40 | a second exclusive or with the same value undoes the first |
| XorSwap.XorFits | prev_permutation_one_swap/prev_permutation.cpp:38-40 | the exclusive or of two values of a width has that width |
| Market.QuoteVenues | smps/calc_new_market_with_random_price_change.cpp:14-33 | every venue gets a bid and an ask within 9 of the midpoint and sizes from 1 to 10, each by its own draw; what the loop returns has the greatest bid and least ask of them, each with the size of the first venue that offers it |
| Market.CalcNewMarket | smps/calc_new_market_with_random_price_change.cpp:3-35 | the whole book after an update: the midpoint moved by -5 to 5 as its draw says, every quote around it by its own draws, and in front the best of them |
| Market.QuotedSafe | smps/calc_new_market_with_random_price_change.cpp:9-18 | from a safe midpoint the distances of bid and ask from the midpoint are 0 to 9, congruent to their own draws, without any wrap |
| Market.UpdateMoves | smps/shared_memory_price_server.cpp:31-42 | from a safe midpoint nothing wraps, the market is not crossed, and the recomputed midpoint moves by between -9 and 10 |
| Market.UpdateMovesSharp | smps/calc_new_market_with_random_price_change.cpp:9-16 | both ends of that range are reached from every safe midpoint |
| Market.MidpointBound | smps/init_snapshot.cpp:43 | after k updates from 1000000, for every choice of draws, the midpoint is within -9k and +10k, and the next update cannot wrap while that bound leaves room |
| Market.MidpointMeans | smps/shared_memory_price_server.cpp:37 | the midpoint read back is half of bid plus ask plus 1 in unsigned arithmetic, rounded down |
| Market.ServeStock | smps/shared_memory_price_server.cpp:27-42 | the server's passes over one stock: each makes, by its own draws, the book and the NBBO around the midpoint of the book before; while the bound leaves room the midpoints keep it and the market is not crossed |

## Left out

- Hardware memory models: stores drain in any order that no fence forbids and loads happen in program order; nothing more is claimed.
- IoGuard.BasicIoguard.Store: the chain of moments says which states the record passes through, in which order; that a store changes nothing else is said by the contracts of the single stores. A record that is not at rest when the write begins is not tied to the protocol.
- IoGuard.BasicIoguard.CopyFrom: the method itself stores straight to memory; stores that wait in a buffer, and readers in between, are the subject of `Seqlock`.
- IoGuard.BasicIoguard.InitReverseOrder: the loop is modelled on a finite list of loads and reports that it is still spinning when they run out; so is `copy_to_rhs_reverse_order`.
- Market.ServeStock: one stock at a time, on plain records; the guards around each record are the subject of `Seqlock`, and the server's own one-attempt read is undisturbed because it is the only writer.
- Market.CalcNewMarket: the run-time source of random numbers is a parameter; fewer than one venue, where the source copies an uninitialised record, is excluded.
- PrevPermutation.PrevPermOpt1Intended: vectors of fewer than two entries, where the source reads before the first, are excluded; pointers are indices.
- PrevPermutation.WalkLeft: the doubling step is an unbounded number, proved to stay below 2^31 in vectors of at most 2^30 entries.
- RegexMatcher.MyRegexMatch.Init: strings whose tables would have 2^32 cells or more are excluded, because exactly then some cell of the table has an index outside the allocated tables; null pointers and `set_null` are not part of this model.
- RegexMatcher.MyRegexMatch.Match: the same strings are excluded.
- CircularQueue11.CircularQueue.PushBack: a writer a whole round of offset values ahead of its reader, where `size()` itself wraps, is excluded; so in `ClobberAll`.
- Tickets.TicketsOverRuns: callers a whole round or more behind are not allowed to store, which is the condition under which the source promises anything.
- Spsc.FifoOverRuns: when `_size` does not divide the number of offset values a run may hold only fewer than that many pushes, counting one that has been begun; `CircularQueue98.Collision` shows why.
- Queue names, in-place construction, destructors, padding, and the wrappers that place a queue in shared or mapped memory.
- `atomic_ioguard`, the older permutation routine, the random number generator with its prime table, and the older price server with two buffers.
- Processor affinity, scheduling, signals, sleeping and printing.
