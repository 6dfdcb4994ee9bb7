# Lock protocols, an allocator, ownership rings, a parser, a regex engine and test scheduling, verified in Dafny

The repository is a collection of notes with vendored C++. This project models the parts of it that carry an argument,
and proves what those parts are for. Each area has its own files, with `Common` for what they share; `dafny verify
dfyconfig.toml` checks all of them.

**Readers, writers and upgraders** (`SharedMutexSections`, `SharedMutexWord`, `SharedMutexProtocol`,
`SharedMutexOutcomes`, `SharedMutexWakeups`). `ting::upgrade_mutex` keeps a writer flag, an upgrade flag and a reader
count in one word. `Enter`, `Recheck` and `GiveUp` say what each critical section does to the three fields; the class
`UpgradeMutex` does it with masks on a 32-bit word and is proved to do the same. The protocol is a state machine: any
number of threads, each asleep at a gate or between two critical sections, every interleaving, spurious wakeups,
deadlines. Who gets in, who sleeps and who is refused is said by who owns what. Writers at gate 2 lose no wakeup. Three
kinds of sleeper can, and for each the project gives the run and the exact condition on runs under which it does not
happen: exclusive lockers at gate 1, when the deadline of a writer at gate 2 clears the flag without notifying; shared
and upgrade lockers at gate 1, for the same reason or because a full count lets only one of them know that a reader
left; and the timed conversions at gate 2, which are never notified at all.

**Level mutexes** (`LevelMutexChain`, `LevelMutex`, `MultiLock`, `MultiUnlock`, `LevelMutexDeadlock`,
`LevelMutexSteps`). A thread holds a linked list of mutexes, newest first; it locks only below its current level, or
several mutexes of one level in the order of their addresses. The classes model the pointers and the operations on one
thread's list; what the base mutex answers is a parameter. The state machine of `LevelMutexDeadlock` has any number of
threads, and `LevelMutexSteps` shows that the operations are its steps. Legal calls can run into the assertion of
`PreUnlock` that the mutex is the newest one: `MultiUnlock` after one member of the container was locked again on its
own, and `Unlock` of a member that is not the newest. The answer `None` stands for a program that stops there; when that
happens is exact for both, and each has a run that gets there from an empty list.

**Small-object allocator** (`StealthList`, `ChunkArena`, `SmallObj`). A chunk keeps the list of its free blocks in the
first bytes of those blocks. Memory is one flat map of bytes in which the client may write anything into its own blocks.
A pointer to a chunk is a slot of `chunks`, `NULL` is -1, and `malloc` is a parameter: 0, or a region apart from those
held. `TrimEmptyChunk` can leave a cached slot behind that no longer exists; the condition is exact, and a run of
allocations and deallocations meets it.

**Reference-linked ownership** (`Rings`, `RefLinked`, `RefLinkedRuns`). The smart pointers to one object form a ring.
`Swap` exchanges two places in all its branches; over every run `Release` answers true for the last owner and nobody
else. `Merge` makes one ring of two only under a condition, which is exact, and three owners merged with two break the
links.

**Kaleidoscope parser** (`ParserGrammar`, `ParserRoundTrip`, `ParserParentheses`, `ParserPrecedence`, `Parser`).
Precedence climbing over tokens, once as functions and once as the class with one token of lookahead. Parsing undoes
printing exactly for the tables in which neither parenthesis nor `,` is an operator, and the main loop accepts printed
programs exactly if `;` is none either. No pair of parentheses that the printer writes can be dropped. Without the
printer: the last of the weakest operators of a row is the root of its tree. After a rejected construct the loop goes on
behind one token.

**Simple regular expressions** (`RegexSyntax`, `RegexAtoms`, `RegexMatcher`, `RegexFullMatch`). The engine that Google
Test falls back on, against a denotation by words, and the atoms against listed sets of characters. `FullMatch` means
the whole string exactly for the patterns that do not end in an escaped dollar.

**Test scheduling** (`TestSharding`, `TestOrder`, `Expectations`). Sharding, shuffling with death tests first, and the
retirement of what must come before a call, with the exact condition under which one more prerequisite lets it end. What
name filters and random generators answer are parameters. Registering a death test case on a shuffled list breaks the
order except under an exact condition.

## Model

| member | source | states |
|---|---|---|
| `SharedMutexWord.ToNatInjective` | extern/ref/ting/shared_mutex:417-419 | counting a word down to zero identifies it, so counts may stand for words |
| `UpgradeMutexWord.StoreCount` | extern/ref/ting/shared_mutex.cpp:157-159 | storing a count through its mask changes neither flag, for every word and every count that fits |
| `UpgradeMutexWord.DecodeInjective` | extern/ref/ting/shared_mutex.cpp:134-136 | two words with the same flags and the same count are the same word, so whole-word comparisons test the three fields |
| `UpgradeMutexWord.PlusOneReader` | extern/ref/ting/shared_mutex.cpp:156-158 | adds one reader and leaves the flags, unless the count is full |
| `UpgradeMutexWord.MinusOneReader` | extern/ref/ting/shared_mutex.cpp:181-183 | takes one reader away and leaves the flags |
| `UpgradeMutexWord.UpgradeMutex.EnterExclusive` | extern/ref/ting/shared_mutex.cpp:118-127 | the masks of `lock` (and of its timed form) do to the word what the section does to the three fields |
| `UpgradeMutexWord.UpgradeMutex.EnterTryLock` | extern/ref/ting/shared_mutex.cpp:129-139 | the same for `try_lock`; `ExclusiveTriesSucceedExactly` says when that section succeeds |
| `UpgradeMutexWord.UpgradeMutex.EnterUnlock` | extern/ref/ting/shared_mutex.cpp:141-147 | the same for `unlock`, which wakes all of gate 1 |
| `UpgradeMutexWord.UpgradeMutex.EnterShared` | extern/ref/ting/shared_mutex.cpp:151-175 | the same for the shared locks |
| `UpgradeMutexWord.UpgradeMutex.EnterUnlockShared` | extern/ref/ting/shared_mutex.cpp:177-194 | the same for `unlock_shared`, with the gate it notifies, or none |
| `UpgradeMutexWord.UpgradeMutex.EnterUpgrade` | extern/ref/ting/shared_mutex.cpp:198-224 | the same for the upgrade locks |
| `UpgradeMutexWord.UpgradeMutex.EnterUnlockUpgrade` | extern/ref/ting/shared_mutex.cpp:226-236 | the same for `unlock_upgrade`, whose wakeup comes after the release of the inner mutex |
| `UpgradeMutexWord.UpgradeMutex.EnterSharedToExclusive` | extern/ref/ting/shared_mutex.cpp:240-250 | the same for the conversion of a sole reader into the writer |
| `UpgradeMutexWord.UpgradeMutex.EnterExclusiveToShared` | extern/ref/ting/shared_mutex.cpp:252-260 | the same for the conversion of the writer into a reader |
| `UpgradeMutexWord.UpgradeMutex.EnterSharedToUpgrade` | extern/ref/ting/shared_mutex.cpp:264-274 | the same for the conversion of a reader into the upgrader |
| `UpgradeMutexWord.UpgradeMutex.EnterUpgradeToShared` | extern/ref/ting/shared_mutex.cpp:276-284 | the same for the conversion of the upgrader into a reader |
| `UpgradeMutexWord.UpgradeMutex.EnterUpgradeToExclusive` | extern/ref/ting/shared_mutex.cpp:288-297 | the same for the upgrade that waits for the other readers |
| `UpgradeMutexWord.UpgradeMutex.EnterTryUpgradeToExclusive` | extern/ref/ting/shared_mutex.cpp:299-309 | the same for the upgrade that does not wait |
| `UpgradeMutexWord.UpgradeMutex.EnterTimedUpgradeToExclusive` | extern/ref/ting/shared_mutex:659-677 | the same for the upgrade that waits until a deadline and keeps its share |
| `UpgradeMutexWord.UpgradeMutex.EnterExclusiveToUpgrade` | extern/ref/ting/shared_mutex.cpp:311-319 | the same for the conversion of the writer into the upgrader |
| `UpgradeMutexWord.UpgradeMutex.GiveUpAtGate2` | extern/ref/ting/shared_mutex:554-562 | a timed writer that gives up clears the flag and nothing else |
| `SharedMutexProtocol.StepKeepsSafe` | extern/ref/ting/shared_mutex.cpp:118-319 | every step of every thread keeps the accounting of owners by the word |
| `SharedMutexProtocol.StepsAreEnabled` | extern/ref/ting/shared_mutex.cpp:118-319 | from every accounted state, each operation that a thread's role allows, each re-test by a sleeper and each owed notification is a step, so the invariants are not bought by blocking threads |
| `SharedMutexProtocol.MutualExclusion` | extern/ref/ting/shared_mutex.cpp:118-319 | in every state of every run the reader field is the number of shared owners plus the upgrade owner, each flag is set exactly when one thread has that role, and an exclusive owner has no company |
| `SharedMutexProtocol.NoLostWakeupForWriters` | extern/ref/ting/shared_mutex.cpp:177-194 | on every run, deadlines included, a writer asleep un-notified at gate 2 sees a nonzero reader count |
| `SharedMutexProtocol.NoLostWakeup` | extern/ref/ting/shared_mutex.cpp:226-319 | on runs without a deadline of a waiting writer, an exclusive locker asleep un-notified at gate 1 implies a set flag or an owed notification, and a writer asleep at gate 2 a nonzero reader count |
| `SharedMutexProtocol.WriterExpiryAtGate1` | extern/ref/ting/shared_mutex:554-562 | a writer's deadline at gate 2 keeps that if and only if no exclusive locker sleeps there or another thread owes a notification |
| `SharedMutexProtocol.NoLostWakeupExactly` | extern/ref/ting/shared_mutex:534-566 | a run loses no wakeup at gate 1 if and only if every such deadline on it is of that kind |
| `SharedMutexProtocol.ExpiryStrandsALocker` | extern/ref/ting/shared_mutex:554-562 | the run of five moves after which the word is zero, nobody owes anything, and an exclusive locker sleeps on |
| `SharedMutexProtocol.FullCountStrandsAReader` | extern/ref/ting/shared_mutex.cpp:188-193 | from any state with a full count and two sleepers behind it, two departures wake one of them |
| `SharedMutexWakeups.FullCountStrandsOnRun` | extern/ref/ting/shared_mutex.cpp:177-194 | the run from the start, for every size of the count, that ends in such a state: a shared locker sleeps on with no flag set, places free and nobody owing anything |
| `SharedMutexWakeups.SleepersLiveExactly` | extern/ref/ting/shared_mutex.cpp:151-236 | on every run, no sleeper of gate 1, whatever it wants, is left un-notified though its test would succeed and nobody owes a notification, if and only if no step of the run strands one |
| `SharedMutexWakeups.StepStrands` | extern/ref/ting/shared_mutex.cpp:151-236 | which steps those are, exactly: a reader leaves a full count, or a writer gives up, while nobody owes a notification and a sleeper that may now enter is passed over |
| `SharedMutexWakeups.StaysOutMeans` | extern/ref/ting/shared_mutex.cpp:151-224 | what keeps a sleeper of gate 1 out is exactly what sends it back to sleep when it wakes |
| `SharedMutexWakeups.DepartureCanStrand` | extern/ref/ting/shared_mutex.cpp:183-193 | before a reader leaves a full count: a sleeper can be stranded exactly if two sleep at gate 1 and one of them may enter afterwards |
| `SharedMutexWakeups.ConvertersNeverNotified` | extern/ref/ting/shared_mutex:618-677 | in every state of every run the timed conversions asleep at gate 2 have not been notified: they wake by deadline or spuriously |
| `SharedMutexWakeups.StepLetsIn` | extern/ref/ting/shared_mutex.cpp:177-194 | which steps make the test of such a sleeper succeed behind its back, exactly |
| `SharedMutexWakeups.NobodySleepsForNothingExactly` | extern/ref/ting/shared_mutex:618-677 | a run never has a sleeper at gate 2 whose test would succeed if and only if none of its steps is one of those |
| `SharedMutexWakeups.UpgraderSleepsForNothing` | extern/ref/ting/shared_mutex.cpp:183-193 | the run of four moves after which nobody owes anything and an upgrader sleeps on as the only reader |
| `SharedMutexProtocol.StepUnderWriter` | extern/ref/ting/shared_mutex.cpp:151-224 | while the writer flag is set, no other thread clears it or raises the reader count, and each departure lowers it |
| `SharedMutexProtocol.WriterProgress` | extern/ref/ting/shared_mutex.cpp:118-127 | over any stretch of any run in which a writer waits at gate 2 the reader count does not rise |
| `SharedMutexProtocol.WriterGetsIn` | extern/ref/ting/shared_mutex.cpp:288-297 | once it is zero, that writer has been notified and its next turn makes it the exclusive owner |
| `SharedMutexProtocol.PlainRunsHaveOneFlag` | extern/ref/ting/shared_mutex.cpp:24-100 | under the operations of `shared_mutex` the upgrade flag stays clear, so its one-flag tests agree with these |
| `SharedMutexOutcomes.CallComesTo` | extern/ref/ting/shared_mutex.cpp:118-319 | in every state of every run each operation brings its caller where the owners allow: in, to sleep at one of the gates, or back with what it had |
| `SharedMutexOutcomes.WakingComesTo` | extern/ref/ting/shared_mutex.cpp:118-127 | a sleeper that wakes comes to the same; a writer at gate 2 only waits for the shares to go |
| `SharedMutexOutcomes.GivingUpComesTo` | extern/ref/ting/shared_mutex:534-677 | only timed operations give up, with what their callers had before, and only where they would sleep on |
| `SharedMutexOutcomes.OthersKeepRoles` | extern/ref/ting/shared_mutex.cpp:118-319 | no step changes what another thread has |
| `SharedMutexOutcomes.ExclusiveTriesSucceedExactly` | extern/ref/ting/shared_mutex.cpp:129-139 | `try_lock` succeeds exactly if no thread has anything, the conversions to exclusive ownership that do not wait exactly for a sole owner; a refused caller has what it had |
| `SharedMutexOutcomes.SharedTriesSucceedExactly` | extern/ref/ting/shared_mutex.cpp:162-175 | `try_lock_shared` succeeds exactly without a writer and below the full count |
| `SharedMutexOutcomes.UpgradeTriesSucceedExactly` | extern/ref/ting/shared_mutex.cpp:209-274 | `try_lock_upgrade` succeeds exactly without writer and upgrader and below the full count, the conversion of a reader exactly without writer and upgrader |
| `LevelMutexChain.IsValidList` | extern/loki-0.1.7/src/LevelMutex.cpp:275-312 | terminates on every finite pointer structure, and is true exactly if the chain ends and levels never fall toward older locks |
| `LevelMutexChain.MeetingNeverEnds` | extern/loki-0.1.7/src/LevelMutex.cpp:282-299 | a chain that meets itself has no end |
| `LevelMutexChain.EndsOrMeets` | extern/loki-0.1.7/src/LevelMutex.cpp:282-299 | a chain in a finite structure that does not end meets itself |
| `LevelMutexChain.SlowBound` | extern/loki-0.1.7/src/LevelMutex.cpp:282-299 | a place that the slow pointer cannot pass: the end, or one where the fast pointer has come round to it |
| `LevelMutexDeadlock.RunIsSafe` | extern/loki-0.1.7/src/LevelMutex.cpp:316-392 | in every reachable state every list and every plan is strictly ordered by level and address, and no mutex is held twice |
| `LevelMutexDeadlock.WaitsClimb` | extern/loki-0.1.7/src/LevelMutex.cpp:374-391 | who blocks another thread waits for something strictly above what that thread waits for |
| `LevelMutexDeadlock.NoWaitCycle` | extern/loki-0.1.7/src/LevelMutex.cpp:316-392 | no reachable state has a cycle of threads each waiting for a mutex of the next |
| `LevelMutexDeadlock.NotAllBlocked` | extern/loki-0.1.7/src/LevelMutex.cpp:685-716 | if all threads are in lock calls, one of them can acquire its next mutex |
| `LevelMutexDeadlock.EveryWaitLeadsOut` | extern/loki-0.1.7/src/LevelMutex.cpp:685-716 | from any blocked thread, holder after holder leads to one that is not blocked or can go on at once |
| `LevelMutexSteps.AskOne` | extern/loki-0.1.7/src/LevelMutex.cpp:685-716 | the check of one mutex finds no problem exactly if the machine lets the thread ask for it |
| `LevelMutexSteps.AskAll` | extern/loki-0.1.7/src/LevelMutex.cpp:366-379 | a sorted container is below the current level exactly if the machine lets the thread ask for it |
| `LevelMutexSteps.NextMayBePushed` | extern/loki-0.1.7/src/LevelMutex.cpp:653-665 | the invariant of the machine gives the order that `PostLock` needs |
| `LevelMutexSteps.AcquireNext` | extern/loki-0.1.7/src/LevelMutex.cpp:379-391 | locking the next mutex, if it is granted, is a step of the machine |
| `LevelMutexSteps.UndoAll` | extern/loki-0.1.7/src/LevelMutex.cpp:227-247 | so is undoing a call |
| `LevelMutexSteps.ReleaseNewest` | extern/loki-0.1.7/src/LevelMutex.cpp:669-681 | so is the last unlock of the newest mutex |
| `LevelMutex.ThreadLocks.CountMutexesAtCurrentLevel` | extern/loki-0.1.7/src/LevelMutex.cpp:165-180 | counts exactly the mutexes at the current level, which are the newest |
| `LevelMutex.ThreadLocks.IsLockedByCurrentThread` | extern/loki-0.1.7/src/LevelMutex.cpp:575-590 | true exactly for the mutexes of the list |
| `LevelMutex.ThreadLocks.IsRecentLock` | extern/loki-0.1.7/src/LevelMutex.cpp:616-633 | true exactly for the newest so many |
| `LevelMutex.ThreadLocks.PostLock` | extern/loki-0.1.7/src/LevelMutex.cpp:653-665 | puts the mutex on the list, which stays linked and ordered |
| `LevelMutex.ThreadLocks.CheckList` | extern/loki-0.1.7/src/LevelMutex.cpp:275-312 | the check passes on every list that the operations leave |
| `LevelMutex.ThreadLocks.PreUnlock` | extern/loki-0.1.7/src/LevelMutex.cpp:669-681 | takes the newest mutex, locked once, off the list |
| `LevelMutex.ThreadLocks.PreLockCheck` | extern/loki-0.1.7/src/LevelMutex.cpp:685-716 | which answer in which state; no problem only below the current level, success only for a mutex of the group, counted once more |
| `LevelMutex.ThreadLocks.PreUnlockCheck` | extern/loki-0.1.7/src/LevelMutex.cpp:720-742 | which answer in which state, exactly |
| `LevelMutex.ThreadLocks.Lock` | extern/loki-0.1.7/include/loki/LevelMutex.h:805-823 | succeeds exactly for a group member or a granted mutex below the current level, says of any other that its level is too high, and passes on what the base mutex answers; a failure changes nothing |
| `LevelMutex.ThreadLocks.TryLock` | extern/loki-0.1.7/include/loki/LevelMutex.h:783-803 | the same, for a mutex that nobody has locked |
| `LevelMutex.ThreadLocks.Unlock` | extern/loki-0.1.7/include/loki/LevelMutex.h:861-887 | takes off one lock, and the mutex off the list with its last; a base mutex that does not unlock is put back; stops at the assertion exactly for a group member locked once that is not the newest |
| `LevelMutex.ThreadLocks.IsUniqueMutex` | extern/loki-0.1.7/src/LevelMutex.cpp:59-73 | true exactly if no later element is the same |
| `LevelMutex.ThreadLocks.DoMutexesMatchContainer` | extern/loki-0.1.7/src/LevelMutex.cpp:184-214 | success exactly if the container lists, without nulls or repeats, precisely the mutexes held at the current level; any other code says what is wrong with it |
| `LevelMutex.ThreadLocks.SizeMatches` | extern/loki-0.1.7/src/LevelMutex.cpp:209-213 | the pigeonhole behind it: as many different recent locks as the group has are the group |
| `MultiLocking.Sorted` | extern/loki-0.1.7/src/LevelMutex.cpp:376-377 | the same mutexes in strictly rising order of their addresses |
| `MultiLocking.UnlockThis` | extern/loki-0.1.7/include/loki/LevelMutex.h:954-970 | one lock less; the last one takes the mutex off the list; stops at the assertion exactly if it was locked once and is not the newest |
| `MultiLocking.Undo` | extern/loki-0.1.7/src/LevelMutex.cpp:227-247 | unlocks what one call had locked, and leaves the rest of the list |
| `MultiLocking.LockInOrder` | extern/loki-0.1.7/src/LevelMutex.cpp:379-391 | all the mutexes are locked, in the order of their addresses, or none |
| `MultiLocking.MultiLock` | extern/loki-0.1.7/src/LevelMutex.cpp:316-392 | succeeds exactly if the container can be locked anew and all is granted, or matches the group; pushes exactly its mutexes or counts each once more; a failure restores list, counts and links, and its code says why |
| `MultiUnlocking.UnlockMatching` | extern/loki-0.1.7/src/LevelMutex.cpp:500-518 | unlocking a matching container gets through exactly if no member was locked again without the older ones, and then takes one lock off each; otherwise it stops at a member that was locked once and is not the newest |
| `MultiUnlocking.RelockedMemberStopsMultiUnlock` | extern/loki-0.1.7/src/LevelMutex.cpp:669-681 | such a run: two mutexes locked together, the newer locked once more, the container unlocked |
| `MultiUnlocking.OlderMemberStopsUnlock` | extern/loki-0.1.7/src/LevelMutex.cpp:669-681 | two mutexes locked together, the older unlocked on its own: that stops too |
| `MultiUnlocking.MultiUnlock` | extern/loki-0.1.7/src/LevelMutex.cpp:479-522 | a matching container with nested counts loses one lock each, those with one leave the list, and the answer tells whether all their base mutexes unlocked; one without nested counts stops the program; any other container is refused and nothing changes |
| `MultiUnlocking.Play` | extern/loki-0.1.7/src/LevelMutex.cpp:316-522 | any properly nested run of `MultiLock` and `MultiUnlock`, on any containers and whatever is granted, leaves list, counts and links as they were |
| `StealthList.FreeListFrame` | extern/loki-0.1.7/src/SmallObj.cpp:358-369 | the free list depends on nothing but the first bytes of the blocks it names |
| `StealthList.LiveCount` | extern/loki-0.1.7/src/SmallObj.cpp:64-69 | the free list complements the live blocks: the counts add up to the chunk |
| `StealthList.TakeKeepsChunk` | extern/loki-0.1.7/src/SmallObj.cpp:358-369 | taking the first free block keeps the list well formed and makes exactly that block live |
| `StealthList.ReturnKeepsChunk` | extern/loki-0.1.7/src/SmallObj.cpp:373-397 | writing the list head into a returned block keeps the list well formed and frees exactly that block |
| `StealthList.ChunkFrame` | extern/loki-0.1.7/src/SmallObj.cpp:437-439 | whatever is written into live blocks or outside the chunk, the chunk stays what it was |
| `ChunkArena.LiveBlocksDisjoint` | extern/loki-0.1.7/src/SmallObj.cpp:831-884 | different live blocks of an allocator do not overlap |
| `ChunkArena.ClientWrites` | extern/loki-0.1.7/src/SmallObj.cpp:437-439 | writes into live blocks damage no chunk, for all chunks at once |
| `ChunkArena.DropKeepsArena` | extern/loki-0.1.7/src/SmallObj.cpp:992-999 | taking out a wholly free chunk, whose slot the last one fills, takes no live block away |
| `SmallObj.Reset` | extern/loki-0.1.7/src/SmallObj.cpp:327-342 | builds the list of all blocks in order and writes nowhere outside the region |
| `SmallObj.TakeBlock` | extern/loki-0.1.7/src/SmallObj.cpp:358-369 | on a well-formed chunk: a block that was not live becomes live and no other, and the chunk stays well formed; 0 exactly if all its blocks are live |
| `SmallObj.ReturnBlock` | extern/loki-0.1.7/src/SmallObj.cpp:373-397 | the index that the address stands for becomes the head of the list, through the narrowing to a byte |
| `SmallObj.IsCorrupt` | extern/loki-0.1.7/src/SmallObj.cpp:401-498 | with index checks, false exactly for well-formed chunks; without, it blames no well-formed chunk |
| `SmallObj.IsBlockAvailable` | extern/loki-0.1.7/src/SmallObj.cpp:502-542 | true exactly for the blocks that are not live |
| `SmallObj.FixedAllocator.constructor` | extern/loki-0.1.7/src/SmallObj.cpp:570-582 | as many blocks a chunk as fit a page, clamped between 8 and 255, no chunk yet, all class invariants |
| `SmallObj.FixedAllocator.ClientStores` | extern/loki-0.1.7/src/SmallObj.cpp:437-439 | whatever the client writes between calls, the invariants and the live blocks stay |
| `SmallObj.FixedAllocator.MakeNewChunk` | extern/loki-0.1.7/src/SmallObj.cpp:799-827 | one more chunk with no live block in the new region, or no change |
| `SmallObj.FixedAllocator.ChooseChunk` | extern/loki-0.1.7/src/SmallObj.cpp:837-869 | which chunk an allocation takes its block from: the cached one, the empty one, the first that is not filled, or a new one |
| `SmallObj.FixedAllocator.Allocate` | extern/loki-0.1.7/src/SmallObj.cpp:831-884 | exactly one block that was not live becomes live; 0 exactly if all chunks are filled and `malloc` fails; the client's bytes stay; cached slots stay in range and `emptyChunk` names the wholly free chunk exactly when there is one |
| `SmallObj.FixedAllocator.VicinityFind` | extern/loki-0.1.7/src/SmallObj.cpp:923-962 | finds the owner from any starting slot if there is one |
| `SmallObj.FixedAllocator.DoDeallocate` | extern/loki-0.1.7/src/SmallObj.cpp:966-1008 | exactly that block stops being live; never two wholly free chunks afterwards; a released region holds no live block |
| `SmallObj.FixedAllocator.Deallocate` | extern/loki-0.1.7/src/SmallObj.cpp:888-919 | the same for any live block, with a hint or without; a foreign address is refused and nothing changes; the client's other bytes stay |
| `SmallObj.FixedAllocator.TrimEmptyChunk` | extern/loki-0.1.7/src/SmallObj.cpp:736-777 | no block changes hands; the invariants survive exactly if neither cached slot is the removed last one without being the one repaired |
| `SmallObj.TrimStrandsAllocChunk` | extern/loki-0.1.7/src/SmallObj.cpp:736-777 | nine allocations and eight deallocations from a new allocator, after which trimming leaves `allocChunk` naming a chunk that is gone |
| `Rings.ExchangeKeepsRing` | extern/loki-0.1.7/src/SmartPtr.cpp:103-169 | conjugating both link maps by a transposition exchanges two members of a ring |
| `Rings.SwapApart` | extern/loki-0.1.7/src/SmartPtr.cpp:150-156 | the four swaps of the last branch are that conjugation, in one ring or two |
| `Rings.SwapNeighbours` | extern/loki-0.1.7/src/SmartPtr.cpp:132-149 | so are those of the neighbour branches |
| `Rings.SwapAlone` | extern/loki-0.1.7/src/SmartPtr.cpp:112-131 | so is taking the place of another node |
| `Rings.SpliceCouples` | extern/loki-0.1.7/src/SmartPtr.cpp:299-302 | the last branch of `Merge` couples the links again exactly if the first ring has two members |
| `Rings.SpliceMerges` | extern/loki-0.1.7/src/SmartPtr.cpp:296-302 | and then the members of the second ring stand between those two, in one ring; no other node is touched |
| `Rings.AdoptMerges` | extern/loki-0.1.7/src/SmartPtr.cpp:278-295 | the branches for a node that is alone always give one ring of the members of both |
| `RefLinked.RefLinkedBase.Copy` | extern/loki-0.1.7/src/SmartPtr.cpp:40-52 | the copy stands behind its original, and the links stay inverse to each other |
| `RefLinked.RefLinkedBase.Release` | extern/loki-0.1.7/src/SmartPtr.cpp:56-99 | true exactly for a node that is alone; otherwise its neighbours are linked to each other |
| `RefLinked.RefLinkedBase.Swap` | extern/loki-0.1.7/src/SmartPtr.cpp:103-169 | in all branches, self-swap included, the new links are the old ones conjugated by the transposition, and stay inverse to each other |
| `RefLinked.RefLinkedBase.CountNextCycle` | extern/loki-0.1.7/src/SmartPtr.cpp:195-213 | counts the members of the ring; 0 for a null pointer or a released node |
| `RefLinked.RefLinkedBase.HasPrevNode` | extern/loki-0.1.7/src/SmartPtr.cpp:217-231 | true exactly for the node itself and the members of its ring; a released node has none |
| `RefLinked.RefLinkedBase.Merge` | extern/loki-0.1.7/src/SmartPtr.cpp:253-307 | false exactly for a released node; nothing changes if the argument is released or in the ring already; else the links stay coupled exactly if one node was alone or this ring had two members, and then form one ring of the members of both |
| `RefLinked.MergeOfThreeAndTwo` | extern/loki-0.1.7/src/SmartPtr.cpp:296-302 | three owners merged with two: the links are not inverse to each other afterwards |
| `RefLinkedRuns.LastIffAlone` | extern/loki-0.1.7/src/SmartPtr.cpp:56-99 | a node is its own successor exactly if no other pointer shares its object |
| `RefLinkedRuns.RunKeepsRings` | extern/loki-0.1.7/src/SmartPtr.cpp:40-169 | over every run each object has one ring, of exactly the pointers that share it |
| `RefLinkedRuns.ReleaseDestroysWithLastReference` | extern/loki-0.1.7/src/SmartPtr.cpp:56-99 | in every run `Release` answers true exactly for the last owner |
| `RefLinkedRuns.DestroyedOnce` | extern/loki-0.1.7/src/SmartPtr.cpp:40-99 | an object that is shared has not been destroyed, and one that nobody shares any more exactly once |
| `ParserRoundTrip.ParsePrinted` | mem-cpu-deep/My/main.cpp:234-358 | parsing a printed tree gives the tree and leaves the rest, for every tree, every sound table and every rest that starts with neither an operator nor `(` |
| `ParserRoundTrip.ParseSpine` | mem-cpu-deep/My/main.cpp:321-346 | the operator loop rebuilds a left spine at every precedence that the expression would pass |
| `ParserRoundTrip.RoundTripExactlyForSoundTables` | mem-cpu-deep/My/main.cpp:310-346 | the round trip works for all trees of a table exactly if `(`, `)` and `,` are no operators of it |
| `ParserRoundTrip.ClosingParenAsOperator` | mem-cpu-deep/My/main.cpp:262-277 | a call that does not come back when `)` is an operator |
| `ParserRoundTrip.CommaAsOperator` | mem-cpu-deep/My/main.cpp:262-277 | a call that comes back with one argument for two when `,` is |
| `ParserRoundTrip.OpenParenAsOperator` | mem-cpu-deep/My/main.cpp:251-282 | a tree that does not come back when `(` is an operator: its left operand becomes the name of a call |
| `ParserParentheses.DroppedIsAnother` | mem-cpu-deep/My/main.cpp:310-346 | without any one pair of parentheses around an operand, at any depth, the printed text is that of another tree |
| `ParserParentheses.NoParensToSpare` | mem-cpu-deep/My/main.cpp:310-346 | so the parser returns another tree for it: the printer writes the fewest parentheses |
| `ParserPrecedence.LastWeakestIsRoot` | mem-cpu-deep/My/main.cpp:310-346 | of a row of operands and operators the last of the weakest operators, by the values of the table, is the root; its operands are what the parts before and behind it are parsed to |
| `ParserPrecedence.TwoOperators` | mem-cpu-deep/My/main.cpp:321-346 | of two operators the first is applied first exactly if the second is no stronger |
| `ParserPrecedence.ParenthesesGroup` | mem-cpu-deep/My/main.cpp:234-247 | any expression in parentheses is one operand |
| `ParserPrecedence.InTheOwnTable` | mem-cpu-deep/My/main.cpp:481-487 | four expressions in the table of the program |
| `ParserPrecedence.OwnDefinition` | mem-cpu-deep/My/main.cpp:387-399 | a definition of two parameters |
| `ParserRoundTrip.PrintInjective` | mem-cpu-deep/My/main.cpp:351-358 | different trees print differently |
| `ParserRoundTrip.ReparsedIsSame` | mem-cpu-deep/My/main.cpp:351-358 | whatever was parsed, printing and parsing it again gives the same tree |
| `ParserRoundTrip.MainLoopOnPrintedProgram` | mem-cpu-deep/My/main.cpp:457-477 | a printed program is accepted item by item, in order, for the tables of the next row |
| `ParserRoundTrip.ProgramsAcceptedExactly` | mem-cpu-deep/My/main.cpp:457-477 | all printed programs of a table are accepted so if and only if neither parenthesis, nor `,`, nor `;` is one of its operators |
| `ParserRoundTrip.SemicolonAsOperator` | mem-cpu-deep/My/main.cpp:457-477 | with `;` an operator, not even one number is accepted |
| `ParserRoundTrip.BadTokensAreSkipped` | mem-cpu-deep/My/main.cpp:445-477 | tokens that begin nothing are rejected one by one, and the loop goes on behind them |
| `ParserRoundTrip.BadNameIsSkipped` | mem-cpu-deep/My/main.cpp:422-443 | after `def` or `extern`, what is no name is the one token that is skipped |
| `ParserRoundTrip.BadOperandIsSkipped` | mem-cpu-deep/My/main.cpp:445-455 | inside an expression, what was read before the bad token is given up with it |
| `ParserRoundTrip.RecoversAfterBadTokens` | mem-cpu-deep/My/main.cpp:457-477 | however many bad tokens stand before a program, all its items are accepted |
| `ParserMachine.Parser.ParseExpression` | mem-cpu-deep/My/main.cpp:351-358 | the method on the token stream returns the tree of the grammar function, or null where it fails, and consumes the same tokens; which tree that is, `LastWeakestIsRoot` says |
| `ParserMachine.Parser.ParsePrimary` | mem-cpu-deep/My/main.cpp:289-303 | the same for primaries |
| `ParserMachine.Parser.ParseIdentifierExpr` | mem-cpu-deep/My/main.cpp:251-282 | the same for variables and calls, whose arguments a loop collects |
| `ParserMachine.Parser.ParseBinOpRHS` | mem-cpu-deep/My/main.cpp:321-346 | the same for the operator loop |
| `ParserMachine.Parser.ParsePrototype` | mem-cpu-deep/My/main.cpp:364-385 | the same for prototypes |
| `ParserMachine.Parser.HandleItem` | mem-cpu-deep/My/main.cpp:422-455 | a handler consumes at least one token and reports what the main loop's function reports first |
| `ParserMachine.Parser.MainLoop` | mem-cpu-deep/My/main.cpp:457-477 | terminates with the input consumed and reports what its function does |
| `RegexSyntax.TextsAreExactlyTheReadable` | extern/gmock-1.6.0/gtest/src/gtest-port.cc:232-285 | the texts that can be read are exactly those of syntax trees, and reading is the inverse of writing |
| `RegexAtoms.AtomMatchesItsChars` | extern/gmock-1.6.0/gtest/src/gtest-port.cc:200-222 | every atom matches exactly its characters, which are listed: all but the newline, one character, a class or what a class leaves |
| `RegexAtoms.PunctuationIsTheRest` | extern/gmock-1.6.0/gtest/src/gtest-port.cc:183-190 | the punctuation marks are the printable ASCII characters that are neither space, letter nor digit |
| `RegexAtoms.OneCharacterPatterns` | extern/gmock-1.6.0/gtest/src/gtest-port.cc:232-285 | which characters are patterns on their own |
| `RegexAtoms.EscapedPatterns` | extern/gmock-1.6.0/gtest/src/gtest-port.cc:193-196 | which characters may be escaped: the punctuation marks and eleven letters |
| `RegexAtoms.WordsOfPiece` | extern/gmock-1.6.0/gtest/src/gtest-port.cc:295-316 | the words of a piece on those characters, for each repetition |
| `RegexAtoms.OneAtomOccurs` | extern/gmock-1.6.0/gtest/src/gtest-port.cc:322-348 | a pattern of one atom occurs exactly where one of its characters does |
| `RegexAtoms.ReadingOfRepeats` | extern/gmock-1.6.0/gtest/src/gtest-port.cc:232-285 | what `^`, `?`, `*`, `+` and `$` are read as |
| `RegexAtoms.ReadingOfEscapes` | extern/gmock-1.6.0/gtest/src/gtest-port.cc:232-285 | and escaped and plain atoms |
| `RegexMatcher.ValidateRegex` | extern/gmock-1.6.0/gtest/src/gtest-port.cc:232-285 | accepts exactly the texts of regular expressions |
| `RegexMatcher.MatchRegexAtHead` | extern/gmock-1.6.0/gtest/src/gtest-port.cc:322-348 | true exactly if a prefix of the string, all of it before `$`, is a word of the rest of the pattern |
| `RegexMatcher.MatchRepetitionAndRegexAtHead` | extern/gmock-1.6.0/gtest/src/gtest-port.cc:295-316 | true exactly if the repetition can take some characters and the rest of the pattern matches behind them |
| `RegexMatcher.MatchRegexAnywhere` | extern/gmock-1.6.0/gtest/src/gtest-port.cc:358-371 | true exactly if some substring, anchored where the pattern says so, is a word of the pattern |
| `RegexFullMatch.FullPatternTree` | extern/gmock-1.6.0/gtest/src/gtest-port.cc:404-423 | the second pattern is valid, and which tree it stands for |
| `RegexFullMatch.FullMatchIsWholeStringExactlyUnless` | extern/gmock-1.6.0/gtest/src/gtest-port.cc:404-423 | the second pattern means the whole string, for all strings, exactly if the pattern does not end in an escaped dollar |
| `RegexFullMatch.RE.Init` | extern/gmock-1.6.0/gtest/src/gtest-port.cc:392-423 | stores the pattern, its validity and the second pattern, through the buffer of three more characters |
| `RegexFullMatch.RE.FullMatch` | extern/gmock-1.6.0/gtest/src/gtest-port.cc:381-383 | an occurrence of the second pattern |
| `RegexFullMatch.RE.PartialMatch` | extern/gmock-1.6.0/gtest/src/gtest-port.cc:387-389 | an occurrence of the pattern |
| `TestSharding.ExactlyOneShard` | extern/gmock-1.6.0/fused-src/gmock-gtest-all.cc:5666-5672 | every runnable test is on exactly one shard, any other on none |
| `TestSharding.DealtInTurn` | extern/gmock-1.6.0/fused-src/gmock-gtest-all.cc:5670-5672 | a runnable test is on the shard whose index is the number of runnable tests before it, modulo the number of shards |
| `TestSharding.ShardSize` | extern/gmock-1.6.0/fused-src/gmock-gtest-all.cc:5715-5725 | the size of each shard in terms of the number of runnable tests |
| `TestSharding.ShardsAreEven` | extern/gmock-1.6.0/fused-src/gmock-gtest-all.cc:5715-5725 | the sizes of two shards differ by at most one |
| `TestSharding.ShardsAddUp` | extern/gmock-1.6.0/fused-src/gmock-gtest-all.cc:5715-5725 | over all shards every runnable test is run once |
| `TestSharding.FilterTests` | extern/gmock-1.6.0/fused-src/gmock-gtest-all.cc:5681-5732 | a marked test matches the filter and is enabled unless disabled tests are wanted too; without sharding every such test is marked; the cases that have a marked test are marked, and the answer is the number of marked tests |
| `TestSharding.RunEveryShard` | extern/gmock-1.6.0/fused-src/gmock-gtest-all.cc:5681-5732 | run once for each shard, it marks every test that matches the filter and is enabled, or wanted though disabled, exactly once and no other, and the sizes differ by at most one |
| `TestOrder.ShuffleRange` | extern/gmock-1.6.0/fused-src/gmock-gtest-all.cc:700-717 | the exchanges of Fisher and Yates with the answers of the generator: rearranges the range and leaves everything outside it |
| `TestOrder.EveryOrderResults` | extern/gmock-1.6.0/fused-src/gmock-gtest-all.cc:700-717 | every rearrangement of the range is the result for some answers of the generator |
| `TestOrder.AnswersDecideOrder` | extern/gmock-1.6.0/fused-src/gmock-gtest-all.cc:700-717 | different answers give different orders |
| `TestOrder.TestCase.AddTestInfo` | extern/gmock-1.6.0/fused-src/gmock-gtest-all.cc:3728-3731 | the test is added behind the others, and an unshuffled case stays one |
| `TestOrder.TestCase.UnshuffleTests` | extern/gmock-1.6.0/fused-src/gmock-gtest-all.cc:3772-3776 | restores the order of registration |
| `TestOrder.UnitTestImpl.DeathTestsFirst` | extern/gmock-1.6.0/fused-src/gmock-gtest-all.cc:5786-5800 | in every valid state each test case is run exactly once, and all death test cases first |
| `TestOrder.UnitTestImpl.ShuffleTests` | extern/gmock-1.6.0/fused-src/gmock-gtest-all.cc:5788-5800 | shuffles the death test cases, the others, and the tests of each case, each with its own answers, and keeps that state |
| `TestOrder.UnitTestImpl.UnshuffleTests` | extern/gmock-1.6.0/fused-src/gmock-gtest-all.cc:5803-5810 | the cases are run in the order of registration again, the death test cases first, and the tests of each case in theirs |
| `TestOrder.UnitTestImpl.Register` | extern/gmock-1.6.0/fused-src/gmock-gtest-all.cc:5410-5432 | the list stays the death test cases in the order of their registration, then the others in theirs; the state stays valid exactly if the new case is no death test case, there is no other case, or the first of the others is still first |
| `TestOrder.UnitTestImpl.GetTestCase` | extern/gmock-1.6.0/fused-src/gmock-gtest-all.cc:5400-5433 | the case of that name, created behind those of its kind if there is none, with the condition of `Register` for a valid state; on an unshuffled list the state stays valid and unshuffled |
| `TestOrder.UnitTestImpl.ThoseAreAll` | extern/gmock-1.6.0/fused-src/gmock-gtest-all.cc:5415-5430 | that list has every registered case as often as it was registered |
| `TestOrder.DeathCasesInOrder` | extern/gmock-1.6.0/fused-src/gmock-gtest-all.cc:5417-5430 | two death test cases registered behind another case come before it in the order of their registration |
| `TestOrder.DeathRegistered` | extern/gmock-1.6.0/fused-src/gmock-gtest-all.cc:5417-5425 | the condition on the indices behind it, both ways |
| `TestOrder.RegisteredAfterShuffle` | extern/gmock-1.6.0/fused-src/gmock-gtest-all.cc:5420-5425 | two cases are registered and shuffled, then a death test case is registered: it is not run first |
| `Expectations.RetireAllPreRequisites` | extern/gmock-1.6.0/fused-src/gmock-gtest-all.cc:9672-9687 | terminates, retires exactly the transitive prerequisites, and keeps it that only expectations are retired whose prerequisites are |
| `Expectations.RetiredAncestors` | extern/gmock-1.6.0/fused-src/gmock-gtest-all.cc:9673-9677 | the short cut is sound: all that comes before a retired expectation is retired |
| `Expectations.AncestorsAreOlder` | extern/gmock-1.6.0/fused-src/gmock-gtest-all.cc:10345-10353 | only older expectations come before one, so none comes before itself |
| `Expectations.Sequence.AddExpectation` | extern/gmock-1.6.0/fused-src/gmock-gtest-all.cc:10345-10353 | an expectation gets the last of the sequence as its prerequisite; ages stay right exactly if that one is older, the order of retirement exactly if it is retired or the new one is not |
| `Expectations.EdgeWithoutCycle` | extern/gmock-1.6.0/fused-src/gmock-gtest-all.cc:10345-10353 | an old expectation added again makes no cycle unless it is the last of the sequence or comes before it: ranks that fall along all edges exist |
| `Expectations.EdgeWithCycle` | extern/gmock-1.6.0/fused-src/gmock-gtest-all.cc:10345-10353 | otherwise no ranks fall along all edges |
| `Expectations.CycleNeverEnds` | extern/gmock-1.6.0/fused-src/gmock-gtest-all.cc:9672-9687 | and while it is not retired, the recursion of the retirement does not come back, from it or from anything after it, at any depth of calls |
| `Expectations.EndsExactlyWithoutCycle` | extern/gmock-1.6.0/fused-src/gmock-gtest-all.cc:9672-9687 | after one more prerequisite the recursion ends if and only if that one is neither the expectation nor after it |
| `Expectations.OppositeSequences` | extern/gmock-1.6.0/fused-src/gmock-gtest-all.cc:10345-10353 | two sequences that add the same two expectations in opposite orders make such a cycle |
| `Expectations.WithinRetiresAncestors` | extern/gmock-1.6.0/fused-src/gmock-gtest-all.cc:9672-9687 | where the recursion ends, it retires exactly the transitive prerequisites, like the method |

## Left out

- `shared_mutex` as a word: its 31-bit count is covered by the protocol, which holds for any largest count, but has no class of its own.
- The timed operations are modelled by what they do when they are notified and when the deadline passes; clocks are not.
- SharedMutexProtocol.NoLostWakeup: excludes deadlines of waiting writers, where it is false; `NoLostWakeupExactly` has the exact condition.
- LevelMutex.ThreadLocks.Unlock, MultiLocking.UnlockThis, MultiUnlocking.MultiUnlock: stop where the assertion of `PreUnlock` fails; with assertions compiled out the list is cut there, which the model does not follow.
- The order in which `MultiLock` and `MultiUnlock` leave the caller's container: they sort it in place, the model sorts a copy.
- The wrap-around of the lock counts at 32 bits, exceptions of the base mutexes and the error policies.
- LevelMutexSteps.AcquireNext: one thread's list at a time; that a granted mutex is in nobody's list is what the base mutex promises.
- LevelMutexDeadlock.RunIsSafe: locking a held mutex again and unlocking it without leaving the list are not steps, because no thread waits in them.
- The growth of the chunk vector: slots stand for pointers, so nothing is claimed about addresses of chunks, and `reserve` failing is part of `malloc` failing.
- `TrimChunkList`, `FixedAllocator::IsCorrupt` and the pool of allocators around `FixedAllocator`.
- `CountPrevCycle` and `HasNextNode`, which are `CountNextCycle` and `HasPrevNode` in the other direction.
- RefLinked.RefLinkedBase.Merge: does not model its own assertions on the sizes of the rings, which are checks of the links it has just written.
- The lexer and code generation of the Kaleidoscope program, and that looking an operator up adds a zero to its table.
- Matching with patterns that `ValidateRegex` rejects, which `RE` never asks for, and the narrowing of characters to a C `char`.
- The name filters, the environment variables, and how the random generator finds its answers.
- `StrongPtr.cpp`, which repeats the ring operations, and all input and output.
