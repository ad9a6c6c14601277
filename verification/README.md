# Verified models of a freestanding C library

This project models the self-contained engines of a freestanding C library for i386 and proves
what each of them is for. Every result is a statement about all inputs, all runs or all
reachable states. `dafny verify dfyconfig.toml` checks the whole project.

| part | files | what is modelled |
|---|---|---|
| regular expressions | `RegexTree`, `RegexMatcher`, `RegexPosix`, `RegexExec`, `RegexCaptures` | the backtracking matcher with its continuations, capture arrays, step counter and best match so far, against a relational meaning of the compiled tree and against the textbook meaning of a regular expression |
| heap | `HeapChain`, `HeapMemory`, `Heap`, `HeapRun`, `Alignment` | malloc, free, realloc and aligned allocation: block headers in a flat memory, the chain they encode, and runs of client calls and stores |
| threads | `Mutex`, `CondVar`, `Once`, `Semaphore` | the futex protocols as step machines over any number of threads; the condition variable in the use of producers and consumers |
| static TLS | `TlsLayout`, `TlsStatic`, `TlsRun` | the layout of thread-local storage over the life of a process, the thread blocks built from it, and what threads find in their variables |
| shell arithmetic | `ArithSyntax`, `ArithParser`, `ArithEval`, `ArithCorrect`, `ArithSound`, `ArithPrint`, `ArithLaws`, `ArithTexts` | the recursive-descent evaluator of `$(( ))` against a grammar with values, and the laws of its operators |
| options | `GetoptArgv`, `GetoptScan`, `Getopt`, `GetoptRoundTrip` | getopt, getopt_long and getopt_long_only with in-place permutation of argv, and command lines written down and read back |
| TLS 1.3 framing | `TlsRecord`, `TlsHandshake`, `TlsApp`, `TlsRekey`, `TlsConn` | the record layer, the reassembly of handshake messages, the reading and writing of application data and key updates (sections 4.6, 5.1 to 5.4 and 7.2 of RFC 8446) over an ideal AEAD |
| argument reduction | `Binary`, `PayneHanek`, `TwoOverPi` | reduction of a double modulo pi/2 in multiword integers |
| calendar | `Calendar`, `LocalTime` | day counts, gmtime, localtime, mktime and transition rules |
| division | `SoftDivide` | 64-bit division by shifting and subtracting |

Imperative code is modelled by classes and methods with loops (`Matcher`, `Heap`, `Tls`, `Arith`,
`Getopt`, `Conn`, `Tm`), each proved against functions or relations on values, and the
properties are lemmas about those. The four concurrency protocols are step relations.

Where the code and its documentation disagree the model follows the code:

- The library's README.md:228 gives the malloc block header 16 bytes; the structure in src/stdlib.c:103-110 has 24 on i386.
- The library's README.md:268 says that the step cap of the matcher reports REG_NOMATCH; the code may still report a
  match found before the cap, and goes on to later start positions (src/regex.c:740-772).
- include/getopt.h:21-24 says that argv is not permuted; src/getopt.c permutes it.
- include/tls.h:30-31 promises 0 from a read for a clean close_notify; the code also returns 0 for an empty record
  and for an end of the stream without a close_notify (src/tls.c:1016-1031).
- src/tls.c:668 says that a key update rekeys a direction; the code stores new keys and goes on using the old ones,
  with the counter back at 0 (src/tls.c:669-683).
- src/tls_static.c:20-24 says that threads running before a dlopen have to see the new image; those beyond the 128
  registered blocks do not (src/tls_static.c:31-37).
- src/tz.c:628-629 says that two passes settle the offset; the loop makes three and may end in the gap of a
  transition, where no instant shows the local time.

Properties that do not hold of the code as one would like them are stated with the exact condition:
`RegexPosix.RepExact` and `RegexPosix.TwoEmptyRoundsMissed` (a repetition that needs two or more empty rounds),
`TlsLayout.AlignedIff` and `TlsLayout.AlignmentLost` (alignments that do not divide the reserve),
`TlsLayout.AddressAlignedIff` and `TlsLayout.AddressMisaligned` (alignments above that of the block),
`TlsRun.ThreadsFindWhatTheyStored` and `TlsRun.ThreadBeyondTheTable` (threads beyond the 128 registered ones),
`TlsApp.StoppingAtZero` and `TlsApp.EmptyRecordReadsAsEnd` (empty records before more data),
`TlsRekey.ConnectionNonces` and `TlsRekey.NonceUsedTwice` (records behind the answer to a key update),
`TlsRekey.ReadsAcrossUpdate` (data behind the peer's key update),
`CondVar.SignalKeepsAwake` and `CondVar.OvertakenWaiterSleeps` (2^32 signals between a look and a wait),
`Heap.RequestExact` and `Heap.RequestWraps` (requests above 2^32 - 32), `LocalTime.LocaltimeInvertsMktime` and
`LocalTime.FebruaryThirty` (dates that do not exist),
`TlsRecord.RecvInvertsSend` (record type zero), `LocalTime.MktimeInvertsLocaltime` (years before 1),
`SoftDivide.Divide` (MIN / -1).

## Model

| member | source | states |
|---|---|---|
| `RegexTree.MatchNodeForward` | src/regex.c:556-629 | a match of a node never moves the position back |
| `RegexTree.RepUnroll` | src/regex.c:534-554 | the closed form of a repetition (a chain of non-empty rounds whose count is allowed, where only the last may be empty) is the same relation as taking one round at a time the way m_rep and krep_fn do |
| `RegexMatcher.ReachSeqStep` | src/regex.c:631-635 | what a sequence can hand to its continuation is what its first node can hand to the rest of the sequence |
| `RegexMatcher.ReachGroup` | src/regex.c:597-605 | the same for a group with its capture opened |
| `RegexMatcher.ReachAlt` | src/regex.c:618-623 | the first j + 1 alternatives reach what the first j reach and what alternative j reaches |
| `RegexMatcher.ReachRepStep` | src/regex.c:534-542 | m_rep reaches what its continuation reaches (when the count is allowed) and what one more round reaches (when the maximum allows it), and nothing else |
| `RegexMatcher.ReachKRep` | src/regex.c:544-554 | the end of a round: an empty round leads only to the continuation, an advancing one to m_rep |
| `RegexMatcher.ReachAtom` | src/regex.c:556-617 | a node without children reaches exactly the continuation at its one possible end |
| `RegexMatcher.BetterIrreflexive` | src/regex.c:648-659 | better_subgroups never prefers captures to themselves |
| `RegexMatcher.BetterAsymmetric` | src/regex.c:648-659 | it never prefers both of two capture sets to each other |
| `RegexMatcher.BetterSplits` | src/regex.c:648-659 | if a is preferred to b, any c is preferred to b or a to c: with the two rows above, a strict weak order |
| `RegexMatcher.BestUnbeaten` | src/regex.c:661-670 | the match kept is beaten by no other visited one, in length or in captures |
| `RegexMatcher.Matcher.BetterSubgroups` | src/regex.c:648-659 | the loop decides that order |
| `RegexMatcher.Matcher.Top` | src/regex.c:661-670 | the best match so far stays the best of all visits |
| `RegexMatcher.Matcher.Continue` | src/regex.c:490-532 | calling any continuation visits exactly what is reachable through it |
| `RegexMatcher.Matcher.GroupEnd` | src/regex.c:515-522 | kgrp_fn closes the group, continues, and on return 0 restores the old end |
| `RegexMatcher.Matcher.RoundEnd` | src/regex.c:544-554 | krep_fn visits exactly what the end of a round reaches |
| `RegexMatcher.Matcher.MRep` | src/regex.c:534-542 | m_rep visits exactly what the repetition reaches, in this state |
| `RegexMatcher.Matcher.MSeq` | src/regex.c:631-635 | m_seq: visits only reachable states; returning 0 means all were visited and the capture arrays are back to their entry values; it returns 1 exactly when the number of nodes to visit takes the counter past the limit; terminates with no appeal to the limit |
| `RegexMatcher.Matcher.MNode` | src/regex.c:556-629 | the same of m_node |
| `RegexMatcher.Matcher.MGroup` | src/regex.c:597-605 | the same of the group case, with gstart and gend restored |
| `RegexMatcher.Matcher.MAlt` | src/regex.c:618-623 | the same of the alternation loop |
| `RegexMatcher.Matcher.AtomStep` | src/regex.c:556-617 | the atom cases succeed exactly where the tree says, back-references and anchors included |
| `RegexPosix.MatchSpans` | src/regex.c:556-629 | a tree without back-references matches only substrings of its textbook language |
| `RegexPosix.SpansMatch` | src/regex.c:556-629 | and all of them, from any captures, when every repetition is harmless |
| `RegexPosix.RepExact` | src/regex.c:534-554 | a repetition over a body that is handled itself finds all its matches if and only if its lower bound is at most 1 (or above its maximum) or its body never matches empty |
| `RegexPosix.TwoEmptyRoundsMissed` | src/regex.c:546-550 | `(a*){2}` does not match the empty string |
| `RegexPosix.SturdyIsHarmless` | src/regex.c:534-554 | a check on the tree alone (bodies repeated twice or more always consume) makes every repetition harmless on every string |
| `RegexExec.SearchFrom` | src/regex.c:740-760 | one start position: a match reported is genuine; within the step limit it is the longest with unbeaten captures, and none is missed |
| `RegexExec.FindMatch` | src/regex.c:740-772 | the loop over starts: genuine always; leftmost and best, or truly no match, as far as no search hits the limit |
| `RegexExec.Regexec` | src/regex.c:725-773 | the same through the public call: strings up to their zero byte, REG_STARTEND ranges anywhere in memory that can be read, return code, pmatch filled or left alone |
| `RegexExec.MatchCaptures` | src/regex.c:597-605 | every captured group is unset or a span inside the match |
| `RegexExec.LiteralCost` | src/regex.c:556-635 | a pattern of characters costs one step for each character compared, at most its length |
| `RegexCaptures.FirstDifferenceDecides` | src/regex.c:646-670 | on the offsets: no match at the start is longer than the one reported, and where another of its length differs, the first group in which it does is longer in the one reported, or as long and further left, or unset in the other |
| `RegexCaptures.GroupsHoldTheirText` | src/regex.c:597-605 | a group that is set holds a span that the body of the group of its number has matched, and without back-references one of that body's textbook language |
| `RegexCaptures.OneByte` | src/regex.c:556-617 | characters, the dot and classes on the byte they take, case folding and newlines included |
| `RegexCaptures.Anchors` | src/regex.c:556-617 | where the anchors hold, by REG_NOTBOL, REG_NOTEOL and REG_NEWLINE |
| `RegexCaptures.BackrefRepeats` | src/regex.c:607-617 | a back-reference takes a text alike to its group's, byte for byte, and the same one without case folding |
| `RegexExec.ReportedIsLeftmostLongest` | src/regex.c:740-772 | for trees without back-references and with harmless repetitions, when the searches that regexec makes stay within the limit: it reports the smallest start at which the textbook language matches and the largest end there, and no match only if there is none |
| `RegexExec.ReportedIsGenuine` | src/regex.c:740-772 | a reported match is in the textbook language even when the limit was reached |
| `HeapChain.CarveFits` | src/stdlib.c:302-320 | for every alignment from 16 up that is a multiple of 8, the `want` bytes suffice: aligned payload, room for a header in a non-empty lead, and a tail that never runs negative nor too small |
| `HeapChain.CarveTiles` | src/stdlib.c:316-355 | lead, aligned block and tail tile the old block, and only the aligned one is in use |
| `HeapChain.MallocSound` | src/stdlib.c:136-226 | malloc refuses and changes nothing, or brings exactly one block of sufficient size into use and keeps the tiling |
| `HeapChain.MallocNoFreeNeighbours` | src/stdlib.c:195-226 | malloc does not bring two free blocks together |
| `HeapChain.MallocRefusesIff` | src/stdlib.c:146-226 | malloc refuses if and only if no free block fits and brk cannot be moved by max(4096, n + 24) |
| `HeapChain.MallocAlignedRefusesIff` | src/stdlib.c:292-317 | aligned allocation refuses if and only if that holds of need + 2 align + 56 |
| `HeapChain.MallocPlaces` | src/stdlib.c:136-226 | the first free block that fits is taken and cut to size if more than 40 bytes are left; without one brk moves by exactly max(4096, n + 24) |
| `HeapChain.FreeSound` | src/stdlib.c:228-251 | free takes exactly its block out of use, and no two neighbours are both free afterwards |
| `HeapChain.MallocAlignedSound` | src/stdlib.c:292-360 | aligned allocation serves like malloc, at an aligned address |
| `HeapChain.StepSound` | src/stdlib.c:195-418 | any call keeps every block in use but the one it was given, and brings at most one in; a free, also that of a moving realloc, leaves no two free neighbours |
| `HeapChain.RunSound` | src/stdlib.c:146-418 | after any run: the chain tiles the arena in address order, headers and payloads sum to the growth of brk, sizes and payloads are multiples of 8, blocks in use do not overlap |
| `HeapChain.RunKeepsLive` | src/stdlib.c:146-418 | a block stays in use, in place and in size, until a call names it |
| `HeapMemory.EncodesSplice` | src/stdlib.c:146-360 | headers rewritten inside one block's bytes re-encode the chain with that block replaced |
| `HeapMemory.KeptOutside` | src/stdlib.c:146-418 | writes inside one block leave the payloads of all others |
| `Heap.RequestExact` | src/stdlib.c:146-149 | the 32-bit sums of malloc and request_space are the true ones, and the memory asked for holds the request, if and only if the size is at most 2^32 - 32 |
| `Heap.RequestWraps` | src/stdlib.c:146-175 | at the next size a page is asked for and the remainder's header falls on the block's own |
| `Heap.Heap.constructor` | src/stdlib.c:112-134 | the empty heap |
| `Heap.Heap.FindFreeBlock` | src/stdlib.c:136-144 | the walk over header words finds the first fit of the chain |
| `Heap.Heap.RequestSpace` | src/stdlib.c:146-193 | for every 32-bit size: growing brk appends one block, split when possible, or fails with nothing changed, and above 2^32 - 32 the block claims more than its page and at 0xffffffe8 is linked to itself; payloads in use keep their bytes |
| `Heap.Heap.Malloc` | src/stdlib.c:195-226 | for every 32-bit size: malloc on memory is malloc on the chain of the wrapped size, up to where request_space wraps; no byte of a block in use changes |
| `Heap.Heap.Free` | src/stdlib.c:228-251 | free on memory is free on the chain, coalescing included, and other blocks keep their bytes; a null pointer and one without a header do nothing |
| `Heap.Heap.CoalesceAll` | src/stdlib.c:238-250 | the in-place pass joins every run of free neighbours |
| `Heap.Heap.MallocAligned` | src/stdlib.c:292-360 | aligned allocation on memory is that on the chain |
| `Heap.Heap.CarveBlock` | src/stdlib.c:313-357 | the header writes carve the block as planned |
| `Heap.Heap.Realloc` | src/stdlib.c:395-418 | every case; a moved block carries its old bytes over, and every other block keeps its own |
| `HeapRun.Perform` | src/stdlib.c:195-418 | every call on the heap does to arena, memory and return value what the run relation says, refusals exactly when there is no room included, and a store by the client keeps the headers |
| `HeapRun.OwnersFindWhatTheyStored` | src/stdlib.c:195-418 | in every state of every run of calls and stores, each cell an owner has stored to lies in its block, still in use, and holds what was last stored, through all other calls and through moves by realloc |
| `Mutex.LocalStep` | src/pthread.c:112-198 | every step of lock, trylock and unlock keeps: one holder, agreement of the word with it, ownership and count, and an owed wake or an awake waiter for every sleeper on a word other than 2 |
| `Mutex.WakeStep` | src/pthread.c:185-198 | so does a wake |
| `Mutex.MutualExclusion` | src/pthread.c:112-198 | in every state of every run at most one thread holds the mutex, and some thread does exactly when the word is not 0 |
| `Mutex.RecursiveDepth` | src/pthread.c:132-198 | a recursive mutex records its holder and counts its locks, and a holder never waits for itself |
| `Mutex.NobodySleepsOnAFreeMutex` | src/pthread.c:112-198 | with all threads outside or asleep, a sleeper implies a holder and a word of 2: no wakeup is lost |
| `Mutex.UnlockWakes` | src/pthread.c:185-198 | giving up a word of 2 with a sleeper wakes one |
| `Mutex.NeverStuck` | src/pthread.c:112-198 | in every reachable state every thread has a step |
| `Mutex.LockAlone` | src/pthread.c:112-163 | a thread anywhere in lock that runs alone while the word is 0 holds the mutex after at most four of its steps, through the fast path and the slow one |
| `Mutex.TrylockTakes` | src/pthread.c:165-183 | a trylock on a free mutex takes it |
| `Mutex.TrylockOnHeld` | src/pthread.c:165-183 | on a held one it changes nothing, or counts one more if it is recursive and the caller's |
| `Mutex.UnlockFrees` | src/pthread.c:185-198 | the last unlock leaves the word 0 after at most four steps |
| `Mutex.UnlockCounts` | src/pthread.c:185-198 | an inner unlock takes one off the count, one by another thread changes nothing |
| `CondVar.LocalStep` | src/pthread.c:214-258 | every step of producers and consumers around wait, timedwait, signal and broadcast keeps: an item is spoken for by an owed signal or wake or by a woken consumer while anyone sleeps, and by an owed signal if anyone looked at the word since the last one |
| `CondVar.WakeStep` | src/pthread.c:246-258 | so does a wake of one or of all |
| `CondVar.NoLostSignal` | src/pthread.c:214-258 | in every run, whichever waiters the wakes pick: while anyone sleeps the items are at most the signals and wakes owed plus the consumers woken and yet to look, as long as no waiter is overtaken by 2^32 signals |
| `CondVar.NobodySleepsOnAnItem` | src/pthread.c:214-258 | with all threads outside or asleep nobody sleeps while there is an item |
| `CondVar.SignalKeepsAwake` | src/pthread.c:214-224 | a waiter that has looked at the word can go to sleep if and only if the signals since are a multiple of 2^32 |
| `CondVar.BroadcastReachesAll` | src/pthread.c:253-258 | at any time behind the wake of a broadcast nobody sleeps who looked at the word before the broadcast |
| `CondVar.OvertakenWaiterSleeps` | src/pthread.c:214-224 | a run with 2^32 signals between a look and a wait, after which a consumer sleeps on an item |
| `CondVar.ConsumerTakes` | src/pthread.c:214-224 | a consumer that comes in or was woken, alone with an item, takes it in three steps |
| `CondVar.ConsumerWaits` | src/pthread.c:214-224 | without an item it sleeps with the mutex released, or is back early |
| `CondVar.ProducerAdds` | src/pthread.c:246-258 | a producer alone has added its item, signalled once and released the mutex after at most six steps, in either order of unlock and signal |
| `CondVar.NeverStuck` | src/pthread.c:214-258 | a thread has a step unless it waits for a held mutex |
| `Once.LocalStep` | src/pthread.c:262-280 | every step of pthread_once keeps the word in step with the routine, one thread at it, and a wake owed to sleepers once it has ended |
| `Once.RunsOnce` | src/pthread.c:262-280 | in every run the routine is begun at most once, and a thread back from its call finds it ended |
| `Once.NobodySleepsForGood` | src/pthread.c:262-280 | a sleeper implies a thread in the routine or about to wake all |
| `Once.ReturnsAlone` | src/pthread.c:262-280 | a thread that the routine does not keep waiting is back after at most six steps, with the routine ended |
| `Once.NeverStuck` | src/pthread.c:262-280 | every thread always has a step |
| `Semaphore.LocalStep` | src/semaphore.c:13-98 | every step of wait, timedwait, trywait and post keeps the count and the wake invariant, interrupted and timed-out sleeps included |
| `Semaphore.WakeStep` | src/semaphore.c:93-98 | so does a wake |
| `Semaphore.CountConserved` | src/semaphore.c:13-98 | in every run the count is the initial value plus posts minus successful waits, never negative |
| `Semaphore.NoLostWakeup` | src/semaphore.c:50-98 | while anyone sleeps the count is at most the wakes owed plus the waiters yet to look |
| `Semaphore.NobodySleepsOnAUnit` | src/semaphore.c:50-98 | with all threads outside or asleep, nobody sleeps on a positive count |
| `Semaphore.TakesAlone` | src/semaphore.c:13-48 | alone on a positive count, wait, timedwait and trywait take a unit in at most two steps |
| `Semaphore.RefusedOnZero` | src/semaphore.c:13-91 | on 0 a trywait gives up, the others go on to the clock or to sleep, and nothing changes |
| `Semaphore.NoSleepOnUnits` | src/semaphore.c:50-91 | nobody goes to sleep on a positive count |
| `Semaphore.PostAdds` | src/semaphore.c:93-98 | a post adds one unit and goes on to wake |
| `Semaphore.NeverStuck` | src/semaphore.c:13-98 | every thread always has a step |
| `TlsLayout.PlanWf` | include/tls_layout.h:81-111 | the plan is well-formed and the program's module ends exactly at the thread pointer |
| `TlsLayout.PlanIsTight` | include/tls_layout.h:81-111 | each module is at the first place with the alignment it asks for behind the module after it, the last one at 0, and the block ends with the program's own |
| `TlsLayout.ReserveWf` | include/tls_layout.h:114-128 | reserving moves every module up by the least multiple of 64 that holds the bytes, and keeps the layout well-formed |
| `TlsLayout.ReserveKeepsAlignment` | include/tls_layout.h:114-128 | the move keeps an alignment if and only if it divides the reserve, which it does for powers of two up to 64 |
| `TlsLayout.AlignedIff` | include/tls_layout.h:114-151 | in every reachable layout the offset of a module added later has the alignment it asks for (itself if a power of two of at least 4, else 4), and that of a planned one has it if and only if the reserve has it |
| `TlsLayout.AlignedUpTo1024` | include/tls_layout.h:49-151 | with the loader's reserve of 1024 every offset has its alignment, up to 1024 |
| `TlsLayout.AddressAlignedIff` | src/tls_static.c:65-72 | in a block aligned to 16 bytes the address of every slice has an alignment of up to 16, and a larger one if and only if the start of its area has it |
| `TlsLayout.AddressAlignedUpTo1024` | src/tls_static.c:65-72 | with the loader's reserve an address has its alignment, up to 1024, if and only if the block's base has it |
| `TlsLayout.AddressMisaligned` | src/tls_static.c:65-72 | a module aligned to 32 in a block at 16 is not aligned |
| `TlsLayout.AlignmentLost` | include/tls_layout.h:114-128 | a module aligned to 128 above a reserve of 64 is not |
| `TlsLayout.AddWf` | src/tls_static.c:105-138 | adding a module keeps the layout, gives it a fresh id and a slice of spare room, or refuses |
| `TlsLayout.AddRefusesIff` | include/tls_layout.h:141-151 | an add is refused if and only if 8 modules are there or no place in the room left has the alignment and the size; otherwise it gets the first such place |
| `TlsLayout.DropWf` | src/tls_static.c:140-159 | dropping removes the module at that offset and no other |
| `TlsLayout.HistoryWf` | src/tls_static.c:105-159 | over any history of adds and drops: slices disjoint, inside the block, aligned from the start of their area; ids distinct; total unchanged |
| `TlsLayout.ProcessWf` | include/tls_layout.h:81-151 | the same from the published plan on, the program's module still ending at total |
| `TlsLayout.RetiredIdStaysRetired` | src/tls_static.c:105-159 | a dropped id is never given out again |
| `TlsLayout.ModuleStaysPut` | src/tls_static.c:105-159 | a module keeps its slice until it is dropped |
| `TlsLayout.AccessModelsAgree` | src/dlfcn.c:302-343 | for every live module a general-dynamic access (id and offset words) reaches the address that a TPOFF word gives, modulo 2^32; the id word names the module if and only if its addend is a multiple of 2^32 |
| `TlsLayout.NoSharedAddress` | include/tls_layout.h:162-171 | bytes of two live modules never share an address |
| `TlsLayout.ResolvesToItsSlice` | include/tls_layout.h:162-171 | a byte of a module resolves to the start of the block plus the module's offset plus its own |
| `TlsStatic.Tls.PlanInline` | include/tls_layout.h:81-111 | the in-place loop computes the plan, of at most 8 modules |
| `TlsStatic.Tls.ReserveSpare` | include/tls_layout.h:114-128 | the in-place loop computes the reserve |
| `TlsStatic.Tls.TakeSpare` | include/tls_layout.h:141-151 | spare room is taken once or refused |
| `TlsStatic.Tls.Alloc` | src/tls_static.c:65-72 | the block is the memory obtained, moved up to a multiple of 16 |
| `TlsStatic.Tls.BlockNew` | src/tls_static.c:95-103 | a new thread's block holds every module's image followed by zeros in its slice and zeros elsewhere, its control word is its thread pointer, and all other blocks stay as they are, whatever their threads have stored |
| `TlsStatic.Tls.Fill` | src/tls_static.c:48-63 | the same of the copying loop |
| `TlsStatic.Tls.ModuleAdd` | src/tls_static.c:105-138 | the layout is extended, and each of the first 128 blocks gets the new module's image and zeros in its slice and keeps every other byte, whatever its thread has stored; blocks that held every live module fresh still do |
| `TlsStatic.Tls.ModuleDrop` | src/tls_static.c:140-159 | the table is compacted in order and no block changes |
| `TlsStatic.Tls.TlsAddr` | include/tls_layout.h:162-171 | the search by id resolves an address or gives 0 |
| `TlsStatic.OthersUntouched` | src/tls_static.c:105-138 | writing one module's slice leaves every other module's bytes |
| `TlsRun.Perform` | src/tls_static.c:95-159 | every call does to layout and blocks what the relation on lives says, and so does a thread's store into its own block |
| `TlsRun.ThreadsFindWhatTheyStored` | src/tls_static.c:95-159 | in every state of every life of a process, with modules coming and going, threads starting and storing: each byte of each thread's variables is what that thread last stored; before, it has its initial value if and only if the thread is among the first 128, or started after the module came, or that value is 0 |
| `TlsRun.ThreadBeyondTheTable` | src/tls_static.c:31-37 | a life in which the 129th thread does not find the initial value of a module opened later, and the 128th does |
| `ArithCorrect.Complete` | src/wordexp.c:168-290 | every well-formed text evaluates to its value under C precedence and left associativity, and to an error exactly when some division in it is by zero |
| `ArithSound.Exact` | src/wordexp.c:168-290 | the evaluator succeeds with v if and only if the text is a well-formed expression of value v and white space |
| `ArithEval.Arith.Digits` | src/wordexp.c:199-209 | the accumulated 64-bit number is the positional value of the digits, wrapped once |
| `ArithEval.Arith.ReadPrim` | src/wordexp.c:168-213 | _a_prim moves its cursor and sets its error flag as the grammar says, on every text |
| `ArithEval.Arith.ReadUnary` | src/wordexp.c:215-222 | so does _a_unary |
| `ArithEval.Arith.ReadBin` | src/wordexp.c:224-278 | so does _a_bin at every level |
| `ArithEval.Evaluate` | src/wordexp.c:280-290 | the whole evaluator computes the grammar's value or its error, and terminates on every string |
| `ArithLaws.SubtractionUndoesAddition` | src/wordexp.c:258-262 | sums are the true ones modulo 2^64, and subtraction undoes them |
| `ArithLaws.AdditionUndoesSubtraction` | src/wordexp.c:258-262 | so are differences, and addition undoes them |
| `ArithLaws.ProductsWrap` | src/wordexp.c:264 | products are the true ones modulo 2^64 |
| `ArithLaws.DivisionPair` | src/wordexp.c:265-272 | no value if and only if the divisor is 0; else v = q r + m with m smaller than r and of the sign of v, and MIN / -1 wraps |
| `ArithLaws.OneTotalOrder` | src/wordexp.c:241-252 | exactly one of <, == and > is 1, as the difference says, and the other comparisons follow |
| `ArithLaws.TruthTables` | src/wordexp.c:215-240 | logical operators on the truth of their operands |
| `ArithLaws.Involutions` | src/wordexp.c:215-222 | minus and complement undo themselves, with sums 0 and -1 |
| `ArithLaws.Shifts` | src/wordexp.c:253-257 | multiplication modulo 2^64 and division toward minus infinity by a power of two, the count modulo 64 |
| `ArithLaws.BitByBit` | src/wordexp.c:236-240 | the bit operations, for each of the 64 bits |
| `ArithTexts.Precedence` | src/wordexp.c:224-278 | on texts: each of the ten levels binds tighter than the one before it, with the spelling of every operator |
| `ArithTexts.Associativity` | src/wordexp.c:224-278 | operators of one level group from the left |
| `ArithTexts.PrefixAndParentheses` | src/wordexp.c:168-222 | prefix operators bind tightest, and parentheses override |
| `ArithTexts.Literals` | src/wordexp.c:199-209 | decimal, octal and hexadecimal literals |
| `ArithTexts.VariableSpellings` | src/wordexp.c:168-198 | x, $x and ${x} are the variable |
| `ArithTexts.VariableValues` | src/wordexp.c:168-198 | its value: 0 if unset, else the decimal number it begins with, after a sign |
| `ArithPrint.PrintedTreeEvaluates` | src/wordexp.c:168-290 | any syntax tree printed with minimal parentheses evaluates to the value of the tree |
| `GetoptArgv.Exchange` | src/getopt.c:23-47 | swapping shorter blocks into place in a loop is an exact block rotation |
| `GetoptArgv.PartitionedExchange` | src/getopt.c:23-47 | the rotation keeps option elements and operands each in their order |
| `GetoptArgv.PartitionedDone` | src/getopt.c:141-221 | at the end argv is the stable partition |
| `GetoptArgv.SelectMultiset` | src/getopt.c:141-221 | options and operands together are the original elements, each once |
| `GetoptScan.LooksUnique` | src/getopt.c:75-85 | a long name is exact, a unique prefix, ambiguous or unknown, and only one of them |
| `GetoptScan.CallUnique` | src/getopt.c:141-221 | the scan of an unpermuted argv determines every returned value and state |
| `GetoptScan.CallAdvances` | src/getopt.c:141-221 | every call that does not end the scan passes an element or a character |
| `Getopt.Getopt.Permute` | src/getopt.c:148-153 | the permuting step of a fetch keeps the scanned part partitioned |
| `Getopt.Getopt.Skip` | src/getopt.c:155-158 | passing operands keeps the partition and stops at the element at which the scan of the original argv stops |
| `Getopt.Getopt.LongMatch` | src/getopt.c:75-85 | the loop decides how a long name looks up |
| `Getopt.Getopt.DoLong` | src/getopt.c:87-139 | a long option does what the scan of the original argv says: value, argument, errors, ambiguity |
| `Getopt.Getopt.Short` | src/getopt.c:192-221 | so does a short option, its argument attached or in the next element |
| `Getopt.Getopt.Next` | src/getopt.c:141-221 | a call on the permuted argv returns what a scan of the original argv returns; with -1 argv is its stable partition and optind the first operand |
| `Getopt.AllOptions` | src/getopt.c:141-221 | the loop of a caller until -1 terminates, its returned values are the left-to-right scan of the original argv, and argv ends partitioned |
| `GetoptRoundTrip.ReadsWhatIsWritten` | src/getopt.c:87-221 | any list of options and operands written down as elements of argv (short or long, arguments joined or separate) is read back: values and arguments in order, then -1, with the elements of options marked as such |
| `GetoptRoundTrip.ClusterStep` | src/getopt.c:192-221 | short options that share an element are reported one by one |
| `GetoptRoundTrip.ShortErrors` | src/getopt.c:192-221 | an unknown character gives ?, a missing argument ? or :, with the character in optopt |
| `GetoptRoundTrip.LongErrors` | src/getopt.c:87-139 | unknown and ambiguous names, arguments not allowed and missing ones |
| `GetoptRoundTrip.LongOnlyReads` | src/getopt.c:87-139 | with getopt_long_only a single dash introduces long options, and else a cluster |
| `GetoptRoundTrip.DashDashEnds` | src/getopt.c:160-177 | everything behind -- is an operand |
| `TlsRecord.NonceInjective` | src/tls.c:275-279 | no two sequence numbers below 2^64 give the same nonce |
| `TlsRecord.NonceIsBigEndian` | src/tls.c:275-279 | the nonce is the iv exclusive-ored with the sequence number in twelve bytes, the most significant first |
| `TlsRecord.XorBits` | src/tls.c:275-279 | exclusive or, bit by bit |
| `TlsRecord.RecordFormat` | src/tls.c:281-323 | a record on the wire byte by byte: type, version 3.3, length with the high byte first, content, or under type 23 the sealed content followed by its type |
| `TlsRecord.TypesTaken` | src/tls.c:326-384 | which first bytes are taken, opened, passed over and refused |
| `TlsRecord.RecvSent` | src/tls.c:281-384 | a record arrives with its type and content if and only if its type is non-zero (protected) or handshake or alert (plain) |
| `TlsRecord.RecvInvertsSend` | src/tls.c:281-384 | for any stream of records with dummy ChangeCipherSpec records anywhere, the receiver gets exactly the records sent, then a clean end, with equal counters, if and only if all types are sendable |
| `TlsRecord.DeliveredIsPrefix` | src/tls.c:326-384 | for any byte stream in which no record opens that the peer has not sealed, what is delivered is a prefix of what the peer sent |
| `TlsRecord.HonestIsUnforged` | src/tls.c:281-323 | the streams of the peer itself are such streams, for every AEAD that binds its nonce |
| `TlsRecord.ReplayDeliversPrefix` | src/tls.c:326-384 | the peer's records dropped, repeated and reordered in any way deliver a prefix of what was sent |
| `TlsRecord.TagAeadIsBound` | include/crypto.h:64-78 | an AEAD with these properties exists, with two keys that do not open each other's records |
| `TlsHandshake.ParseEncoded` | src/tls.c:441-451 | framing inverts encoding for all message lists |
| `TlsHandshake.MessageFormat` | src/tls.c:441-451 | a handshake message byte by byte |
| `TlsHandshake.CutsDoNotMatter` | src/tls.c:433-466 | the messages and the end that hs_next yields depend only on the joined bytes of the handshake records and on what follows them, not on the cuts |
| `TlsHandshake.HandshakeRoundTrip` | src/tls.c:281-466 | messages cut into records in any way, empty ones and dummies included, protected or not, come out whole, in order, followed by a clean end |
| `TlsApp.ReadTakesFront` | src/tls.c:998-1045 | a read for more than 0 bytes returns the front of the first record to come and leaves the rest; with none to come it returns -1 for an error and 0 for any other end, so that 0 stands for an empty record, a close_notify and an end without one |
| `TlsApp.ReadByType` | src/tls.c:1014-1044 | what a read does with records of types 23, 21 and others |
| `TlsApp.TicketDropped` | src/tls.c:910-937 | a session ticket is dropped, and a message of an unknown type is an error |
| `TlsApp.WritesAndCloses` | src/tls.c:1047-1077 | a write takes at most 16384 bytes, a close sends the alert 1, 0; both fail when the socket does, and do nothing on a closed connection |
| `TlsApp.ReadConserves` | src/tls.c:998-1045 | a read that returns 0 or more takes exactly its bytes from the front of the application data to come; -1 means that none is left in front of the error |
| `TlsApp.ReadsJoin` | src/tls.c:998-1045 | for any sizes asked for, and past returns of 0, the bytes returned join to the application data of the stream, tickets, key updates and dummies in between |
| `TlsApp.ReadsUntilZero` | src/tls.c:998-1045 | on any byte stream, a caller that stops at the first return of 0 or -1 gets the records in front of the first empty one: everything if and only if no empty record comes before more data; it gets -1 if and only if there is no empty record and the stream ends in an error |
| `TlsApp.ReadsReturnWhatWasWritten` | src/tls.c:281-384 | what the peer wrote in any pieces is read in any pieces, in order, and complete once the connection is closed, by a caller that goes on after a 0 |
| `TlsApp.StoppingAtZero` | src/tls.c:998-1045 | a caller that stops at a 0 has all that the peer wrote if and only if the peer sent no empty record before more data |
| `TlsApp.EmptyRecordReadsAsEnd` | src/tls.c:1022-1031 | an empty record in front of a byte: the read returns 0 and the byte is still to come |
| `TlsApp.EndWithoutNotify` | src/tls.c:1016-1019 | an end of the stream returns what a close_notify returns |
| `TlsRekey.ConnectionSeals` | src/tls.c:281-323 | what goes out over all calls of read, write and close is exactly a list of records, each sealed in the epoch of its place, also when the socket fails |
| `TlsRekey.ConnectionNonces` | src/tls.c:669-683 | from the start of application data no nonce is used twice if and only if no record follows the answer to a key update |
| `TlsRekey.NonceUsedTwice` | src/tls.c:669-683 | a byte, an update that asks for an answer, another byte: the first and the third record have one key and one nonce |
| `TlsRekey.ReadsAcrossUpdate` | src/tls.c:669-683 | behind the peer's key update a stream under the old key and iv is read to its end, and one under a key of its own is read completely if and only if it carries nothing |
| `TlsConn.Conn.NonceFrom` | src/tls.c:275-279 | the loop computes the nonce |
| `TlsConn.Conn.WriteFull` | src/tls.c:171-183 | all bytes are written in any portions, or as many as the socket takes |
| `TlsConn.Conn.SendRecord` | src/tls.c:281-323 | the bytes written are the record of the epoch or as much of it as the socket takes, the counter advances once it is sealed, or it is too long and refused; no buffer is overrun |
| `TlsConn.Conn.RecvRecord` | src/tls.c:326-384 | on every byte stream: outcome, counter, bytes consumed and buffer contents are those of the specification |
| `TlsConn.Conn.TakeApart` | src/tls.c:352-382 | the same of one record |
| `TlsConn.Conn.StripPadding` | src/tls.c:377-378 | the loop finds the last non-zero byte |
| `TlsConn.Conn.HsNext` | src/tls.c:433-466 | on every byte stream and buffer: message, end, remaining bytes and closing are those of the specification |
| `TlsConn.Conn.HandleAlert` | src/tls.c:389-394 | close_notify closes and gives 0, anything else -1 |
| `TlsConn.Conn.Read` | src/tls.c:998-1045 | on every byte stream, leftover and size: result, buffer and new state are those of the specification |
| `TlsConn.Conn.TakeLeftover` | src/tls.c:1004-1011 | the front of the leftover is handed out and the rest kept |
| `TlsConn.Conn.Deliver` | src/tls.c:1022-1031 | the same of a new record |
| `TlsConn.Conn.PostHandshake` | src/tls.c:910-937 | tickets are dropped, a key update renews the stored secrets, restarts the counters and is answered if asked, anything else or a failing answer is an error |
| `TlsConn.Conn.KeyUpdate` | src/tls.c:669-683 | the stored secret, key and iv of one direction are those of the next generation, its counter is 0, and the key in use stays |
| `TlsConn.Conn.StartApplication` | src/tls.c:884-891 | the application keys go into use with both counters at 0 |
| `TlsConn.Conn.Write` | src/tls.c:1047-1058 | one record of at most 16384 bytes, -1 when it does not go out whole, or nothing on a closed connection |
| `TlsConn.Conn.Close` | src/tls.c:1060-1077 | a close_notify goes out once, and the result says whether it did |
| `Binary.BitOfWord` | src/math.c:246-258 | a bit of a multiword number is that bit of its word |
| `Binary.PowersOfTwo` | include/tls_layout.h:89-99 | the alignments that pass for powers of two are the powers of two |
| `PayneHanek.BitsLe` | src/math.c:246-258 | the extracted bits are floor(R / 2^pos) mod 2^count, for negative positions too |
| `PayneHanek.Multiply` | src/math.c:277-295 | the array holds the exact product of mantissa and table |
| `PayneHanek.WordProduct` | src/math.c:282-295 | no intermediate value exceeds 64 bits |
| `PayneHanek.Reduce` | src/math.c:260-309 | for every finite double: the quadrant is the nearest integer to x times the table, modulo 4, sign included, and the remainder is the true one cut to 64 bits and at most a half |
| `PayneHanek.ErrorIndependentOfSize` | src/math.c:222-230 | against any real that the table truncates, the error is below 2^-64 + 2^-256 of a quadrant for every argument |
| `TwoOverPi.ReducePio2` | src/math.c:234-309 | the same with the library's table |
| `Calendar.EraFormula` | src/tz.c:82-90 | the era-based count equals the count by whole years and months, for every integer year |
| `Calendar.YearOfDays` | src/tz.c:110-115 | the year found contains the day |
| `Calendar.WalkYears` | src/time.c:150-164 | so does the year that subtracting whole years finds, before and after 1970 |
| `Calendar.WalkMonths` | src/time.c:166-175 | month and day of the month name the day of the year |
| `Calendar.MonthRule` | src/tz.c:138-149 | a rule Mm.w.d falls on the w-th such weekday of the month, the last one for w = 5 |
| `Calendar.WeekdaysFollow` | src/time.c:143-147 | day 0 is a Thursday, and weekdays follow each other |
| `Calendar.KnownDays` | src/tz.c:82-90 | the numbers of known days on both sides of the epoch |
| `Calendar.YearsRepeat` | src/tz.c:82-90 | 400 years are 146097 days |
| `Calendar.JulianRule` | src/tz.c:119-131 | a rule Jn never falls on February 29 |
| `LocalTime.NameUnique` | src/time.c:133-178 | a second has one calendar name |
| `LocalTime.KnownSeconds` | src/time.c:133-178 | the names of second 0 and of the one before it |
| `LocalTime.KnownLeapDay` | src/time.c:133-178 | the name of noon on the leap day of 2000 |
| `LocalTime.EastIsAhead` | src/time.c:191-199 | the sign of offsets, and which one holds under daylight saving |
| `LocalTime.MktimeTakes` | src/time.c:216-233 | exactly which dates are refused, and the instant of the others |
| `LocalTime.SettlesWhenPossible` | src/tz.c:628-643 | with tm_isdst unknown, the instant found shows the local time if and only if some instant does, for any daylight saving predicate |
| `LocalTime.MktimeInvertsLocaltime` | src/time.c:191-233 | mktime(localtime(t)) is t with every field unchanged if and only if the local year is 1 or later (or t is the error value) |
| `LocalTime.LocaltimeInvertsMktime` | src/time.c:191-233 | for every date mktime takes, localtime(mktime(tm)) gives the fields back if and only if they name a second that exists and the instant shows it |
| `LocalTime.FebruaryThirty` | src/time.c:216-233 | February 30 gives an instant in March and stays in the fields |
| `LocalTime.Tm.FillGmtime` | src/time.c:133-178 | the fields are the calendar name of the instant, for negative times too |
| `LocalTime.Tm.LocaltimeR` | src/time.c:191-199 | the same of the shifted instant |
| `LocalTime.Tm.UtcFromTm` | src/tz.c:619-643 | the three passes compute the settled instant |
| `LocalTime.Tm.Mktime` | src/time.c:216-233 | result and fields, refused dates included |
| `SoftDivide.UDivide` | src/udivdi3.c:11-28 | the shift-subtract loops return exactly a / b for all 64-bit operands (0 for b = 0); no shift loses a bit |
| `SoftDivide.UModulo` | src/udivdi3.c:30-33 | the matching remainder |
| `SoftDivide.Divide` | src/udivdi3.c:35-41 | the truncated quotient if and only if it is not MIN / -1, which gives MIN |
| `SoftDivide.Modulo` | src/udivdi3.c:43-45 | the remainder that belongs to the truncated quotient, for every non-zero divisor |

## Left out

- Regular expressions: the parser of src/regex.c (the models start from compiled trees), regerror, and REG_NOSUB, which regexec ignores.
- RegexExec.ReportedIsLeftmostLongest: not stated for back-references, for repetitions that need empty rounds, or past the step limit, where it does not hold; `RegexExec.FindMatch` covers those against the tree's own meaning.
- RegexExec.Regexec: the memory must be readable up to the end given with REG_STARTEND, and null arguments are not modelled.
- Heap.Heap.Malloc: after a request above 2^32 - 32 bytes nothing is promised of the chain (`Heap.RequestExact` says that it is these requests); brk moved by others and the spinlock are not modelled.
- Heap.Heap.Realloc: requests above 2^32 - 32 bytes and mapped blocks are excluded.
- Heap.Heap.MallocAligned: alignments above 1 MiB (a mapping) and sums that wrap are excluded, and alignment masks are modelled as rounding.
- Heap.Heap.Free: mapped blocks, and pointers in front of which a header happens to lie, are excluded.
- calloc, posix_memalign and aligned_alloc: thin wrappers.
- Mutex: the writes of owner and count of a recursive mutex are one step; error-check mutexes are not modelled; unlock is called by holders.
- CondVar: the mutex is a lock with one holder, and its own steps are those of `Mutex`; the return codes of the two waits appear only as the freedom to give up.
- Once: a routine that does not return or calls pthread_once on the same word is not modelled.
- Semaphore: overflow of the count and the clock are not modelled; a timeout may strike at any time.
- TlsStatic.Tls.ModuleAdd: blocks beyond the 128 registered ones do not get the images of modules added later, as in the code; block bytes are values instead of memory updated in place, the second word of the thread control block is not modelled, and a slice's offset is unbounded.
- Shell arithmetic: signed overflow, undefined in C, wraps; the rest of wordexp is not modelled.
- Getopt.Getopt.Next: messages to stderr are not modelled, option values -1 to -3 of long options are excluded because the code uses them inside, argv holds at least the program name, and the reset by setting optind is not modelled.
- TLS: the socket gives a finite byte stream without read errors and takes a given number of bytes; memory does not run out; the handshake, certificates and alerts by number are not modelled, and the key schedule is a parameter.
- TlsConn.Conn.SendRecord: the AEAD never fails to seal.
- TlsConn.Conn.PostHandshake: key derivation never fails.
- TlsRecord.DeliveredIsPrefix: that no forged record arrives is a hypothesis, not derived from AES-GCM.
- PayneHanek.Reduce: the final conversion to long double and the multiplication by pi/2 are not modelled, nor is the claim that the table is 2/pi.
- LocalTime: the width of time_t is not modelled; where daylight saving begins and ends is a parameter, so zone strings, zone files and src/tz.c:152-170 are not modelled.
- Calendar.JulianRule: the zero-based day rule is a clamp and has no member of its own.
- System call relays, stdio, math functions in assembly, dynamic loading, glob, popen and spawn: plumbing, or easy once stripped.
