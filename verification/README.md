# cppgenerics IPC: a verified model

The IPC half of the library, modelled in Dafny 4.11: the futex mutex, the bit buffer and the allocator
above it, the shared descriptor table behind `BufferManager` and `Buffer`, the key file through which
processes agree on a segment, and the table of named mutexes. `dafny verify dfyconfig.toml` checks everything.

Sizes (table capacity, name length, element size, number of bits, threads and processes) are parameters:
every statement holds for all of them. Only the unit width of 64 bits and the 32-bit width of `int` are fixed.

| file | what it models |
|---|---|
| `FutexMutex.dfy`, `FutexProgress.dfy` | `Mutex::lock`/`unlock` as atomic steps of any number of threads over one word, and what they offer each thread |
| `KeyFile.dfy`, `KeyFileProgress.dfy`, `KeyFileStranded.dfy` | `FileMutex::initUsingFile` and `BufferManager::init` as steps of processes that may crash, with the segment's own mutex; two runs that leave a process waiting |
| `Unit64.dfy`, `BitWords.dfy` | units, masks, and the sequence of bits they stand for |
| `FirstFit.dfy`, `BitBuffer.dfy` | the search `find()` is for, and the `BitBuffer` class |
| `Allocator.dfy`, `AllocatorRuns.dfy` | the `Allocator` class, and every run of it |
| `CNames.dfy`, `MutexManager.dfy` | names through `c_str`/`strncpy`/`strncmp`; the table of named mutexes |
| `DescriptorLists.dfy` | the two index-threaded lists, statement by statement |
| `BufferTable.dfy`, `BufferManager.dfy` | the manager's calls as functions, and the classes proved against them |
| `BufferBook.dfy`, `BufferRuns.dfy` | names, segments, reference counts and handles over runs of many processes |
| `BufferCurrency.dfy`, `BufferStale.dfy` | which segment a handle points into, the processes' caches, and a run after which one is stale |
| `BufferDirectory.dfy`, `BufferLedger.dfy` | the plain map the table refines, call by call and over whole runs |
| `BufferTeardown.dfy`, `BufferSegments.dfy` | the destructor's loop; which segments the kernel has, over runs and after the loop |

The classes (`BitBuffer`, `Allocator`, `Manager`, `Buffer`, `MutexManager`) update their fields in place, as
the source does, and each method is proved equal to a function of the state before; runs are sequences of
those functions, of which `operator=` is two, since it takes the manager's mutex twice. The mutex and the key
file are transition systems, since what matters there is interleaving.

## As written and repaired

Where the text of an operation and its evident purpose differ, the model has both readings: a parameter
`Code` is `AsWritten` or `Repaired`, and the results say, with an if-and-only-if, when the code as written does
what it is for.

* `putFreeDescriptor` never moves the head of the full list. As written a table stays well formed exactly when
  the returned descriptor is not that head (`BufferRuns.StepKeepsIff`); afterwards lookups can walk for ever
  (`BufferTable.ReturnedHeadLoops`). The repair moves the head past a descriptor without predecessor.
* `1 << b` is a shift of a 32-bit `int`. The C++ standard leaves counts of 32 and more undefined; the model takes
  what x86 does, the count modulo 32 and the result sign-extended. As written a buffer behaves as
  independent bits exactly up to 32 of them (`BitWords.BehavesAsBitsIff`). The repair shifts in the unit's width.
* `deallocate` adds its start index twice. It is in order exactly when the FULL bits it sets are those the region covers
  and, where `set()` throws on the way, the region reads zero already (`AllocatorRuns.StepKeepsIff`, for both shifts and
  both loops). That is so for regions at index 0 or without elements, and where every position has a bit of its own
  only for them (`AllocatorRuns.FreesPlainlyIff`). The repair sets bit `i`.
* No repair, but an exact guard. The kernel refuses the segment of a new buffer, or its key has been taken; what
  `operator=` takes over no longer stands for a live buffer, as after `b = b` on the only handle
  (`BufferRuns.StepKeepsIff`, `BufferRuns.SelfAssignIff`). A second handle is no protection there, because another
  thread can destroy it between the two parts (`BufferRuns.SelfAssignRaces`). Where a signal interrupts the second
  `lock()` of `operator=`, the object has the other's fields and is not counted: it may be destroyed only once nobody
  uses the descriptor (`BufferRuns.StepKeepsIff`, `BufferRuns.InterruptedAssignDangles`). A mutex is asked for under an empty
  name (`MutexManager.StableIff`); `find()` needs more than 31 bits for its result (`BitBuffer.Int32KeepsIff`,
  `AllocatorRuns.StepKeepsIff`); a bit buffer has no bits (`BitBuffer.IdxPassesIff`); a size leaves no room for the
  mutex in a `size_t` (`BufferBook.SegmentFitsIff`).
* The address of a segment is dropped from the cache only in the process that frees the last handle. Counts, lists and
  names do not depend on it; which segment a handle points into does. `BufferCurrency.StepKeepsSyncedIff` says when a
  step leaves all caches current, `BufferCurrency.HandsOutCurrentIff` when `getBuffer` hands out the current segment,
  and `BufferStale.StaleFromFresh` that from a fresh table six calls of two processes are enough for a handle on a
  segment that is gone.
* A process that dies in `lock()` or `unlock()` of the segment's mutex leaves it held, or its sleepers asleep. That, with an
  attacher asleep on it, is exactly when initialisation stops unfinished (`KeyFile.StoppedIff`);
  `KeyFileStranded` has a run for both.

Where code and text disagree the code is followed: `unlock()` wakes one sleeper although its comment says all;
`bufferFree` neither needs nor releases the buffer's own lock although its comment says so; the repository's
test of `init()` with 100000 elements asks for 0xFF in every byte, which the code as written gives because the
sign extension floods the unused tail (`BitWords.LastUnitFlooded`), while a tail of zeros is what the loop
over the last unit sets out to produce (`BitWords.InitialTailIff`).

## Model

| member | source | states |
|---|---|---|
| FutexMutex.StepSafeIff | src/IPC_Mutex.cpp:51-78 | a step keeps mutual exclusion, the agreement of word and holder, and the unreachability of unlock's error branch, if and only if it is not an unlock by a thread that does not hold the mutex |
| FutexMutex.StepNoLostWakeup | src/IPC_Mutex.cpp:51-78 | whenever the word is free and a thread sleeps, somebody has still to wake, to compare-and-swap or to get EAGAIN; barging, interrupts and spurious returns keep this |
| FutexMutex.RunKeepsInv | src/IPC_Mutex.cpp:51-78 | both hold after every run of any number of threads |
| FutexMutex.StepDecreases | src/IPC_Mutex.cpp:51-64 | every step but a spurious return of FUTEX_WAIT lowers a measure made of remaining progress and a rank that depends on the word |
| FutexMutex.RunLength | src/IPC_Mutex.cpp:51-78 | no livelock: the length of a run is bounded by the measure of its first state and its spurious returns |
| FutexMutex.NextStep | src/IPC_Mutex.cpp:51-78 | as long as not every thread has finished, some thread can take a step of its own |
| FutexMutex.StoppedIffAllDone | src/IPC_Mutex.cpp:51-78 | no deadlock: nothing can move if and only if the word is free and every thread has finished |
| FutexMutex.RoundsConserved | src/IPC_Mutex.cpp:51-78 | acquisitions made, lost to an interrupt and still owed add up, thread by thread |
| FutexMutex.EveryRunCompletes | src/IPC_Mutex.cpp:38-78 | from a fresh mutex every run is finite, with an explicit bound, and a run that cannot continue has let every thread acquire as often as it wanted |
| FutexMutex.ZeroWordIsHeldForever | src/IPC_Mutex.cpp:30-36 | without the creator's store a zero-filled segment is a mutex nobody ever acquires |
| FutexProgress.Tries | src/IPC_Mutex.cpp:51-56 | whatever the word is, a thread in lock() makes its compare-and-swap: at 1 the word becomes 0 and the thread holds the mutex, at anything else it fails and nothing else changes |
| FutexProgress.Waits | src/IPC_Mutex.cpp:57-62 | after a failure FUTEX_WAIT puts the thread to sleep while the word is 0, and sends it back otherwise |
| FutexProgress.Sleeps | src/IPC_Mutex.cpp:57-62 | a sleeper can always be interrupted, or return for no reason |
| FutexProgress.Frees | src/IPC_Mutex.cpp:67-69 | a holder frees the word |
| FutexProgress.Wakes | src/IPC_Mutex.cpp:69-73 | then it wakes any one of the sleepers, or nobody when nobody sleeps |
| FutexProgress.EachGoesOn | src/IPC_Mutex.cpp:51-78 | in every state, each thread that is not finished and not asleep has a step of its own that moves it |
| FutexProgress.ContendedLockSleeps | src/IPC_Mutex.cpp:51-64 | lock() at a held word, undisturbed, ends asleep with the word still held |
| FutexProgress.SleeperIsWoken | src/IPC_Mutex.cpp:51-78 | a run from every fresh mutex that two threads want: one holds, the other fails and sleeps, is woken, and acquires |
| KeyFile.StepKeepsInv | src/IPC_FileMutex.cpp:41-65 | what each process knows at each step, who holds the file lock, and whether the segment's mutex has a holder, or a wake-up outstanding, alive or dead, stay true under any step or crash of any process |
| KeyFile.LeavesIff | src/IPC_FileMutex.cpp:23-65 | a process leaves without a segment if and only if it crashes, the key it drew is taken, or a signal interrupts its wait for the mutex; attaching never fails and finds a segment with all its initialising stores made |
| KeyFile.RunKeepsInv | src/IPC_BufferManager.cpp:48-113 | over every run, a written key stays, and so does the segment it names |
| KeyFile.StepDecreases | src/IPC_BufferManager.cpp:48-113 | every step lowers a measure of the processes' progress and of the calls still to come, though waking a sleeper sets that one back |
| KeyFile.StoppedIff | src/IPC_BufferManager.cpp:105-112 | where nothing goes on, somebody has not finished if and only if a process has died in the segment's mutex and an attacher sleeps there; FileMutex never leaves anybody waiting |
| KeyFile.OrphanedForEver | src/IPC_BufferManager.cpp:109-111 | once the holder of the segment's mutex has died, nobody is counted in any more, over any run |
| KeyFile.EveryRunAgrees | src/IPC_BufferManager.cpp:48-113 | for any processes, interleaving, crashes and later calls: those that finish, at whatever moments, use the same completely initialised segment of one creator, at most one key is ever written, every finished process is counted, the run is finite, and it stops unfinished exactly as StoppedIff says |
| KeyFileProgress.MayCrash | src/IPC_BufferManager.cpp:48-113 | every process alive can crash at every point; its file lock goes, the word and the count of the segment stay |
| KeyFileProgress.Reads | src/IPC_BufferManager.cpp:57-69 | nothing read means creating, a key attaching; for other contents the two users differ |
| KeyFileProgress.MayCreate | src/IPC_BufferManager.cpp:77-87 | any positive key may be drawn; a taken one ends init, any other gives a zero-filled segment |
| KeyFileProgress.MayStore | src/IPC_BufferManager.cpp:97-122 | FileMutex makes one initialising store, of the word; BufferManager three, the second of which counts the creator |
| KeyFileProgress.Attaches | src/IPC_BufferManager.cpp:62-65 | attaching finds all stores made, one or three, and BufferManager goes on to the segment's mutex |
| KeyFileProgress.Tries | src/IPC_BufferManager.cpp:107-109 | the mutex is taken when its word is 1, otherwise the process sleeps |
| KeyFileProgress.WorksAndReleases | src/IPC_BufferManager.cpp:109-111 | a holder counts itself in, or does its call, and frees the word |
| KeyFileProgress.WakesOne | src/IPC_Mutex.cpp:69-73 | any one of those that sleep there is woken, or nobody when nobody does |
| KeyFileStranded.DeadHolderStrands | src/IPC_BufferManager.cpp:105-112 | a run from the start: an attacher dies with the segment's mutex, the next one gets the file lock and sleeps for ever |
| KeyFileStranded.LostWakeStrands | src/IPC_Mutex.cpp:67-78 | a run from the start: a process dies between freeing the word and FUTEX_WAKE, and an attacher sleeps at a free word |
| BitWords.SizeIsLeast | src/BitBuffer.cpp:13-37 | getSizeBytes is the least number of 8-bit bytes that has room for the bits and makes whole units of 8 bytes; these are the constructor's units |
| BitWords.SizeHolds | src/BitBuffer.cpp:13-37 | storage of that many bytes has every unit in which there is a bit |
| BitWords.AliasesIff | src/BitBuffer.cpp:100 | with the repaired shift no two positions share a mask; as written those of a unit that are 32 apart do |
| BitWords.MaskNumbers | src/BitBuffer.cpp:100 | the masks at the ends of both halves of a unit, for both shifts, as numbers |
| BitWords.MasksMeet | src/BitBuffer.cpp:97-100 | two positions of a unit have the same mask or masks that share no bit, and exactly when, for both shifts |
| BitWords.WriteThenRead | src/BitBuffer.cpp:93-117 | a write shows at the position written and those that alias it, and nowhere else in any unit |
| BitWords.WritesAreExactIff | src/BitBuffer.cpp:104-117 | every write changes exactly one position if and only if the shift is repaired or there are at most 32 bits |
| BitWords.InitialAllFree | src/BitBuffer.cpp:64-73 | after init every position reads FREE, for both shifts |
| BitWords.InitialTailIff | src/BitBuffer.cpp:66-73 | init leaves the unused bits of the last unit zero if and only if the shift is repaired or at most 31 are used |
| BitWords.LastUnitFlooded | src/BitBuffer.cpp:66-73 | as written, with 32 or more elements in the last unit every bit from 31 up is set |
| BitWords.BehavesAsBitsIff | src/BitBuffer.cpp:54-117 | over every run of writes from init the buffer refines a sequence of booleans, if and only if the shift is repaired or there are at most 32 bits |
| BitWords.TailStaysZeroIff | src/BitBuffer.cpp:54-117 | the unused bits stay zero over every run under the condition of InitialTailIff, and only then |
| FirstFit.First | src/BitBuffer.cpp:120-152 | the position searched for: free, in range, none smaller; -1 only if there is no free run at all |
| FirstFit.FirstIsUnique | src/BitBuffer.cpp:120-152 | that description has one solution, for length 0 too |
| BitBuffer.IdxPassesIff | src/BitBuffer.cpp:78-83 | checkIdx accepts exactly the positions that exist, if and only if there are any; otherwise it accepts every index |
| BitBuffer.Int32KeepsIff | src/BitBuffer.cpp:145-151 | returning through an int keeps the result if and only if it is below 2^31, makes it negative up to 2^32, never makes it larger, and always gives the number of 32 bits it is congruent to |
| BitBuffer.BitBuffer.constructor | src/BitBuffer.cpp:27-37 | storage of getSizeBytes bytes, at 8 bytes a unit, is enough: it has the unit of every position |
| BitBuffer.BitBuffer.Init | src/BitBuffer.cpp:54-75 | everything reads FREE afterwards, in storage of its own or the caller's, of which nothing beyond the units changes |
| BitBuffer.BitBuffer.Get | src/BitBuffer.cpp:93-101 | reads the view, or throws for a bad index; a buffer of no bits reads whatever its storage holds there |
| BitBuffer.BitBuffer.Set | src/BitBuffer.cpp:104-117 | rewrites one unit, which shows at the position and its aliases alone; a bad index throws and changes nothing; a buffer of no bits writes into its storage |
| BitBuffer.BitBuffer.Find | src/BitBuffer.cpp:124-152 | the single-pass counter loop returns the first fit, through an int; too large a number throws |
| BitBuffer.BitBuffer.CreateOther | src/BitBuffer.cpp:165-185 | own storage is copied, a caller's storage is shared; a buffer copied from itself keeps only the latter |
| BitBuffer.BitBuffer.CopyOf | src/BitBuffer.cpp:188-191 | a copy shows the same bits, in fresh storage if the original owns its own |
| BitBuffer.BitBuffer.MoveOf | src/BitBuffer.cpp:194-202 | a move hands the storage over, and only one of the two frees it |
| Allocator.PointerRoundTrip | include/cppgenerics/IPC_Allocator.h:94-106 | pointer to index exactly inverts index to pointer, for any element size |
| Allocator.Allocator.constructor | include/cppgenerics/IPC_Allocator.h:49-63 | a bitmap of getSizeBytes bytes, at 8 bytes a unit, has a bit for each element that fits and less than a unit more; all are FREE |
| Allocator.Allocator.Allocate | include/cppgenerics/IPC_Allocator.h:78-98 | marks the first fit, as an int, FULL and returns its address; otherwise a null pointer or an exception, and nothing changes |
| Allocator.Allocator.Deallocate | include/cppgenerics/IPC_Allocator.h:101-113 | as written, exactly the bits that alias positions from twice the index on become FREE, repaired those from the index on; the call throws if and only if that range is not empty and ends beyond the last position, and then clears nothing; for any pointer into the storage |
| AllocatorRuns.StepKeepsIff | include/cppgenerics/IPC_Allocator.h:78-113 | a step keeps regions in bounds and disjoint, FULL bits exactly theirs, free storage zero, if and only if its guard holds, for both shifts and both loops |
| AllocatorRuns.FreesPlainlyIff | include/cppgenerics/IPC_Allocator.h:106-112 | the repaired loop, regions at index 0 and empty regions meet the guard of a deallocation, and where every position has its own bit nothing else does |
| AllocatorRuns.SmallSurvives | src/BitBuffer.cpp:145-151 | below 2^32 elements an allocation always meets its guard; below 2^31 every call is defined |
| AllocatorRuns.DeallocateIs | include/cppgenerics/IPC_Allocator.h:101-113 | a step of a run does that to bits and bytes, in numbers |
| AllocatorRuns.StoreIs | include/cppgenerics/IPC_Allocator.h:94-97 | what a client stores in its region is there, and nothing else changes |
| AllocatorRuns.EveryAllocationIsSafe | include/cppgenerics/IPC_Allocator.h:78-98 | over every run and for both shifts, an allocation is in bounds in bytes, disjoint from live regions, zeroed and first fit; a failed one finds nothing available that starts where an int can say |
| AllocatorRuns.NothingLostIff | include/cppgenerics/IPC_Allocator.h:78-113 | over every run free bits and live elements add up to the whole, if and only if the shift is repaired or there are at most 32 elements |
| AllocatorRuns.AllFreedIsFresh | include/cppgenerics/IPC_Allocator.h:101-113 | frees in any order end in the bitmap and storage of the constructor |
| AllocatorRuns.DeallocateUndoesAllocate | include/cppgenerics/IPC_Allocator.h:78-113 | deallocating what was just allocated restores the whole state, whatever the client stored, if and only if the deallocation meets its guard |
| AllocatorRuns.AllocateIsStep | include/cppgenerics/IPC_Allocator.h:78-98 | allocate() on the object is a step of the runs, and the pointer returned is that of the new region |
| AllocatorRuns.DeallocateIsStep | include/cppgenerics/IPC_Allocator.h:101-113 | deallocate() given the pointer to a live region is a step of the runs |
| AllocatorRuns.PointerLeadsBack | include/cppgenerics/IPC_Allocator.h:94-112 | the pointer to a live region gives its index back, and clearing its bytes clears its elements, all inside the storage |
| CNames.StrNEqualIff | src/IPC_BufferManager.cpp:181 | strncmp is 0 if and only if no character among the first n differs before, or at, a NUL or an end |
| CNames.SameNameIff | src/IPC_BufferManager.cpp:181 | two names have the same part that counts if and only if they are alike in that sense |
| CNames.NameIs | src/IPC_BufferManager.cpp:181 | that part is what comes before the first NUL, at most n characters |
| CNames.CopiedIs | src/IPC_BufferManager.cpp:389 | strncpy, character by character: the source up to its first NUL, then NULs, and nothing beyond n |
| CNames.EqualIffSameName | src/IPC_BufferManager.cpp:181 | strncmp over the C strings of two names compares exactly their parts that count |
| CNames.CopyStoresName | src/IPC_BufferManager.cpp:389 | strncpy stores the part of the name that counts, whatever the field held |
| MutexManager.Manager.FindDescriptor | src/IPC_MutexManager.cpp:44-53 | the first slot whose name is alike, character by character, or none is |
| MutexManager.Manager.FindFreeDescriptor | src/IPC_MutexManager.cpp:56-65 | the first slot without a name, or all have one |
| MutexManager.Manager.GetMutex | src/IPC_MutexManager.cpp:68-92 | the new table and the slot are those of the specification |
| MutexManager.GetEffect | src/IPC_MutexManager.cpp:74-92 | a call names and unlocks at most one free slot, leaves every other slot and its word alone, and throws exactly when the name is new and all slots are taken; used slots stay a prefix with distinct names |
| MutexManager.RunKeeps | src/IPC_MutexManager.cpp:74-92 | over any run of calls and locking a named slot keeps its name |
| MutexManager.StableInjection | src/IPC_MutexManager.cpp:44-92 | at any two moments of any run, two names get the same word if and only if they agree in every character that counts, provided the first is not empty |
| MutexManager.StableIff | src/IPC_MutexManager.cpp:44-92 | that promise holds for a caller if and only if the name asked for is not empty or no new name is left |
| MutexManager.EmptyNameCollides | src/IPC_MutexManager.cpp:44-92 | an empty name gets a free slot with the word it has, LOCKED where free slots are; the next new name gets the same slot and sets it UNLOCKED, whatever the first caller has stored there |
| DescriptorLists.ListsAreUnique | include/cppgenerics/IPC_Buffer.h:25-45 | a table determines its two lists |
| DescriptorLists.PartitionCounts | include/cppgenerics/IPC_Buffer.h:31-45 | the lists together have exactly as many nodes as the table |
| DescriptorLists.InitialWf | src/IPC_BufferManager.cpp:99-122 | the initial chaining is one free list of all indices in order |
| DescriptorLists.TakeWf | src/IPC_BufferManager.cpp:200-236 | taking moves the head of the free list to the head of the full list, both stay exact in both directions, no other field changes, and nothing is taken exactly when nothing is free |
| DescriptorLists.PutWf | src/IPC_BufferManager.cpp:239-267 | returning takes the descriptor out of wherever it sits on the full list, blanks it, and puts it in front of the free list |
| DescriptorLists.PutAgainWf | src/IPC_BufferManager.cpp:239-267 | returning a free descriptor that is not the head once more moves it to the front of the free list |
| DescriptorLists.PutFreeHeadBreaks | src/IPC_BufferManager.cpp:239-267 | returning the head of the free list once more leaves a table no pair of lists explains, repaired or not |
| DescriptorLists.BlankIs | src/IPC_BufferManager.cpp:253 | memset zeroes every field, and every character of the name |
| DescriptorLists.PutHeadBreaks | src/IPC_BufferManager.cpp:239-267 | as written, returning the head of the full list leaves a table no pair of lists explains |
| BufferTable.LookupFinds | src/IPC_BufferManager.cpp:169-197 | on a well-formed table the lookup ends and finds the full descriptor with the name, or there is none |
| BufferTable.LookupFindsAlike | src/IPC_BufferManager.cpp:169-197 | the descriptor found has a name alike, character by character, and none is found if and only if no full descriptor has |
| BufferTable.ReturnedHeadLoops | src/IPC_BufferManager.cpp:200-267 | as written, a head returned and taken again is its own successor, and looking up any other name never ends |
| BufferManager.Manager.ForNewTable | src/IPC_BufferManager.cpp:41-60 | the creating process's table is the initial one |
| BufferManager.Manager.InitDescriptors | src/IPC_BufferManager.cpp:115-122 | the loop chains the zero-filled array |
| BufferManager.Manager.GetDescriptor | src/IPC_BufferManager.cpp:169-197 | the walk ends with the lookup's result |
| BufferManager.Manager.GetFreeDescriptor | src/IPC_BufferManager.cpp:200-236 | the whole new table and the index are those of Take |
| BufferManager.Manager.PutFreeDescriptor | src/IPC_BufferManager.cpp:239-267 | the whole new table is that of Put |
| BufferManager.Manager.AttachDescriptor | src/IPC_BufferManager.cpp:282-299 | a new segment, whose key must not be taken, or an existing one is attached and cached, or nothing changes and it throws |
| BufferManager.Manager.DetachDescriptor | src/IPC_BufferManager.cpp:302-311 | the segment's key, the descriptor and the cache entry go together |
| BufferManager.Manager.BufferFree | src/IPC_BufferManager.cpp:316-330 | one count less, and detached when that was the last |
| BufferManager.Manager.RefCountInc | src/IPC_BufferManager.cpp:333-340 | one count more and nothing else |
| BufferManager.Manager.GetBuffer | src/IPC_BufferManager.cpp:370-420 | the new state and the result are those of Get |
| BufferManager.Manager.CreateBuffer | src/IPC_BufferManager.cpp:374-400 | the creating branch with its three failures |
| BufferManager.Manager.MapBuffer | src/IPC_BufferManager.cpp:401-419 | the mapping branch, cached or attached |
| BufferManager.Manager.Teardown | src/IPC_BufferManager.cpp:144-153 | the destructor's loop is TeardownFrom |
| BufferManager.Buffer.CopyOf | src/IPC_BufferManager.cpp:438-460 | copying and moving take over the fields and count once more |
| BufferManager.Buffer.Assign | src/IPC_BufferManager.cpp:463-473 | undisturbed, assignment frees first, then takes over, and counts unless the second lock() is interrupted |
| BufferManager.Buffer.Destroy | src/IPC_BufferManager.cpp:476-479 | destruction frees |
| BufferBook.SegmentFitsIff | src/IPC_BufferManager.cpp:387 | the segment has room for data and mutex if and only if their sizes add up in a size_t; otherwise not even for the mutex |
| BufferRuns.StepKeepsIff | src/IPC_BufferManager.cpp:316-479 | a step of any of the processes, an interrupted operator= included, keeps lists, names, segments, counts and handles in order if and only if its guard holds, whoever else has had the buffer |
| BufferRuns.RunKeepsInv | src/IPC_BufferManager.cpp:316-479 | so every guarded run does |
| BufferRuns.EveryRunConserves | src/IPC_BufferManager.cpp:316-349 | after every run, across processes: a descriptor is full if and only if a handle refers to it, its count is the number of its handles, every handle has the size its buffer was created with, and a segment of that many bytes and the mutex, exactly when that is a size_t |
| BufferRuns.AssignIsDestroyThenCopy | src/IPC_BufferManager.cpp:463-473 | undisturbed, assigning over another live handle is destroying it and copying anew |
| BufferRuns.SelfAssignIff | src/IPC_BufferManager.cpp:463-473 | after the first part of b = b the second is in order if and only if b was not the only handle |
| BufferRuns.SelfAssignIsNothing | src/IPC_BufferManager.cpp:463-473 | undisturbed, and with another handle alive, b = b changes nothing |
| BufferRuns.SelfAssignRaces | src/IPC_BufferManager.cpp:463-473 | with two handles, the other one destroyed between the two parts, every step so far is in order and the second part is not |
| BufferRuns.InterruptedAssignDangles | src/IPC_BufferManager.cpp:463-479 | after an operator= whose second lock() was interrupted everything is in order, and destroying or assigning to the object while the original is alive is not |
| BufferRuns.GetBufferKeepsWords | src/IPC_BufferManager.cpp:428-436 | getBuffer never changes the mutex of a segment that exists, and a new one starts unlocked |
| BufferRuns.CallsAreSteps | src/IPC_BufferManager.cpp:370-479 | in every state in order, every call a client can make is a step: any name, size and answer of the kernel, and any handle alive |
| BufferRuns.RefusedCreation | src/IPC_BufferManager.cpp:381-392 | a refused creation leaves a descriptor that is named, keyed and counted by nobody; segments, handles and caches stay |
| BufferRuns.SetWordIs | src/IPC_BufferManager.cpp:428-436 | locking and unlocking a buffer changes the word of its segment alone |
| BufferCurrency.StaysAsHandedOut | src/IPC_BufferManager.cpp:302-330 | no step of any process that leaves a live handle alone changes whether it points into the current segment |
| BufferCurrency.RunStaysAsHandedOut | src/IPC_BufferManager.cpp:302-330 | nor does any run |
| BufferCurrency.HandsOutCurrentIff | src/IPC_BufferManager.cpp:370-420 | getBuffer hands out the current segment if and only if it creates it, has nothing cached for the descriptor, or has the current one cached |
| BufferCurrency.CopiesCurrentIff | src/IPC_BufferManager.cpp:438-473 | a copy, or what operator= takes over, has the original's fields, whole, and points into the current segment if and only if they do |
| BufferCurrency.StepKeepsSyncedIff | src/IPC_BufferManager.cpp:302-330 | a step leaves every process with current segments only, those of all its handles among them, if and only if no other process has a buffer cached that goes, and what is copied or taken over is what its process has cached |
| BufferCurrency.AlwaysSyncedIff | src/IPC_BufferManager.cpp:302-330 | at every moment of a run all caches are current if and only if every step meets that condition |
| BufferCurrency.EveryHandleIsCurrent | src/IPC_BufferManager.cpp:403-436 | then every live handle and everything cached points into the current segment |
| BufferCurrency.OneProcessCachesAll | src/IPC_BufferManager.cpp:403-413 | one process alone, after every run: its cache has an entry for exactly the full descriptors, each the current segment, however often they were reused |
| BufferStale.SharedOnceLeavesStale | src/IPC_BufferManager.cpp:302-311 | sharing a buffer once and giving it back restores names, counts, segments and handles, and leaves a segment that is gone in the cache of the process that was not the last |
| BufferStale.StaleIsHandedOut | src/IPC_BufferManager.cpp:403-413 | the next buffer in that descriptor is one segment to its creator and another to that process |
| BufferStale.StaleFromFresh | src/IPC_BufferManager.cpp:302-413 | so a guarded run from every fresh table ends with a handle that does not point into its buffer's segment |
| BufferDirectory.GetBufferRefines | src/IPC_BufferManager.cpp:370-420 | getBuffer refines a map from name to size and count: which results and which new map, with failure only for 0 bytes, a full map or a refusing kernel |
| BufferDirectory.CopyRefines | src/IPC_BufferManager.cpp:448-473 | copying, or taking over in operator=, raises one entry's count |
| BufferDirectory.DestroyRefines | src/IPC_BufferManager.cpp:316-330 | destroying, or freeing in operator=, lowers one entry's count, and removes the entry and returns the descriptor exactly when that was the last handle of all processes |
| BufferDirectory.QuietRefines | src/IPC_BufferManager.cpp:463-479 | objects that were never counted leave the map as it is |
| BufferDirectory.DirectorySize | src/IPC_BufferManager.cpp:381-385 | the map is full exactly when no descriptor is free |
| BufferLedger.SameBufferIff | src/IPC_BufferManager.cpp:169-197 | two calls of getBuffer, by any processes at any two moments of any run while the first handle is alive, get the same descriptor if and only if their names agree in every character that counts |
| BufferLedger.StepRefines | src/IPC_BufferManager.cpp:370-479 | every step of every process is an operation on the map and on the names that handles stand for |
| BufferLedger.StepBalances | src/IPC_BufferManager.cpp:370-479 | those operations keep each entry's count equal to the handles with its name, with no entry without one and no more entries than descriptors |
| BufferLedger.EveryRunRefines | src/IPC_BufferManager.cpp:370-479 | every run from a fresh table is a run of the map and the names from nothing, and ends in balance |
| BufferTeardown.StepKeepsBlank | src/IPC_BufferManager.cpp:253 | free descriptors never carry a name |
| BufferTeardown.TeardownEmptiesIff | src/IPC_BufferManager.cpp:144-153 | teardown empties the full list if and only if, repaired, no buffer in use has the empty name, and, as written, none was in use; the free list then holds every descriptor once |
| BufferTeardown.EveryRunTearsDown | src/IPC_BufferManager.cpp:138-166 | so after every run, whatever handles are left alive |
| BufferSegments.StepAccounts | src/IPC_BufferManager.cpp:282-311 | no step leaks a segment or removes one of another program |
| BufferSegments.EveryRunReturnsSegments | src/IPC_BufferManager.cpp:282-330 | after every run the kernel has the segments of other programs, as they were, and exactly one for each buffer that some process has a handle on |
| BufferSegments.TeardownRemoves | src/IPC_BufferManager.cpp:144-153 | on any table, as written and repaired, the loop removes exactly the segments and cached addresses of the descriptors with a name |
| BufferSegments.TeardownReturnsSegments | src/IPC_BufferManager.cpp:144-153 | from any table a run can leave these are the full descriptors with a name, and everything else stays |
| BufferSegments.EveryRunTearsDownSegments | src/IPC_BufferManager.cpp:138-166 | so after every run the loop leaves the segments of other programs and of buffers in use with an empty name, and no others |

## Left out

- `Syscalls`, `FileLock`, `Logger`, `Exception`: wrappers of libc; the file lock is an exclusive lock the kernel drops when a process dies, a futex call is one atomic step.
- `shmget`, `shmat`, `shmctl`: whether they succeed otherwise is a parameter; the key drawn is a parameter too, since the random retry of `allocShmKey` need not end.
- A process whose `init()` threw is gone in the key-file model; in the source its next `getInstance()` returns the manager that has not counted itself in, and whose destructor lowers a count it never raised (src/IPC_BufferManager.cpp:28-34).
- An interrupted `lock()` in a destructor ends the process; in a copy constructor, in `getBuffer` and in the first part of `operator=` it changes nothing, and is no step of a run.
- Removal of the key file by the last manager: the destructor does not take the file lock, so agreement is stated up to the first teardown.
- `read` and `write` of the key transfer all of its bytes or none; the branches for other lengths are modelled and shown not to be reached.
- `MutexManager::getMutex` called by several threads at once: it has no lock of its own.
- Allocate: does not say what happens when the loop's `int` overflows, which C++ leaves undefined.
- Deallocate: does not say what happens for pointers before the storage, clearing past its end, or an `int` loop that overflows, which C++ leaves undefined.
- In the key-file model a failed compare-and-swap and its FUTEX_WAIT are one step, and FUTEX_WAIT does not return spuriously; `FutexMutex.dfy` has both, without crashes.
- RefCountInc: does not model a count of 2^64 handles wrapping to 0.
- Null: destroying or copying a default-constructed `Buffer` dereferences a null pointer; such calls are not part of a run.
- The `Mutex` object on the heap that the copies of a `Buffer` share, and the contents of buffers other than the allocator's.
- CreateOther: says nothing about the contents after a buffer with storage of its own is assigned to itself, because the source copies uninitialised memory there.
- An `Allocator` attached to an existing store re-initialises its bitmap; one constructor per store is modelled.
- `BufferManager::get_SysNumAttached`, a kernel statistic, and with it the choice of the process that tears down.
- A process that dies without running its destructors keeps its counts; teardown clears what it leaves.
- `NetLinkListener`, `SignalHandler`, `ProgressBar`, `IPC_Container.h`: sockets, signal masks, terminal output, indexing over a raw buffer.
