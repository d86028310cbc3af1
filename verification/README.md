# Linked list, mutex, semaphore and shared-memory demos: a Dafny model

The project models the four programs of the repository that hold algorithms or protocols and
proves what they promise for every list, every run and every interleaving.

**The linked list** (`05-link_list1.c`). `CHeap.dfy` models malloc, free and the fields of a node:
`Heap` is a ghost ledger of live and freed nodes, and every read or write of a field goes through
an accessor that requires the node to be live and, for reads, the field to have been stored.
Erasing the ghost parts leaves the pointer program. `LinkList.dfy`, `Purging.dfy` and `Builders.dfy`
hold the operations with their loops; each takes the list's spine, the sequence of its nodes, as a
ghost argument and is proved against functions on sequences from `Seqs.dfy`. The header is node 0
for `Get`, `Insert` and `Delete`, and its data field is never set, so `Locate` is specified for
chains whose nodes all hold data. `Lifetime.dfy` proves what holds across operations: every
sequence of edits, the whole life of a list, the main program, and laws such as
reverse-purge-reverse.

**The semaphore** (`21-semaphobe.c`). `Semaphore.dfy` follows the description and errors of
semop() in POSIX.1-2017 System Interfaces. In this program `Sem_P` adds one and `Sem_V` subtracts
one, both without waiting, and results are ignored; the model does the same. The class `Kernel`
holds the set and serves the wrappers, and the state and replies after any history of calls follow
from the calls and replies alone. `SemRounds.dfy` lets any number of callers repeat the loop body
in any interleaving.

**The shared-memory demo** (`22-share_mem.c`). `SharedMemory.dfy` is a step machine of the parent,
whose memcpy stores single bytes in any order, and the child, which reads byte by byte. The child
ignores the result of its `Sem_V`, so the semaphore does not decide what it prints. Whatever the
segment held before, it prints exactly the message if and only if every byte of it, the NUL
included, is stored before the read of that byte. A successful `Sem_V` is sufficient for that and
not necessary: for every message there is a run in which the call fails and the message is
printed, and one in which it fails and something else is.

**The mutex demo** (`25-mutil-thread-mutex.c`). `MutexCounter.dfy` is a step machine of the main
thread, any number of producers and any number of consumers; `++` and `--` are a load and a store,
and each print loads the counter again. The program is the instance with one of each. What all
complete runs together can print is settled exactly: a line by any thread at any time, each sum one
up or down from the last.

Methods hide the definitions of the chain predicates and use lemmas about them instead, which
keeps each proof small.

Reading order: `Seqs.dfy`, `CHeap.dfy`, `LinkList.dfy`, `Purging.dfy`, `Builders.dfy`,
`Lifetime.dfy`; `Tally.dfy`, `Semaphore.dfy`, `SemRounds.dfy`, `SharedMemory.dfy`,
`MutexCounter.dfy`. `dafny verify dfyconfig.toml` checks the whole project; add
`--resource-limit 2000000` for the limit every proof is kept within.

## Model

| member | source | states |
|---|---|---|
| Purging.Purge | 05-link_list1.c:43-65 | the nodes left are exactly those of the first occurrence of each value, in order; exactly the others are freed; no value changes; no freed node is ever read; and the comparisons made are exactly `Work` |
| Purging.Drop | 05-link_list1.c:52-57 | removing a repeated node leaves the final result and the accounting of comparisons as they were |
| Seqs.FirstsIsSelection | 05-link_list1.c:43-65 | reference reading of "first occurrences": increasing positions, exactly those whose value was not seen before |
| Seqs.FirstsAbsorbsRemoval | 05-link_list1.c:52-57 | deleting any occurrence that has an earlier equal one does not change what a purge leaves |
| Seqs.DedupAbsorbsInsertion | 05-link_list1.c:43-65 | inserting a value behind an equal one does not change what a purge leaves |
| Seqs.DedupIdempotent | 05-link_list1.c:43-65 | a second purge changes nothing |
| Seqs.DedupDistinct | 05-link_list1.c:43-65 | a purged list holds no value twice |
| Seqs.DedupMembers | 05-link_list1.c:43-65 | a purge neither loses nor invents a value |
| Seqs.WorkOfRemoval | 05-link_list1.c:47-64 | a repeated element costs exactly one comparison per distinct value before its own, plus the one that removes it |
| Seqs.WorkOfDistinct | 05-link_list1.c:47-64 | on distinct values a purge makes 0+1+...+(n-1) comparisons |
| Seqs.WorkBounds | 05-link_list1.c:47-64 | with k distinct values among n: at least 0+1+...+(k-1) comparisons plus one for each repeated element, and at most k passes over all n nodes |
| Seqs.ComparisonBounds | 05-link_list1.c:47-64 | with k distinct values among n, between k(k-1)/2 + n - k and k*n - k(k+1)/2 comparisons, and exactly n(n-1)/2 when all are distinct |
| Seqs.WorkMaximal | 05-link_list1.c:47-64 | the upper bound is met exactly when only the last distinct value is ever repeated |
| Seqs.RevFirstsRev | 05-link_list1.c:43-79 | reversing, keeping first occurrences and reversing keeps exactly the last occurrences, in order |
| Seqs.RevRev | 05-link_list1.c:67-79 | reversal is its own inverse |
| Seqs.RevAt | 05-link_list1.c:67-79 | position k of the reversal is position n-1-k of the list |
| LinkList.Reverse | 05-link_list1.c:67-79 | the same nodes in exactly the opposite order; nothing allocated, freed or overwritten |
| LinkList.Get | 05-link_list1.c:153-170 | the node at index i with the header as 0, and NULL exactly outside 0..length, for every integer i |
| LinkList.Locate | 05-link_list1.c:142-151 | the node of the least index holding x, and NULL exactly when x is absent |
| LinkList.Length1 | 05-link_list1.c:190-200 | the number of nodes behind the given one |
| LinkList.Length2 | 05-link_list1.c:172-188 | the number of nodes from the given one on, 0 for NULL |
| LinkList.Scan | 05-link_list1.c:92-103 | line k has number k and the data of the k-th node behind the header, and there is one line per node |
| LinkList.Insert | 05-link_list1.c:123-140 | succeeds exactly for 1..n+1 and links one new node there; all other nodes keep identity and value; a failure changes nothing |
| LinkList.Delete | 05-link_list1.c:105-121 | succeeds exactly for 1..n and frees the node there; all other nodes keep identity and value; a failure changes nothing |
| LinkList.Unlink | 05-link_list1.c:116-118 | the three statements Delete and the purge share remove and free exactly the node behind the given one |
| LinkList.Destroy | 05-link_list1.c:81-90 | frees exactly the nodes of the chain, each once |
| CHeap.Malloc | 05-link_list1.c:134 | a node never live or freed before, with both fields unset |
| CHeap.Free | 05-link_list1.c:56 | only a live node can be freed; that node, and no other, moves from the live to the freed ones |
| Builders.CreateWithHeader | 05-link_list1.c:202-220 | a header and one new node per number before the first 99, in input order: the values are the input up to there, 99 is not among them and comes next; although the tail's next is unset while it grows |
| Builders.Append | 05-link_list1.c:213-215 | extends the chain under construction by one node whose next field is still unset |
| Builders.AppendHeadless | 05-link_list1.c:230-240 | the same for the builder without a header, the first node included |
| Builders.CreateByAppending | 05-link_list1.c:222-248 | the same numbers, up to the first 99, in the same order without a header, NULL for none |
| Builders.CreateByPushing | 05-link_list1.c:250-265 | the same numbers in reverse order without a header: node k holds the k-th number read backwards from the first 99 |
| Lifetime.BuildersAgree | 05-link_list1.c:202-265 | the three builders hold the same numbers, the pushing one reversed, and reversing the header list gives the pushing one's numbers |
| Lifetime.Run | 05-link_list1.c:43-140 | for every sequence of insertions, deletions, reversals and purges the list simulates the abstract one in values, codes and node identities; the live nodes are exactly those of the list besides the untouched rest, and the freed ones are exactly the original and inserted nodes that are no longer in it |
| Lifetime.Step | 05-link_list1.c:43-140 | the same for one operation, with its code (0 or -1) stated from the position and the length, and the freed set exactly the removed nodes |
| Lifetime.OneOperation | 05-link_list1.c:43-140 | a trace of one operation, in terms of positions alone: where an insertion and a deletion happen and with what code, that a reversal turns positions round, and that a purge keeps exactly the increasing positions of first occurrences, of nodes and of values |
| Lifetime.TraceSplits | 05-link_list1.c:43-140 | a trace does what its first part and then its second part do, in values, codes and nodes, so one operation and this law settle every trace |
| Lifetime.CodesTell | 05-link_list1.c:105-140 | in every trace the codes account for the length: the list grows by one for each insertion answered 0 and shrinks by one for each deletion answered 0, every other answer to them is -1, and only a purge removes more |
| Lifetime.Live | 05-link_list1.c:29-140 | build, edit in any way, list and destroy: prints the numbered values of the abstract result and leaves the heap with exactly the nodes it had |
| Lifetime.Program | 05-link_list1.c:29-41 | main prints the numbers before the first 99, numbered from 1, and then their first occurrences, numbered from 1, in exactly `Work` comparisons, and nothing stays allocated |
| Lifetime.ReverseTwice | 05-link_list1.c:67-79 | two reversals restore the very nodes in their order |
| Lifetime.KeepLast | 05-link_list1.c:43-79 | revers, pur_LinkList, revers leave exactly the nodes of the last occurrences, and free exactly the others |
| Lifetime.SearchAgrees | 05-link_list1.c:142-200 | Get, Locate and both lengths agree: Locate is Get at the least index that holds x |
| Lifetime.InsertDeleteRestores | 05-link_list1.c:105-140 | Insert at i then Delete at i restores the nodes, their order and the values of every list, for every integer i |
| Lifetime.InsertThenDelete | 05-link_list1.c:105-140 | the same on the heap: the very spine and values are back, and exactly the one node a successful insertion made is freed |
| Lifetime.DeleteInsertRestores | 05-link_list1.c:105-140 | Delete at i then Insert of x at i restores the values exactly when x was there or i is out of range for both, and puts the new node exactly in the place of the deleted one |
| Lifetime.PurgeAbsorbsInsert | 05-link_list1.c:43-140 | in a trace, inserting behind an equal value before a purge has no effect |
| Lifetime.PurgeAbsorbsDelete | 05-link_list1.c:43-140 | in a trace, deleting a later occurrence before a purge has no effect |
| Semaphore.Kernel.CreateSem | 21-semaphobe.c:31-45 | -1 and no change when semget fails, otherwise the set exists and holds the value if it is in range |
| Semaphore.Kernel.SemP | 21-semaphobe.c:47-51 | adds one exactly below the maximum, otherwise -1 and no change |
| Semaphore.Kernel.SemV | 21-semaphobe.c:53-57 | subtracts one exactly above zero, otherwise -1 and no change |
| Semaphore.HistoryTells | 21-semaphobe.c:31-77 | after every sequence of create, set, P, V, get and destroy calls the value is the last one stored plus the successful Ps minus the successful Vs since, within 0..maximum, and the set exists exactly if it was created, or there at first, and not removed since |
| Semaphore.RepliesExplained | 21-semaphobe.c:31-77 | every reply follows from the calls and replies before it: P, V and get on an absent or unknown set return -1, on a known one P fails exactly at the maximum and V at zero, and get returns the account; a failing call, and every call on an absent set, changes nothing |
| Semaphore.Kernel.ServeAll | 21-semaphobe.c:31-77 | serving any sequence of calls leaves the state, and gives the replies, of that history |
| Semaphore.Kernel.Program | 21-semaphobe.c:79-107 | every line main prints, failure messages included, for every outcome of ftok and semget and every system maximum, and the exact sequence of its calls; once ftok and semget succeed it prints 99 exactly when the maximum exceeds 100 |
| Semaphore.RoundsRestore | 21-semaphobe.c:94-98 | any number of rounds restores the value exactly when there is room for one more |
| SemRounds.Conservation | 21-semaphobe.c:31-57 | in every interleaving the value is the initial one plus successful Ps minus successful Vs, within 0..maximum; all callers finish after exactly two calls per round; the final value is off by exactly the failures |
| SemRounds.EveryInterleaving | 21-semaphobe.c:94-98 | a schedule runs if and only if no caller has more than two calls per round in it, so the laws about all runs are about all interleavings |
| SemRounds.ServedByKernel | 21-semaphobe.c:47-57 | in every interleaving the value and the successful calls are those of the kernel that serves the callers' alternating P and V calls in that order |
| SemRounds.BalancedRounds | 21-semaphobe.c:93-100 | no call fails in any interleaving if and only if the initial value leaves room for every caller with a round to do; then the value is the initial one plus the callers between their calls |
| SemRounds.OneMoreV | 21-semaphobe.c:99-100 | after a balanced run one more V takes one off a positive value |
| SharedMemory.PrintsMessageExactly | 22-share_mem.c:89-104 | a schedule prints nothing but the message, and all of it once done, from every earlier contents of the segment, if and only if each byte's store comes before its read |
| SharedMemory.OutputOfEveryRun | 22-share_mem.c:89-104 | the exact output of every run, message or not: each read shows the byte stored there by then or else what the segment held before, a NUL ends the output, a read beyond the segment is an overrun, and nothing else is printed |
| SharedMemory.EveryInterleaving | 22-share_mem.c:89-104 | after every run each process can make exactly the moves its program has left: any byte not yet stored, the P once all are stored, the V at any time once, and reads until the end |
| SharedMemory.SuccessIsInTime | 22-share_mem.c:89-104 | a child whose Sem_V succeeded has read every byte after its store |
| SharedMemory.PrintedWithoutV | 22-share_mem.c:89-104 | for every message and earlier contents there is an interleaving in which the Sem_V fails and the child prints exactly the message |
| SharedMemory.Publication | 22-share_mem.c:89-104 | in every interleaving a child whose Sem_V succeeded prints exactly the message, a prefix of it at every earlier moment, and reads nothing beyond the segment |
| SharedMemory.GotExactly | 22-share_mem.c:41-51 | the child's Sem_V succeeds exactly when the parent's Sem_P came first |
| SharedMemory.UnguardedRead | 22-share_mem.c:98-104 | for every message there are contents and an interleaving in which the Sem_V fails and the child prints something else |
| SharedMemory.Terminates | 22-share_mem.c:89-111 | every interleaving is finite, and some process can move until both have ended |
| MutexCounter.NoLostUpdate | 25-mutil-thread-mutex.c:27-48 | in every reachable state at most one thread is between lock and unlock, and the counter is the completed producer updates minus the completed consumer updates |
| MutexCounter.LogConsistent | 25-mutil-thread-mutex.c:31-46 | the k-th printed sum is the producer lines minus the consumer lines so far; consecutive sums differ by one in the printer's direction |
| MutexCounter.EveryHistory | 25-mutil-thread-mutex.c:27-48 | every order of updates by any of the threads, of any length, is the history of updates and of printed lines of some run |
| MutexCounter.PossibleOutputs | 25-mutil-thread-mutex.c:13-48 | the outputs of complete runs are exactly the sequences of lines by the threads in which each sum is the one before plus one for a producer and minus one for a consumer |
| MutexCounter.DeadlockFree | 25-mutil-thread-mutex.c:13-48 | some actor can move until the mutex is destroyed, and none after |
| MutexCounter.WaitsOnlyForMutex | 25-mutil-thread-mutex.c:29-35 | a thread that exists and has not exited is held up exactly when it wants to lock while some thread is between lock and unlock |
| MutexCounter.MainInOrder | 25-mutil-thread-mutex.c:17-23 | main creates the threads in order; no thread exits before all are created and the flag is down; then main is held up exactly until the next consumer, and after them the next producer, has exited |
| MutexCounter.FreeWhenDestroyed | 25-mutil-thread-mutex.c:21-23 | when main destroys the mutex nobody holds it, all threads have exited, and the last printed sum is the counter |
| MutexCounter.Shutdown | 25-mutil-thread-mutex.c:20-48 | once running is 0 each thread makes at most one more update, and all complete runs have the same length, at most 8n+1 steps |
| MutexCounter.OutcomeSettledAtStop | 25-mutil-thread-mutex.c:20-48 | the final counter and each thread's number of updates are settled by the state in which running becomes 0 |
| MutexCounter.CanFinish | 25-mutil-thread-mutex.c:13-48 | from every state that satisfies the invariant, and so from every reachable one, the program can finish |

## Left out

- LinkList.Insert: `int` is unbounded, so the overflow of i-1 for the least integer is not modelled; the same holds for Delete and for counters of very long lists.
- Builders.CreateWithHeader: reads numbers from a sequence that contains 99; scanf failing, or input that ends before 99, where the source loops, is not modelled. The same holds for the other two builders.
- CHeap.Malloc: never returns NULL; the source does not check for it.
- LinkList.Delete: the line printed on a refused position is not modelled, its code -1 is; the same holds for Insert.
- LinkList.Locate: is not specified for a chain that starts at a header, because it would read the header's data, which the source never stores.
- Semaphore.Kernel.CreateSem: there is one key and no other process using it; a set that is removed and created again gets the same identifier, and its value before one is stored is an arbitrary one within the range.
- SharedMemory.Publication: assumes sequentially consistent memory and that ftok, shmget, semget, shmat and fork succeed; shmdt and the ten-second sleep are no steps.
- MutexCounter.NoLostUpdate: assumes sequentially consistent memory and a mutex that starts unlocked; the failure of pthread calls and the microsecond sleep of main are not modelled, so the flag may go down at any moment.
- errno texts and printf and scanf formatting: printed lines are sequences of numbers, and for the semaphore program a datatype of its three messages.
- `24-mutil-thread.c`: its stop flag and join are a special case of the shutdown of the mutex demo.
- The socket, UDP, TCP, Unix-domain, multicast, select, signal, file, mmap, fcntl and ioctl programs: sequences of system calls without an algorithm of their own.
- `broadcast.c`: its exchange searches a receive buffer that is not terminated, so a property would be about a repaired program.
- `28-big_litter_endian.c`: the conversion is the library's.
