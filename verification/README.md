# Verified models of a collection of C and C++ systems

Each module models one component in the form that the component has: classes whose methods work
on link fields, arrays and maps in place, and step systems for the multi-threaded protocols. The
contracts and lemmas state what the component is for.

| files | component |
|---|---|
| `RedBlackShape`, `NodeStore`, `RedBlackTree`, `Ordering`, `Traversal`, `Sequences` | the red-black tree macros of `nty_tree.h` |
| `SplayShape`, `SplayDepth`, `SplayStore`, `SplayTree` | the top-down splay tree macros of `nty_tree.h` |
| `WorkerPools`, `WorkerPoolRequests`, `Counting`, `Options` | the thread pool and the connection pool of TinyWebServer, as one step system |
| `LruSpec`, `LinkedList`, `LruCache` | the LRU cache |
| `TailQueueShape`, `TailQueue` | the TAILQ macros of `nty_queue.h` |
| `HttpLines`, `HttpRequestLine`, `HttpRequestGrammar` | the resumable line scanner and the in-place request line parser |
| `BlockQueue`, `BlockQueueWaits`, `BlockQueueRuns`, `BlockQueueCalls` | the circular blocking queue: the ring, the waiting protocol, and the two together |
| `SharedPtr`, `SharedPrograms` | the reference-counted pointer, and any program that uses it |
| `ForkJoin` | the concurrent sum of squares |

## How the models are built

- **Trees.** Nodes are objects with left, right, parent and colour fields. A ghost tree, and a ghost
  path to the root where a loop climbs, says what the fields spell out. `RedBlackShape` and
  `SplayShape` reason about these trees, `NodeStore` and `SplayStore` about assignments to fields,
  and the classes join the two. The comparison is any function that is a strict weak order on keys.
- **Protocols.** A state has the program counter of every thread. An event is one step of one thread;
  mutexes are owners, semaphores counters, a condition variable the set of parked threads. What
  depends on requests, on the database or on early returns of a wait is a choice of the event, so
  that the theorems hold for every choice. Runs are sequences of events of any length.
- **Pointers to pointers.** A `Slot` is the address of a head's first field or of an element's next field.
- **Bytes.** The read buffer is an array. What the parser means is defined on the characters of a line,
  without positions, and the in-place method is proved to agree with it.
- **Handles.** `World` has the handles that exist and the control blocks ever made; `deleted` counts how
  often something was freed. What a program over handles means is defined on names and numbers.

## Where the code does not do what its text says

- `parse_request_line()` compares the method with POSE, so no POST request gets through
  (`HttpRequestLine.PostIsRejected`). The prefix tests look for `http::/` and `https::/`; after the
  first prefix without a later slash the code goes on with a null pointer, which is the verdict
  `Undefined` of the model (`HttpRequestLine.UndefinedExactly` and `UndefinedWitness`).
- `concurrent_task()` ignores its lower bound and splits 0..maxV (`ForkJoin.LowerBoundIgnored` and
  `LowerBoundWitness`); with too many threads for the range it adds squares beyond maxV
  (`ForkJoin.SplitExact` and `TooManyThreads`).
- `GetConnection()` reads the front of the free list after an unchecked wait; `WorkerPools.FrontExact`
  says exactly when that is safe.
- The branch of `parse_line()` for an LF whose CR was seen before is unreachable.
- `SPLAY_REMOVE` returns its argument, which is the element that it took out exactly if the argument
  itself was in the tree (`SplayTree.Splay.Remove`, `SplayTree.RemoveByEqualWitness`).
- A second `SharedPtr` on the same raw pointer starts a second count: counts and frees stay exact
  exactly if nobody owned the pointer (`SharedPtrs.SharedPtr.FromRaw` and `Reset`).

## Model

| member | source | states |
|---|---|---|
| RedBlackShape.GrandparentExists | kvstore/NtyCo/core/nty_tree.h:393-395 | in the insertion loop a red parent is never the root, so the grandparent that the loop reads is there |
| RedBlackShape.RedUncle | kvstore/NtyCo/core/nty_tree.h:397-403 | recolouring under a red uncle keeps the black heights and moves the only violation two levels up |
| RedBlackShape.InnerChild | kvstore/NtyCo/core/nty_tree.h:404-409 | the inner rotation turns an inner red child into an outer one; the only violation stays red under red |
| RedBlackShape.BlackUncle | kvstore/NtyCo/core/nty_tree.h:410-411 | the outer rotation with its recolouring leaves the red node under a black parent, with no violation; that the sequence stays is in InsertColor |
| RedBlackShape.InsertDone | kvstore/NtyCo/core/nty_tree.h:390-431 | leaving the loop and blackening the root gives a red-black tree |
| RedBlackShape.SiblingExists | kvstore/NtyCo/core/nty_tree.h:437-441 | a subtree that lacks one black node has a sibling that is not NULL |
| RedBlackShape.RedSibling | kvstore/NtyCo/core/nty_tree.h:441-445 | the red-sibling rotation keeps the one deficient subtree, and makes the parent red and the new sibling black; that the sequence stays is in RemoveColor |
| RedBlackShape.BlackNephews | kvstore/NtyCo/core/nty_tree.h:446-452 | reddening the sibling moves the deficiency to the parent |
| RedBlackShape.RedNearNephew | kvstore/NtyCo/core/nty_tree.h:453-463 | the near-nephew rotation gives a black sibling whose far child is red, still with one deficient subtree |
| RedBlackShape.RedFarNephew | kvstore/NtyCo/core/nty_tree.h:464-470 | the far-nephew rotation removes the deficiency: the whole is a red-black tree; that the sequence stays is in RemoveColor |
| RedBlackShape.DeleteDone | kvstore/NtyCo/core/nty_tree.h:433-509 | leaving the loop at the root or at a red node and blackening it gives a red-black tree |
| RedBlackShape.Spliced | kvstore/NtyCo/core/nty_tree.h:511-576 | replacing a node that has at most one child leaves a red-black tree or one deficient subtree, according to the colour taken out |
| RedBlackShape.SuccessorColors | kvstore/NtyCo/core/nty_tree.h:520-551 | moving the successor into the place of a node with two children leaves the red-black shape except below the successor's old place |
| RedBlackShape.HeightLogarithmic | kvstore/NtyCo/core/nty_tree.h:609-644 | a red-black tree of n elements has a height h with 2^h <= (n+1)^2, that is h <= 2 log2(n+1) |
| NodeStore.RotateLeftCorrect | kvstore/NtyCo/core/nty_tree.h:325-343 | the assignments of the rotation, on left, right and parent fields and the root, turn the stored tree into the rotated tree at any place of a larger tree |
| NodeStore.RotateRightCorrect | kvstore/NtyCo/core/nty_tree.h:346-364 | the mirror image of RotateLeftCorrect |
| NodeStore.SpliceCorrect | kvstore/NtyCo/core/nty_tree.h:560-571 | hanging the only child of a node in its place stores the tree without that node, with consistent parent links |
| NodeStore.TakeOverCorrect | kvstore/NtyCo/core/nty_tree.h:540-551 | copying the link record of the removed node to its successor, and redirecting the parent and both children, stores the same tree with the successor in that place |
| NodeStore.AttachCorrect | kvstore/NtyCo/core/nty_tree.h:579-606 | linking the new node under the parent found by the descent stores the tree with a red leaf there |
| RedBlackTree.RBTree.RotateLeft | kvstore/NtyCo/core/nty_tree.h:325-343 | RB_ROTATE_LEFT on nodes: the stored tree becomes the rotated one and nothing else changes |
| RedBlackTree.RBTree.RotateRight | kvstore/NtyCo/core/nty_tree.h:346-364 | RB_ROTATE_RIGHT, likewise |
| RedBlackTree.RBTree.InsertColor | kvstore/NtyCo/core/nty_tree.h:390-431 | RB_INSERT_COLOR terminates, keeps the in-order sequence and ends with a red-black tree |
| RedBlackTree.RBTree.Insert | kvstore/NtyCo/core/nty_tree.h:579-606 | RB_INSERT returns the equal element and changes nothing, or returns null and the tree is valid and holds the old elements and the new one, in order |
| RedBlackTree.RBTree.RemoveColor | kvstore/NtyCo/core/nty_tree.h:433-509 | RB_REMOVE_COLOR repairs one deficient subtree, terminates although the red-sibling case first goes down, and keeps the sequence |
| RedBlackTree.RBTree.UnlinkTwo | kvstore/NtyCo/core/nty_tree.h:520-558 | a node with two children is replaced by its successor node; the sequence loses exactly that node |
| RedBlackTree.RBTree.UnlinkOne | kvstore/NtyCo/core/nty_tree.h:560-576 | a node with at most one child is spliced out; the sequence loses exactly that node |
| RedBlackTree.RBTree.Remove | kvstore/NtyCo/core/nty_tree.h:511-576 | RB_REMOVE of any node of a valid tree gives a valid tree whose sequence is the old one without that node |
| RedBlackTree.RBTree.Find | kvstore/NtyCo/core/nty_tree.h:609-623 | RB_FIND returns an element equal to the key exactly if there is one, in at most height steps |
| RedBlackTree.RBTree.NFind | kvstore/NtyCo/core/nty_tree.h:626-644 | RB_NFIND returns the least element not below the key, or null when all are below, in at most height steps |
| RedBlackTree.RBTree.DescentLogarithmic | kvstore/NtyCo/core/nty_tree.h:609-644 | in a valid tree of n elements the number s of steps of a descent satisfies 2^s <= (n+1)^2 |
| RedBlackTree.RBTree.Next | kvstore/NtyCo/core/nty_tree.h:647-666 | RB_NEXT, going up by parent links, gives the in-order successor of any node, or null |
| RedBlackTree.RBTree.Prev | kvstore/NtyCo/core/nty_tree.h:669-688 | RB_PREV gives the in-order predecessor of any node, or null |
| RedBlackTree.RBTree.NextPrevInverse | kvstore/NtyCo/core/nty_tree.h:647-688 | the successor and the predecessor relation undo each other |
| RedBlackTree.RBTree.MinMax | kvstore/NtyCo/core/nty_tree.h:690-703 | RB_MINMAX returns the first or the last element, or null |
| RedBlackTree.RBTree.Foreach | kvstore/NtyCo/core/nty_tree.h:717-720 | RB_FOREACH visits every element once, ascending |
| RedBlackTree.RBTree.ForeachReverse | kvstore/NtyCo/core/nty_tree.h:732-735 | RB_FOREACH_REVERSE visits every element once, descending |
| SplayShape.InorderAssembled | kvstore/NtyCo/core/nty_tree.h:97-102 | SPLAY_ASSEMBLE: the sequence is left side tree, middle tree, right side tree |
| SplayShape.LinkLeftKeeps | kvstore/NtyCo/core/nty_tree.h:85-89 | SPLAY_LINKLEFT moves the root and its right subtree to the right side tree and keeps the sequence of the three trees |
| SplayShape.LinkRightKeeps | kvstore/NtyCo/core/nty_tree.h:91-95 | SPLAY_LINKRIGHT, the mirror image |
| SplayStore.RotateRightCorrect | kvstore/NtyCo/core/nty_tree.h:73-77 | SPLAY_ROTATE_RIGHT on the fields rotates the middle tree and leaves the side trees alone |
| SplayStore.RotateLeftCorrect | kvstore/NtyCo/core/nty_tree.h:79-83 | SPLAY_ROTATE_LEFT, likewise |
| SplayStore.LinkLeftCorrect | kvstore/NtyCo/core/nty_tree.h:85-89 | on the fields, SPLAY_LINKLEFT stores exactly the three trees after the move |
| SplayStore.LinkRightCorrect | kvstore/NtyCo/core/nty_tree.h:91-95 | on the fields, SPLAY_LINKRIGHT stores exactly the three trees after the move |
| SplayStore.AssembleCorrect | kvstore/NtyCo/core/nty_tree.h:97-102 | on the fields, SPLAY_ASSEMBLE stores the one tree put together from the three, also with empty side trees |
| SplayDepth.GoLeft | kvstore/NtyCo/core/nty_tree.h:200-210 | a round to the left, of one or two steps with its rotation and its link, keeps every promise on depth, because a side tree grows by one for two steps down, or for a turn of the search |
| SplayDepth.GoRight | kvstore/NtyCo/core/nty_tree.h:211-219 | the same to the right |
| SplayDepth.StopLeft | kvstore/NtyCo/core/nty_tree.h:202-207 | a round that ends the search, before or after its rotation, leaves the three trees so that put together they keep every promise |
| SplayDepth.StopRight | kvstore/NtyCo/core/nty_tree.h:212-217 | the same to the right |
| SplayDepth.StopHere | kvstore/NtyCo/core/nty_tree.h:198-221 | a search that ends at an equal root keeps every promise |
| SplayDepth.KeptHalved | kvstore/NtyCo/core/nty_tree.h:189-221 | in terms of depths: a node whose way shares a steps with the search path ends at most at its old depth - a + a/2 + 2 |
| SplayDepth.PathAlong | kvstore/NtyCo/core/nty_tree.h:189-221 | for a node on the search path that is half its old depth and two more |
| SplayDepth.DueAtMost | kvstore/NtyCo/core/nty_tree.h:189-221 | no node ends more than two steps deeper than before |
| SplayTree.Splay.SplayLoop | kvstore/NtyCo/core/nty_tree.h:189-219 | the loop keeps the sequence and the nodes of the three trees, everything left is below and everything right above the key, the middle tree shrinks, and the trees put together keep the promised depths |
| SplayTree.Splay.SplayKey | kvstore/NtyCo/core/nty_tree.h:189-221 | SPLAY keeps the sequence and brings to the root the equal element if there is one, otherwise an in-order neighbour of the key; a node at depth d on the search path ends at depth at most d/2 + 2, and one that leaves the path after a steps loses a - a/2 steps, up to two |
| SplayTree.Splay.AtRoot | kvstore/NtyCo/core/nty_tree.h:113-121 | after a splay the root alone tells on which side of all other elements the key lies |
| SplayTree.Splay.Find | kvstore/NtyCo/core/nty_tree.h:113-121 | SPLAY_FIND returns an equal element, then at the root, exactly if there is one, keeps the sequence, and halves the depths along the search path |
| SplayTree.Splay.Insert | kvstore/NtyCo/core/nty_tree.h:146-167 | SPLAY_INSERT adds the element in order as the root and returns null, or returns the equal element, now the root, and keeps the sequence; old nodes are at most one step below what a splay promises |
| SplayTree.Splay.NothingAbove | kvstore/NtyCo/core/nty_tree.h:178-182 | re-splaying the left subtree on the removed key leaves a root without right child |
| SplayTree.Splay.RemoveRoot | kvstore/NtyCo/core/nty_tree.h:175-183 | the two subtrees are joined without losing an element |
| SplayTree.Splay.Remove | kvstore/NtyCo/core/nty_tree.h:169-187 | SPLAY_REMOVE takes out exactly the element equal to its argument, or returns null and keeps the sequence; what it returns is what it took out exactly if the argument itself was in the tree |
| SplayTree.RemoveByEqual | kvstore/NtyCo/core/nty_tree.h:169-187 | an equal element from outside takes out the only element of a tree, and is returned in its place |
| SplayTree.RemoveByEqualWitness | kvstore/NtyCo/core/nty_tree.h:169-187 | such a tree and such an element exist, with the keys 7 and 7 |
| SplayTree.Splay.ExtremeLoop | kvstore/NtyCo/core/nty_tree.h:223-252 | the SPLAY_MINMAX loop keeps the sequence, ends with an empty far side and keeps the promised depths |
| SplayTree.Splay.MinMax | kvstore/NtyCo/core/nty_tree.h:136-140 | SPLAY_MIN and SPLAY_MAX return the first and the last element, now the root, or null, and halve the depths along that side |
| SplayTree.Splay.Next | kvstore/NtyCo/core/nty_tree.h:123-134 | SPLAY_NEXT returns the in-order successor although it reshapes the tree, with the given element at the root and the depths halved along its search path |
| SplayTree.Splay.Foreach | kvstore/NtyCo/core/nty_tree.h:268-271 | SPLAY_FOREACH visits every element once, ascending, while the tree keeps changing shape |
| WorkerPools.InvKept | TinyWebServer/threadpool/threadpool.h:98-205 | every step of every worker and producer keeps the accounting of queue, semaphores, mutexes, free list, counters and program counters |
| WorkerPools.ReachableInv | TinyWebServer/threadpool/threadpool.h:98-205 | the accounting holds in every reachable state of any number of workers and producers |
| WorkerPools.DispatchedInOrder | TinyWebServer/threadpool/threadpool.h:101-110 | in every run the dispatched requests are a prefix of the accepted ones and the queue never exceeds m_max_requests |
| WorkerPoolRequests.HandsOutTheOldest | TinyWebServer/threadpool/threadpool.h:157-159 | the worker that has just popped holds the oldest request that was waiting, the one that the pop took off |
| WorkerPoolRequests.HandledOnce | TinyWebServer/threadpool/threadpool.h:143-205 | in every run each dispatched request is in the hands of exactly one worker or handled exactly once, and when all work is done the handled requests are the accepted ones |
| WorkerPoolRequests.RefusedOnlyWhenFull | TinyWebServer/threadpool/threadpool.h:101-106 | append refuses only beside a queue of m_max_requests |
| WorkerPoolRequests.CallsFromStart | TinyWebServer/threadpool/threadpool.h:98-132 | in every run the requests of all calls of append are, each once, accepted, refused or still pending |
| WorkerPools.EmptyBranchDead | TinyWebServer/threadpool/threadpool.h:145-155 | with successful waits, queue length is the semaphore value plus the threads between semaphore and queue, and the empty-queue branch of run() is never taken |
| WorkerPools.NoSharing | TinyWebServer/CGImysql/sql_connection_pool.cpp:66-104 | no connection is in two hands, or in a hand and in the free list |
| WorkerPools.PoolCounters | TinyWebServer/CGImysql/sql_connection_pool.cpp:66-104 | free list and held connections make up the initial set, m_free_conn is the length of the list and m_cur_conn the number of holders |
| WorkerPoolRequests.LentInOrder | TinyWebServer/CGImysql/sql_connection_pool.cpp:66-104 | connections go out in the order in which they were made and returned, the free list is the rest of that order, and a worker gets the one that was free longest |
| WorkerPoolRequests.NeverNull | TinyWebServer/CGImysql/sql_connection_pool.cpp:66-85 | with at least as many connections as workers, GetConnection() never answers NULL |
| WorkerPoolRequests.NullOnlyWhenNoneFree | TinyWebServer/CGImysql/sql_connection_pool.cpp:70-71 | in every run a worker works without a connection only because the free list was empty when it asked for this very request |
| WorkerPools.FrontSafe | TinyWebServer/CGImysql/sql_connection_pool.cpp:66-85 | front() is not taken on an empty free list when waits succeed, or when workers do not outnumber connections |
| WorkerPools.FrontUnsafe | TinyWebServer/CGImysql/sql_connection_pool.cpp:66-85 | with early returns of reserve.wait() and more workers than connections, some run takes front() of an empty list |
| WorkerPools.FrontExact | TinyWebServer/CGImysql/sql_connection_pool.cpp:66-85 | front() is safe in every run exactly if waits succeed, workers do not outnumber connections, or there are no connections |
| WorkerPools.BlockedOnOther | TinyWebServer/CGImysql/sql_connection_pool.cpp:74-104 | a worker blocked in reserve.wait() implies another worker that holds a connection, is between wait and pop, or is between push and post, also if waits may return early |
| WorkerPools.NoDeadlock | TinyWebServer/threadpool/threadpool.h:143-205 | with at least one worker, and whenever front() is safe, a reachable state in which no thread can go on by itself is one in which all work is done |
| WorkerPools.StepDecreases | TinyWebServer/threadpool/threadpool.h:98-205 | every step of a thread, other than a wait that returns early, decreases an explicit bound |
| WorkerPools.EarlyIncreases | TinyWebServer/threadpool/threadpool.h:143-155 | a wait that returns early adds at most four to the bound |
| WorkerPools.RunBounded | TinyWebServer/threadpool/threadpool.h:98-205 | a run without arrivals takes at most the bound plus five steps for each wait that returns early |
| WorkerPools.Drains | TinyWebServer/threadpool/threadpool.h:143-205 | without new arrivals every schedule stops within the bound plus five steps for each wait that returns early, and when no thread can go on by itself every accepted request has been dispatched |
| LruSpec.ContentsKeys | algo/Ya_10.cpp:70-105 | the cached keys are the first different keys of the touches read backwards, as many as there is room for |
| LruSpec.ContentsValues | algo/Ya_10.cpp:70-105 | each cached key has the value of its latest put |
| LruSpec.HistoryDetermines | algo/Ya_10.cpp:70-105 | the history alone determines the cache: keys, order and values |
| LruSpec.GetAnswer | algo/Ya_10.cpp:70-78 | get answers the latest put value of a key that is still cached, and -1 otherwise |
| LruSpec.ContentsSize | algo/Ya_10.cpp:70-105 | the number of entries is 0 without a positive capacity, else the number of different keys ever put or the capacity, whichever is smaller |
| LinkedList.RemoveCorrect | algo/Ya_10.cpp:40-44 | unlinking a node between the sentinels leaves a list well linked both ways without that node |
| LinkedList.AddCorrect | algo/Ya_10.cpp:31-37 | linking a node in behind the head leaves a list well linked both ways with that node first |
| LruCache.LRUCache.constructor | algo/Ya_10.cpp:61-67 | the empty cache agrees with the empty history |
| LruCache.LRUCache.RemoveNode | algo/Ya_10.cpp:40-44 | removeNode on nodes: the stored list loses exactly that node |
| LruCache.LRUCache.AddToHead | algo/Ya_10.cpp:31-37 | addToHead on nodes: the stored list gets the node behind the head |
| LruCache.LRUCache.MoveToHead | algo/Ya_10.cpp:47-51 | moveToHead: the node is first, the others keep their order |
| LruCache.LRUCache.RemoveTail | algo/Ya_10.cpp:53-58 | removeTail takes out and returns the last node before the sentinel |
| LruCache.LRUCache.Get | algo/Ya_10.cpp:70-78 | get answers as the specification of the history does and leaves list, map and history in agreement |
| LruCache.LRUCache.Put | algo/Ya_10.cpp:81-105 | put leaves list, map and history in agreement, with eviction of the least recently used entry, and size and map as large as ContentsSize says |
| TailQueueShape.HoldsPassesChecks | kvstore/NtyCo/core/nty_queue.h:420-443 | in a stored queue none of the QMD_TAILQ_CHECK macros would panic |
| TailQueueShape.InsertCorrect | kvstore/NtyCo/core/nty_queue.h:492-538 | linking in at any place stores the sequence with the element at that place |
| TailQueueShape.RemoveCorrect | kvstore/NtyCo/core/nty_queue.h:548-562 | linking out stores the sequence without that element |
| TailQueueShape.ConcatCorrect | kvstore/NtyCo/core/nty_queue.h:451-460 | joining two heads stores the concatenation |
| TailQueue.InsertHead | kvstore/NtyCo/core/nty_queue.h:517-528 | TAILQ_INSERT_HEAD puts the element first, also into an empty queue |
| TailQueue.InsertTail | kvstore/NtyCo/core/nty_queue.h:530-538 | TAILQ_INSERT_TAIL puts the element last, through the stored address of the last link |
| TailQueue.InsertAfter | kvstore/NtyCo/core/nty_queue.h:492-505 | TAILQ_INSERT_AFTER puts the element behind the given one |
| TailQueue.InsertBefore | kvstore/NtyCo/core/nty_queue.h:507-515 | TAILQ_INSERT_BEFORE puts the element before the given one, without access to the head |
| TailQueue.Remove | kvstore/NtyCo/core/nty_queue.h:548-562 | TAILQ_REMOVE takes out exactly that element |
| TailQueue.Concat | kvstore/NtyCo/core/nty_queue.h:451-460 | TAILQ_CONCAT appends the second queue and empties it, for empty queues too |
| TailQueue.Swap | kvstore/NtyCo/core/nty_queue.h:564-579 | TAILQ_SWAP exchanges the two sequences, for empty queues too, and leaves a queue swapped with itself as it was |
| TailQueue.Last | kvstore/NtyCo/core/nty_queue.h:540-541 | TAILQ_LAST, through the head-shaped view of a node, gives the last element or null |
| TailQueue.Prev | kvstore/NtyCo/core/nty_queue.h:545-546 | TAILQ_PREV, through the head-shaped view of a node, gives the element before, or null |
| TailQueue.Foreach | kvstore/NtyCo/core/nty_queue.h:466-469 | TAILQ_FOREACH visits the sequence |
| TailQueue.ForeachReverse | kvstore/NtyCo/core/nty_queue.h:476-479 | TAILQ_FOREACH_REVERSE visits the reversed sequence |
| HttpLines.ReadingUnique | TinyWebServer/http/http_conn.cpp:184-219 | the bytes received determine the lines, the stopping point and the verdict of any scanner that meets the declarative reading |
| HttpLines.BadIsSticky | TinyWebServer/http/http_conn.cpp:184-219 | LINE_BAD stays LINE_BAD at the same place whatever arrives later |
| HttpLines.LineEnds | TinyWebServer/http/http_conn.cpp:191-202 | a line ends with the characters CR and LF in this order, and is left with two NULs |
| HttpLines.LineEndsOtherwise | TinyWebServer/http/http_conn.cpp:194-217 | LF alone and CR before anything else are bad, and a last CR waits for more |
| HttpLines.HttpConn.constructor | TinyWebServer/http/http_conn.cpp:151-176 | init() is a state in which nothing was received and the buffer is all NUL |
| HttpLines.HttpConn.ParseLine | TinyWebServer/http/http_conn.cpp:184-219 | parse_line() ends exactly one line or stops at the reading's stopping point, alters nothing at or after m_checked_idx, and never enters the branch for an LF behind a CR |
| HttpLines.HttpConn.NextLine | TinyWebServer/http/http_conn.cpp:430-434 | a round of the reading loop takes exactly the next line of what was sent |
| HttpLines.HttpConn.Receive | TinyWebServer/http/http_conn.cpp:222-269 | arriving bytes extend what was received and touch nothing read so far |
| HttpLines.HttpConn.Feed | TinyWebServer/http/http_conn.cpp:184-269 | after any arrivals, with the scanner run after each, the state is the reading of all bytes |
| HttpLines.TwoChunkings | TinyWebServer/http/http_conn.cpp:184-269 | two ways to split the same bytes into arrivals end with the same lines, position, verdict and buffer |
| HttpRequestLine.AcceptedExactly | TinyWebServer/http/http_conn.cpp:275-343 | a line is accepted with a method and a resource exactly if it consists of that method, blanks, that resource, blanks and HTTP/1.1 |
| HttpRequestLine.GetPath | TinyWebServer/http/http_conn.cpp:281-343 | a GET request, in any case and with any blanks, for any path without blanks is accepted with that path, and for / with /judge.html |
| HttpRequestLine.PathIsResource | TinyWebServer/http/http_conn.cpp:319-333 | a resource that starts with a slash passes both prefix tests unchanged |
| HttpRequestLine.PostIsRejected | TinyWebServer/http/http_conn.cpp:292-300 | every line with the method POST, in any case, is rejected, because the name is compared with POSE |
| HttpRequestLine.UndefinedExactly | TinyWebServer/http/http_conn.cpp:281-329 | the code goes on with a null pointer exactly on lines of a known method, blanks, a resource with the http prefix and no slash behind it, blanks and HTTP/1.1 |
| HttpRequestLine.UndefinedWitness | TinyWebServer/http/http_conn.cpp:319-325 | GET http::/x HTTP/1.1 is such a line |
| HttpRequestGrammar.AcceptedRequests | TinyWebServer/http/http_conn.cpp:275-343 | in plain characters: exactly the lines of GET or POSE in any case, blanks, a path or a http::/ or https::/ prefix with a host and a path, blanks, and HTTP/1.1 are accepted, each with that method and that path, or /judge.html for / |
| HttpRequestGrammar.NullRequests | TinyWebServer/http/http_conn.cpp:319-325 | in plain characters: exactly the lines of a known method and a http::/ prefix that no slash follows lead to a null pointer |
| HttpRequestGrammar.UnknownMethod | TinyWebServer/http/http_conn.cpp:292-300 | a first token that in no case spells GET or POSE is rejected, whatever follows |
| HttpRequestGrammar.VerbSpelled | TinyWebServer/http/http_conn.cpp:292-300 | an accepted line has the method GET exactly if its first token spells GET, and POST exactly if it spells POSE |
| HttpRequestGrammar.LocatedIsResource | TinyWebServer/http/http_conn.cpp:319-329 | behind a prefix and a host without a slash, the resource is the path that follows |
| HttpRequestGrammar.CaseChangesNothing | TinyWebServer/http/http_conn.cpp:275-343 | changing the case of any letters of a line changes no answer and no method, and the path only in case |
| HttpRequestLine.EndToken | TinyWebServer/http/http_conn.cpp:281-288 | the first blank ends the token in place, and the next token starts after the blanks |
| HttpRequestLine.AppendPage | TinyWebServer/http/http_conn.cpp:336-337 | appending the page name to the path / writes the eleven bytes behind the slash and no others |
| HttpRequestLine.FinishResource | TinyWebServer/http/http_conn.cpp:317-342 | prefix tests, slash test and page name agree with the verdict on the resource, and the edits stay before the end of the line |
| HttpRequestLine.ParseRequestLine | TinyWebServer/http/http_conn.cpp:275-343 | the result agrees with the verdict on the line's characters, every edit stays within the line and its two NULs and never writes a CR, and an accepted resource ends there too |
| HttpRequestLine.ReadRequestLine | TinyWebServer/http/http_conn.cpp:197-198 | after scanning a line and parsing it as request line, the scanner is still valid and no later byte has changed |
| HttpRequestLine.RequestThenHeaders | TinyWebServer/http/http_conn.cpp:197-343 | the lines behind the request line are read as they were sent, whatever parse_request_line() edited, and the accepted method and resource are still stored after all of them are read |
| BlockQueue.WindowPush | TinyWebServer/log/block_queue.h:139-141 | in a ring that is not full, writing the slot behind the last one appends to the window, across the wrap-around |
| BlockQueue.WindowPop | TinyWebServer/log/block_queue.h:168-170 | advancing the front slot, perhaps back to the beginning, drops the first element of the window |
| BlockQueue.PushedQueued | TinyWebServer/log/block_queue.h:139-141 | the assignments of push() to array, size and index keep the indices in order and append one element |
| BlockQueue.PoppedQueued | TinyWebServer/log/block_queue.h:168-170 | the assignments of pop() keep the indices in order and take the oldest element |
| BlockQueue.BlockQueue.constructor | TinyWebServer/log/block_queue.h:21-31 | the -1/-1 start is an empty queue |
| BlockQueue.BlockQueue.Push | TinyWebServer/log/block_queue.h:126-147 | push() appends, or answers false and keeps the queue, exactly according to whether it is full; the fields change as PushedQueued says |
| BlockQueue.BlockQueue.Pop | TinyWebServer/log/block_queue.h:168-172 | pop(), once m_size is positive, takes the oldest element; the fields change as PoppedQueued says |
| BlockQueue.BlockQueue.Clear | TinyWebServer/log/block_queue.h:42-49 | clear() empties the queue |
| BlockQueue.BlockQueue.Back | TinyWebServer/log/block_queue.h:88-99 | back() gives the newest element exactly if there is one |
| BlockQueue.BlockQueue.Full | TinyWebServer/log/block_queue.h:51-61 | full() says whether the queue has as many elements as slots |
| BlockQueue.BlockQueue.Empty | TinyWebServer/log/block_queue.h:63-73 | empty() says whether the queue has no elements |
| BlockQueue.BlockQueue.Size | TinyWebServer/log/block_queue.h:101-110 | size() is the number of elements and never exceeds the capacity |
| BlockQueueWaits.ReachableInv | TinyWebServer/log/block_queue.h:126-173 | in every reachable state of any number of threads: one owner of the mutex, tests stay true while it is held, and a consumer is parked beside an element only before the broadcast |
| BlockQueueWaits.NoLostWakeUp | TinyWebServer/log/block_queue.h:126-165 | with the mutex free, a parked consumer that was not notified implies an empty queue |
| BlockQueueWaits.TakesAnElement | TinyWebServer/log/block_queue.h:158-172 | pop() takes an element only when there is one, after any number of spurious wake-ups, and while no other thread has the mutex |
| BlockQueueWaits.FirstInFirstOut | TinyWebServer/log/block_queue.h:126-173 | in every run elements leave in the order of acceptance, each once, by pop() or clear(), and never more than the capacity wait |
| BlockQueueWaits.GivesWhatItTook | TinyWebServer/log/block_queue.h:168-172 | pop() gives its caller the element that it took off, the oldest one |
| BlockQueueCalls.DoesIt | TinyWebServer/log/block_queue.h:126-173 | a thread about to store, take or clear does it on the queue as it has seen it, before anybody else touches it |
| BlockQueueCalls.PushComesTo | TinyWebServer/log/block_queue.h:128-146 | in every run a push that finds room is the next to be accepted, and one that finds none is refused |
| BlockQueueCalls.PushesFromStart | TinyWebServer/log/block_queue.h:126-147 | in every run the elements of all calls of push() are, each once, accepted, refused or still pending |
| BlockQueueWaits.NoDeadlock | TinyWebServer/log/block_queue.h:126-173 | no thread can go on exactly if every call has returned, except pops beside an empty queue |
| BlockQueueWaits.StepDecreases | TinyWebServer/log/block_queue.h:126-173 | every step decreases an explicit bound, a broadcast included |
| BlockQueueWaits.ComesToRest | TinyWebServer/log/block_queue.h:126-173 | without new calls and spurious wake-ups every schedule ends after boundedly many steps, with every call returned except pops beside an empty queue |
| BlockQueueRuns.StepSeen | TinyWebServer/log/block_queue.h:126-173 | a step of the threads on the ring is the same step of the protocol on the queue that the ring holds |
| BlockQueueRuns.RunSeen | TinyWebServer/log/block_queue.h:126-173 | every run of the threads on the ring is a run of the protocol with the capacity of the array |
| BlockQueueRuns.RingServesProtocol | TinyWebServer/log/block_queue.h:21-173 | from the -1/-1 start, through any number of wrap-arounds and any schedule: indices in order, elements leave first in first out, a taker finds m_size positive, and a consumer parked with the mutex free finds it 0 |
| SharedPtrs.World.Alive | Cpp/shared_ptr.cpp:127-138 | a block that a handle refers to, and its resource, are not freed |
| SharedPtrs.World.NoLeak | Cpp/shared_ptr.cpp:127-138 | when no handle refers to anything, every block and every resource has been freed exactly once |
| SharedPtrs.SharedPtr.Clean | Cpp/shared_ptr.cpp:127-138 | clean() leaves the block, frees it and the resource exactly if it was the last handle, and keeps all other counts exact |
| SharedPtrs.SharedPtr.FromRaw | Cpp/shared_ptr.cpp:67-71 | a handle on a raw pointer starts a block of its own, and on a null pointer none; counts and frees stay exact exactly if nobody owns the pointer yet |
| SharedPtrs.SharedPtr.Copy | Cpp/shared_ptr.cpp:76-81 | the copy joins the block of the other handle |
| SharedPtrs.SharedPtr.Move | Cpp/shared_ptr.cpp:84-89 | the new handle takes over what the other held |
| SharedPtrs.SharedPtr.CopyAssign | Cpp/shared_ptr.cpp:92-105 | the handle leaves its block and joins the other's, also when they are the same block or the same handle |
| SharedPtrs.SharedPtr.MoveAssign | Cpp/shared_ptr.cpp:108-121 | the handle leaves its block and takes over what the other held, also when both share a block; self-assignment changes nothing |
| SharedPtrs.SharedPtr.Reset | Cpp/shared_ptr.cpp:141-148 | reset() leaves the block and starts a new one for the given pointer, or none; counts and frees stay exact exactly if nobody owns the pointer yet |
| SharedPtrs.SharedPtr.Swap | Cpp/shared_ptr.cpp:150-153 | swap() exchanges what two handles hold, also of a handle with itself |
| SharedPtrs.SharedPtr.Destroy | Cpp/shared_ptr.cpp:73 | the handle leaves its block and is gone |
| SharedPrograms.Perform | Cpp/shared_ptr.cpp:64-153 | one statement of a program on handles changes who holds which block as the statement means on names alone, and makes a block exactly if it should |
| SharedPrograms.PerformAll | Cpp/shared_ptr.cpp:44-153 | after any program of copies, moves, assignments, resets, swaps and destructions, names hold the blocks that its meaning says, each block counts the names that hold it, and it and its resource are freed, once, exactly if there are none |
| SharedPrograms.RealisedAccounted | Cpp/shared_ptr.cpp:44-58 | if handles hold what the program means, every count is the number of names and every free is exact |
| SharedPrograms.AfterRenamed | Cpp/shared_ptr.cpp:64-153 | the meaning of a statement does not depend on how blocks are named |
| SharedPrograms.Run | Cpp/shared_ptr.cpp:44-153 | any program and the end of its scope: as many blocks as its meaning makes, all different, and each of them and its resource freed exactly once |
| ForkJoin.Worker | process/multi_thread_cal.cpp:17-21 | worker() adds the squares of its range |
| ForkJoin.Split | process/multi_thread_cal.cpp:55-66 | the loop that starts the threads gives all but the last a range of the same width, and the last one the rest |
| ForkJoin.StepwiseTotal | process/multi_thread_cal.cpp:58-66 | the shares of consecutive ranges of the same width add up to the sum over one range |
| ForkJoin.SplitExact | process/multi_thread_cal.cpp:55-66 | the shares add up to the serial sum from 1 exactly if the number of threads is at most maxV / threads + maxV % threads + 2, and are too large otherwise |
| ForkJoin.SplitTotal | process/multi_thread_cal.cpp:55-66 | whatever the number of threads, the shares are the sum over 0..maxV and over what the equal parts reach beyond |
| ForkJoin.LowerBoundIgnored | process/multi_thread_cal.cpp:47-66 | for the lower bound that the caller passes, if it is not negative, the shares are the sum asked for exactly if the split fits and the bound is at most 1 or maxV is 0; for a negative bound exactly if the squares beyond maxV make up for those below 0 |
| ForkJoin.LowerBoundWitness | process/multi_thread_cal.cpp:47-66 | asked for 2..3 with one thread the result is 14 instead of 13 |
| ForkJoin.EveryOrder | process/multi_thread_cal.cpp:36-45 | in every interleaving of the locked reads and writes the finished threads leave the sum of their shares |
| ForkJoin.JoinsReturn | process/multi_thread_cal.cpp:36-69 | every schedule takes at most four steps for each thread, and no thread can go on exactly if all have finished |
| ForkJoin.ConcurrentIsSerial | process/multi_thread_cal.cpp:47-66 | every run in which no thread can go on leaves the sum over minV..maxV exactly if the split fits and minV is at most 1 or maxV is 0 |
| ForkJoin.TooManyThreads | process/multi_thread_cal.cpp:55-66 | with four threads and maxV = 1 the result is 5 instead of 1 |

## Left out

- LIST, SLIST and STAILQ of `nty_queue.h`, and the `_SAFE` and `_FROM` traversals: simpler relatives of what is modelled.
- RB_AUGMENT: empty unless a user defines it.
- SPLAY_MINMAX with a comparison value of 0, on which the macro does not terminate; SPLAY_MIN and SPLAY_MAX never pass it.
- Deallocation of LRU nodes, and the destructors of the LRU cache, the pools and the blocking queue.
- ThreadPool::append has no return statement after a successful push; only its effect on the queue is modelled.
- The work of a request (read_once, process, write in the two actor modes) is one step with a free choice of whether a connection is asked for.
- GetFreeConn and DestroyPool, and pool construction beyond its counters.
- The driver loop of process_read, header lines, content, responses and file mapping; the loop that takes lines is modelled as its comment describes it.
- m_cgi, m_linger and the other fields that only later stages read; m_version is not used after the request line.
- recv() results: an arrival is any sequence of bytes for which there is room.
- front() and the timed pop of the blocking queue: front() reads the slot of the last element taken, and the timed pop depends on the clock.
- BlockQueue.BlockQueue.Pop: is the part behind the wait; the wait, and the answer false when it fails, are steps of BlockQueueWaits and BlockQueueRuns. A capacity that is not positive ends the original program and is excluded by the constructor.
- Memory orders of the shared counter: its updates are atomic steps, and handles are used by one thread at a time.
- SharedPtrs.SharedPtr.FromRaw: takes the evident meaning of storing the argument; what the handles do once a pointer is owned twice is not modelled.
- Overflow in the sum of squares: sums are mathematical integers, and a number of threads of at least 1 and maxV >= 0 are required, as the division by the thread count is.
- The timer list, the allocator, and the socket, signal and console programs of the repository.
