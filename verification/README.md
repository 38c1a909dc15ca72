# A verified model of a small Redis-like store

The store keeps its data in hand-written structures whose objects point into each other: an AVL
tree with parent pointers and subtree counts, a hash map that moves its nodes from an old table to
a new one a few at a time, a binary heap whose items point back to the entries they expire, and a
circular list of idle connections. Clients talk to it over a framed byte stream. This project
models these parts in Dafny, in the form the source has: objects whose fields are updated in
place, arrays and buffers, and loops with invariants; the worker pool is a step system. It proves
what the parts keep and what they mean.

The main results:

* `avl_fix` and `avl_del` restore order, links, exact depths and counts, and balance of the whole
  tree; balanced trees are at least as big as Fibonacci numbers say, so searches and climbs are
  logarithmic; `avl_offset` walks to exactly the node with the wanted rank.
* The incrementally rehashed map is one set of nodes at every moment. A resize starts exactly at
  nine nodes a bucket, moves at most 128 nodes with each operation, and always ends before the next
  could start.
* A sorted set is a finite map from names to scores over every run of operations, and a range
  query is a window of its sorted entries.
* The TTL heap is a heap after every operation, each entry knows its slot, and in every run
  `do_get` replies the value and `do_ttl` the time left to the deadline last set, whatever has
  happened in between.
* For every fragmentation of reads and writes, a connection executes a beginning of the requests
  in its input and sends a beginning of their replies, in order; the simple form it refines parses
  the whole input at once.
* Encoded requests and replies have the bytes of the format, and are canonical: each decoder accepts
  exactly the encodings.
* In every interleaving of producers and workers jobs are conserved, leave in the order they came,
  and no wakeup is lost; the threads' own steps always come to rest, and at rest every job is done.

Modules: `TreeShapes` (trees as values), `ZNodes` and `Avl` (linked nodes), `Keys`, `ZTree` and
`ZSets` (sorted sets), `HashTab` and `HashMap`, `Heap` and `Ttl`, `Runs` and `MapRuns` (whole runs of
sorted sets, expiring keys and hash maps), `IdleList`, `Codec`, `Requests` and `Connection`, `ThreadPool`,
`Bytes` and `Common`.

## Where the model departs from the source

In five places the source does not do what its other parts rely on. There the model has the
smallest repair, and in four of them the literal code as well, with the exact condition under
which it is right and an input for which it is not.

* `avl_fix` (AVL.cpp:84-94) never stores a rotated subtree in its parent's child slot. `Avl.Turn`
  stores it. `Avl.FixUnlinked` is the literal loop, with the exact condition under which its result
  is the right tree; `TreeShapes.UnlinkedLosesNodes` gives an insertion that loses two nodes.
* `hm_delete` (hashtable.cpp:109-111) detaches from the newer table even when the node was found
  in the older one. `HashMap.HMap.DetachFound` detaches where the node was found.
  `HashMap.HMap.DeleteAsWritten` is literal and right exactly when the key is not stranded in the
  older table; `MapRuns.Break` breaks a map of 288 nodes.
* `hm_delete` compares with `entry_eq` whatever the nodes are, although sorted sets use it too.
  Here the comparison is a parameter.
* `do_set` (common.cpp:147-158) inserts without looking for the key. `Ttl.Store.Set` looks first;
  `Ttl.Store.SetAsWritten` is literal; `Ttl.SetTwice` breaks it.
* `do_del` (common.cpp:160-171) leaves the heap item of a deleted entry behind. `Ttl.Store.Del`
  clears the deadline first; `Ttl.Store.DelAsWritten` is literal; `Ttl.DelAfterExpire` breaks it.

Two more places are modelled as they are, with the exact condition under which they disappoint: a
request behind a blocked reply is not served before more input comes (utils.cpp:156-162, see
`Connection.Conn.ConnectionIo` and `Connection.Stall`), and the client's test of a size wraps around
for sizes at the end of the 32-bit range (client.cpp:37 and 77, see `Codec.OverrunsIff`).

## Model

| member | source | states |
|---|---|---|
| Avl.RotLeftIn | AVL.cpp:37-49 | a left rotation turns the linked subtree of one shape into that of the rotated shape, with exact depths and counts; all other nodes keep their fields |
| Avl.RotRightIn | AVL.cpp:51-63 | the mirror image |
| Avl.FixLeft | AVL.cpp:65-70 | single or double rotation: the linked subtree takes the shape `FixedLeft` |
| Avl.FixRight | AVL.cpp:72-77 | the mirror image |
| TreeShapes.RotationsKeepOrder | AVL.cpp:37-63 | rotations keep the in-order sequence |
| TreeShapes.FixedBalances | AVL.cpp:81-90 | one turn of the loop balances a subtree whose sides were balanced and whose heights were at most 2 apart, and its height ends within one of the height before the change |
| TreeShapes.RebalancedKeepsOrder | AVL.cpp:79-96 | the whole climb keeps the in-order sequence |
| TreeShapes.RebalancedBalances | AVL.cpp:79-96 | with everything beside the path balanced and one subtree off by one level, the climb balances the whole tree |
| Avl.Fix | AVL.cpp:79-96 | from stale depths and counts on the path upwards, the repaired loop gives the root of a soundly linked tree with exact depths and counts everywhere, turning once at each node up to the root |
| Avl.FixUnlinked | AVL.cpp:79-96 | the loop as written: exactly which tree is left reachable from the root it returns; it is the right tree, with all links, depths and counts, if and only if no node below the root is the first to be out of balance on the climb |
| TreeShapes.UnlinkedKeepsAllIff | AVL.cpp:84-94 | the loop as written keeps all nodes if and only if no node below the root is the first to be out of balance on the climb |
| TreeShapes.UnlinkedLosesNodes | AVL.cpp:84-94 | inserting 10, 20, 30, 40, 50 leaves only 10, 20, 30 reachable |
| Avl.Del | AVL.cpp:98-134 | deleting a node anywhere returns the true root of a sound, balanced tree whose in-order sequence is the old one without that node; at most three activations, and no more turns of the fix loop than the tree is high |
| TreeShapes.SwapDeletes | AVL.cpp:113-132 | putting the successor, once deleted, in the place of the node gives the old sequence without the node, whatever rotations the inner deletion did |
| TreeShapes.BalancedIsBig | AVL.cpp:32-35 | a balanced tree of height h has at least Fib(h + 2) - 1 nodes |
| TreeShapes.BalancedIsShallow | AVL.cpp:79-96 | 2 to the power half the height is at most the number of nodes plus one |
| TreeShapes.HeightIsLogarithmic | AVL.cpp:79-96 | k steps that are no more than a balanced tree is high: 2 to the power k / 2 is at most the number of nodes plus one |
| Avl.Offset | zset.cpp:142-168 | the walk ends at the node whose in-order rank is that of the start plus the offset, or null if there is no such rank; it ends because it climbs only until the target is below and then only descends |
| TreeShapes.RankIsPosition | zset.cpp:142-168 | a rank computed from counts is the position in the in-order sequence |
| Keys.ZLessIsLexicographic | zset.cpp:21-34 | the comparison orders by score, then by name as byte strings |
| Keys.ZLessIsTotalOrder | zset.cpp:21-34 | it is a strict total order |
| ZTree.Add | zset.cpp:70-80 | the node is put at its one sorted place and nothing else moves in the order; the tree stays sound and balanced; the climb takes logarithmically many turns |
| Keys.LowerBoundSeparates | zset.cpp:130-138 | in a sorted listing the lower bound separates exactly the keys below the probe from the others |
| Keys.SortedIsUnique | zset.cpp:21-34 | a set of keys has one sorted listing |
| ZTree.Query | zset.cpp:120-140 | finds the node at the lower bound of the probe in the in-order sequence, or null if all are below it, in logarithmically many steps |
| ZTree.RangeQuery | common.cpp:316-324 | walking from the lower bound by rank outputs as many elements as the 32-bit limit and the sequence allow, one after the other, from lower bound plus offset on |
| ZTree.Remove | zset.cpp:106-114 | the tree part: the rest stays ordered and only that node goes, in logarithmically many turns of the fix loop |
| ZSets.ZSet.EmptyTree | zset.cpp:58-61 | the tree is null exactly when the set has no members, which justifies the shortcut in lookup |
| ZSets.ZSet.Lookup | zset.cpp:58-68 | finds the member of that name with its score, or null exactly when there is none, and changes no score |
| ZSets.ZSet.Update | zset.cpp:82-90 | the node moves to its new place; the other scores stay |
| ZSets.ZSet.Add | zset.cpp:92-104 | the map from names to scores gains or changes that one score; true exactly for a new name |
| ZSets.ZSet.Pop | zset.cpp:106-114 | the map loses that name; tree and hash index still hold the same nodes |
| ZSets.ZSet.KeysAreScores | zset.cpp:58-114 | the tree in order is the map's entries in sorted order, each once |
| ZSets.ZSet.RangeQuery | common.cpp:312-324 | element by element: for the one sorted listing of all entries, with k the first entry not below the probe, the output is entry k + offset and those behind it, as many as the limit (as a uint32) and the listing allow; nothing if there is no entry k or k + offset |
| Runs.SetRun | zset.cpp:58-140 | over every run of additions, removals, lookups and range queries, each reply and the final contents are those of a map from names to scores |
| ZTree.RangeIs | common.cpp:316-324 | what a range of a listing is, element by element |
| HashTab.Table.Init | hashtable.cpp:21-26 | an empty table with a power of two of buckets |
| HashTab.PowerOfTwoIs | hashtable.cpp:22 | a size is a power of two exactly when its bitwise and with its predecessor is 0 |
| HashTab.BucketIsMasked | hashtable.cpp:30-41 | the bucket of a node is the bitwise and of its hash code with the mask |
| HashTab.Table.Insert | hashtable.cpp:28-35 | the node becomes the first of its bucket's chain; all else stays |
| HashTab.Table.Lookup | hashtable.cpp:37-49 | the slot of the first match in the chain of its bucket; none exactly when no node of the table matches |
| HashTab.Table.Detach | hashtable.cpp:51-56 | exactly the node at the slot leaves its chain, and the size stays the number of nodes |
| HashTab.Table.Scan | hashtable.cpp:114-125 | visits the nodes of all chains in order, each once |
| HashMap.HMap.StartResizing | hashtable.cpp:58-63 | the table becomes the older one, next to an empty one of twice the buckets |
| HashMap.HMap.HelpResizing | hashtable.cpp:65-80 | moves exactly the first 128 nodes of the older table, or all there are, which ends the move; contents do not change |
| HashMap.HMap.MoveSome | hashtable.cpp:66-75 | the loop never leaves the older table, and moves 128 nodes unless fewer are left |
| HashMap.HMap.Insert | hashtable.cpp:82-96 | the contents gain the node; a resize starts exactly when the size reaches nine times the buckets and none is going on; exactly so many nodes stay in the older table |
| HashMap.HMap.Lookup | hashtable.cpp:100-105 | finds a node that matches, and null exactly when none does, even while nodes move |
| HashMap.HMap.Delete | hashtable.cpp:107-112 | the contents lose one matching node, or nothing exactly when none matches |
| HashMap.HMap.DetachFoundAsWritten | hashtable.cpp:109-111 | the literal code keeps the map valid if and only if the match is not only in the older table |
| HashMap.HMap.DeleteAsWritten | hashtable.cpp:107-112 | the literal code keeps the map valid if and only if the key is not stranded: found only among the nodes of the older table behind the next 128 |
| HashMap.HMap.StrandedNeedsMany | hashtable.cpp:107-112 | no key is stranded with at most 128 nodes in the older table, so never with at most 16 buckets |
| HashMap.HMap.StrandedIff | hashtable.cpp:107-112 | the key of a node that no other node has is stranded exactly when the node is not among the next 128 to move |
| MapRuns.Break | hashtable.cpp:82-112 | 288 insertions into a new map and one literal deletion end in an invalid map |
| HashMap.HMap.SizeBound | hashtable.cpp:88-92 | the size is the number of nodes and less than nine times the buckets of the newer table, after every operation |
| HashMap.HMap.MigrationBound | hashtable.cpp:65-80 | an older table of N buckets is there for less than 9N / 128 operations, rounded up, the triggering insert included, and the newer one is below its own limit all that time |
| MapRuns.Run | hashtable.cpp:82-112 | over every run of insert, lookup and delete, replies and contents are those of one set of nodes, buckets double exactly at nine nodes a bucket, each operation moves 128 nodes or all that are left in the older table, and size and duration bounds hold at each moment |
| MapRuns.OperationMoves | hashtable.cpp:65-75 | an operation in the middle of a resize leaves 128 nodes fewer in the older table, or none |
| MapRuns.ResizeGoesOn | hashtable.cpp:88-95 | a resize from N buckets is still going on after the insertion that starts it if and only if 9N > 128, and then 9N - 128 nodes are left |
| MapRuns.ResizeEnds | hashtable.cpp:58-80 | in every run, a resize of N buckets that starts with some operation is over after 9N / 128 operations, rounded up, whatever the operations are |
| HashMap.HMap.Keys | common.cpp:173-179 | the announced number is the number of nodes emitted from both tables, each once |
| Heap.MinHeap.Up | heap.cpp:29-40 | sifts an item that may be too small into place |
| Heap.MinHeap.Down | heap.cpp:42-68 | sifts an item that may be too big into place |
| Heap.MinHeap.Update | heap.cpp:70-76 | with one item out of place, restores the heap by moving items only, every back-reference equals its item's index, and the number of turns is logarithmic in the number of items |
| Heap.RootIsSmallest | heap.cpp:29-76 | in a heap the first item is a smallest one |
| Heap.MovedUp | heap.cpp:32-37 | one turn of the upward sift moves the one disorder up |
| Heap.MovedDown | heap.cpp:45-65 | one turn of the downward sift moves it down |
| Heap.MinHeap.Remove | common.cpp:22-33 | taking an item out of the middle leaves a heap of the others |
| Heap.MinHeap.Put | common.cpp:34-45 | the entry has the new value and the others keep theirs |
| Ttl.DeadlineIsExact | common.cpp:43 | the 64-bit deadline is now plus the time to live if and only if that fits 64 bits, and earlier otherwise |
| Ttl.Store.SetTtl | common.cpp:21-46 | sets, replaces or clears one key's deadline |
| Ttl.Store.Expire | common.cpp:334-343 | the same by key; replies whether the key is there |
| Ttl.Store.TimeLeft | common.cpp:346-364 | -2 without the key, -1 without a deadline, else the milliseconds left |
| Ttl.Store.EntryDeadline | common.cpp:356-360 | heap_idx is -1 exactly without a deadline, and else is the slot that holds the deadline |
| Ttl.Store.Del | common.cpp:160-171 | the key, its value and its deadline go |
| Ttl.Store.DelAsWritten | common.cpp:160-171 | the literal code keeps the store valid if and only if the key has no deadline, and then only the key goes |
| Ttl.DelAfterExpire | common.cpp:160-171 | set, expire and literal del of one key end in an invalid store |
| Ttl.Store.Set | common.cpp:147-158 | the key has that value, once, and no deadline changes |
| Ttl.Store.Get | common.cpp:131-145 | the value of the key, if it is there |
| Ttl.Store.SetAsWritten | common.cpp:147-158 | the literal code keeps the store valid if and only if the key is new, and then adds key and value |
| Ttl.SetTwice | common.cpp:147-158 | the literal set of one key, twice, ends in an invalid store |
| Ttl.Store.ExpireRoot | timer.cpp:55-73 | the lookup by the key of the first heap item leads back to that very entry, which leaves map and heap |
| Ttl.Store.ProcessExpired | timer.cpp:53-78 | removes at most 2001 entries, in deadline order, all with past deadlines and before all that stay; if fewer, no past deadline stays; each is gone from map and heap |
| Ttl.Store.DoKeys | common.cpp:173-179 | the reply is one array that holds each key once |
| Runs.KeyRun | timer.cpp:53-78 | every run of set, get, expire, delete, ttl and timer steps refines a map of values with a map of deadlines |
| Runs.ValueIsRead | common.cpp:131-145 | whatever other operations come between, the value read is the one last set, as long as the key is not deleted and no timer runs after its deadline |
| Runs.TimeLeftIsReported | common.cpp:346-364 | whatever other operations come between, the time reported is the time to the deadline last set, as long as no timer has run after it |
| Runs.KeysCounted | timer.cpp:53-78 | as many keys go as entries are removed |
| IdleList.Init | DList.cpp:18-21 | a list of nothing |
| IdleList.Empty | DList.cpp:23-25 | tells whether the list is empty |
| IdleList.Detach | DList.cpp:27-32 | the list is circular without that node |
| IdleList.InsertBefore | DList.cpp:34-40 | the list is circular with the node right before the target |
| IdleList.Connections.Accept | Server.cpp:36-47 | the new connection is the last of the list and in its slot |
| IdleList.SlotPut | utils.cpp:142-147 | the slots still hold exactly the members of the list after conn_put |
| IdleList.Connections.Touch | utils.cpp:153-156 | the connection becomes the last of the list, idle from now on; order and slots hold |
| IdleList.Connections.Close | Server.cpp:119-123 | the connection leaves list and slots |
| IdleList.Connections.CloseIdle | timer.cpp:39-52 | closes exactly the connections idle for five seconds, a beginning of the list |
| IdleList.Connections.NextTimerMs | timer.cpp:26-37 | 10000 without connections; else sleeps past no connection's deadline and less than a millisecond short of the first |
| Codec.ParseReq | common.cpp:181-208 | accepts exactly what the functional parser accepts, with the same arguments |
| Codec.RequestsAreCanonical | common.cpp:181-208 | bytes parse to a command if and only if they are its one encoding and it has at most four arguments |
| Codec.RequestHeader | client.cpp:98-101 | the first eight bytes of a request, one by one: its size and the number of its arguments, low byte first |
| Codec.RequestArgument | client.cpp:102-111 | each argument stands behind its size, low byte first, at the sum of what is before it |
| Codec.SendReq | client.cpp:87-114 | despite 32-bit sums, sends the frame of the command if it has at most 4096 bytes, and else nothing; sizes pass through uint32 |
| Codec.ServerReadsWhatIsSent | client.cpp:87-114 | whatever is sent, and whatever follows it, the server reads the frame at its length and gets the command back if it has at most four arguments |
| Codec.TagIs | serialisation.cpp:27-77 | the first byte of a reply is 0, 1, 2, 3, 4 for nil, err, str, int, arr |
| Codec.StrBytes | serialisation.cpp:31-36 | the bytes of a string: size, low byte first, and contents |
| Codec.IntBytes | serialisation.cpp:38-49 | the bytes of an integer: 64 bits in two's complement, high byte first |
| Codec.ErrBytes | serialisation.cpp:66-72 | the bytes of an error: code in two's complement and size, low byte first, and message |
| Codec.ArrBytes | serialisation.cpp:74-77 | the bytes of an array: number of items, low byte first, and the items one behind the other |
| Codec.FrameBytes | utils.cpp:96-102 | a reply stands behind its size, low byte first |
| Codec.EncodedDecodes | serialisation.cpp:27-77 | for nested values, the decoder takes exactly the bytes encoded and gets the value back |
| Codec.DecodedIsEncoded | client.cpp:22-86 | what the decoder takes is the encoding of the value it gets |
| Codec.RepliesAreCanonical | client.cpp:22-86 | both directions as one equivalence |
| Codec.OverrunsIff | client.cpp:37-77 | the exact condition under which the client's 32-bit test of a size wraps around: sizes in the last 5 (strings) or 9 (errors) of the range, at any depth |
| Codec.StrCases | client.cpp:73-80 | what the client makes of an announced string of n bytes and what follows, for every n |
| Codec.ErrCases | client.cpp:29-42 | the same for an error |
| Codec.OverrunReply | client.cpp:73-77 | a concrete reply of five bytes for which the test wraps around |
| Codec.EncodedDoesNotOverrun | serialisation.cpp:27-77 | no encoded reply is like that |
| Codec.OnResponse | client.cpp:22-86 | the recursive decoder with its loop over array items is the decoding function |
| Codec.Reply.OutNil | serialisation.cpp:27-29 | appends the encoding of nil |
| Codec.Reply.OutStr | serialisation.cpp:31-36 | appends the encoding of a string |
| Codec.Reply.OutInt | serialisation.cpp:38-49 | appends the encoding of a 64-bit integer |
| Codec.Reply.OutErr | serialisation.cpp:66-72 | appends the encoding of an error |
| Codec.Reply.OutStrs | common.cpp:173-179 | an array header and as many strings are the encoding of one array |
| Requests.WholeIsFrame | utils.cpp:64-84 | a request is complete in the buffer if and only if the buffer begins with its frame |
| Requests.NextIs | utils.cpp:64-84 | the buffer holds an unfinished request exactly when it is shorter than four bytes or more bytes can complete a frame of at most 4096; it is malformed exactly when neither this holds nor it begins with the frame of a command |
| Requests.ServeIs | utils.cpp:64-112 | what serving all input computes, without reference to a parser: frames of commands accepted with code 0, their replies in order, and a rest that is unfinished, or no request, or refused |
| Requests.AnswerAt | utils.cpp:96-102 | the n-th reply, in its frame, stands behind those before it |
| Requests.PayloadIs | utils.cpp:92-95 | a reply is what the command has put out if that fits, and else an error with code 1001 and its message |
| Requests.ServeExtends | utils.cpp:64-112 | what is executed and answered for some input stays when more comes in |
| Requests.ServeAfter | utils.cpp:64-112 | after a history of answered requests, serving goes on with the rest of the input |
| Requests.PipelineServed | utils.cpp:64-136 | pipelined requests are all executed and answered in order |
| Requests.PayloadDecodes | utils.cpp:92-100 | the client decodes the reply's value, or the error that replaces one that is too big |
| Connection.FlushIs | utils.cpp:35-62 | writing goes on through all calls that take something: it ends where a call blocks or fails, or where all bytes are out |
| Connection.Conn.TryFlush | utils.cpp:35-59 | bytes sent and unsent remain the replies; goes on after a partial write, and back to reading exactly when all is sent |
| Connection.Conn.StateRes | utils.cpp:60-62 | only writes; ends in the state that the outcomes of the writes determine |
| Connection.Conn.OneRequest | utils.cpp:64-112 | nothing for an unfinished request, one more command executed when the buffer begins with its frame, the end otherwise; the buffer is not full afterwards unless the connection ends |
| Connection.Conn.TryFill | utils.cpp:115-136 | the buffer asserts hold; after new input all complete requests are served unless a write is blocked |
| Connection.Conn.ConnectionIo | utils.cpp:153-166 | for all socket behaviour, commands and bytes sent are a beginning of serving the whole input; while writing nothing is executed; a connection waiting for input has served all it received if and only if something was read or only an unfinished request was left from before; without a failing call a connection ends only where serving its input ends |
| Connection.Stall | utils.cpp:153-166 | two pipelined requests and a reply that is blocked and then flushed leave a connection that waits with a whole request in its buffer |
| Connection.Conn.Refines | utils.cpp:35-140 | the state at any time against the simple form: exactly served when caught up, and exactly served up to the offending request when ended without a failed call |
| ThreadPool.EveryRun | thread.cpp:20-61 | in every run from the start: each job submitted is queued, held by a worker or done, counted with repetitions; taken first in, first out; and when the mutex is free no worker is blocked or the queue is no longer than the number of workers about to look at it |
| ThreadPool.WorkerCanMove | thread.cpp:21-34 | with the mutex free, every worker that is not blocked, also one just woken, can do its next step |
| ThreadPool.SomeoneCanMove | thread.cpp:20-61 | with jobs in the queue some thread can go on, without a new call or a wakeup from nowhere |
| ThreadPool.RunsEnd | thread.cpp:25-27 | the threads' own steps are bounded in number: idle workers block instead of spinning |
| ThreadPool.RestIsDone | thread.cpp:20-61 | when no thread can go on, every worker is blocked, every call has returned, and every job submitted is done |
| ThreadPool.EveryJobGetsDone | thread.cpp:20-61 | from every state that runs reach, own steps lead to rest with every job done |
| ThreadPool.DoneOutsideMutex | thread.cpp:31-33 | a job is done by the worker that took it, after it has released the mutex |
| ThreadPool.StepForgetsNone | thread.cpp:25-27 | no step loses a wakeup |
| ThreadPool.StepConserved | thread.cpp:29-33 | no step loses, repeats or reorders a job |
| ThreadPool.StepExclusive | thread.cpp:23-31 | at most one thread is in the critical section |
| ThreadPool.NoDeadlock | thread.cpp:53-61 | with jobs in the queue, not all workers are blocked once the signal owed is given |

## Left out

- Codec.Decode: where the client's 32-bit test of a size wraps around (OverrunsIff), the result is only marked; what the client then does is not modelled.
- Avl.Update: depth and count are unbounded; the uint32 fields hold them up to 2^32 nodes.
- Avl.Offset: the offset is an integer; the source passes it as a double, which is exact up to 2^53.
- Scores are reals without NaN or infinities; doubles have no client decoder and are not in the codec.
- str_hash: any function from names to hash codes, taken as unsigned numbers.
- IdleList.Connections.NextTimerMs: says nothing about TTL deadlines, because the source reads only the idle list; the 64-bit sum of a clock reading and five seconds is taken not to wrap.
- Connection.Conn.ConnectionIo: does not promise that a buffered request is served after a blocked flush without new input, because the source does not serve it then; the contract says exactly when.
- do_request is, for a connection, any function of the number and the text of a connection's commands to a code and bytes; dispatch, argument counts and number parsing are not modelled, nor is zadd on an entry that is not a sorted set.
- zquery has six arguments, so that parse_req never lets it through; do_query is modelled from the search on.
- Ttl.Store holds string values only; the sorted set inside an entry is modelled apart from it.
- ThreadPool is a step system on values instead of code under a lock; that threads keep running, so that a run does go on to its rest, is left to the scheduler.
- malloc, free, container_of and the embedding of nodes in entries: nodes are objects, and a node knows its entry.
- Sockets, poll and interrupted calls: a socket is any sequence of outcomes of its calls. File descriptors given by accept are taken not to be in use.
- Debug output, Makefiles, and the command line client around send_req and on_response.
