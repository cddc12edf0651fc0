# Sequential model of the linked-list FIFO queue

This project models the unbounded queue in `queue/queue.go`, run by one thread. The queue hands requests from the server's producer to its consumers. It is a singly linked list of heap nodes. `head` always points at a dummy node and `tail` at the last node. The requests queued are the payloads of the nodes after the dummy. The code follows the Michael–Scott non-blocking queue pattern.

- `wrappers.dfy`: `Option`. `None` stands for Go's nil `*Request`.
- `fifo_trace.dfy` (module `FifoTrace`): a reference FIFO on values. `Run` executes a sequence of `Enq`/`Deq` calls, and the lemmas state what it promises: first in, first out, nothing lost, nothing duplicated, one result per dequeue, and eventual delivery.
- `queue.dfy` (module `LockFreeQueue`): the classes `Node` (`queueNode`) and `Queue` (`queueFeed`). `Queue` has ghost `Contents`, `nodes` (the chain from head to tail) and `Repr`, plus a representation invariant `Valid()`. `Enq` and `Deq` carry `modifies` frames, `Emp` modifies nothing, and the constructor `MakeQueue` only allocates. `Replay` is a client that runs any call sequence on a fresh queue and is proved equal to `FifoTrace.Run`.

Every `atomic.CompareAndSwapPointer` becomes a small compare-and-swap method on the field it targets. With one thread each of these succeeds. So each `for {}` retry loop runs its body once, and the modelled branches that would retry are proved unreachable with `assert false`. The request payload is a type parameter `T`, so `Request` and its fields stay abstract.

## Model

| member | source | states |
|---|---|---|
| LockFreeQueue.Node.MakeNode | queue/queue.go:36-41 | the new node carries exactly the given payload and successor |
| LockFreeQueue.Node.CompareAndSwapNext | queue/queue.go:60 | the link is replaced by the desired node exactly when it held the expected one; the result says whether it was |
| LockFreeQueue.Queue.CompareAndSwapTail | queue/queue.go:61 | `tail` is swung to the desired node exactly when it held the expected one; the result says whether it was |
| LockFreeQueue.Queue.CompareAndSwapHead | queue/queue.go:77 | `head` is swung to the desired node exactly when it held the expected one; the result says whether it was |
| LockFreeQueue.Queue.MakeQueue | queue/queue.go:44-50 | head and tail are one fresh dummy node with nil payload and nil next; the contents are empty and the invariant holds |
| LockFreeQueue.Queue.Enq | queue/queue.go:53-69 | a fresh node with the payload and nil next is linked after the old tail and becomes the tail; head is unchanged; only the queue and the old tail node are modified; `Repr` grows by exactly the new node; the contents gain the payload at the end; afterwards head differs from tail; the invariant is preserved |
| LockFreeQueue.Queue.Deq | queue/queue.go:72-84 | on an empty queue it returns nil and changes nothing; otherwise it returns the oldest payload, moves head to the old head's successor (the new dummy), drops the first item of the contents and keeps tail; the invariant is preserved |
| LockFreeQueue.Queue.Emp | queue/queue.go:87-93 | the result is true exactly when head equals tail, and under the invariant exactly when the contents are empty |
| LockFreeQueue.Replay | queue/queue.go:53-84 | on a fresh queue, any sequence of Enq and Deq calls returns exactly the results of the reference FIFO, and so the items returned are a prefix of the items enqueued, in enqueue order |
| FifoTrace.Conservation | queue/queue.go:53-84 | the items dequeued followed by the items left equal the initial contents followed by the items enqueued: no loss, no duplication, FIFO order |
| FifoTrace.FifoFromEmpty | queue/queue.go:44-84 | from a fresh queue the dequeued items are a prefix of the enqueued ones, and the rest are what remains queued |
| FifoTrace.OneResultPerDeq | queue/queue.go:72-84 | every dequeue call yields exactly one result, nil or an item |
| FifoTrace.RunAppend | queue/queue.go:53-84 | running two call sequences one after the other gives the same results and contents as running their concatenation |
| FifoTrace.DrainDelivers | queue/queue.go:72-84 | at least as many dequeues as items return every queued item in order and leave the queue empty |
| FifoTrace.EventuallyDelivered | queue/queue.go:53-84 | after any call sequence from a fresh queue, enough further dequeues return every enqueued item exactly once, in enqueue order, and leave the queue empty |

## Left out

- Concurrency: linearizability and the atomicity of `atomic.CompareAndSwapPointer` under interleaving are not modelled. The model is sequential, so every compare-and-swap succeeds.
- The `last == q.tail` re-check in `Enq` (queue/queue.go:58) is left out. It only detects a concurrent change, and with one thread it always holds.
- The lost-race branch of `Enq` (queue/queue.go:63-64) is unreachable with one thread, so it is proved unreachable and not modelled. Under concurrency, that branch swings `tail` to the caller's own node, which is not yet linked. A comment in `Enq` marks this.
- `Enq` has no tail-helping branch for a non-nil `next` (queue/queue.go:59). With one thread that case cannot arise, and the model proves this instead of modelling a retry.
- `unsafe.Pointer` casts are not modelled; nodes are ordinary heap references. Retired nodes leave `Repr`, and their reclamation by the garbage collector is not modelled.
- LockFreeQueue.Queue.Enq: takes a non-nil payload only. The Go signature accepts a nil `*Request`. The only caller, server/server.go:103, passes the pointer allocated at server/server.go:92, which is never nil there.
- The `Request` fields (command, id, body, and the floating-point timestamp) are not modelled. The payload is a type parameter.
- server/server.go is not part of this model. Its goroutines, condition variable, mutex, wait group, shutdown protocol, JSON coding and dispatch to the feed package all rely on concurrency or on I/O.
- lock/rwlock.go is not part of this model. The lock is defined by blocking and waking, which a sequential model cannot express.
- twitter/twitter.go is not part of this model. It handles argument parsing and stream setup.
