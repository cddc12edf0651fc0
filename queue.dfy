/**
 * The unbounded linked-list FIFO of queue/queue.go, run by a single thread.
 *
 * The list always starts with a dummy node; `head` points at it and `tail`
 * at the last node. The payloads of the nodes after the dummy are the queue's
 * contents. Every compare-and-swap of the original is modelled by a method
 * that compares and swaps one field; with one thread each of them succeeds,
 * so every retry loop runs its body once and the retry paths are proved
 * unreachable.
 */
module LockFreeQueue {
  import opened Wrappers
  import opened FifoTrace

  /** A list node: a link to its successor and the request it carries. */
  class Node<T> {
    var next: Node?<T>
    /** Never written after the node is made. */
    const input: Option<T>

    /** MakeNode: a node with the given payload and successor. */
    constructor MakeNode(input: Option<T>, next: Node?<T>)
      ensures this.input == input && this.next == next
    {
      this.input := input;
      this.next := next;
    }

    /** The compare-and-swap on this node's `next` link. */
    method CompareAndSwapNext(expected: Node?<T>, desired: Node?<T>) returns (swapped: bool)
      modifies this
      ensures swapped == (old(next) == expected)
      ensures next == if swapped then desired else old(next)
    {
      swapped := next == expected;
      if swapped {
        next := desired;
      }
    }
  }

  /** queueFeed: the head and tail pointers of the list. */
  class Queue<T> {
    var head: Node<T>
    var tail: Node<T>

    /** The payloads queued, oldest first. */
    ghost var Contents: seq<T>
    /** The chain of nodes from `head` to `tail`, dummy first. */
    ghost var nodes: seq<Node<T>>
    /** The objects the queue uses. */
    ghost var Repr: set<object>

    /**
     * The representation invariant: following `next` from `head` passes
     * through `nodes`, without repeating a node, and ends at `tail`, whose
     * `next` is nil; the nodes after the dummy carry `Contents`.
     */
    ghost predicate Valid()
      reads this, Repr
      ensures Valid() ==> this in Repr
    {
      this in Repr &&
      |nodes| == |Contents| + 1 &&
      (forall i :: 0 <= i < |nodes| ==> nodes[i] in Repr) &&
      head == nodes[0] && tail == nodes[|nodes| - 1] &&
      (forall i :: 0 <= i < |nodes| - 1 ==> nodes[i].next == nodes[i + 1]) &&
      tail.next == null &&
      (forall i, j :: 0 <= i < j < |nodes| ==> nodes[i] != nodes[j]) &&
      (forall i :: 0 <= i < |Contents| ==> nodes[i + 1].input == Some(Contents[i]))
    }

    /** MakeQueue: head and tail both point at one fresh dummy node. */
    constructor MakeQueue()
      ensures Valid() && fresh(Repr)
      ensures Contents == [] && Repr == {this, head}
      ensures head == tail && fresh(head)
      ensures head.input == None && head.next == null
    {
      var dummy := new Node.MakeNode(None, null);
      head, tail := dummy, dummy;
      Contents := [];
      nodes := [dummy];
      Repr := {this, dummy};
    }

    /** The compare-and-swap on the `tail` pointer. */
    method CompareAndSwapTail(expected: Node<T>, desired: Node<T>) returns (swapped: bool)
      modifies this`tail
      ensures swapped == (old(tail) == expected)
      ensures tail == if swapped then desired else old(tail)
    {
      swapped := tail == expected;
      if swapped {
        tail := desired;
      }
    }

    /** The compare-and-swap on the `head` pointer. */
    method CompareAndSwapHead(expected: Node<T>, desired: Node<T>) returns (swapped: bool)
      modifies this`head
      ensures swapped == (old(head) == expected)
      ensures head == if swapped then desired else old(head)
    {
      swapped := head == expected;
      if swapped {
        head := desired;
      }
    }

    /**
     * Enq links a fresh node carrying `input` after the old tail and makes
     * it the new tail. Only the queue and the old tail node change.
     */
    method Enq(input: T)
      requires Valid()
      modifies this, tail
      ensures Valid() && fresh(Repr - old(Repr)) && Repr == old(Repr) + {tail}
      ensures Contents == old(Contents) + [input]
      ensures head == old(head) && head != tail
      ensures fresh(tail) && old(tail).next == tail
      ensures tail.input == Some(input) && tail.next == null
      ensures nodes == old(nodes) + [tail]
    {
      var thisNode := new Node.MakeNode(Some(input), null);
      // The Go code (queue.go:58) re-reads `tail` here to detect a concurrent change; with
      // one thread it is always the value just read, so the check is omitted.
      var last := tail;
      var next := last.next;
      if next == null {
        var linked := last.CompareAndSwapNext(null, thisNode);
        if linked {
          var _ := CompareAndSwapTail(last, thisNode);
          Contents := Contents + [input];
          nodes := nodes + [thisNode];
          Repr := Repr + {thisNode};
        } else {
          // Only another enqueuer can have linked first. (The Go code then
          // swings `tail` to its own, unlinked node (queue.go:64), a concurrency defect
          // this sequential model does not reach.)
          assert false;
        }
      } else {
        // Only a concurrent enqueuer can leave the tail's link set.
        assert false;
      }
    }

    /**
     * Deq on an empty queue returns nil and changes nothing; otherwise it
     * advances `head` to the old head's successor, which becomes the new
     * dummy, and returns that successor's payload, the oldest item.
     */
    method Deq() returns (r: Option<T>)
      requires Valid()
      modifies this
      ensures Valid() && Repr <= old(Repr)
      ensures tail == old(tail)
      ensures old(Contents) == [] ==>
                r == None && head == old(head) && Contents == [] &&
                nodes == old(nodes) && Repr == old(Repr)
      ensures old(Contents) != [] ==>
                r == Some(old(Contents)[0]) && head == old(head.next) &&
                Contents == old(Contents)[1..] && nodes == old(nodes)[1..] &&
                Repr == old(Repr) - {old(head)}
    {
      var first := head;
      var next := first.next;
      if next != null {
        var advanced := CompareAndSwapHead(first, next);
        if advanced {
          Contents := Contents[1..];
          nodes := nodes[1..];
          Repr := Repr - {first};
          r := next.input;
        } else {
          // Only a concurrent dequeuer can have moved `head` first.
          assert false;
        }
      } else {
        r := None;
      }
    }

    /** Emp compares the two pointers; under the invariant that is emptiness. */
    method Emp() returns (empty: bool)
      requires Valid()
      ensures empty == (head == tail)
      ensures empty <==> Contents == []
    {
      if head == tail {
        empty := true;
      } else {
        empty := false;
      }
    }
  }

  /**
   * A single-threaded client: a fresh queue receives the calls `ops` one
   * after another; the dequeue results are exactly those of the reference
   * FIFO, so they come out in enqueue order, each item at most once.
   */
  method Replay<T>(ops: seq<Op<T>>) returns (results: seq<Option<T>>)
    ensures results == Run([], ops).results
    ensures Delivered(results) <= Enqueued(ops)
  {
    var q := new Queue<T>.MakeQueue();
    results := [];
    var i := 0;
    while i < |ops|
      invariant 0 <= i <= |ops|
      invariant q.Valid() && fresh(q.Repr)
      invariant results + Run(q.Contents, ops[i..]).results == Run([], ops).results
    {
      assert ops[i..][0] == ops[i] && ops[i..][1..] == ops[i + 1..];
      match ops[i] {
        case Enq(x) =>
          q.Enq(x);
        case Deq =>
          var r := q.Deq();
          results := results + [r];
      }
      i := i + 1;
    }
    assert ops[i..] == [];
    FifoFromEmpty(ops);
  }
}
