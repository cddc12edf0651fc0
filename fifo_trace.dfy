/**
 * A reference definition of a FIFO queue on values: what any sequence of
 * enqueue and dequeue calls must return when they run one after another.
 * The heap-based queue is proved against `Run`; the lemmas here state what
 * `Run` promises (first in, first out, nothing lost, nothing duplicated).
 */
module FifoTrace {
  import opened Wrappers

  /** One call on the queue: `Enq(x)` or `Deq()`. */
  datatype Op<T> = Enq(x: T) | Deq

  /** What a run of calls produced: one result per `Deq` and the contents left over. */
  datatype Trace<T> = Trace(results: seq<Option<T>>, rest: seq<T>)

  /** Runs `ops` in order on a queue holding `s`; an empty dequeue yields `None`. */
  function Run<T>(s: seq<T>, ops: seq<Op<T>>): Trace<T>
    decreases |ops|
  {
    if ops == [] then Trace([], s)
    else match ops[0]
      case Enq(x) => Run(s + [x], ops[1..])
      case Deq =>
        if s == [] then
          var t := Run(s, ops[1..]); Trace([None] + t.results, t.rest)
        else
          var t := Run(s[1..], ops[1..]); Trace([Some(s[0])] + t.results, t.rest)
  }

  /** The payloads of the enqueue calls, in call order. */
  function Enqueued<T>(ops: seq<Op<T>>): seq<T>
    decreases |ops|
  {
    if ops == [] then []
    else match ops[0]
      case Enq(x) => [x] + Enqueued(ops[1..])
      case Deq => Enqueued(ops[1..])
  }

  /** How many dequeue calls `ops` holds. */
  function DeqCount<T>(ops: seq<Op<T>>): nat
    decreases |ops|
  {
    if ops == [] then 0
    else (if ops[0].Deq? then 1 else 0) + DeqCount(ops[1..])
  }

  /** The items the dequeue calls actually returned (the non-nil results), in order. */
  function Delivered<T>(rs: seq<Option<T>>): seq<T>
    decreases |rs|
  {
    if rs == [] then []
    else (if rs[0].Some? then [rs[0].value] else []) + Delivered(rs[1..])
  }

  /** `n` dequeue calls in a row. */
  function Deqs<T>(n: nat): (ops: seq<Op<T>>)
    ensures |ops| == n && forall i :: 0 <= i < n ==> ops[i] == Deq
  {
    if n == 0 then [] else [Deq] + Deqs(n - 1)
  }

  lemma {:induction false} DeliveredAppend<T>(a: seq<Option<T>>, b: seq<Option<T>>)
    ensures Delivered(a + b) == Delivered(a) + Delivered(b)
    decreases |a|
  {
    if a == [] {
      assert a + b == b;
    } else {
      assert (a + b)[1..] == a[1..] + b;
      DeliveredAppend(a[1..], b);
    }
  }

  /**
   * No loss, no duplication, first in first out: what the dequeues returned,
   * followed by what is still queued, is exactly the initial contents
   * followed by the enqueued payloads.
   */
  lemma {:induction false} Conservation<T>(s: seq<T>, ops: seq<Op<T>>)
    ensures Delivered(Run(s, ops).results) + Run(s, ops).rest == s + Enqueued(ops)
    decreases |ops|
  {
    if ops == [] {
    } else {
      match ops[0]
      case Enq(x) =>
        Conservation(s + [x], ops[1..]);
        assert s + [x] + Enqueued(ops[1..]) == s + ([x] + Enqueued(ops[1..]));
      case Deq =>
        if s == [] {
          var t := Run(s, ops[1..]);
          Conservation(s, ops[1..]);
          assert ([None] + t.results)[1..] == t.results;
        } else {
          var t := Run(s[1..], ops[1..]);
          Conservation(s[1..], ops[1..]);
          assert ([Some(s[0])] + t.results)[1..] == t.results;
          assert Delivered([Some(s[0])] + t.results) == [s[0]] + Delivered(t.results);
          assert s == [s[0]] + s[1..];
          assert [s[0]] + Delivered(t.results) + t.rest == [s[0]] + (s[1..] + Enqueued(ops[1..]));
        }
    }
  }

  /** Every call to `Deq` produces exactly one result, nil or not. */
  lemma {:induction false} OneResultPerDeq<T>(s: seq<T>, ops: seq<Op<T>>)
    ensures |Run(s, ops).results| == DeqCount(ops)
    decreases |ops|
  {
    if ops != [] {
      match ops[0]
      case Enq(x) => OneResultPerDeq(s + [x], ops[1..]);
      case Deq =>
        if s == [] { OneResultPerDeq(s, ops[1..]); } else { OneResultPerDeq(s[1..], ops[1..]); }
    }
  }

  /**
   * Starting from a fresh (empty) queue, the items handed out are a prefix of
   * the items handed in, and what is left is the rest of them.
   */
  lemma FifoFromEmpty<T>(ops: seq<Op<T>>)
    ensures Delivered(Run([], ops).results) <= Enqueued(ops)
    ensures Run([], ops).rest == Enqueued(ops)[|Delivered(Run([], ops).results)|..]
  {
    Conservation([], ops);
    assert [] + Enqueued(ops) == Enqueued(ops);
  }

  /** Running `a` and then `b` is running `a + b`. */
  lemma {:induction false} RunAppend<T>(s: seq<T>, a: seq<Op<T>>, b: seq<Op<T>>)
    ensures Run(s, a + b).results == Run(s, a).results + Run(Run(s, a).rest, b).results
    ensures Run(s, a + b).rest == Run(Run(s, a).rest, b).rest
    decreases |a|
  {
    if a == [] {
      assert a + b == b;
    } else {
      assert (a + b)[0] == a[0];
      assert (a + b)[1..] == a[1..] + b;
      match a[0]
      case Enq(x) => RunAppend(s + [x], a[1..], b);
      case Deq =>
        if s == [] { RunAppend(s, a[1..], b); } else { RunAppend(s[1..], a[1..], b); }
    }
  }

  /** Dequeuing at least as many times as there are items returns every item, then nils. */
  lemma {:induction false} DrainDelivers<T>(s: seq<T>, n: nat)
    requires |s| <= n
    ensures Delivered(Run(s, Deqs(n)).results) == s
    ensures Run(s, Deqs(n)).rest == []
    decreases n
  {
    if n == 0 {
    } else {
      var ops := Deqs<T>(n);
      assert ops[0] == Deq;
      assert ops[1..] == Deqs(n - 1);
      if s == [] {
        DrainDelivers(s, n - 1);
        var t := Run(s, ops[1..]);
        assert ([None] + t.results)[1..] == t.results;
      } else {
        DrainDelivers(s[1..], n - 1);
        var t := Run(s[1..], ops[1..]);
        assert ([Some(s[0])] + t.results)[1..] == t.results;
        assert s == [s[0]] + s[1..];
      }
    }
  }

  /**
   * Every enqueued item is eventually returned by exactly one dequeue: after
   * any run from a fresh queue, enough further dequeues return all enqueued
   * items, each once, in enqueue order, and leave the queue empty.
   */
  lemma EventuallyDelivered<T>(ops: seq<Op<T>>, n: nat)
    requires |Run([], ops).rest| <= n
    ensures Delivered(Run([], ops + Deqs(n)).results) == Enqueued(ops)
    ensures Run([], ops + Deqs(n)).rest == []
  {
    var t := Run([], ops);
    RunAppend([], ops, Deqs(n));
    DeliveredAppend(t.results, Run(t.rest, Deqs(n)).results);
    DrainDelivers(t.rest, n);
    Conservation([], ops);
    assert [] + Enqueued(ops) == Enqueued(ops);
  }
}
