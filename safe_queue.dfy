/** rk_helper::SafeQueue<T>: a FIFO with a capacity ceiling whose push drops
    the oldest element instead of blocking. The mutex and condition variable
    are left out; a pop that would wait on an empty queue is a precondition. */
module SafeQueues {
  import opened Basics

  /** The default max_capacity_, 2048 * 1024. */
  const DefaultMaxCapacity: nat := 2048 * 1024

  /** 2^64: max_capacity_ is a uint64_t. */
  const Uint64Range: int := 0x1_0000_0000_0000_0000

  /** The values of a uint64_t. */
  type Uint64 = x: int | 0 <= x < Uint64Range

  /** The contents before appending: one front element dropped when the queue
      is at or over capacity. The non-empty guard is the corrected form of the
      source's test (see PushAsWritten). */
  function Evicted<T>(q: seq<T>, cap: nat): seq<T>
  {
    if |q| >= cap && |q| > 0 then q[1..] else q
  }

  /** The contents after push(value). */
  function PushOne<T>(q: seq<T>, cap: nat, x: T): seq<T>
  {
    Evicted(q, cap) + [x]
  }

  /** The contents after pushing each of xs with push(value), in order. */
  function PushEach<T>(q: seq<T>, cap: nat, xs: seq<T>): seq<T>
    decreases |xs|
  {
    if xs == [] then q else PushEach(PushOne(q, cap, xs[0]), cap, xs[1..])
  }

  /** push(value) as written: the front is popped whenever size >= capacity,
      also when the queue is empty, which std::queue leaves undefined (None). */
  function PushAsWritten<T>(q: seq<T>, cap: nat, x: T): Option<seq<T>>
  {
    if |q| >= cap then (if q == [] then None else Some(q[1..] + [x])) else Some(q + [x])
  }

  /** With capacity 0, pushing onto an empty queue pops an empty std::queue. */
  lemma PushAsWrittenPopsEmptyQueue<T>(x: T)
    ensures PushAsWritten([], 0, x) == None
    ensures PushOne([], 0, x) == [x]
  {
  }

  /** Apart from that case the corrected push is the one written. */
  lemma PushAgreesWithSource<T>(q: seq<T>, cap: nat, x: T)
    requires q != [] || cap > 0
    ensures PushAsWritten(q, cap, x) == Some(PushOne(q, cap, x))
  {
  }

  /** push(data, size) as written: the same unguarded pop of the front when
      size >= capacity, then every element of data appended in order. */
  function PushDataAsWritten<T>(q: seq<T>, cap: nat, data: seq<T>): Option<seq<T>>
  {
    if |q| >= cap then (if q == [] then None else Some(q[1..] + data)) else Some(q + data)
  }

  /** With capacity 0, push(data, size) on an empty queue pops an empty
      std::queue whatever data holds, while the corrected form appends data. */
  lemma PushDataAsWrittenPopsEmptyQueue<T>(data: seq<T>)
    ensures PushDataAsWritten([], 0, data) == None
    ensures Evicted([], 0) + data == data
  {
  }

  /** Apart from that case the corrected push(data, size) is the one written. */
  lemma PushDataAgreesWithSource<T>(q: seq<T>, cap: nat, data: seq<T>)
    requires q != [] || cap > 0
    ensures PushDataAsWritten(q, cap, data) == Some(Evicted(q, cap) + data)
  {
  }

  /** Pushing one at a time into a queue within capacity keeps exactly the
      newest cap elements of old contents followed by xs, oldest evicted first. */
  lemma {:induction false} PushEachKeepsNewest<T>(q: seq<T>, cap: nat, xs: seq<T>)
    requires 0 < cap && |q| <= cap
    ensures var all := q + xs;
            PushEach(q, cap, xs) == all[(if |all| > cap then |all| - cap else 0)..]
    decreases |xs|
  {
    if xs != [] {
      var q' := PushOne(q, cap, xs[0]);
      PushEachKeepsNewest(q', cap, xs[1..]);
      var all, all' := q + xs, q' + xs[1..];
      if |q| >= cap {
        assert all' == all[1..];
      } else {
        assert all' == all;
      }
    }
  }

  /** Pushing cap + 1 items into an empty queue leaves the last cap of them. */
  lemma PushCapacityPlusOne<T>(cap: nat, xs: seq<T>)
    requires 0 < cap && |xs| == cap + 1
    ensures PushEach([], cap, xs) == xs[1..]
  {
    PushEachKeepsNewest([], cap, xs);
    assert [] + xs == xs;
  }

  class SafeQueue<T> {
    var queue: seq<T>
    var maxCapacity: Uint64
    var exit: bool

    /** SafeQueue(): the default capacity. */
    constructor ()
      ensures queue == [] && maxCapacity == DefaultMaxCapacity && !exit
    {
      queue, maxCapacity, exit := [], DefaultMaxCapacity, false;
    }

    /** SafeQueue(int c): the int is converted to uint64_t, so a negative c
        wraps to c + 2^64. */
    constructor WithCapacity(c: Int32)
      ensures queue == [] && !exit
      ensures maxCapacity == if c < 0 then c + Uint64Range else c
    {
      queue, exit := [], false;
      maxCapacity := if c < 0 then c + Uint64Range else c;
    }

    /** push(value): drops the front first when full, then appends. */
    method Push(value: T)
      modifies this`queue
      ensures queue == PushOne(old(queue), maxCapacity, value)
    {
      if |queue| >= maxCapacity && |queue| > 0 {
        queue := queue[1..];
      }
      queue := queue + [value];
    }

    /** push(data, size): drops at most one front element, then appends all of
        data in order, so the queue can end up over capacity. The drop is
        guarded by a non-empty queue, the corrected form of the source's test
        (see PushDataAsWritten). */
    method PushData(data: seq<T>)
      modifies this`queue
      ensures queue == Evicted(old(queue), maxCapacity) + data
      ensures |queue| >= |old(queue)| - 1 + |data|
    {
      if |queue| >= maxCapacity && |queue| > 0 {
        queue := queue[1..];
      }
      ghost var base := queue;
      for i := 0 to |data|
        invariant queue == base + data[..i]
      {
        assert data[..i + 1] == data[..i] + [data[i]];
        queue := queue + [data[i]];
      }
      assert data[..|data|] == data;
    }

    /** pop(): removes and returns the front. The source waits while the queue
        is empty, even after exit(), so the model requires a non-empty queue. */
    method Pop() returns (value: T)
      requires queue != []
      modifies this`queue
      ensures value == old(queue)[0] && queue == old(queue)[1..]
    {
      value := queue[0];
      queue := queue[1..];
    }

    method Empty() returns (e: bool)
      ensures e <==> queue == []
    {
      e := queue == [];
    }

    method Size() returns (n: nat)
      ensures n == |queue|
    {
      n := |queue|;
    }

    /** clear(): pops until empty; capacity and exit flag untouched. */
    method Clear()
      modifies this`queue
      ensures queue == []
    {
      while queue != []
        decreases |queue|
      {
        queue := queue[1..];
      }
    }

    /** exit(): only sets the flag read by is_exit(). */
    method Exit()
      modifies this`exit
      ensures exit
    {
      exit := true;
    }

    /** set_max_capacity(max): replaces the capacity without trimming. */
    method SetMaxCapacity(max: Uint64)
      modifies this`maxCapacity
      ensures maxCapacity == max
    {
      maxCapacity := max;
    }

    method IsExit() returns (b: bool)
      ensures b == exit
    {
      b := exit;
    }
  }
}
