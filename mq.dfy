/** Per-actor message queues and the global run queue (skynet_mq.c).

    Each actor owns a growable circular array of messages.  A queue whose
    actor has work to do is linked into one global FIFO chain through the
    queue's own `next` field; `inGlobal` records whether that link is owned.
    Spin locks are sequential no-ops here. */
module MessageQueues {
  import opened Wrappers
  import opened Messages

  const DEFAULT_QUEUE_SIZE: int := 64
  const MQ_OVERLOAD: int := 1024

  /** The overload watermark is MQ_OVERLOAD times a power of two. */
  ghost predicate IsWatermark(t: int)
    decreases t
  {
    t == MQ_OVERLOAD || (t > MQ_OVERLOAD && t % 2 == 0 && IsWatermark(t / 2))
  }

  lemma WatermarkDoubles(t: int)
    requires IsWatermark(t)
    ensures IsWatermark(2 * t) && t >= MQ_OVERLOAD
  {
    assert (2 * t) / 2 == t;
  }

  /** Number of messages between `head` and `tail` in a ring of `cap` slots
      (the arithmetic of skynet_mq_length). */
  function RingLength(head: int, tail: int, cap: int): int
  {
    if head <= tail then tail - head else tail + cap - head
  }

  /** `x % m` for 0 <= x < 2m, as the ring index arithmetic needs it. */
  lemma ModBelowTwice(x: int, m: int)
    requires 0 < m && 0 <= x < 2 * m
    ensures x % m == if x < m then x else x - m
  {
    if x >= m {
      assert x == 1 * m + (x - m);
    }
  }

  class MessageQueue {
    const handle: nat
    var cap: int
    var head: int
    var tail: int
    var release: bool
    var inGlobal: bool
    var overload: int
    var overloadThreshold: int
    var queue: array<Message>
    /** Link to the next queue of the global chain, or null. */
    var next: MessageQueue?

    /** The stored messages, oldest first. */
    ghost var Messages: seq<Message>

    /** Array position of the k-th message counted from `head`. */
    function Index(k: int): int
      reads this`head, this`cap
    {
      if head + k < cap then head + k else head + k - cap
    }

    /** The ring holds `s`, in order, starting at `head`. */
    ghost predicate Stores(s: seq<Message>)
      reads this`head, this`cap, this`queue, queue
    {
      forall k :: 0 <= k < |s| ==> 0 <= Index(k) < queue.Length && s[k] == queue[Index(k)]
    }

    ghost predicate Valid()
      reads this`head, this`tail, this`cap, this`queue, this`Messages, this`overloadThreshold, queue
    {
      queue.Length == cap && 0 < cap && 0 <= head < cap && 0 <= tail < cap &&
      |Messages| == RingLength(head, tail, cap) &&
      Stores(Messages) &&
      IsWatermark(overloadThreshold)
    }

    /** skynet_mq_create: an empty queue of 64 slots that claims to be in the
        global chain without being linked, so pushes do not schedule it before
        its actor is initialised. */
    constructor (handle: nat)
      ensures Valid() && fresh(queue)
      ensures this.handle == handle && Messages == []
      ensures cap == DEFAULT_QUEUE_SIZE && head == 0 && tail == 0
      ensures inGlobal && !release && overload == 0 && overloadThreshold == MQ_OVERLOAD
      ensures next == null
    {
      this.handle := handle;
      cap := DEFAULT_QUEUE_SIZE;
      head, tail := 0, 0;
      inGlobal := true;
      release := false;
      overload := 0;
      overloadThreshold := MQ_OVERLOAD;
      queue := new Message[DEFAULT_QUEUE_SIZE];
      next := null;
      Messages := [];
    }

    /** skynet_mq_length: the number of stored messages. */
    function Length(): (n: int)
      reads this`head, this`tail, this`cap, this`queue, this`Messages, this`overloadThreshold, queue
      requires Valid()
      ensures n == |Messages|
      ensures 0 <= n < cap
    {
      RingLength(head, tail, cap)
    }

    /** skynet_mq_overload: report a recorded overload once, then read 0. */
    method Overload() returns (r: int)
      modifies this`overload
      ensures r == old(overload)
      ensures overload == 0
    {
      if overload != 0 {
        r := overload;
        overload := 0;
      } else {
        r := 0;
      }
    }

    /** skynet_mq_pop.  An empty queue answers None (the source's 1), drops out
        of the global bookkeeping and resets the watermark; otherwise the oldest
        message is returned and the watermark is doubled until it covers the
        remaining length, recording that length as an overload. */
    method Pop() returns (m: Option<Message>)
      requires Valid()
      modifies this`head, this`Messages, this`overload, this`overloadThreshold, this`inGlobal
      ensures Valid()
      ensures old(Messages) == [] ==>
                m == None && Messages == [] && !inGlobal &&
                overloadThreshold == MQ_OVERLOAD && overload == old(overload)
      ensures old(Messages) != [] ==>
                m == Some(old(Messages)[0]) && Messages == old(Messages)[1..] &&
                inGlobal == old(inGlobal) && |Messages| <= overloadThreshold
      ensures old(Messages) != [] && overloadThreshold == old(overloadThreshold) ==>
                overload == old(overload)
      ensures old(Messages) != [] && overloadThreshold != old(overloadThreshold) ==>
                overloadThreshold > old(overloadThreshold) && overload == |Messages| &&
                overloadThreshold < 2 * |Messages|
    {
      if head != tail {
        var msg := TakeHead();
        m := Some(msg);
        var length := tail - head;
        if length < 0 {
          length := length + cap;
        }
        assert length == |Messages|;
        RaiseWatermark(length);
      } else {
        m := None;
        overloadThreshold := MQ_OVERLOAD;
      }
      if m == None {
        inGlobal := false;
      }
    }

    /** The overload step of skynet_mq_pop: double the watermark until it
        covers `length`, recording `length` as the overload each time. */
    method RaiseWatermark(length: int)
      requires IsWatermark(overloadThreshold)
      modifies this`overload, this`overloadThreshold
      ensures IsWatermark(overloadThreshold) && length <= overloadThreshold
      ensures overloadThreshold >= old(overloadThreshold)
      ensures overloadThreshold == old(overloadThreshold) ==> overload == old(overload)
      ensures overloadThreshold != old(overloadThreshold) ==>
                overload == length && overloadThreshold < 2 * length
    {
      while length > overloadThreshold
        invariant IsWatermark(overloadThreshold) && overloadThreshold >= old(overloadThreshold)
        invariant overloadThreshold == old(overloadThreshold) ==> overload == old(overload)
        invariant overloadThreshold != old(overloadThreshold) ==>
                    overload == length && overloadThreshold < 2 * length
        decreases length - overloadThreshold
      {
        overload := length;
        WatermarkDoubles(overloadThreshold);
        overloadThreshold := overloadThreshold * 2;
      }
    }

    /** The ring step of skynet_mq_pop: read the slot at `head` and advance
        `head`, wrapping at the capacity. */
    method TakeHead() returns (msg: Message)
      requires Valid() && head != tail
      modifies this`head, this`Messages
      ensures Valid()
      ensures msg == old(Messages)[0] && Messages == old(Messages)[1..]
    {
      assert Messages != [];
      msg := queue[head];
      assert msg == Messages[0];
      head := head + 1;
      if head >= cap {
        head := 0;
      }
      Messages := Messages[1..];
      assert forall k :: 0 <= k < |Messages| ==> Index(k) == old(Index(k + 1));
    }

    /** expand_queue: called when the ring is full (head == tail with `cap`
        messages); doubles the capacity and straightens the ring so that the
        messages sit at 0 .. old cap - 1 in the same order. */
    method Expand()
      requires queue.Length == cap && 0 < cap && 0 <= head < cap && head == tail
      requires |Messages| == cap && Stores(Messages) && IsWatermark(overloadThreshold)
      modifies this`queue, this`head, this`tail, this`cap
      ensures Valid() && fresh(queue)
      ensures cap == 2 * old(cap) && head == 0 && tail == old(cap)
      ensures Messages == old(Messages)
    {
      var newQueue := new Message[cap * 2];
      var i := 0;
      while i < cap
        modifies newQueue
        invariant 0 <= i <= cap
        invariant forall j :: 0 <= j < i ==> newQueue[j] == Messages[j]
      {
        ModBelowTwice(head + i, cap);
        assert Messages[i] == queue[Index(i)];
        newQueue[i] := queue[(head + i) % cap];
        i := i + 1;
      }
      head := 0;
      tail := cap;
      cap := cap * 2;
      queue := newQueue;
    }

    /** The storing half of skynet_mq_push: write at `tail`, advance it, and
        grow the ring when it has become full. */
    method Store(msg: Message)
      requires Valid()
      modifies this`queue, this`head, this`tail, this`cap, this`Messages, queue
      ensures Valid()
      ensures Messages == old(Messages) + [msg]
      ensures cap == (if |old(Messages)| + 1 == old(cap) then 2 * old(cap) else old(cap))
    {
      ghost var n := |Messages|;
      assert Index(n) == tail;
      queue[tail] := msg;
      Messages := Messages + [msg];
      forall k | 0 <= k < |Messages|
        ensures 0 <= Index(k) < queue.Length && Messages[k] == queue[Index(k)]
      {
        if k < n {
          assert old(queue[Index(k)]) == Messages[k];
        }
      }
      tail := tail + 1;
      if tail >= cap {
        tail := 0;
      }
      if head == tail {
        Expand();
      }
    }

    /** skynet_mq_push: append a message, growing the ring when it fills, and
        link the queue into the global chain when it was not linked. */
    method Push(g: GlobalQueue, msg: Message)
      requires Valid() && g.Valid()
      requires !inGlobal ==> this !in g.Contents && next == null
      modifies this`queue, this`head, this`tail, this`cap, this`Messages, this`inGlobal, queue
      modifies g, g.Contents`next
      ensures Valid() && g.Valid()
      ensures Messages == old(Messages) + [msg]
      ensures cap == (if |old(Messages)| + 1 == old(cap) then 2 * old(cap) else old(cap))
      ensures inGlobal
      ensures !old(inGlobal) ==> g.Contents == old(g.Contents) + [this]
      ensures old(inGlobal) ==> g.Contents == old(g.Contents) && g.head == old(g.head) && g.tail == old(g.tail)
    {
      Store(msg);
      if !inGlobal {
        inGlobal := true;
        g.Push(this);
      }
    }

    /** skynet_mq_mark_release: flag the queue for teardown and, when it is
        not linked, link it so that a worker will visit it and drain it.  The
        flag `inGlobal` is left as it was. */
    method MarkRelease(g: GlobalQueue)
      requires g.Valid() && !release
      requires !inGlobal ==> this !in g.Contents && next == null
      modifies this`release, g, g.Contents`next
      ensures g.Valid() && release && inGlobal == old(inGlobal)
      ensures !inGlobal ==> g.Contents == old(g.Contents) + [this]
      ensures inGlobal ==> g.Contents == old(g.Contents) && g.head == old(g.head) && g.tail == old(g.tail)
    {
      release := true;
      if !inGlobal {
        g.Push(this);
      }
    }

    /** skynet_mq_release: a queue marked for release is drained, every
        remaining message going once through the drop callback (returned here
        in callback order); any other queue is linked back into the chain. */
    method Release(g: GlobalQueue) returns (dropped: seq<Message>)
      requires Valid() && g.Valid()
      requires !release ==> this !in g.Contents && next == null
      modifies this`head, this`Messages, this`overload, this`overloadThreshold, this`inGlobal
      modifies g, g.Contents`next
      ensures Valid() && g.Valid()
      ensures old(release) ==>
                dropped == old(Messages) && Messages == [] && !inGlobal &&
                g.Contents == old(g.Contents) && g.head == old(g.head) && g.tail == old(g.tail)
      ensures !old(release) ==>
                dropped == [] && Messages == old(Messages) &&
                inGlobal == old(inGlobal) && g.Contents == old(g.Contents) + [this]
    {
      dropped := [];
      if release {
        dropped := DropQueue();
      } else {
        g.Push(this);
      }
    }

    /** _drop_queue: pop until the queue reports empty, handing each message
        to the drop callback. */
    method DropQueue() returns (dropped: seq<Message>)
      requires Valid()
      modifies this`head, this`Messages, this`overload, this`overloadThreshold, this`inGlobal
      ensures Valid()
      ensures dropped == old(Messages) && Messages == [] && !inGlobal
    {
      dropped := [];
      while true
        modifies this`head, this`Messages, this`overload, this`overloadThreshold, this`inGlobal
        invariant Valid()
        invariant dropped + Messages == old(Messages)
        decreases |Messages|
      {
        var m := Pop();
        if m == None {
          break;
        }
        dropped := dropped + [m.value];
      }
    }
  }

  /** The global queue: an intrusive FIFO chain of message queues. */
  class GlobalQueue {
    var head: MessageQueue?
    var tail: MessageQueue?
    /** The linked queues, from head to tail. */
    ghost var Contents: seq<MessageQueue>

    ghost predicate Valid()
      reads this, Contents`next
    {
      (Contents == [] ==> head == null && tail == null) &&
      (Contents != [] ==> head == Contents[0] && tail == Contents[|Contents| - 1] &&
                          Contents[|Contents| - 1].next == null) &&
      (forall i :: 0 <= i < |Contents| - 1 ==> Contents[i].next == Contents[i + 1]) &&
      (forall i, j :: 0 <= i < j < |Contents| ==> Contents[i] != Contents[j])
    }

    /** skynet_mq_init: an empty chain. */
    constructor ()
      ensures Valid() && Contents == []
    {
      head, tail := null, null;
      Contents := [];
    }

    /** skynet_globalmq_push: append an unlinked queue at the tail. */
    method Push(q: MessageQueue)
      requires Valid() && q.next == null && q !in Contents
      modifies this, Contents`next
      ensures Valid() && Contents == old(Contents) + [q]
    {
      if tail != null {
        tail.next := q;
        tail := q;
      } else {
        head, tail := q, q;
      }
      Contents := Contents + [q];
      assert forall i :: 0 <= i < |Contents| - 1 ==> Contents[i].next == Contents[i + 1];
    }

    /** skynet_globalmq_pop: unlink and return the oldest queue, or null when
        the chain is empty. */
    method Pop() returns (mq: MessageQueue?)
      requires Valid()
      modifies this, Contents`next
      ensures Valid()
      ensures old(Contents) == [] ==> mq == null && Contents == []
      ensures old(Contents) != [] ==> mq == old(Contents)[0] && Contents == old(Contents)[1..] && mq.next == null
    {
      mq := head;
      if mq != null {
        head := mq.next;
        if head == null {
          tail := null;
        }
        mq.next := null;
        Contents := Contents[1..];
      }
    }
  }
}
