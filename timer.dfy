/** The hierarchical timer wheel (skynet_timer.c).

    Pending timers sit in one of 256 "near" slots or in one of 4 levels of
    64 slots, chosen by comparing the bits of their expiry tick with the
    current tick.  Every tick may move one coarse slot back through the
    placement rule (a cascade) and then fires the near slot of the new tick.
    The wheel's spin lock is a sequential no-op here; clock readings are
    inputs, and messages pushed to actors are returned as deliveries. */
module Timers {
  import opened Wrappers
  import opened Messages

  const TIME_NEAR_SHIFT: nat := 8
  const TIME_NEAR: nat := 256
  const TIME_LEVEL_SHIFT: nat := 6
  const TIME_LEVEL: nat := 64

  /** The wheel's clock is a uint32: ticks are the integers below 2^32 and
      the source's masks and shifts by powers of two are remainders and
      quotients by those powers. */
  const TICKS: nat := 0x1_0000_0000
  type Tick = x: int | 0 <= x < 0x1_0000_0000

  /** ++T->time on the uint32 clock. */
  function Next(t: Tick): (r: Tick)
    ensures t < TICKS - 1 ==> r == t + 1
    ensures t == TICKS - 1 ==> r == 0
  {
    (t + 1) % TICKS
  }

  /** What a timer carries: the actor to notify and its session. */
  datatype TimerEvent = TimerEvent(handle: nat, session: int)

  /** A pending timer: its absolute expiry tick and its event. */
  datatype TimerNode = TimerNode(expire: Tick, event: TimerEvent)

  /** A message handed to skynet_context_push for an actor. */
  datatype Delivery = Delivery(handle: nat, message: Message)

  /** A slot of the wheel: near[idx] or t[level][idx]. */
  datatype Slot = Near(idx: int) | Level(level: int, idx: int)
  {
    predicate InRange() {
      match this
      case Near(i) => 0 <= i < TIME_NEAR
      case Level(l, i) => 0 <= l < 4 && 0 <= i < TIME_LEVEL
    }
  }

  /** 2^(8 + 6i), one unit of level i.  The source's `mask` is Span(i) when
      timer_shift looks at level i and Span(i + 1) when add_node tests level
      i, so `x & (mask - 1)` is `x % mask`. */
  function Span(i: nat): (r: nat)
    requires i < 4
    ensures r > 0
  {
    if i == 0 then 0x100 else if i == 1 then 0x4000 else if i == 2 then 0x10_0000 else 0x400_0000
  }

  /** The mask add_node tests for level i, Span(i + 1). */
  function LevelSpan(i: nat): (r: nat)
    requires i < 3
    ensures r > 0
  {
    Span(i + 1)
  }

  /** The two ticks agree on every bit from the bit of `m` up, `m` a power of
      two: the source's `(a | (m - 1)) == (b | (m - 1))`. */
  predicate Agree(a: Tick, b: Tick, m: nat)
    requires m > 0
  {
    a / m == b / m
  }

  /** The near slot of tick `e`: `e & TIME_NEAR_MASK`. */
  function NearIndex(e: Tick): (r: int)
    ensures 0 <= r < TIME_NEAR
  {
    e % TIME_NEAR
  }

  /** The slot of tick `e` at level `i`: bits 8 + 6i .. 13 + 6i. */
  function LevelIndex(e: Tick, i: nat): (r: int)
    requires i < 4
    ensures 0 <= r < TIME_LEVEL
  {
    (e / Span(i)) % TIME_LEVEL
  }

  /** The tick at which a timer set `delay` ticks after `now` expires, on the
      wrapping clock. */
  function Expiry(delay: int, now: Tick): Tick
    requires 0 < delay < 0x8000_0000
  {
    (now + delay) % TICKS
  }

  /** The placement rule of add_node, without its loop: the near ring when
      expiry and current tick agree above the low 8 bits, otherwise the first
      level 0..2 above whose bits they agree, otherwise level 3. */
  function Placement(expire: Tick, time: Tick): (s: Slot)
    ensures s.InRange()
  {
    if Agree(expire, time, TIME_NEAR) then Near(NearIndex(expire))
    else if Agree(expire, time, LevelSpan(0)) then Level(0, LevelIndex(expire, 0))
    else if Agree(expire, time, LevelSpan(1)) then Level(1, LevelIndex(expire, 1))
    else if Agree(expire, time, LevelSpan(2)) then Level(2, LevelIndex(expire, 2))
    else Level(3, LevelIndex(expire, 3))
  }

  /** The slot timer_shift cascades after the tick has become `ct`: t[3][0]
      on wrap-around to 0, nothing while the low 8 bits are non-zero, else
      the first level whose index is non-zero. */
  function Cascade(ct: Tick): (r: Option<Slot>)
    ensures r.Some? ==> r.value.Level? && r.value.InRange()
    ensures r.Some? && ct != 0 ==> r.value.idx != 0
    ensures r.None? <==> ct % TIME_NEAR != 0
  {
    if ct == 0 then Some(Level(3, 0))
    else if ct % TIME_NEAR != 0 then None
    else if LevelIndex(ct, 0) != 0 then Some(Level(0, LevelIndex(ct, 0)))
    else if LevelIndex(ct, 1) != 0 then Some(Level(1, LevelIndex(ct, 1)))
    else if LevelIndex(ct, 2) != 0 then Some(Level(2, LevelIndex(ct, 2)))
    else
      TopLevelNonZero(ct);
      Some(Level(3, LevelIndex(ct, 3)))
  }

  /**
   * A node placed in a coarse level never lands in the slot the clock is
   * at on that level: the expiry agrees with the clock above the level and
   * differs in the level's own digit, so the node waits for that digit to
   * come round.
   */
  lemma PlacementAhead(expire: Tick, time: Tick)
    ensures var s := Placement(expire, time);
      s.Level? ==> (s.idx != LevelIndex(time, s.level) &&
        (s.level < 3 ==> Agree(expire, time, LevelSpan(s.level))))
  {
    var s := Placement(expire, time);
    if s.Level? {
      DigitDiffers(expire, time, s.level);
    }
  }

  /** Ticks that agree from level i + 1 up but not from level i up differ in the digit of level i. */
  lemma DigitDiffers(e: Tick, t: Tick, i: nat)
    requires i < 4 && !Agree(e, t, Span(i))
    requires i < 3 ==> Agree(e, t, Span(i + 1))
    ensures LevelIndex(e, i) != LevelIndex(t, i)
  {
    var qe, qt := e / Span(i), t / Span(i);
    if i < 3 {
      NestedDivision(e, i);
      NestedDivision(t, i);
      assert qe / TIME_LEVEL == qt / TIME_LEVEL;
      assert qe == (qe / TIME_LEVEL) * TIME_LEVEL + qe % TIME_LEVEL;
      assert qt == (qt / TIME_LEVEL) * TIME_LEVEL + qt % TIME_LEVEL;
    } else {
      assert qe < TIME_LEVEL && qt < TIME_LEVEL;
    }
  }

  /** Dividing by the unit of level i and then by 64 is dividing by the unit of level i + 1. */
  lemma NestedDivision(x: Tick, i: nat)
    requires i < 3
    ensures (x / Span(i)) / TIME_LEVEL == x / Span(i + 1)
  {
    var q := x / Span(i + 1);
    var r := x % Span(i + 1);
    assert x == q * Span(i + 1) + r;
    assert Span(i + 1) == Span(i) * TIME_LEVEL;
    var r1, r0 := r / Span(i), r % Span(i);
    assert r == r1 * Span(i) + r0 && r1 < TIME_LEVEL;
    assert x == (q * TIME_LEVEL + r1) * Span(i) + r0;
    assert x / Span(i) == q * TIME_LEVEL + r1;
  }

  /** A non-zero tick whose digits below level 3 are all zero has a non-zero
      level-3 digit. */
  lemma TopLevelNonZero(ct: Tick)
    requires ct != 0 && ct % TIME_NEAR == 0
    requires LevelIndex(ct, 0) == 0 && LevelIndex(ct, 1) == 0 && LevelIndex(ct, 2) == 0
    ensures LevelIndex(ct, 3) != 0
  {
  }

  /** The message a fired timer delivers: from source 0, answering the
      timer's session, with no payload and the response type. */
  function Fire(n: TimerNode): Delivery
  {
    Delivery(n.event.handle, Message(0, n.event.session, 0, ResponseSize()))
  }

  /** dispatch_list's deliveries for a list of nodes, in list order. */
  function FireAll(list: seq<TimerNode>): (r: seq<Delivery>)
    ensures |r| == |list|
  {
    seq(|list|, k requires 0 <= k < |list| => Fire(list[k]))
  }

  /** All nodes of a sequence of slot lists. */
  ghost function SumSlots(s: seq<seq<TimerNode>>): multiset<TimerNode>
  {
    if s == [] then multiset{} else SumSlots(s[..|s| - 1]) + multiset(s[|s| - 1])
  }

  lemma Swap(a: multiset<TimerNode>, l: multiset<TimerNode>, k: multiset<TimerNode>)
    ensures (a + l) + k == (a + k) + l
  {
    forall x ensures ((a + l) + k)[x] == ((a + k) + l)[x] { }
  }

  lemma {:induction false} SumSlotsUpdate(s: seq<seq<TimerNode>>, k: int, v: seq<TimerNode>)
    requires 0 <= k < |s|
    ensures SumSlots(s[k := v]) + multiset(s[k]) == SumSlots(s) + multiset(v)
  {
    var n := |s| - 1;
    if k < n {
      assert s[k := v][..n] == s[..n][k := v];
      assert s[k := v][n] == s[n];
      SumSlotsUpdate(s[..n], k, v);
      var a, b, l := SumSlots(s[..n][k := v]), SumSlots(s[..n]), multiset(s[n]);
      calc {
        SumSlots(s[k := v]) + multiset(s[k]);
        (a + l) + multiset(s[k]);
        { Swap(a, l, multiset(s[k])); }
        (a + multiset(s[k])) + l;
        (b + multiset(v)) + l;
        { Swap(b, multiset(v), l); }
        (b + l) + multiset(v);
        SumSlots(s) + multiset(v);
      }
    } else {
      assert s[k := v][..n] == s[..n];
    }
  }

  /** All nodes of a sequence of levels. */
  ghost function SumRows(rs: seq<seq<seq<TimerNode>>>): multiset<TimerNode>
  {
    if rs == [] then multiset{} else SumRows(rs[..|rs| - 1]) + SumSlots(rs[|rs| - 1])
  }

  lemma {:induction false} SumRowsUpdate(rs: seq<seq<seq<TimerNode>>>, l: int, k: int, v: seq<TimerNode>)
    requires 0 <= l < |rs| && 0 <= k < |rs[l]|
    ensures SumRows(rs[l := rs[l][k := v]]) + multiset(rs[l][k]) == SumRows(rs) + multiset(v)
  {
    var n := |rs| - 1;
    var rs' := rs[l := rs[l][k := v]];
    if l < n {
      assert rs'[..n] == rs[..n][l := rs[l][k := v]];
      assert rs'[n] == rs[n];
      SumRowsUpdate(rs[..n], l, k, v);
      var a, b, c := SumRows(rs'[..n]), SumRows(rs[..n]), SumSlots(rs[n]);
      calc {
        SumRows(rs') + multiset(rs[l][k]);
        (a + c) + multiset(rs[l][k]);
        { Swap(a, c, multiset(rs[l][k])); }
        (a + multiset(rs[l][k])) + c;
        (b + multiset(v)) + c;
        { Swap(b, multiset(v), c); }
        (b + c) + multiset(v);
        SumRows(rs) + multiset(v);
      }
    } else {
      assert rs'[..n] == rs[..n];
      SumSlotsUpdate(rs[l], k, v);
      var a, b := SumRows(rs[..n]), SumSlots(rs'[n]);
      calc {
        SumRows(rs') + multiset(rs[l][k]);
        (a + b) + multiset(rs[l][k]);
        a + (SumSlots(rs[l]) + multiset(v));
        SumRows(rs) + multiset(v);
      }
    }
  }

  lemma AddAssoc(a: multiset<TimerNode>, b: multiset<TimerNode>, c: multiset<TimerNode>)
    ensures (a + b) + c == a + (b + c)
  {
    forall x ensures ((a + b) + c)[x] == (a + (b + c))[x] { }
  }

  /** Cancelling the replaced list from both sides of an update. */
  lemma Grows(p: multiset<TimerNode>, q: multiset<TimerNode>, prev: seq<TimerNode>, node: TimerNode)
    requires p + multiset(prev) == q + multiset(prev + [node])
    ensures p == q + multiset{node}
  {
    assert multiset(prev + [node]) == multiset(prev) + multiset{node};
    forall x ensures p[x] == (q + multiset{node})[x] {
      assert (p + multiset(prev))[x] == (q + multiset(prev + [node]))[x];
    }
  }

  /** The contents of the wheel as a value: the near ring and the four
      coarse levels, each slot a FIFO list of nodes. */
  datatype Wheel = Wheel(near: seq<seq<TimerNode>>, levels: seq<seq<seq<TimerNode>>>)
  {
    predicate WF()
    {
      |near| == TIME_NEAR && |levels| == 4 &&
      forall l :: 0 <= l < 4 ==> |levels[l]| == TIME_LEVEL
    }

    function Get(s: Slot): seq<TimerNode>
      requires WF() && s.InRange()
    {
      match s
      case Near(i) => near[i]
      case Level(l, i) => levels[l][i]
    }

    function Set(s: Slot, v: seq<TimerNode>): (w: Wheel)
      requires WF() && s.InRange()
      ensures w.WF()
    {
      match s
      case Near(i) => Wheel(near[i := v], levels)
      case Level(l, i) => Wheel(near, levels[l := levels[l][i := v]])
    }

    /** add_node on the value: append `n` to the slot Placement names. */
    function Add(n: TimerNode, time: Tick): (w: Wheel)
      requires WF()
      ensures w.WF()
    {
      var s := Placement(n.expire, time);
      Set(s, Get(s) + [n])
    }

    /** add_node applied to each node of `list` in order. */
    function AddAll(list: seq<TimerNode>, time: Tick): (w: Wheel)
      requires WF()
      ensures w.WF()
      decreases |list|
    {
      if list == [] then this else AddAll(list[..|list| - 1], time).Add(list[|list| - 1], time)
    }

    /** move_list on the value: empty slot `s` and re-add its nodes. */
    function Move(s: Slot, time: Tick): (w: Wheel)
      requires WF() && s.InRange()
      ensures w.WF()
    {
      Set(s, []).AddAll(Get(s), time)
    }

    /** timer_shift's cascade for the new tick `ct`. */
    function Tick(ct: Tick): (w: Wheel)
      requires WF()
      ensures w.WF()
    {
      match Cascade(ct)
      case None => this
      case Some(s) => Move(s, ct)
    }

    /** Every node the wheel holds. */
    ghost function Nodes(): multiset<TimerNode>
    {
      SumSlots(near) + SumRows(levels)
    }
  }

  /** The empty wheel of timer_create_timer. */
  function EmptyWheel(): (w: Wheel)
    ensures w.WF() && forall s: Slot :: s.InRange() ==> w.Get(s) == []
  {
    Wheel(seq(TIME_NEAR, _ => []), seq(4, _ => seq(TIME_LEVEL, _ => [])))
  }

  /** Set changes the one slot it names. */
  lemma GetSet(w: Wheel, s: Slot, v: seq<TimerNode>, s': Slot)
    requires w.WF() && s.InRange() && s'.InRange()
    ensures w.Set(s, v).Get(s') == if s' == s then v else w.Get(s')
  {
  }

  /** Replacing one slot's list changes the pending nodes by exactly the
      difference between the old and the new list. */
  lemma SetNodes(w: Wheel, s: Slot, v: seq<TimerNode>)
    requires w.WF() && s.InRange()
    ensures w.Set(s, v).Nodes() + multiset(w.Get(s)) == w.Nodes() + multiset(v)
  {
    match s
    case Near(i) =>
      SumSlotsUpdate(w.near, i, v);
      AddAssoc(SumSlots(w.near[i := v]), SumRows(w.levels), multiset(w.Get(s)));
      Swap(SumSlots(w.near[i := v]), SumRows(w.levels), multiset(w.Get(s)));
      Swap(SumSlots(w.near), SumRows(w.levels), multiset(v));
    case Level(l, i) =>
      SumRowsUpdate(w.levels, l, i, v);
      AddAssoc(SumSlots(w.near), SumRows(w.levels[l := w.levels[l][i := v]]), multiset(w.Get(s)));
      AddAssoc(SumSlots(w.near), SumRows(w.levels), multiset(v));
  }

  /** add_node adds exactly one pending node. */
  lemma AddNodes(w: Wheel, n: TimerNode, time: Tick)
    requires w.WF()
    ensures w.Add(n, time).Nodes() == w.Nodes() + multiset{n}
  {
    var s := Placement(n.expire, time);
    SetNodes(w, s, w.Get(s) + [n]);
    Grows(w.Add(n, time).Nodes(), w.Nodes(), w.Get(s), n);
  }

  /** Re-adding a list adds exactly its nodes. */
  lemma {:induction false} AddAllNodes(w: Wheel, list: seq<TimerNode>, time: Tick)
    requires w.WF()
    ensures w.AddAll(list, time).Nodes() == w.Nodes() + multiset(list)
    decreases |list|
  {
    if list != [] {
      var init, last := list[..|list| - 1], list[|list| - 1];
      AddAllNodes(w, init, time);
      AddNodes(w.AddAll(init, time), last, time);
      assert list == init + [last];
      AddAssoc(w.Nodes(), multiset(init), multiset{last});
    }
  }

  /** move_list keeps the multiset of pending nodes. */
  lemma MoveNodes(w: Wheel, s: Slot, time: Tick)
    requires w.WF() && s.InRange()
    ensures w.Move(s, time).Nodes() == w.Nodes()
  {
    SetNodes(w, s, []);
    AddAllNodes(w.Set(s, []), w.Get(s), time);
  }

  /** The nodes of `list` that add_node places in slot `s` at tick `time`,
      in list order. */
  function Placed(list: seq<TimerNode>, s: Slot, time: Tick): (r: seq<TimerNode>)
    ensures |r| <= |list|
    ensures forall n :: n in r ==> n in list && Placement(n.expire, time) == s
    decreases |list|
  {
    if list == [] then []
    else Placed(list[..|list| - 1], s, time) +
         (if Placement(list[|list| - 1].expire, time) == s then [list[|list| - 1]] else [])
  }

  /** Re-adding a list appends to each slot exactly the nodes placed there,
      keeping their order: the slots stay FIFO. */
  lemma {:induction false} AddAllGet(w: Wheel, list: seq<TimerNode>, time: Tick, s: Slot)
    requires w.WF() && s.InRange()
    ensures w.AddAll(list, time).Get(s) == w.Get(s) + Placed(list, s, time)
    decreases |list|
  {
    if list != [] {
      AddAllGet(w, list[..|list| - 1], time, s);
    }
  }

  /** A tick's cascade keeps the multiset of pending nodes. */
  lemma TickNodes(w: Wheel, ct: Tick)
    requires w.WF()
    ensures w.Tick(ct).Nodes() == w.Nodes()
  {
    match Cascade(ct)
    case None =>
    case Some(s) => MoveNodes(w, s, ct);
  }

  /** The wheel, its clock and the nodes dispatched so far. */
  datatype Progress = Progress(wheel: Wheel, time: Tick, expired: seq<TimerNode>)

  /** timer_update on the value: fire the near slot of the current tick,
      advance the tick with its cascade, fire the near slot of the new tick. */
  function Step(p: Progress): (r: Progress)
    requires p.wheel.WF()
    ensures r.wheel.WF() && r.time == Next(p.time)
  {
    var first := Near(NearIndex(p.time));
    var w1 := p.wheel.Set(first, []).Tick(Next(p.time));
    var second := Near(NearIndex(Next(p.time)));
    Progress(w1.Set(second, []), Next(p.time),
             p.expired + p.wheel.Get(first) + w1.Get(second))
  }

  /** `n` consecutive timer_updates. */
  function Run(p: Progress, n: nat): (r: Progress)
    requires p.wheel.WF()
    ensures r.wheel.WF()
    decreases n
  {
    if n == 0 then p else Step(Run(p, n - 1))
  }

  /** The last of k timer_updates. */
  lemma RunBack(p: Progress, k: nat, m: nat)
    requires p.wheel.WF() && k == m + 1
    ensures Run(p, k) == Step(Run(p, m))
  {
  }

  /** What a timer_update dispatches is appended to what was dispatched before. */
  lemma StepAppends(w: Wheel, time: Tick, fired: seq<TimerNode>)
    requires w.WF()
    ensures var q := Step(Progress(w, time, []));
      Step(Progress(w, time, fired)) == Progress(q.wheel, q.time, fired + q.expired)
  {
    var first := Near(NearIndex(time));
    var w1 := w.Set(first, []).Tick(Next(time));
    var second := Near(NearIndex(Next(time)));
    assert fired + w.Get(first) + w1.Get(second) == fired + ([] + w.Get(first) + w1.Get(second));
  }

  /** A timer_update loses no timer: every node is either still in the wheel
      or has been dispatched. */
  lemma StepKeepsNodes(p: Progress)
    requires p.wheel.WF()
    ensures Step(p).wheel.Nodes() + multiset(Step(p).expired) == p.wheel.Nodes() + multiset(p.expired)
  {
    var first := Near(NearIndex(p.time));
    var w0 := p.wheel.Set(first, []);
    var w1 := w0.Tick(Next(p.time));
    var second := Near(NearIndex(Next(p.time)));
    var a, b := p.wheel.Get(first), w1.Get(second);
    SetNodes(p.wheel, first, []);
    TickNodes(w0, Next(p.time));
    SetNodes(w1, second, []);
    assert Step(p).expired == p.expired + a + b;
    Rearrange(w1.Set(second, []).Nodes(), w0.Nodes(), p.wheel.Nodes(), multiset(p.expired), multiset(a), multiset(b));
  }

  lemma Rearrange(x: multiset<TimerNode>, y: multiset<TimerNode>, z: multiset<TimerNode>,
                  e: multiset<TimerNode>, a: multiset<TimerNode>, b: multiset<TimerNode>)
    requires x + b == y && y + a == z
    ensures x + (e + a + b) == z + e
  {
    forall m ensures (x + (e + a + b))[m] == (z + e)[m] {
      assert (x + b)[m] == y[m];
      assert (y + a)[m] == z[m];
    }
  }

  /** Any number of timer_updates loses no timer. */
  lemma {:induction false} RunKeepsNodes(p: Progress, n: nat)
    requires p.wheel.WF()
    ensures Run(p, n).wheel.Nodes() + multiset(Run(p, n).expired) == p.wheel.Nodes() + multiset(p.expired)
    decreases n
  {
    if n > 0 {
      var m := n - 1;
      RunKeepsNodes(p, m);
      StepKeepsNodes(Run(p, m));
      RunBack(p, n, m);
    } else {
      assert Run(p, 0) == p;
    }
  }

  /** How many ticks the clock still has to advance from `time` to reach
      `e`, on the wrapping clock. */
  function Remaining(e: Tick, time: Tick): (r: nat)
    ensures r < TICKS
    ensures r == 0 <==> e == time
  {
    (e - time) % TICKS
  }

  /** A timer set `delay` ticks ahead has exactly `delay` ticks to go. */
  lemma ExpiryRemaining(delay: int, now: Tick)
    requires 0 < delay < 0x8000_0000
    ensures Remaining(Expiry(delay, now), now) == delay
  {
    if now + delay >= TICKS {
      assert Expiry(delay, now) == now + delay - TICKS;
    }
  }

  /** One tick brings every timer that is not due one tick closer. */
  lemma RemainingStep(e: Tick, time: Tick)
    requires e != time
    ensures Remaining(e, Next(time)) == Remaining(e, time) - 1
  {
  }

  /**
   * The invariant of the wheel at tick `time`: every pending node sits in
   * the slot add_node would choose for it now, and is due within 2^31 ticks.
   */
  ghost predicate Settled(w: Wheel, time: Tick)
  {
    w.WF() &&
    forall s: Slot, n: TimerNode :: s.InRange() && n in w.Get(s) ==>
      s == Placement(n.expire, time) && Remaining(n.expire, time) < 0x8000_0000
  }

  /** The near slot of the current tick is where exactly the nodes due now are placed. */
  lemma NearSlotIsNow(e: Tick, time: Tick)
    ensures Placement(e, time) == Near(NearIndex(time)) <==> e == time
  {
  }

  /** The empty wheel of timer_create_timer is settled at any tick. */
  lemma EmptySettled(time: Tick)
    ensures Settled(EmptyWheel(), time)
  {
  }

  /** Taking out one slot's list keeps the invariant. */
  lemma ClearSettled(w: Wheel, s: Slot, time: Tick)
    requires Settled(w, time) && s.InRange()
    ensures Settled(w.Set(s, []), time)
  {
    forall s': Slot, n: TimerNode | s'.InRange() && n in w.Set(s, []).Get(s')
      ensures s' == Placement(n.expire, time) && Remaining(n.expire, time) < 0x8000_0000
    {
      GetSet(w, s, [], s');
    }
  }

  /** add_node keeps the invariant for a node due within 2^31 ticks, which
      is what timer_add's delay guarantees. */
  lemma AddSettled(w: Wheel, n: TimerNode, time: Tick)
    requires Settled(w, time) && Remaining(n.expire, time) < 0x8000_0000
    ensures Settled(w.Add(n, time), time)
  {
    var s0 := Placement(n.expire, time);
    forall s: Slot, m: TimerNode | s.InRange() && m in w.Add(n, time).Get(s)
      ensures s == Placement(m.expire, time) && Remaining(m.expire, time) < 0x8000_0000
    {
      GetSet(w, s0, w.Get(s0) + [n], s);
    }
  }

  /**
   * The heart of the cascade: when the clock advances past a tick that is
   * not a node's expiry, the node's slot either is the one timer_shift
   * cascades or is still the slot add_node would choose.
   */
  lemma ShiftPlacement(e: Tick, time: Tick)
    requires e != time && Remaining(e, time) < 0x8000_0000
    ensures var s := Placement(e, time);
      Cascade(Next(time)) == Some(s) || Placement(e, Next(time)) == s
  {
    var s := Placement(e, time);
    if time == TICKS - 1 {
      ShiftAtWrap(e);
    } else if s.Near? {
      AheadInBlock(e, time, 0);
      Monotone(time + 1, e, 0);
    } else if s.level < 3 {
      ShiftLevel(e, time, s.level);
    } else {
      ShiftTop(e, time);
    }
  }

  /** On wrap-around to 0 every pending node is at level 3, and t[3][0] is cascaded. */
  lemma ShiftAtWrap(e: Tick)
    requires e != TICKS - 1 && Remaining(e, TICKS - 1) < 0x8000_0000
    ensures var s := Placement(e, TICKS - 1);
      Cascade(0) == Some(s) || Placement(e, 0) == s
  {
    assert e / Span(3) < 32;
    DisagreeBelow(e, TICKS - 1, 3);
    PlacementAtLevel(e, TICKS - 1, 3);
    if e / Span(3) != 0 {
      DisagreeBelow(e, 0, 3);
      PlacementAtLevel(e, 0, 3);
    }
  }

  /** ShiftPlacement for a node at level i < 3, without wrap-around. */
  lemma ShiftLevel(e: Tick, time: Tick, i: nat)
    requires i < 3 && time < TICKS - 1 && e != time && Remaining(e, time) < 0x8000_0000
    requires Placement(e, time) == Level(i, LevelIndex(e, i))
    ensures Cascade(time + 1) == Some(Level(i, LevelIndex(e, i))) || Placement(e, time + 1) == Placement(e, time)
  {
    var ct := time + 1;
    assert !Agree(e, time, Span(i)) && Agree(e, time, Span(i + 1));
    Carry(time, i);
    NestedDivision(e, i);
    NestedDivision(time, i);
    NestedDivision(ct, i);
    if ct / Span(i) != time / Span(i) {
      AheadInBlock(e, time, i + 1);
      Monotone(time + 1, e, i);
      var qt, qc, qe := time / Span(i), ct / Span(i), e / Span(i);
      assert qt < qc <= qe && qt / TIME_LEVEL == qe / TIME_LEVEL;
      assert qc / TIME_LEVEL == qt / TIME_LEVEL && qc % TIME_LEVEL != 0;
      LowDigitsZero(ct, i);
      CascadeAt(ct, i);
    }
    if Cascade(ct) != Some(Level(i, LevelIndex(e, i))) {
      assert !Agree(e, ct, Span(i)) && Agree(e, ct, Span(i + 1));
      DisagreeBelow(e, ct, i);
      PlacementAtLevel(e, ct, i);
    }
  }

  /** ShiftPlacement for a node at level 3, without wrap-around. */
  lemma ShiftTop(e: Tick, time: Tick)
    requires time < TICKS - 1 && e != time
    requires Placement(e, time) == Level(3, LevelIndex(e, 3))
    ensures Cascade(time + 1) == Some(Level(3, LevelIndex(e, 3))) || Placement(e, time + 1) == Placement(e, time)
  {
    var ct := time + 1;
    assert !Agree(e, time, Span(3));
    Carry(time, 3);
    if ct / Span(3) != time / Span(3) {
      LowDigitsZero(ct, 3);
      CascadeAt(ct, 3);
    }
    if Cascade(ct) != Some(Level(3, LevelIndex(e, 3))) {
      assert !Agree(e, ct, Span(3));
      DisagreeBelow(e, ct, 3);
      PlacementAtLevel(e, ct, 3);
    }
  }

  /** Agreement at the unit of level i implies agreement at every coarser unit. */
  lemma {:induction false} AgreeCoarser(a: Tick, b: Tick, i: nat, k: nat)
    requires i <= k < 4 && Agree(a, b, Span(i))
    ensures Agree(a, b, Span(k))
    decreases k - i
  {
    if i < k {
      NestedDivision(a, i);
      NestedDivision(b, i);
      AgreeCoarser(a, b, i + 1, k);
    }
  }

  /** Ticks that differ at the unit of level i differ at every finer unit. */
  lemma DisagreeBelow(a: Tick, b: Tick, i: nat)
    requires i < 4 && !Agree(a, b, Span(i))
    ensures forall j :: 0 <= j <= i ==> !Agree(a, b, Span(j))
  {
    forall j | 0 <= j <= i ensures !Agree(a, b, Span(j)) {
      if Agree(a, b, Span(j)) {
        AgreeCoarser(a, b, j, i);
      }
    }
  }

  lemma Monotone(a: Tick, b: Tick, i: nat)
    requires i < 4 && a <= b
    ensures a / Span(i) <= b / Span(i)
  {
    if i == 0 {
    } else if i == 1 {
    } else if i == 2 {
    } else {
    }
  }

  /** One tick without wrap-around keeps the quotient by a level's unit or carries into it. */
  lemma Carry(t: Tick, i: nat)
    requires i < 4 && t < TICKS - 1
    ensures (t + 1) / Span(i) == t / Span(i) ||
      ((t + 1) % Span(i) == 0 && (t + 1) / Span(i) == t / Span(i) + 1)
  {
    if i == 0 {
    } else if i == 1 {
    } else if i == 2 {
    } else {
    }
  }

  /** Within one block of a level's unit, a tick due less than 2^31 ticks ahead is above the clock. */
  lemma AheadInBlock(e: Tick, t: Tick, i: nat)
    requires i < 4 && Agree(e, t, Span(i)) && e != t && Remaining(e, t) < 0x8000_0000
    ensures t < e
  {
    if i == 0 {
    } else if i == 1 {
    } else if i == 2 {
    } else {
    }
  }

  /** A tick divisible by the unit of level i has zero digits below level i. */
  lemma LowDigitsZero(ct: Tick, i: nat)
    requires i < 4 && ct % Span(i) == 0
    ensures forall j :: 0 <= j < i ==> LevelIndex(ct, j) == 0
  {
    if i == 1 {
      DigitsBelow1(ct);
    } else if i == 2 {
      DigitsBelow2(ct);
    } else if i == 3 {
      DigitsBelow3(ct);
    }
  }

  lemma DigitsBelow1(ct: Tick)
    requires ct % 0x4000 == 0
    ensures (ct / 0x100) % 64 == 0
  {
    var q := ct / 0x4000;
    assert ct == q * 0x4000;
    assert ct / 0x100 == q * 64;
  }

  lemma DigitsBelow2(ct: Tick)
    requires ct % 0x10_0000 == 0
    ensures (ct / 0x100) % 64 == 0 && (ct / 0x4000) % 64 == 0
  {
    var q := ct / 0x10_0000;
    assert ct == q * 0x10_0000;
    assert ct / 0x100 == (q * 64) * 64;
    assert ct / 0x4000 == q * 64;
  }

  lemma DigitsBelow3(ct: Tick)
    requires ct % 0x400_0000 == 0
    ensures (ct / 0x100) % 64 == 0 && (ct / 0x4000) % 64 == 0 && (ct / 0x10_0000) % 64 == 0
  {
    var q := ct / 0x400_0000;
    assert ct == q * 0x400_0000;
    assert ct / 0x100 == (q * 64 * 64) * 64;
    assert ct / 0x4000 == (q * 64) * 64;
    assert ct / 0x10_0000 == q * 64;
  }

  /** timer_shift keeps the invariant once the near slot of the old tick has been emptied. */
  lemma TickSettled(w: Wheel, time: Tick)
    requires Settled(w, time) && w.Get(Near(NearIndex(time))) == []
    ensures Settled(w.Tick(Next(time)), Next(time))
  {
    var ct := Next(time);
    forall s: Slot, n: TimerNode | s.InRange() && n in w.Tick(ct).Get(s)
      ensures s == Placement(n.expire, ct) && Remaining(n.expire, ct) < 0x8000_0000
    {
      match Cascade(ct)
      case None =>
        NearSlotIsNow(n.expire, time);
        ShiftPlacement(n.expire, time);
        RemainingStep(n.expire, time);
      case Some(c) =>
        AddAllGet(w.Set(c, []), w.Get(c), ct, s);
        GetSet(w, c, [], s);
        if n in w.Set(c, []).Get(s) {
          NearSlotIsNow(n.expire, time);
          ShiftPlacement(n.expire, time);
          RemainingStep(n.expire, time);
        } else {
          assert n in w.Get(c);
          NearSlotIsNow(n.expire, time);
          RemainingStep(n.expire, time);
        }
    }
  }

  /** timer_update keeps the invariant. */
  lemma StepSettled(p: Progress)
    requires Settled(p.wheel, p.time)
    ensures Settled(Step(p).wheel, Step(p).time)
  {
    var first := Near(NearIndex(p.time));
    var w0 := p.wheel.Set(first, []);
    ClearSettled(p.wheel, first, p.time);
    GetSet(p.wheel, first, [], first);
    TickSettled(w0, p.time);
    ClearSettled(w0.Tick(Next(p.time)), Near(NearIndex(Next(p.time))), Next(p.time));
  }

  lemma {:induction false} SumSlotsAbsent(s: seq<seq<TimerNode>>, n: TimerNode)
    requires forall k :: 0 <= k < |s| ==> n !in s[k]
    ensures SumSlots(s)[n] == 0
  {
    if s != [] {
      SumSlotsAbsent(s[..|s| - 1], n);
    }
  }

  lemma {:induction false} SumRowsAbsent(rs: seq<seq<seq<TimerNode>>>, n: TimerNode)
    requires forall l, k :: 0 <= l < |rs| && 0 <= k < |rs[l]| ==> n !in rs[l][k]
    ensures SumRows(rs)[n] == 0
  {
    if rs != [] {
      SumRowsAbsent(rs[..|rs| - 1], n);
      SumSlotsAbsent(rs[|rs| - 1], n);
    }
  }

  /** A node in no slot is not pending. */
  lemma Absent(w: Wheel, n: TimerNode)
    requires w.WF() && forall s: Slot :: s.InRange() ==> n !in w.Get(s)
    ensures w.Nodes()[n] == 0
  {
    forall k | 0 <= k < |w.near| ensures n !in w.near[k] {
      assert w.Get(Near(k)) == w.near[k];
    }
    SumSlotsAbsent(w.near, n);
    forall l, k | 0 <= l < |w.levels| && 0 <= k < |w.levels[l]| ensures n !in w.levels[l][k] {
      assert w.Get(Level(l, k)) == w.levels[l][k];
    }
    SumRowsAbsent(w.levels, n);
  }

  /** Under the invariant every pending copy of a node is in the slot its expiry names. */
  lemma InPlace(w: Wheel, time: Tick, n: TimerNode)
    requires Settled(w, time)
    ensures w.Nodes()[n] == multiset(w.Get(Placement(n.expire, time)))[n]
  {
    var s0 := Placement(n.expire, time);
    var w0 := w.Set(s0, []);
    SetNodes(w, s0, []);
    forall s: Slot | s.InRange() ensures n !in w0.Get(s) {
      GetSet(w, s0, [], s);
    }
    Absent(w0, n);
    assert (w0.Nodes() + multiset(w.Get(s0)))[n] == (w.Nodes() + multiset([]))[n];
  }

  /**
   * What one timer_update dispatches on a settled wheel: every pending copy
   * of the nodes due at the tick it starts from or at the tick it moves to,
   * and nothing else; those leave the wheel and every other node stays.
   */
  lemma StepFires(p: Progress, n: TimerNode)
    requires Settled(p.wheel, p.time)
    ensures var due := n.expire == p.time || n.expire == Next(p.time);
      multiset(Step(p).expired)[n] == multiset(p.expired)[n] + (if due then p.wheel.Nodes()[n] else 0) &&
      Step(p).wheel.Nodes()[n] == (if due then 0 else p.wheel.Nodes()[n])
  {
    var ct := Next(p.time);
    var w := p.wheel;
    var first := Near(NearIndex(p.time));
    var w0 := w.Set(first, []);
    var w1 := w0.Tick(ct);
    var second := Near(NearIndex(ct));
    var a, b := w.Get(first), w1.Get(second);
    assert Step(p).expired == p.expired + a + b;
    SetNodes(w, first, []);
    TickNodes(w0, ct);
    SetNodes(w1, second, []);
    ClearSettled(w, first, p.time);
    GetSet(w, first, [], first);
    TickSettled(w0, p.time);
    NearSlotIsNow(n.expire, p.time);
    NearSlotIsNow(n.expire, ct);
    InPlace(w, p.time, n);
    InPlace(w1, ct, n);
    assert (w0.Nodes() + multiset(a))[n] == (w.Nodes() + multiset([]))[n];
    assert (w1.Set(second, []).Nodes() + multiset(b))[n] == (w1.Nodes() + multiset([]))[n];
    if n.expire != p.time {
      assert n !in a;
    }
    if n.expire != ct {
      assert n !in b;
    }
  }

  /** The clock advances by one tick per timer_update. */
  lemma {:induction false} RunTime(p: Progress, k: nat)
    requires p.wheel.WF()
    ensures Run(p, k).time == (p.time + k) % TICKS
    decreases k
  {
    if k > 0 {
      var m := k - 1;
      RunTime(p, m);
      NextOffset(Run(p, m).time, p.time, k, m);
      RunBack(p, k, m);
    } else {
      assert Run(p, 0) == p && p.time % TICKS == p.time;
    }
  }

  lemma NextOffset(a: Tick, t: Tick, k: nat, m: nat)
    requires k == m + 1 && a == (t + m) % TICKS
    ensures Next(a) == (t + k) % TICKS
  {
  }

  /** timer_update keeps the invariant, any number of times. */
  lemma {:induction false} RunSettled(p: Progress, k: nat)
    requires Settled(p.wheel, p.time)
    ensures Settled(Run(p, k).wheel, Run(p, k).time)
    decreases k
  {
    if k > 0 {
      var m := k - 1;
      RunSettled(p, m);
      StepSettled(Run(p, m));
      RunBack(p, k, m);
    }
  }

  /**
   * The timer's promise: on a settled wheel, a node due `d` ticks ahead
   * (0 < d < 2^31) is not dispatched by the first d - 1 timer_updates and is
   * dispatched, every pending copy of it once, by the d-th.
   */
  lemma {:induction false} FiresAfterDelay(p: Progress, n: TimerNode, d: nat, k: nat)
    requires Settled(p.wheel, p.time) && 0 < d < 0x8000_0000 && n.expire == Expiry(d, p.time) && k <= d
    ensures k < d ==> multiset(Run(p, k).expired)[n] == multiset(p.expired)[n]
    ensures k < d ==> Run(p, k).wheel.Nodes()[n] == p.wheel.Nodes()[n]
    ensures k == d ==> multiset(Run(p, k).expired)[n] == multiset(p.expired)[n] + p.wheel.Nodes()[n]
    ensures k == d ==> Run(p, k).wheel.Nodes()[n] == 0
    decreases k
  {
    if k > 0 {
      var m := k - 1;
      FiresAfterDelay(p, n, d, m);
      RunSettled(p, m);
      RunTime(p, m);
      FiresStep(p, Run(p, m), n, d, m);
      RunBack(p, k, m);
    } else {
      assert Run(p, 0) == p;
    }
  }

  /** One timer_update `m` ticks after `p`, for the node due `d` ticks after `p`. */
  lemma FiresStep(p: Progress, q: Progress, n: TimerNode, d: nat, m: nat)
    requires Settled(q.wheel, q.time)
    requires 0 < d < 0x8000_0000 && m < d && n.expire == Expiry(d, p.time)
    requires q.time == (p.time + m) % TICKS
    ensures m + 1 < d ==> multiset(Step(q).expired)[n] == multiset(q.expired)[n] && Step(q).wheel.Nodes()[n] == q.wheel.Nodes()[n]
    ensures m + 1 == d ==> multiset(Step(q).expired)[n] == multiset(q.expired)[n] + q.wheel.Nodes()[n] && Step(q).wheel.Nodes()[n] == 0
  {
    DueOffset(p.time, d, m, q.time);
    StepFires(q, n);
  }

  /** Counted from tick t, a timer due d ticks ahead is due at the tick j steps on, or the one after, exactly when j + 1 == d. */
  lemma DueOffset(t: Tick, d: int, j: nat, a: Tick)
    requires 0 < d < 0x8000_0000 && j < d && a == (t + j) % TICKS
    ensures (Expiry(d, t) == a || Expiry(d, t) == Next(a)) <==> j + 1 == d
  {
  }

  /**
   * timer_add followed by timer_updates: a timer added `d` ticks ahead on a
   * settled wheel has not fired after fewer than `d` updates and has fired
   * after exactly `d`.
   */
  lemma AddedTimerFires(w: Wheel, time: Tick, delay: int, ev: TimerEvent, k: nat)
    requires Settled(w, time) && 0 < delay < 0x8000_0000 && k <= delay
    ensures var n := TimerNode(Expiry(delay, time), ev);
      var q := Run(Progress(w.Add(n, time), time, []), k);
      (k < delay ==> n !in q.expired) && (k == delay ==> n in q.expired)
  {
    var n := TimerNode(Expiry(delay, time), ev);
    ExpiryRemaining(delay, time);
    AddSettled(w, n, time);
    AddNodes(w, n, time);
    FiresAfterDelay(Progress(w.Add(n, time), time, []), n, delay, k);
  }

  /**
   * A coarse node of a settled wheel is never in the slot the clock is at on
   * its level: it agrees with the clock above the level and, below level 3,
   * its digit is ahead of the clock's.
   */
  lemma SettledCoarseAhead(w: Wheel, time: Tick, s: Slot, n: TimerNode)
    requires Settled(w, time) && s.InRange() && s.Level? && n in w.Get(s)
    ensures s.idx != LevelIndex(time, s.level)
    ensures s.level < 3 ==> Agree(n.expire, time, LevelSpan(s.level)) && s.idx > LevelIndex(time, s.level)
  {
    var e, i := n.expire, s.level;
    PlacementAhead(e, time);
    if i < 3 {
      AheadInBlock(e, time, i + 1);
      Monotone(time, e, i);
      NestedDivision(e, i);
      NestedDivision(time, i);
      var qt, qe := time / Span(i), e / Span(i);
      assert qt <= qe && qt / TIME_LEVEL == qe / TIME_LEVEL;
    }
  }

  class Timer {
    const near: array<seq<TimerNode>>
    const t: array2<seq<TimerNode>>
    var time: Tick
    var starttime: Tick
    var current: nat
    var currentPoint: nat

    ghost predicate Valid()
    {
      near.Length == TIME_NEAR && t.Length0 == 4 && t.Length1 == TIME_LEVEL
    }

    /** The coarse wheel as four levels of 64 slot lists. */
    ghost function Rows(): (r: seq<seq<seq<TimerNode>>>)
      reads t
      requires Valid()
      ensures |r| == 4 && forall l :: 0 <= l < 4 ==> |r[l]| == TIME_LEVEL
    {
      seq(4, l requires 0 <= l < 4 reads t =>
        seq(TIME_LEVEL, i requires 0 <= i < TIME_LEVEL reads t => t[l, i]))
    }

    /** The arrays' contents as a Wheel value. */
    ghost function State(): (w: Wheel)
      reads near, t
      requires Valid()
      ensures w.WF()
    {
      Wheel(near[..], Rows())
    }

    /** The list held by slot `s`. */
    function SlotList(s: Slot): (r: seq<TimerNode>)
      reads near, t
      requires Valid() && s.InRange()
      ensures r == State().Get(s)
    {
      match s
      case Near(i) => near[i]
      case Level(l, i) => t[l, i]
    }

    /** timer_create_timer: every slot empty, all clocks at 0. */
    constructor ()
      ensures Valid() && fresh(near) && fresh(t)
      ensures State() == EmptyWheel()
      ensures time == 0 && starttime == 0 && current == 0 && currentPoint == 0
    {
      near := new seq<TimerNode>[TIME_NEAR](_ => []);
      t := new seq<TimerNode>[4, TIME_LEVEL]((_, _) => []);
      time, starttime := 0, 0;
      current, currentPoint := 0, 0;
      new;
      assert near[..] == EmptyWheel().near;
      assert Rows() == EmptyWheel().levels by {
        assert forall l :: 0 <= l < 4 ==> Rows()[l] == EmptyWheel().levels[l];
      }
    }

    /** skynet_timer_init's clock readings: the start second, the
        centisecond part of the wall clock, and the monotonic clock in
        centiseconds (inputs here). */
    method Init(startSeconds: Tick, centiseconds: nat, monotonic: nat)
      modifies this`starttime, this`current, this`currentPoint
      ensures starttime == startSeconds && current == centiseconds && currentPoint == monotonic
    {
      starttime := startSeconds;
      current := centiseconds;
      currentPoint := monotonic;
    }

    /** Store `v` as the list of slot `s`; the common step of link and link_clear. */
    method Replace(s: Slot, v: seq<TimerNode>)
      requires Valid() && s.InRange()
      modifies near, t
      ensures State() == old(State()).Set(s, v)
    {
      match s
      case Near(i) =>
        near[i] := v;
        assert near[..] == old(near[..])[i := v];
      case Level(l, i) =>
        t[l, i] := v;
        assert Rows() == old(Rows())[l := old(Rows())[l][i := v]] by {
          assert forall l' :: 0 <= l' < 4 ==> Rows()[l'] == old(Rows())[l := old(Rows())[l][i := v]][l'];
        }
    }

    /** link: append a node at the tail of slot `s`. */
    method Link(s: Slot, node: TimerNode)
      requires Valid() && s.InRange()
      modifies near, t
      ensures State() == old(State()).Set(s, old(State()).Get(s) + [node])
    {
      var list := SlotList(s);
      Replace(s, list + [node]);
    }

    /** link_clear: detach and return the list of slot `s`, leaving it empty. */
    method LinkClear(s: Slot) returns (list: seq<TimerNode>)
      requires Valid() && s.InRange()
      modifies near, t
      ensures list == old(State()).Get(s)
      ensures State() == old(State()).Set(s, [])
    {
      list := SlotList(s);
      Replace(s, []);
    }

    /** add_node: link a node into the slot its expiry calls for. */
    method AddNode(node: TimerNode)
      requires Valid()
      modifies near, t
      ensures State() == old(State()).Add(node, time)
    {
      var s := FindSlot(node.expire, time);
      Link(s, node);
    }

    /** timer_add: a node expiring `delay` ticks from now is placed by add_node. */
    method TimerAdd(event: TimerEvent, delay: int)
      requires Valid() && 0 < delay < 0x8000_0000
      modifies near, t
      ensures State() == old(State()).Add(TimerNode(Expiry(delay, time), event), time)
    {
      var node := TimerNode(Expiry(delay, time), event);
      AddNode(node);
    }

    /** move_list: empty one coarse slot and re-add each of its nodes. */
    method MoveList(level: int, idx: int)
      requires Valid() && 0 <= level < 4 && 0 <= idx < TIME_LEVEL
      modifies near, t
      ensures State() == old(State()).Move(Level(level, idx), time)
    {
      var list := LinkClear(Level(level, idx));
      ghost var start := State();
      var k := 0;
      while k < |list|
        invariant 0 <= k <= |list|
        invariant State() == start.AddAll(list[..k], time)
      {
        assert list[..k + 1][..k] == list[..k];
        AddNode(list[k]);
        k := k + 1;
      }
      assert list[..k] == list;
    }

    /** timer_shift: advance the tick by one (wrapping) and cascade the slot
        Cascade names for the new tick, if any. */
    method Shift()
      requires Valid()
      modifies this`time, near, t
      ensures time == Next(old(time))
      ensures State() == old(State()).Tick(time)
    {
      var mask := TIME_NEAR;
      time := Next(time);
      var ct := time;
      if ct == 0 {
        MoveList(3, 0);
      } else {
        var tm := ct / TIME_NEAR;
        var i := 0;
        ghost var cascaded := false;
        while ct % mask == 0
          modifies near, t
          invariant 0 <= i <= 3 && mask == Span(i)
          invariant tm == ct / Span(i)
          invariant forall j :: 0 <= j < i ==> LevelIndex(ct, j) == 0
          invariant i > 0 ==> ct % Span(i) == 0
          invariant State() == old(State())
          decreases 3 - i
        {
          var idx := tm % TIME_LEVEL;
          if idx != 0 {
            CascadeAt(ct, i);
            MoveList(i, idx);
            cascaded := true;
            break;
          }
          CascadeStep(ct, i);
          mask := mask * TIME_LEVEL;
          tm := tm / TIME_LEVEL;
          i := i + 1;
        }
        if !cascaded {
          assert i == 0 && ct % TIME_NEAR != 0;
        }
      }
    }

    /** dispatch_list: one delivery per node, in list order.  The source's
        do-while dereferences the list before testing it, so it must not be
        empty. */
    static method DispatchList(list: seq<TimerNode>) returns (fired: seq<Delivery>)
      requires list != []
      ensures fired == FireAll(list)
    {
      var current := list;
      fired := [];
      while true
        invariant current != [] && |fired| + |current| == |list| && current == list[|fired|..]
        invariant forall k :: 0 <= k < |fired| ==> fired[k] == Fire(list[k])
        decreases |current|
      {
        fired := fired + [Fire(current[0])];
        current := current[1..];
        if current == [] {
          break;
        }
      }
    }

    /** timer_execute: detach the near slot of the current tick and dispatch
        it.  Without other threads the slot stays empty once detached, so the
        loop runs at most once.  `delivered` is what `dispatch_list` hands to
        the owners of the fired timers. */
    method Execute() returns (fired: seq<TimerNode>, delivered: seq<Delivery>)
      requires Valid()
      modifies near, t
      ensures var s := Near(NearIndex(time));
              fired == old(State()).Get(s) && State() == old(State()).Set(s, [])
      ensures delivered == FireAll(fired)
    {
      var idx := NearIndex(time);
      fired := [];
      delivered := [];
      while near[idx] != []
        invariant delivered == FireAll(fired)
        invariant fired == [] ==> State() == old(State())
        invariant fired != [] ==> near[idx] == [] && fired == old(State()).Get(Near(idx)) &&
                                  State() == old(State()).Set(Near(idx), [])
        decreases if fired == [] then 1 else 0
      {
        var current := LinkClear(Near(idx));
        delivered := DispatchList(current);
        fired := current;
      }
      if fired == [] {
        assert State() == old(State()).Set(Near(idx), []) by {
          assert near[..] == old(near[..])[idx := []];
        }
      }
    }

    /** timer_update: fire the timers of this tick, advance, fire again. */
    method Update() returns (fired: seq<TimerNode>)
      requires Valid()
      modifies this`time, near, t
      ensures Progress(State(), time, fired) == Step(Progress(old(State()), old(time), []))
    {
      var first, _ := Execute();
      Shift();
      var second, _ := Execute();
      fired := first + second;
    }

    /** skynet_updatetime with the clock reading `cp` (centiseconds).  A
        clock that went backwards is only adopted; otherwise the elapsed
        ticks, truncated to 32 bits, are run one timer_update each and added
        to the 64-bit `current`. */
    method UpdateTime(cp: nat) returns (fired: seq<TimerNode>)
      requires Valid() && cp < 0x1_0000_0000_0000_0000 && currentPoint < 0x1_0000_0000_0000_0000
      modifies this`time, this`current, this`currentPoint, near, t
      ensures currentPoint == cp
      ensures cp <= old(currentPoint) ==>
                fired == [] && time == old(time) && current == old(current) && State() == old(State())
      ensures cp > old(currentPoint) ==>
                var diff := (cp - old(currentPoint)) % 0x1_0000_0000;
                current == (old(current) + diff) % 0x1_0000_0000_0000_0000 &&
                Progress(State(), time, fired) == Run(Progress(old(State()), old(time), []), diff)
    {
      fired := [];
      if cp < currentPoint {
        currentPoint := cp;
      } else if cp != currentPoint {
        var diff := (cp - currentPoint) % 0x1_0000_0000;
        currentPoint := cp;
        current := (current + diff) % 0x1_0000_0000_0000_0000;
        fired := RunUpdates(diff);
      }
    }

    /** The loop of skynet_updatetime: `n` timer_updates in a row. */
    method RunUpdates(n: nat) returns (fired: seq<TimerNode>)
      requires Valid()
      modifies this`time, near, t
      ensures Progress(State(), time, fired) == Run(Progress(old(State()), old(time), []), n)
    {
      fired := [];
      ghost var start := Progress(State(), time, []);
      var i := 0;
      while i < n
        invariant 0 <= i <= n
        invariant Progress(State(), time, fired) == Run(start, i)
      {
        ghost var before := Progress(State(), time, fired);
        StepAppends(State(), time, fired);
        var more := Update();
        assert Progress(State(), time, fired + more) == Step(before);
        fired := fired + more;
        i := i + 1;
      }
    }

    /** skynet_timeout.  A non-positive delay delivers the response at once
        through skynet_context_push, whose refusal (`pushRefused`, an input
        here) makes the call answer -1; a positive delay adds a timer.  The
        call otherwise answers the session. */
    method Timeout(handle: nat, delay: int, session: int, pushRefused: bool)
      returns (r: int, immediate: Option<Delivery>)
      requires Valid() && -0x8000_0000 <= delay < 0x8000_0000
      modifies near, t
      ensures delay <= 0 ==>
                immediate == Some(Fire(TimerNode(time, TimerEvent(handle, session)))) &&
                State() == old(State()) &&
                r == (if pushRefused then -1 else session)
      ensures delay > 0 ==>
                immediate == None && r == session &&
                State() == old(State()).Add(TimerNode(Expiry(delay, time), TimerEvent(handle, session)), time)
    {
      if delay <= 0 {
        immediate := Some(Delivery(handle, Message(0, session, 0, ResponseSize())));
        if pushRefused {
          return -1, immediate;
        }
      } else {
        immediate := None;
        TimerAdd(TimerEvent(handle, session), delay);
      }
      r := session;
    }
  }

  /** add_node's choice of slot: the near ring when the expiry agrees with
      the current tick above the low 8 bits, otherwise the search over the
      levels 0..2, falling through to level 3. */
  method FindSlot(expire: Tick, currentTime: Tick) returns (s: Slot)
    ensures s == Placement(expire, currentTime)
  {
    if Agree(expire, currentTime, TIME_NEAR) {
      s := Near(NearIndex(expire));
    } else {
      var i := 0;
      var mask := TIME_NEAR * TIME_LEVEL;
      while i < 3
        invariant 0 <= i <= 3 && (i < 3 ==> mask == LevelSpan(i))
        invariant forall j :: 0 <= j < i ==> !Agree(expire, currentTime, LevelSpan(j))
      {
        if Agree(expire, currentTime, mask) {
          break;
        }
        mask := mask * TIME_LEVEL;
        i := i + 1;
      }
      PlacementAtLevel(expire, currentTime, i);
      s := Level(i, LevelIndex(expire, i));
    }
  }

  /** The level add_node's search stops at is the one Placement names. */
  lemma PlacementAtLevel(expire: Tick, time: Tick, i: nat)
    requires i <= 3 && !Agree(expire, time, TIME_NEAR)
    requires i < 3 ==> Agree(expire, time, LevelSpan(i))
    requires forall j :: 0 <= j < i ==> !Agree(expire, time, LevelSpan(j))
    ensures Placement(expire, time) == Level(i, LevelIndex(expire, i))
  {
    if i > 0 {
      assert !Agree(expire, time, LevelSpan(0));
    }
    if i > 1 {
      assert !Agree(expire, time, LevelSpan(1));
    }
    if i > 2 {
      assert !Agree(expire, time, LevelSpan(2));
    }
  }

  /** Where timer_shift's search stops: the first non-zero level index. */
  lemma CascadeAt(ct: Tick, i: nat)
    requires i < 4 && ct != 0 && ct % Span(i) == 0
    requires forall j :: 0 <= j < i ==> LevelIndex(ct, j) == 0
    requires LevelIndex(ct, i) != 0
    ensures Cascade(ct) == Some(Level(i, LevelIndex(ct, i)))
  {
    if i == 0 {
    } else if i == 1 {
      assert LevelIndex(ct, 0) == 0;
      DigitBelow(ct, 0);
    } else if i == 2 {
      assert LevelIndex(ct, 0) == 0 && LevelIndex(ct, 1) == 0;
      DigitBelow(ct, 1);
      DigitBelow(ct, 0);
    } else {
      assert LevelIndex(ct, 0) == 0 && LevelIndex(ct, 1) == 0 && LevelIndex(ct, 2) == 0;
      DigitBelow(ct, 2);
      DigitBelow(ct, 1);
      DigitBelow(ct, 0);
    }
  }

  /** A tick divisible by Span(i + 1) is divisible by Span(i). */
  lemma DigitBelow(ct: Tick, i: nat)
    requires i < 3
    ensures ct % Span(i + 1) == 0 ==> ct % Span(i) == 0
  {
    if ct % Span(i + 1) == 0 {
      var q := ct / Span(i + 1);
      assert ct == (q * TIME_LEVEL) * Span(i);
    }
  }

  /** One more round of timer_shift's search: with a zero index at level i the
      bits below level i + 1 are zero too, and level 3 always has a non-zero
      index when the tick is non-zero. */
  lemma CascadeStep(ct: Tick, i: nat)
    requires i < 4 && ct != 0 && ct % Span(i) == 0 && LevelIndex(ct, i) == 0
    ensures i < 3
    ensures ct % Span(i + 1) == 0
    ensures (ct / Span(i)) / TIME_LEVEL == ct / Span(i + 1)
  {
    var q := ct / Span(i);
    assert ct == q * Span(i);
    assert q % TIME_LEVEL == 0;
    var r := q / TIME_LEVEL;
    assert q == r * TIME_LEVEL;
    assert ct == r * Span(i + 1);
  }
}
