/**
 * Write buffers of a socket and the pure rules around them: the byte stream
 * a list of buffers still owes the peer, what `send_list_tcp` and
 * `send_list_udp` do to a list given the outcomes of their system calls, the
 * back-pressure watermark and the adaptive read size.
 */
module WriteBuffers {
  import opened Bytes
  import opened Wrappers
  import opened SocketUdp

  /** The 19-byte `udp_address` arrays. */
  type UdpAddress = a: seq<byte> | |a| == UDP_ADDRESS_SIZE witness seq(19, _ => 0)

  /**
   * A `struct write_buffer`. `rest` holds the `sz` bytes from `ptr` on that are
   * still to be written and `consumed` is `ptr - buffer`, the bytes already
   * written. `udpAddress` is the destination of a UDP buffer.
   */
  datatype WriteBuffer = WriteBuffer(consumed: nat, rest: seq<byte>, udpAddress: UdpAddress)

  /** A buffer as `append_sendbuffer_` makes it: `ptr == buffer`. */
  function NewBuffer(payload: seq<byte>, udpAddress: UdpAddress): (b: WriteBuffer)
    ensures b.consumed == 0 && b.rest == payload
  {
    WriteBuffer(0, payload, udpAddress)
  }

  /** The bytes a direct-write remainder (`dw_buffer` from `dw_offset` on) still owes, if there is one. */
  function DirectBytes(direct: Option<WriteBuffer>): seq<byte>
  {
    if direct.Some? then direct.value.rest else []
  }

  /** The bytes a list still has to write, in list order. */
  function Stream(list: seq<WriteBuffer>): seq<byte>
  {
    if list == [] then [] else list[0].rest + Stream(list[1..])
  }

  /** The high list with a direct-write remainder linked in front of it, as `send_buffer` does. */
  function Prepended(direct: Option<WriteBuffer>, high: seq<WriteBuffer>): (r: seq<WriteBuffer>)
    ensures Stream(r) == DirectBytes(direct) + Stream(high)
  {
    if direct.Some? then
      assert ([direct.value] + high)[1..] == high;
      [direct.value] + high
    else high
  }

  /** The part of `wb_size` a list accounts for. */
  function Pending(list: seq<WriteBuffer>): nat
  {
    |Stream(list)|
  }

  lemma {:induction false} StreamAppend(list: seq<WriteBuffer>, b: WriteBuffer)
    ensures Stream(list + [b]) == Stream(list) + b.rest
  {
    if list != [] {
      assert (list + [b])[1..] == list[1..] + [b];
      StreamAppend(list[1..], b);
    }
  }

  /** No buffer of the list has been partly written. */
  predicate Untouched(list: seq<WriteBuffer>)
  {
    forall i :: 0 <= i < |list| ==> list[i].consumed == 0
  }

  /** `list_uncomplete`: the head of the list has been partly written (`ptr != buffer`). */
  predicate ListUncomplete(list: seq<WriteBuffer>)
  {
    list != [] && list[0].consumed != 0
  }

  /**
   * A list of untouched buffers is never uncomplete, which is what
   * `send_buffer_` asserts of the low list; with an untouched tail a list
   * is uncomplete exactly when it is not untouched throughout.
   */
  lemma UncompleteHead(list: seq<WriteBuffer>)
    ensures Untouched(list) ==> !ListUncomplete(list)
    ensures list != [] && Untouched(list[1..]) ==> (ListUncomplete(list) <==> !Untouched(list))
  {
    if list != [] && Untouched(list[1..]) && !ListUncomplete(list) {
      UntouchedCons(list);
    }
  }

  /** What one `write` or `sendto` call does with a buffer. */
  datatype OsWrite =
    | Accept(room: nat)   // the kernel takes up to `room` bytes (a datagram goes whole)
    | Interrupted         // EINTR
    | WouldBlock          // EAGAIN / EWOULDBLOCK
    | Failed              // any other error

  function Min(a: nat, b: nat): nat
  {
    if a < b then a else b
  }

  /** The result of `send_list_tcp`: the list left, the bytes written, the unused call outcomes, and whether a call failed. */
  datatype TcpDrain = TcpDrain(list: seq<WriteBuffer>, written: seq<byte>, calls: seq<OsWrite>, failed: bool)

  /**
   * `send_list_tcp` over a list, given the outcomes of its successive `write`
   * calls (when `os` runs out the next call would block). A full write pops
   * the head, a short one advances it and stops, `EINTR` retries, would-block
   * stops and any other error stops with the socket to be closed.
   */
  function DrainTcp(list: seq<WriteBuffer>, os: seq<OsWrite>): (r: TcpDrain)
    ensures |r.list| <= |list|
    ensures r.failed ==> r.list != []
    decreases |os|
  {
    if list == [] then TcpDrain([], [], os, false)
    else if os == [] then TcpDrain(list, [], [], false)
    else match os[0]
      case Interrupted => DrainTcp(list, os[1..])
      case WouldBlock => TcpDrain(list, [], os[1..], false)
      case Failed => TcpDrain(list, [], os[1..], true)
      case Accept(room) =>
        var b := list[0];
        var k := Min(room, |b.rest|);
        if k != |b.rest| then
          Partial(list, k, os[1..])
        else
          var d := DrainTcp(list[1..], os[1..]);
          TcpDrain(d.list, b.rest + d.written, d.calls, d.failed)
  }

  /**
   * What `send_list_tcp` wrote is exactly the front of the list's bytes, and
   * the buffers it left behind the head are the list's own last ones.
   */
  lemma {:induction false} DrainTcpWrites(list: seq<WriteBuffer>, os: seq<OsWrite>)
    ensures var r := DrainTcp(list, os);
      Stream(list) == r.written + Stream(r.list) &&
      (r.list == [] || r.list[1..] == list[|list| - |r.list| + 1..])
    decreases |os|
  {
    if list != [] && os != [] {
      match os[0]
      case Interrupted => DrainTcpWrites(list, os[1..]);
      case WouldBlock =>
      case Failed =>
      case Accept(room) =>
        var k := Min(room, |list[0].rest|);
        if k == |list[0].rest| {
          DrainTcpWrites(list[1..], os[1..]);
          assert Stream(list) == list[0].rest + Stream(list[1..]);
          var r := DrainTcp(list, os);
          if r.list != [] {
            assert list[1..][|list[1..]| - |r.list| + 1..] == list[|list| - |r.list| + 1..];
          }
        }
    }
  }

  /** A short write of `k` bytes: the head advances by `k` and the call stops. */
  function Partial(list: seq<WriteBuffer>, k: nat, calls: seq<OsWrite>): (r: TcpDrain)
    requires list != [] && k < |list[0].rest|
    ensures Stream(list) == r.written + Stream(r.list)
    ensures |r.list| == |list| && r.list[1..] == list[1..] && !r.failed && r.calls == calls
  {
    var b := list[0];
    var head := b.(consumed := b.consumed + k, rest := b.rest[k..]);
    assert b.rest == b.rest[..k] + b.rest[k..];
    assert ([head] + list[1..])[1..] == list[1..];
    TcpDrain([head] + list[1..], b.rest[..k], calls, false)
  }

  /**
   * Only the head of what is left can differ from the buffer that stood at its
   * place: it keeps its address and has advanced by the bytes it lost.
   */
  lemma {:induction false} DrainTcpHead(list: seq<WriteBuffer>, os: seq<OsWrite>)
    ensures var r := DrainTcp(list, os);
      r.list != [] ==> var b := list[|list| - |r.list|];
        r.list[0].udpAddress == b.udpAddress && |r.list[0].rest| <= |b.rest| &&
        r.list[0].consumed == b.consumed + (|b.rest| - |r.list[0].rest|)
    decreases |os|
  {
    if list != [] && os != [] {
      match os[0]
      case Interrupted => DrainTcpHead(list, os[1..]);
      case WouldBlock =>
      case Failed =>
      case Accept(room) =>
        var k := Min(room, |list[0].rest|);
        if k == |list[0].rest| {
          DrainTcpHead(list[1..], os[1..]);
          var r := DrainTcp(list, os);
          if r.list != [] {
            assert list[|list| - |r.list|] == list[1..][|list[1..]| - |r.list|];
          }
        }
    }
  }

  /** A drain that comes after `prefix` bytes were already written. */
  function After(prefix: seq<byte>, d: TcpDrain): (r: TcpDrain)
    ensures r.list == d.list && r.calls == d.calls && r.failed == d.failed && r.written == prefix + d.written
  {
    d.(written := prefix + d.written)
  }

  /** The result of `send_list_udp`: the list left and the unused call outcomes. */
  datatype UdpDrain = UdpDrain(list: seq<WriteBuffer>, calls: seq<OsWrite>)

  /**
   * `send_list_udp` for a socket of protocol `protocol`: a buffer whose
   * address does not match the socket is dropped and the call stops; a sent
   * datagram is popped; `EINTR` or would-block stops with the buffer kept;
   * any other error drops the buffer and stops.
   */
  function DrainUdp(protocol: byte, list: seq<WriteBuffer>, os: seq<OsWrite>): (r: UdpDrain)
    ensures |r.list| <= |list| && r.list == list[|list| - |r.list|..]
    ensures |r.calls| <= |os| && r.calls == os[|os| - |r.calls|..]
    decreases |os|
  {
    if list == [] then UdpDrain([], os)
    else if UdpSocketAddress(protocol, list[0].udpAddress).None? then UdpDrain(list[1..], os)
    else if os == [] then UdpDrain(list, [])
    else match os[0]
      case Interrupted => UdpDrain(list, os[1..])
      case WouldBlock => UdpDrain(list, os[1..])
      case Failed => UdpDrain(list[1..], os[1..])
      case Accept(_) => DrainUdp(protocol, list[1..], os[1..])
  }

  /** A list's stream is the stream of its first `j` buffers followed by that of the rest. */
  lemma {:induction false} StreamSplit(list: seq<WriteBuffer>, j: nat)
    requires j <= |list|
    ensures Stream(list) == Stream(list[..j]) + Stream(list[j..])
  {
    if j > 0 {
      assert list[..j][1..] == list[1..][..j - 1];
      assert list[j..] == list[1..][j - 1..];
      StreamSplit(list[1..], j - 1);
    } else {
      assert list[j..] == list;
    }
  }

  /** `after` is what is left of `before` once a prefix of it has gone out. */
  predicate Leaves(before: seq<byte>, after: seq<byte>)
    decreases |before|
  {
    before == after || (|before| > |after| && Leaves(before[1..], after))
  }

  lemma {:induction false} LeavesShorter(before: seq<byte>, after: seq<byte>)
    requires Leaves(before, after)
    ensures |after| <= |before|
    decreases |before|
  {
    if before != after {
      LeavesShorter(before[1..], after);
    }
  }

  /** Whatever has been sent, nothing may be left. */
  lemma {:induction false} LeavesNothing(before: seq<byte>)
    ensures Leaves(before, [])
    decreases |before|
  {
    if before != [] {
      LeavesNothing(before[1..]);
    }
  }

  lemma {:induction false} LeavesPrefix(gone: seq<byte>, rest: seq<byte>)
    ensures Leaves(gone + rest, rest)
    decreases |gone|
  {
    if gone != [] {
      assert (gone + rest)[1..] == gone[1..] + rest;
      LeavesPrefix(gone[1..], rest);
    } else {
      assert gone + rest == rest;
    }
  }

  lemma {:induction false} LeavesTrans(a: seq<byte>, b: seq<byte>, c: seq<byte>)
    requires Leaves(a, b) && Leaves(b, c)
    ensures Leaves(a, c)
    decreases |a|
  {
    if a != b && a != c {
      LeavesTrans(a[1..], b, c);
      LeavesShorter(a[1..], b);
      LeavesShorter(b, c);
    }
  }

  lemma {:induction false} LeavesAppend(a: seq<byte>, b: seq<byte>, c: seq<byte>)
    requires Leaves(a, b)
    ensures Leaves(a + c, b + c)
    decreases |a|
  {
    if a != b {
      assert (a + c)[1..] == a[1..] + c;
      LeavesAppend(a[1..], b, c);
    }
  }

  /** Neither drain ever adds bytes to a list. */
  lemma DrainsShrink(protocol: byte, list: seq<WriteBuffer>, os: seq<OsWrite>)
    ensures Pending(DrainTcp(list, os).list) <= Pending(list)
    ensures Pending(DrainUdp(protocol, list, os).list) <= Pending(list)
  {
    DrainTcpWrites(list, os);
    var u := DrainUdp(protocol, list, os);
    StreamSplit(list, |list| - |u.list|);
  }

  /** Partial writes only happen at the head: a list of untouched buffers keeps all but its head untouched. */
  lemma DrainTcpKeepsTail(list: seq<WriteBuffer>, os: seq<OsWrite>)
    requires Untouched(list)
    ensures var r := DrainTcp(list, os); r.list == [] || Untouched(r.list[1..])
  {
    var r := DrainTcp(list, os);
    DrainTcpWrites(list, os);
    if r.list != [] {
      forall i | 0 <= i < |r.list[1..]| ensures r.list[1..][i].consumed == 0 {
        assert r.list[1..][i] == list[|list| - |r.list| + 1 + i];
      }
    }
  }

  /** An untouched head in front of an untouched tail. */
  lemma UntouchedCons(list: seq<WriteBuffer>)
    requires list != [] && list[0].consumed == 0 && Untouched(list[1..])
    ensures Untouched(list)
  {
    forall i | 0 < i < |list| ensures list[i].consumed == 0 {
      assert list[i] == list[1..][i - 1];
    }
  }

  /** A UDP drain leaves a suffix of the list, so an untouched list stays untouched. */
  lemma DrainUdpUntouched(protocol: byte, list: seq<WriteBuffer>, os: seq<OsWrite>)
    requires Untouched(list)
    ensures Untouched(DrainUdp(protocol, list, os).list)
  {
    var d := DrainUdp(protocol, list, os);
    forall i | 0 <= i < |d.list| ensures d.list[i].consumed == 0 {
      assert d.list[i] == list[|list| - |d.list| + i];
    }
  }

  /** The outcome of `send_list` on either protocol. */
  datatype Drained = Drained(list: seq<WriteBuffer>, calls: seq<OsWrite>, failed: bool)

  /** `send_list`: `send_list_tcp` on a TCP socket, `send_list_udp` on any other. */
  function Drain(protocol: byte, list: seq<WriteBuffer>, os: seq<OsWrite>): (r: Drained)
    ensures Pending(r.list) <= Pending(list)
    ensures r.failed ==> protocol == PROTOCOL_TCP && r.list != []
    ensures Untouched(list) ==> r.list == [] || Untouched(r.list[1..])
    ensures Untouched(list) && protocol != PROTOCOL_TCP ==> Untouched(r.list)
    ensures Leaves(Stream(list), Stream(r.list))
  {
    DrainsShrink(protocol, list, os);
    if protocol == PROTOCOL_TCP then
      var d := DrainTcp(list, os);
      DrainTcpWrites(list, os);
      LeavesPrefix(d.written, Stream(d.list));
      if Untouched(list) then DrainTcpKeepsTail(list, os); Drained(d.list, d.calls, d.failed)
      else Drained(d.list, d.calls, d.failed)
    else
      var d := DrainUdp(protocol, list, os);
      StreamSplit(list, |list| - |d.list|);
      LeavesPrefix(Stream(list[..|list| - |d.list|]), Stream(d.list));
      if Untouched(list) then DrainUdpUntouched(protocol, list, os); Drained(d.list, d.calls, false)
      else Drained(d.list, d.calls, false)
  }

  /** What a flush leaves: the two lists, the unused call outcomes, and whether a write failed. */
  datatype Flushed = Flushed(high: seq<WriteBuffer>, low: seq<WriteBuffer>, calls: seq<OsWrite>, failed: bool)

  /**
   * Steps 1 to 3 of `send_buffer_` on the lists: the high list as far as
   * possible; the low list only once the high one is empty; a partly written
   * low head then goes alone to the high list.
   */
  function Flush(protocol: byte, high: seq<WriteBuffer>, low: seq<WriteBuffer>, os: seq<OsWrite>): (f: Flushed)
    ensures Pending(f.high) + Pending(f.low) <= Pending(high) + Pending(low)
    ensures f.failed ==> protocol == PROTOCOL_TCP
    ensures !f.failed && f.low != low ==> |f.high| <= 1
  {
    var h := Drain(protocol, high, os);
    if h.failed then Flushed([], [], h.calls, true)
    else if h.list != [] || low == [] then Flushed(h.list, low, h.calls, false)
    else
      var lo := Drain(protocol, low, h.calls);
      if lo.failed then Flushed([], [], lo.calls, true)
      else if ListUncomplete(lo.list) then
        StreamSplit(lo.list, 1);
        assert lo.list[..1] == [lo.list[0]];
        Flushed([lo.list[0]], lo.list[1..], lo.calls, false)
      else Flushed([], lo.list, lo.calls, false)
  }

  /**
   * A flush adds and reorders nothing: what is left of the high stream
   * followed by the low stream is a suffix of it, so every high byte goes
   * out before any low byte. Only a TCP write fails, the low list stays free
   * of partly written buffers, and the low list is never written while the
   * high one holds bytes.
   */
  lemma FlushKeepsOrder(protocol: byte, high: seq<WriteBuffer>, low: seq<WriteBuffer>, os: seq<OsWrite>)
    requires Untouched(low)
    ensures var f := Flush(protocol, high, low, os);
      (f.failed ==> protocol == PROTOCOL_TCP) &&
      (!f.failed ==> Leaves(Stream(high) + Stream(low), Stream(f.high) + Stream(f.low)) && Untouched(f.low)) &&
      (!f.failed && Drain(protocol, high, os).list != [] ==> f.low == low)
  {
    var h := Drain(protocol, high, os);
    if !h.failed {
      LeavesAppend(Stream(high), Stream(h.list), Stream(low));
      if h.list == [] && low != [] {
        LeavesPrefix(Stream(high), Stream(low));
        var lo := Drain(protocol, low, h.calls);
        var f := Flush(protocol, high, low, os);
        RaisedKeepsOrder(lo);
        if !lo.failed {
          assert Stream(f.high) + Stream(f.low) == Stream(lo.list);
          LeavesTrans(Stream(high) + Stream(low), Stream(low), Stream(f.high) + Stream(f.low));
        }
      }
    }
  }

  /** Step 3 of `send_buffer_` keeps the stream of the drained low list. */
  lemma RaisedKeepsOrder(lo: Drained)
    requires lo.list == [] || Untouched(lo.list[1..])
    ensures var f := if ListUncomplete(lo.list) then Flushed([lo.list[0]], lo.list[1..], lo.calls, false)
      else Flushed([], lo.list, lo.calls, false);
      Stream(f.high) + Stream(f.low) == Stream(lo.list) && Untouched(f.low)
  {
    if ListUncomplete(lo.list) {
      assert Stream([lo.list[0]]) == lo.list[0].rest;
    } else if lo.list != [] {
      UntouchedCons(lo.list);
    }
  }

  const WARNING_SIZE: int := 1024 * 1024

  /**
   * The back-pressure check at the end of `send_socket`: when a
   * `SOCKET_WARNING` is due, the new `warn_size` and the `ud` the warning
   * carries (the backlog in KiB, rounded up).
   */
  function Watermark(wbSize: int, warnSize: int): (r: Option<(int, int)>)
    ensures r.Some? <==> wbSize >= WARNING_SIZE && wbSize >= warnSize
    ensures r.Some? ==> r.value.0 == if warnSize == 0 then 2 * WARNING_SIZE else 2 * warnSize
    ensures r.Some? ==> (r.value.1 - 1) * 1024 < wbSize <= r.value.1 * 1024
  {
    if wbSize >= WARNING_SIZE && wbSize >= warnSize then
      var ud := if wbSize % 1024 == 0 then wbSize / 1024 else wbSize / 1024 + 1;
      Some((if warnSize == 0 then WARNING_SIZE * 2 else warnSize * 2, ud))
    else
      None
  }

  /** The values `warn_size` takes: 0 before any warning, then 2 MiB, doubling. */
  predicate IsWarnSize(warnSize: int)
  {
    warnSize == 0 || warnSize >= 2 * WARNING_SIZE
  }

  /**
   * A warning raises the threshold past the old one, to at least 2 MiB, so
   * the next warning needs a larger backlog.
   */
  lemma WarningThresholdGrows(wbSize: int, warnSize: int)
    requires IsWarnSize(warnSize) && Watermark(wbSize, warnSize).Some?
    ensures var next := Watermark(wbSize, warnSize).value.0;
      IsWarnSize(next) && next > warnSize && next > WARNING_SIZE
  {
  }

  const MIN_READ_BUFFER: int := 64

  /** The read-size rule of `forward_message_tcp` after `n` bytes came back from a read of `sz`. */
  function NextReadSize(sz: int, n: int): (r: int)
    ensures n == sz ==> r == 2 * sz
    ensures n != sz && sz > MIN_READ_BUFFER && n * 2 < sz ==> r == sz / 2
    ensures n != sz && !(sz > MIN_READ_BUFFER && n * 2 < sz) ==> r == sz
  {
    if n == sz then sz * 2
    else if sz > MIN_READ_BUFFER && n * 2 < sz then sz / 2
    else sz
  }

  /** The read sizes a socket can have: 64 times a power of two. */
  predicate IsReadSize(sz: int)
    decreases sz
  {
    sz == MIN_READ_BUFFER || (sz > MIN_READ_BUFFER && sz % 2 == 0 && IsReadSize(sz / 2))
  }

  lemma {:induction false} ReadSizeAtLeastMin(sz: int)
    requires IsReadSize(sz)
    ensures sz >= MIN_READ_BUFFER
  {
  }

  /** The read size stays 64 times a power of two, so halving never takes it below 64. */
  lemma ReadSizeKept(sz: int, n: int)
    requires IsReadSize(sz)
    ensures IsReadSize(NextReadSize(sz, n)) && NextReadSize(sz, n) >= MIN_READ_BUFFER
  {
    var r := NextReadSize(sz, n);
    if n == sz {
      assert (2 * sz) / 2 == sz;
      assert IsReadSize(2 * sz);
    } else if sz > MIN_READ_BUFFER && n * 2 < sz {
      assert IsReadSize(sz / 2);
    }
    ReadSizeAtLeastMin(r);
  }
}
