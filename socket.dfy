/**
 * One socket slot of the socket server: its state, its two write-buffer
 * lists and the operations of the socket thread on them.
 *
 * Every system call is an input: a `write`/`sendto` is an `OsWrite`, a `read`
 * an `OsRead`, and an `epoll` registration that fails is a boolean. Closing a
 * file descriptor and (un)registering it for events have no effect on the
 * modelled state and are left out.
 */
module Sockets {
  import opened Bytes
  import opened Wrappers
  import opened SocketIds
  import opened SocketUdp
  import opened SocketRequests
  import opened WriteBuffers

  /** `SOCKET_TYPE_*`. */
  datatype SocketType = Invalid | Reserve | PListen | Listen | Connecting | Connected | HalfClose | PAccept | Bind

  /** The kinds of result the socket thread reports (`SOCKET_DATA`, ...). */
  datatype Kind = SOCKET_DATA | SOCKET_CLOSE | SOCKET_OPEN | SOCKET_ACCEPT | SOCKET_ERR | SOCKET_EXIT | SOCKET_UDP | SOCKET_WARNING

  /** The `data` of a result: none, a fixed text, the text of the last OS error, or received bytes. */
  datatype Data = NoData | Text(text: string) | OsError | Received(bytes: seq<byte>)

  /** A `struct socket_message`. */
  datatype Message = Message(id: Int32, owner: Owner, ud: int, data: Data)

  /** What a handler returns: `Quiet` is the source's -1 (nothing to report). */
  datatype Reply = Quiet | Report(kind: Kind, msg: Message)

  /**
   * Whether `send_buffer_` ends by closing a socket of type `type0` after
   * steps 1-3 gave `f`: a failed write, or a half-closed socket whose lists
   * were both drained.
   */
  predicate FlushCloses(f: Flushed, type0: SocketType)
  {
    f.failed || (f.high == [] && f.low == [] && type0 == HalfClose)
  }

  /**
   * The warning threshold after `send_buffer_` started from `warn0` and
   * flushed to `f`: cleared once both lists are empty on a socket it
   * leaves open, else kept.
   */
  ghost function FlushedWarning(f: Flushed, type0: SocketType, warn0: int): int
  {
    if !FlushCloses(f, type0) && f.high == [] && f.low == [] then 0 else warn0
  }

  /** `PRIORITY_HIGH` / `PRIORITY_LOW`. */
  datatype Priority = High | Low

  /** What one `read` call does. */
  datatype OsRead =
    | Arrived(bytes: seq<byte>)   // the bytes the kernel holds; the read takes at most the buffer size
    | ReadInterrupted             // EINTR
    | ReadWouldBlock              // EAGAIN / EWOULDBLOCK
    | ReadFailed                  // any other error

  /**
   * A `struct socket_lock`: a re-entrant guard over the socket's `dw_lock`
   * spinlock. The spinlock is held exactly while `count` is positive; whether
   * another thread holds it is an input to `TryLock`.
   */
  class SocketLock {
    var count: int

    ghost predicate Valid()
      reads this
    {
      count >= 0
    }

    /** `socket_lock_init`. */
    constructor ()
      ensures Valid() && count == 0
    {
      count := 0;
    }

    /** `socket_lock`: takes the spinlock on the first entry only. */
    method Lock()
      requires Valid()
      modifies this
      ensures Valid() && count == old(count) + 1
    {
      count := count + 1;
    }

    /**
     * `socket_trylock`: fails only on a first entry while another thread
     * (`contended`) holds the spinlock; a nested entry always succeeds.
     */
    method TryLock(contended: bool) returns (ok: bool)
      requires Valid()
      modifies this
      ensures Valid()
      ensures ok <==> old(count) > 0 || !contended
      ensures count == old(count) + (if ok then 1 else 0)
    {
      if count == 0 && contended {
        return false;
      }
      count := count + 1;
      return true;
    }

    /** `socket_unlock`: the last exit releases the spinlock; the source asserts the count never goes below 0. */
    method Unlock()
      requires Valid() && count > 0
      modifies this
      ensures Valid() && count == old(count) - 1
    {
      count := count - 1;
    }
  }

  /** A `struct socket`. */
  class Socket {
    var owner: Owner
    var high: seq<WriteBuffer>
    var low: seq<WriteBuffer>
    var wbSize: int
    var sending: Word
    var fd: int
    var id: Int32
    var protocol: byte
    var socketType: SocketType
    var udpConnecting: int
    var warnSize: int
    /** `p.size`: the size of the next read on a TCP socket. */
    var readSize: int
    /** `p.udp_address`: the default peer of a UDP socket. */
    var udpAddress: UdpAddress
    /** `dw_buffer`, `dw_size` and `dw_offset`: what a worker's direct write left unsent. */
    var direct: Option<WriteBuffer>

    /** The slot belongs to a socket (it is neither free nor merely reserved). */
    predicate InUse()
      reads this
    {
      socketType != Invalid && socketType != Reserve
    }

    /** `wb_size` counts exactly the bytes the two lists still hold. */
    ghost predicate Accounted()
      reads this
    {
      InUse() ==> wbSize == Pending(high) + Pending(low)
    }

    ghost predicate Valid()
      reads this
    {
      Accounted() && Untouched(low) &&
      (!InUse() ==> high == [] && low == []) &&
      (InUse() ==> IsWarnSize(warnSize)) &&
      (InUse() && protocol == PROTOCOL_TCP ==> IsReadSize(readSize))
    }

    /** What `force_close` leaves behind. */
    ghost predicate Closed()
      reads this
    {
      socketType == Invalid && high == [] && low == [] && direct == None
    }

    /** The bytes still owed to the peer, in the order they are to go out: the direct-write remainder, then the high list, then the low list. */
    ghost function Backlog(): seq<byte>
      reads this
    {
      DirectBytes(direct) + Stream(high) + Stream(low)
    }

    /** `send_buffer_empty`. */
    predicate SendBufferEmpty()
      reads this
    {
      high == [] && low == []
    }

    /**
     * `nomore_sending_data`: no buffered bytes, no direct-write remainder and
     * no send request still queued in the control pipe.
     */
    predicate NomoreSendingData()
      reads this
    {
      SendBufferEmpty() && direct == None && SendingCount(sending) == 0
    }

    /** `can_direct_write`: a worker may write to the socket itself. */
    predicate CanDirectWrite(id: Int32)
      reads this
    {
      this.id == id && NomoreSendingData() && socketType == Connected && udpConnecting == 0
    }

    /** The states and the stale id that make `send_socket` drop a request for `id`. */
    predicate Rejects(id: Int32)
      reads this
    {
      socketType.Invalid? || socketType.HalfClose? || socketType.PAccept? || socketType.PListen? ||
      socketType.Listen? || this.id != id
    }

    /**
     * Step 4 of `send_buffer_` relies on empty lists meaning a `wb_size` of
     * 0: with both lists empty a socket owes the peer only its direct-write
     * remainder, and a free or reserved slot always has empty lists.
     */
    lemma EmptyBuffer()
      requires Valid()
      ensures SendBufferEmpty() ==> Backlog() == DirectBytes(direct)
      ensures SendBufferEmpty() && InUse() ==> wbSize == 0
      ensures !InUse() ==> SendBufferEmpty()
    {
    }

    /** With no more data to send the socket owes the peer nothing at all. */
    lemma NothingOwed()
      requires Valid()
      ensures NomoreSendingData() ==> Backlog() == [] && (InUse() ==> wbSize == 0)
    {
    }

    /**
     * A worker writes to the socket itself only when the socket thread would
     * take a send for `id` and nothing it holds could be overtaken: the
     * backlog is empty, `wb_size` is 0 and no send request is queued.
     */
    lemma DirectWriteInOrder(id: Int32)
      requires Valid()
      ensures CanDirectWrite(id) ==>
        !Rejects(id) && Backlog() == [] && wbSize == 0 && SendingCount(sending) == 0
    {
      NothingOwed();
    }

    /** `send_socket` takes a request for `id` exactly on a slot of that id that is reserved, connecting, connected or bound. */
    lemma SendableStates(id: Int32)
      ensures !Rejects(id) <==> this.id == id && socketType in {Reserve, Connecting, Connected, Bind}
    {
    }

    /**
     * Where `send_socket` queues a payload for `id`: on the high list or not,
     * and with which destination; `None` when it drops the payload or sends
     * it at once. `udpAddress` is the address of an `'A'` request, `sendto`
     * the outcome of the immediate `sendto` on an idle UDP socket.
     */
    function SendTarget(id: Int32, priority: Priority, udpAddress: Option<UdpAddress>, sendto: OsWrite): (t: Option<(bool, UdpAddress)>)
      reads this
      ensures Rejects(id) ==> t.None?
      ensures t.Some? ==> (this.id == id &&
        (socketType.Reserve? || socketType.Connecting? || socketType.Connected? || socketType.Bind?))
      ensures !Rejects(id) && protocol == PROTOCOL_TCP ==>
        t.Some? && (t.value.0 <==> priority == High || (SendBufferEmpty() && socketType == Connected))
      ensures !Rejects(id) && protocol != PROTOCOL_TCP ==>
        var address := if udpAddress.Some? then udpAddress.value else this.udpAddress;
        (t.None? <==> (SendBufferEmpty() && socketType == Connected &&
          (UdpSocketAddress(protocol, address).None? || sendto.Accept?))) &&
        (t.Some? ==> t.value == (priority == High, address))
    {
      if Rejects(id) then None
      else if protocol == PROTOCOL_TCP then
        Some((priority == High || (SendBufferEmpty() && socketType == Connected), Zeros(UDP_ADDRESS_SIZE)))
      else
        var address := if udpAddress.Some? then udpAddress.value else this.udpAddress;
        if SendBufferEmpty() && socketType == Connected &&
          (UdpSocketAddress(protocol, address).None? || sendto.Accept?) then None
        else Some((priority == High, address))
    }

    constructor ()
      ensures Valid() && socketType == Invalid
    {
      owner := 0;
      high, low := [], [];
      wbSize, sending, fd, id := 0, 0, 0, 0;
      protocol := PROTOCOL_TCP;
      socketType := Invalid;
      udpConnecting, warnSize, readSize := 0, 0, MIN_READ_BUFFER;
      udpAddress := Zeros(UDP_ADDRESS_SIZE);
      direct := None;
    }

    /**
     * What `send_socket` does with a request for `id`: the payload is queued
     * where `SendTarget` says, or dropped with nothing changed; a queued
     * payload adds to `wb_size` and may raise the back-pressure warning.
     * Nothing else of the socket changes.
     */
    twostate predicate SentAs(id: Int32, payload: seq<byte>, priority: Priority, udpAddress: Option<UdpAddress>,
                              sendto: OsWrite, r: Reply)
      reads this
    {
      var t := old(SendTarget(id, priority, udpAddress, sendto));
      socketType == old(socketType) && this.id == old(this.id) && owner == old(owner) &&
      protocol == old(protocol) && sending == old(sending) && direct == old(direct) &&
      readSize == old(readSize) && this.udpAddress == old(this.udpAddress) &&
      (t.None? ==>
        r == Quiet && high == old(high) && low == old(low) && wbSize == old(wbSize) && warnSize == old(warnSize)) &&
      (t.Some? ==>
        high == old(high) + (if t.value.0 then [NewBuffer(payload, t.value.1)] else []) &&
        low == old(low) + (if t.value.0 then [] else [NewBuffer(payload, t.value.1)]) &&
        wbSize == old(wbSize) + |payload| &&
        var w := Watermark(wbSize, old(warnSize));
        (w.None? ==> r == Quiet && warnSize == old(warnSize)) &&
        (w.Some? ==> r == Report(SOCKET_WARNING, Message(id, owner, w.value.1, NoData)) && warnSize == w.value.0))
    }

    /** `send_socket` on the slot of `id`; the source never sees a request for the id of a merely reserved slot. */
    method Send(id: Int32, payload: seq<byte>, priority: Priority, udpAddress: Option<UdpAddress>, sendto: OsWrite)
      returns (r: Reply)
      requires Valid() && (this.id == id ==> socketType != Reserve)
      modifies this`high, this`low, this`wbSize, this`warnSize
      ensures Valid() && SentAs(id, payload, priority, udpAddress, sendto, r)
    {
      var t := SendTarget(id, priority, udpAddress, sendto);
      if t.None? {
        return Quiet;
      }
      Append(t.value.0, payload, t.value.1);
      var w := Watermark(wbSize, warnSize);
      if w.Some? {
        WarningThresholdGrows(wbSize, warnSize);
        warnSize := w.value.0;
        return Report(SOCKET_WARNING, Message(this.id, owner, w.value.1, NoData));
      }
      r := Quiet;
    }

    /**
     * What `close_socket` does to a socket in use: a socket with nothing left
     * to send closes at once; otherwise the buffers are flushed first (unless
     * a worker's direct write holds the lock), and the socket closes when the
     * flush fails, when asked to shut down or when nothing is left, or else
     * waits half-closed.
     */
    twostate predicate ClosedAs(owner: Owner, shutdown: bool, contended: bool, os: seq<OsWrite>, r: Reply, calls: seq<OsWrite>)
      reads this
    {
      if old(NomoreSendingData()) then ClosedIdle(owner, os, r, calls)
      else if contended then ClosedContended(owner, shutdown, os, r, calls)
      else ClosedFlushing(Flush(old(protocol), Prepended(old(direct), old(high)), old(low), os), old(socketType),
        old(warnSize), old(id), old(this.owner), old(sending), old(Backlog()), owner, shutdown, r, calls)
    }

    /** Nothing was left to send: the socket closes and the close names the requester. */
    twostate predicate ClosedIdle(owner: Owner, os: seq<OsWrite>, r: Reply, calls: seq<OsWrite>)
      reads this
    {
      r == Report(SOCKET_CLOSE, Message(old(id), owner, 0, NoData)) && Closed() && calls == os &&
      wbSize == old(wbSize) && warnSize == old(warnSize)
    }

    /**
     * The lock was held, so nothing was written: a shutdown closes the socket
     * and names the requester, and otherwise it waits half-closed with all it
     * owed.
     */
    twostate predicate ClosedContended(owner: Owner, shutdown: bool, os: seq<OsWrite>, r: Reply, calls: seq<OsWrite>)
      reads this
    {
      calls == os && wbSize == old(wbSize) && warnSize == old(warnSize) &&
      if shutdown then
        r == Report(SOCKET_CLOSE, Message(old(id), owner, 0, NoData)) && Closed()
      else
        r == Quiet && socketType == HalfClose && high == old(high) && low == old(low) && direct == old(direct)
    }

    /**
     * The flush `f` ran on the direct-write remainder and the lists of a
     * socket that was of type `type0`, with threshold `warn0`, id `id0`,
     * owner `owner0`, send count word `sending0` and backlog `backlog0`. A
     * close it causes itself (`FlushCloses`) names the socket's owner.
     * Otherwise a shutdown, or nothing left once it ran, closes the socket
     * and names the requester; else the socket waits half-closed with the
     * lists it left. The backlog keeps only a suffix of the old one: bytes
     * leave only from the front, and a close drops what is left unsent. The
     * warning threshold is as the flush left it.
     */
    ghost predicate ClosedFlushing(f: Flushed, type0: SocketType, warn0: int, id0: Int32, owner0: Owner,
                                   sending0: Word, backlog0: seq<byte>, owner: Owner, shutdown: bool,
                                   r: Reply, calls: seq<OsWrite>)
      reads this
    {
      calls == f.calls && warnSize == FlushedWarning(f, type0, warn0) && Leaves(backlog0, Backlog()) &&
      if FlushCloses(f, type0) then
        r == Report(SOCKET_CLOSE, Message(id0, owner0, 0, NoData)) && Closed()
      else if shutdown || (f.high == [] && f.low == [] && SendingCount(sending0) == 0) then
        r == Report(SOCKET_CLOSE, Message(id0, owner, 0, NoData)) && Closed()
      else
        r == Quiet && socketType == HalfClose && direct == None && high == f.high && low == f.low &&
        wbSize == Pending(f.high) + Pending(f.low)
    }

    /**
     * What a close leaves as it was: the id, the owner, the protocol, the
     * send count word, the descriptor, the UDP connect flag, the read size
     * and the UDP peer.
     */
    twostate predicate IdentityKept()
      reads this
    {
      id == old(id) && owner == old(owner) && protocol == old(protocol) && sending == old(sending) &&
      fd == old(fd) && udpConnecting == old(udpConnecting) && readSize == old(readSize) &&
      udpAddress == old(udpAddress)
    }

    /**
     * The part of `close_socket` for a socket in use. It writes only the
     * lists, `wb_size`, the type, the direct-write remainder and `warn_size`.
     */
    method Close(owner: Owner, shutdown: bool, contended: bool, os: seq<OsWrite>)
      returns (r: Reply, calls: seq<OsWrite>)
      requires Valid() && socketType != Invalid && socketType != Reserve
      modifies this`high, this`low, this`wbSize, this`socketType, this`direct, this`warnSize
      ensures ClosedAs(owner, shutdown, contended, os, r, calls)
      ensures IdentityKept()
      ensures Valid()
    {
      if NomoreSendingData() {
        r, calls := CloseIdle(owner, shutdown, os);
      } else if contended {
        r, calls := CloseContended(owner, shutdown, os);
      } else {
        ghost var f;
      r, calls, f := CloseBusy(owner, shutdown, os);
      }
    }

    /** `close_socket` when nothing is left to send: the socket closes at once. */
    method CloseIdle(owner: Owner, shutdown: bool, os: seq<OsWrite>)
      returns (r: Reply, calls: seq<OsWrite>)
      requires Valid() && InUse() && NomoreSendingData()
      modifies this`high, this`low, this`socketType, this`direct
      ensures ClosedIdle(owner, os, r, calls)
      ensures Valid()
    {
      var l := new SocketLock();
      r := Finish(l, owner, shutdown);
      calls := os;
    }

    /**
     * `close_socket` when something is left to send but a worker's direct
     * write holds the lock: `send_buffer` does nothing, then comes the close
     * or the half-close.
     */
    method CloseContended(owner: Owner, shutdown: bool, os: seq<OsWrite>)
      returns (r: Reply, calls: seq<OsWrite>)
      requires Valid() && InUse() && !NomoreSendingData()
      modifies this`high, this`low, this`wbSize, this`socketType, this`direct, this`warnSize
      ensures ClosedContended(owner, shutdown, os, r, calls)
      ensures Valid()
    {
      var l := new SocketLock();
      r, calls := SendBuffer(l, true, os);
      r := Finish(l, owner, shutdown);
    }

    /**
     * `close_socket` when something is left to send and the lock is free:
     * the flush comes first, then the close or the half-close.
     */
    method CloseBusy(owner: Owner, shutdown: bool, os: seq<OsWrite>)
      returns (r: Reply, calls: seq<OsWrite>, ghost f: Flushed)
      requires Valid() && InUse() && !NomoreSendingData()
      modifies this`high, this`low, this`wbSize, this`socketType, this`direct, this`warnSize
      ensures f == Flush(old(protocol), Prepended(old(direct), old(high)), old(low), os)
      ensures ClosedFlushing(f, old(socketType), old(warnSize), old(id), old(this.owner), old(sending), old(Backlog()),
        owner, shutdown, r, calls)
      ensures Valid()
    {
      ghost var backlog0 := Backlog();
      var l;
      r, calls, l, f := FlushFirst(os);
      if r == Quiet {
        r := FinishFlushed(l, owner, shutdown, f, old(socketType), old(warnSize), old(sending), backlog0, calls);
      } else {
        FlushedClosing(f, old(socketType), old(warnSize), old(id), old(this.owner), old(sending), backlog0,
          owner, shutdown, r, calls);
      }
    }

    /** A flush that closed the socket closed it as `ClosedFlushing` says, whatever the close request. */
    lemma FlushedClosing(f: Flushed, type0: SocketType, warn0: int, id0: Int32, owner0: Owner, sending0: Word,
                         backlog0: seq<byte>, owner: Owner, shutdown: bool, r: Reply, calls: seq<OsWrite>)
      requires FlushCloses(f, type0) && calls == f.calls && warnSize == FlushedWarning(f, type0, warn0)
      requires r == Report(SOCKET_CLOSE, Message(id0, owner0, 0, NoData)) && Closed() && Leaves(backlog0, Backlog())
      ensures ClosedFlushing(f, type0, warn0, id0, owner0, sending0, backlog0, owner, shutdown, r, calls)
    {
    }

    /**
     * The end of `close_socket` after a flush `f` that left the socket open:
     * what `ClosedFlushing` says of the open case, on the snapshot the flush
     * started from.
     */
    method FinishFlushed(l: SocketLock, owner: Owner, shutdown: bool, ghost f: Flushed, ghost type0: SocketType,
                         ghost warn0: int, ghost sending0: Word, ghost backlog0: seq<byte>, ghost calls: seq<OsWrite>)
      returns (r: Reply)
      requires Valid() && InUse() && l.Valid()
      requires !FlushCloses(f, type0) && calls == f.calls && sending == sending0
      requires socketType == type0 && direct == None && high == f.high && low == f.low
      requires wbSize == Pending(f.high) + Pending(f.low) && warnSize == FlushedWarning(f, type0, warn0)
      requires Leaves(backlog0, Backlog())
      modifies this`socketType, this`high, this`low, this`direct, l
      ensures Valid() && l.Valid()
      ensures ClosedFlushing(f, type0, warn0, old(id), old(this.owner), sending0, backlog0, owner, shutdown, r, calls)
    {
      ghost var flushed := Backlog();
      r := Finish(l, owner, shutdown);
      LeavesTrans(backlog0, flushed, Backlog());
    }

    /**
     * The flush that `close_socket` runs when something is left to send and
     * the lock is free, under a lock of its own that it hands on: `f` is the
     * flush of the lists. A failed write closes the socket; otherwise the
     * lists are those `f` gives, and a cleared warning is not reported.
     */
    method FlushFirst(os: seq<OsWrite>) returns (r: Reply, calls: seq<OsWrite>, l: SocketLock, ghost f: Flushed)
      requires Valid() && InUse() && !NomoreSendingData()
      modifies this`high, this`low, this`wbSize, this`socketType, this`direct, this`warnSize
      ensures Valid() && fresh(l) && l.Valid() && l.count == 0
      ensures f == Flush(old(protocol), Prepended(old(direct), old(high)), old(low), os)
      ensures calls == f.calls && (r.Report? <==> FlushCloses(f, old(socketType)))
      ensures r.Report? ==> r == Report(SOCKET_CLOSE, Message(id, owner, 0, NoData)) && Closed()
      ensures r == Quiet ==>
        socketType == old(socketType) && direct == None && high == f.high && low == f.low &&
        wbSize == Pending(f.high) + Pending(f.low)
      ensures warnSize == FlushedWarning(f, old(socketType), old(warnSize))
      ensures Leaves(old(Backlog()), Backlog())
    {
      f := Flush(protocol, Prepended(direct, high), low, os);
      l := new SocketLock();
      r, calls := SendBuffer(l, false, os);
      FlushedReply(Prepended(old(direct), old(high)), old(low), old(socketType), old(warnSize), os, r, calls);
      if r.Report? && r.kind == SOCKET_CLOSE {
        return;
      }
      FlushedOpen(Prepended(old(direct), old(high)), old(low), old(socketType), old(warnSize), os, r, calls);
      r := Quiet;
    }

    /** A flush that did not close the socket left the lists `Flush` gives and kept the state. */
    lemma FlushedOpen(high0: seq<WriteBuffer>, low0: seq<WriteBuffer>, type0: SocketType, warn0: int,
                      os: seq<OsWrite>, r: Reply, calls: seq<OsWrite>)
      requires FlushedAs(high0, low0, type0, warn0, os, r, calls) && socketType != Invalid
      ensures var f := Flush(protocol, high0, low0, os);
        !f.failed && high == f.high && low == f.low && socketType == type0 && calls == f.calls &&
        warnSize == (if high == [] && low == [] then 0 else warn0)
    {
    }

    /**
     * The end of `close_socket` after the flush: close when asked to shut
     * down or when nothing is left to send, else wait half-closed.
     */
    method Finish(l: SocketLock, owner: Owner, shutdown: bool) returns (r: Reply)
      requires Valid() && InUse() && l.Valid()
      modifies this`socketType, this`high, this`low, this`direct, l
      ensures Valid() && l.Valid()
      ensures shutdown || old(NomoreSendingData()) ==>
        r == Report(SOCKET_CLOSE, Message(old(id), owner, 0, NoData)) && Closed()
      ensures !(shutdown || old(NomoreSendingData())) ==>
        r == Quiet && socketType == HalfClose && high == old(high) && low == old(low) && direct == old(direct)
      ensures Leaves(old(Backlog()), Backlog())
    {
      if shutdown || NomoreSendingData() {
        var sid := id;
        LeavesNothing(Backlog());
        var msg := ForceClose(l);
        return Report(SOCKET_CLOSE, msg.(id := sid, owner := owner));
      }
      socketType := HalfClose;
      r := Quiet;
    }

    /** What `reserve_id` does to the free slot it claims for `id`. */
    method Claim(id: Int32)
      requires Valid() && socketType == Invalid
      modifies this`socketType, this`id, this`protocol, this`udpConnecting, this`fd
      ensures Valid() && socketType == Reserve && this.id == id && protocol == PROTOCOL_UNKNOWN &&
        udpConnecting == 0 && fd == -1
    {
      socketType := Reserve;
      this.id := id;
      protocol := PROTOCOL_UNKNOWN;
      udpConnecting := 0;
      fd := -1;
    }

    /** The body of `new_fd` once the slot is registered: a reserved slot gets its fresh state. */
    method Init(id: Int32, fd: int, protocol: byte, owner: Owner)
      requires Valid() && socketType == Reserve
      modifies this`id, this`fd, this`sending, this`protocol, this`readSize, this`owner, this`wbSize,
        this`warnSize, this`direct
      ensures Valid() && socketType == Reserve
      ensures this.id == id && this.fd == fd && this.protocol == protocol && this.owner == owner
      ensures sending == InitialSending(id) && SendingTag(sending) == IdTag16(id) && SendingCount(sending) == 0
      ensures readSize == MIN_READ_BUFFER && wbSize == 0 && warnSize == 0
      ensures high == [] && low == [] && direct == None
    {
      this.id := id;
      this.fd := fd;
      sending := InitialSending(id);
      this.protocol := protocol;
      readSize := MIN_READ_BUFFER;
      this.owner := owner;
      wbSize := 0;
      warnSize := 0;
      direct := None;
    }

    /**
     * The part of `start_socket` for a socket waiting to be started or
     * already connected: a waiting one joins the event loop (`addFails` when
     * that fails, which closes it) and becomes connected or listening under
     * its new owner; a connected one only changes owner.
     */
    method Start(owner: Owner, addFails: bool) returns (r: Reply)
      requires Valid() && (socketType == PAccept || socketType == PListen || socketType == Connected)
      modifies this`socketType, this`owner, this`high, this`low, this`direct
      ensures Valid()
      ensures old(socketType) != Connected ==>
        if addFails then
          r == Report(SOCKET_ERR, Message(id, old(this.owner), 0, OsError)) && Closed()
        else
          r == Report(SOCKET_OPEN, Message(id, owner, 0, Text("start"))) && this.owner == owner &&
          socketType == (if old(socketType) == PAccept then Connected else Listen)
      ensures old(socketType) == Connected ==>
        r == Report(SOCKET_OPEN, Message(id, owner, 0, Text("transfer"))) && this.owner == owner &&
        socketType == Connected
      ensures !(old(socketType) != Connected && addFails) ==>
        high == old(high) && low == old(low) && direct == old(direct)
    {
      var l := new SocketLock();
      if socketType != Connected {
        if addFails {
          var msg := ForceClose(l);
          return Report(SOCKET_ERR, msg.(data := OsError));
        }
        socketType := if socketType == PAccept then Connected else Listen;
        this.owner := owner;
        return Report(SOCKET_OPEN, Message(id, owner, 0, Text("start")));
      }
      this.owner := owner;
      r := Report(SOCKET_OPEN, Message(id, owner, 0, Text("transfer")));
    }

    /**
     * `force_close`: the result names the socket and its owner; a free slot is
     * left alone, any other one (the source asserts it is not merely reserved)
     * loses its buffers and its direct-write remainder and becomes free.
     */
    method ForceClose(l: SocketLock) returns (msg: Message)
      requires l.Valid() && socketType != Reserve
      modifies this`high, this`low, this`socketType, this`direct, l
      ensures msg == Message(id, owner, 0, NoData)
      ensures l.Valid() && l.count == old(l.count)
      ensures socketType == Invalid
      ensures old(socketType) != Invalid ==> Closed()
      ensures old(socketType) == Invalid ==> high == old(high) && low == old(low) && direct == old(direct)
      ensures old(Valid()) ==> Valid()
    {
      msg := Message(id, owner, 0, NoData);
      if socketType == Invalid {
        return;
      }
      high, low := [], [];
      l.Lock();
      socketType := Invalid;
      direct := None;
      l.Unlock();
    }

    /**
     * `append_sendbuffer`, `append_sendbuffer_low` and
     * `append_sendbuffer_udp`: a new untouched buffer at the tail of one list,
     * and its bytes added to `wb_size`.
     */
    method Append(toHigh: bool, payload: seq<byte>, address: UdpAddress)
      requires Valid() && InUse()
      modifies this`high, this`low, this`wbSize
      ensures Valid()
      ensures high == old(high) + (if toHigh then [NewBuffer(payload, address)] else [])
      ensures low == old(low) + (if toHigh then [] else [NewBuffer(payload, address)])
      ensures wbSize == old(wbSize) + |payload|
      ensures Stream(high) + Stream(low) ==
        if toHigh then Stream(old(high)) + payload + Stream(old(low)) else Stream(old(high)) + Stream(old(low)) + payload
    {
      var b := NewBuffer(payload, address);
      if toHigh {
        StreamAppend(high, b);
        high := high + [b];
      } else {
        StreamAppend(low, b);
        low := low + [b];
      }
      wbSize := wbSize + |payload|;
    }

    /** Stores what is left of the list `send_list` worked on. */
    method SetList(toHigh: bool, list: seq<WriteBuffer>)
      modifies this`high, this`low
      ensures high == (if toHigh then list else old(high))
      ensures low == (if toHigh then old(low) else list)
    {
      if toHigh {
        high := list;
      } else {
        low := list;
      }
    }

    /**
     * The loop of `send_list_tcp` over one list: what is left of it, the unused
     * call outcomes and whether a write failed are exactly what `DrainTcp`
     * predicts, and `wb_size` drops by the bytes written.
     */
    method WriteList(list: seq<WriteBuffer>, os: seq<OsWrite>) returns (rest: seq<WriteBuffer>, calls: seq<OsWrite>, failed: bool)
      modifies this`wbSize
      ensures var d := DrainTcp(list, os);
        rest == d.list && calls == d.calls && failed == d.failed && wbSize == old(wbSize) - |d.written|
    {
      rest := list;
      ghost var written: seq<byte> := [];
      calls := os;
      while rest != []
        invariant DrainTcp(list, os) == After(written, DrainTcp(rest, calls))
        invariant wbSize == old(wbSize) - |written|
        decreases |calls|
      {
        if calls == [] {
          return rest, calls, false;
        }
        ghost var before := DrainTcp(rest, calls);
        var w := calls[0];
        calls := calls[1..];
        match w {
          case Interrupted =>
            assert before == DrainTcp(rest, calls);
          case WouldBlock =>
            assert before == TcpDrain(rest, [], calls, false);
            return rest, calls, false;
          case Failed =>
            assert before == TcpDrain(rest, [], calls, true);
            return rest, calls, true;
          case Accept(room) =>
            var b := rest[0];
            var k := Min(room, |b.rest|);
            wbSize := wbSize - k;
            if k != |b.rest| {
              assert before == Partial(rest, k, calls);
              rest := [b.(consumed := b.consumed + k, rest := b.rest[k..])] + rest[1..];
              return rest, calls, false;
            }
            assert before == After(b.rest, DrainTcp(rest[1..], calls));
            written := written + b.rest;
            rest := rest[1..];
        }
      }
      failed := false;
    }

    /**
     * `send_list_tcp` on the high (`toHigh`) or low list: the list is left as
     * `DrainTcp` predicts, and a failed write closes the socket.
     */
    method SendListTcp(toHigh: bool, l: SocketLock, os: seq<OsWrite>) returns (r: Reply, calls: seq<OsWrite>)
      requires Accounted() && InUse() && l.Valid()
      modifies this`high, this`low, this`wbSize, this`socketType, this`direct, l
      ensures l.Valid() && l.count == old(l.count) && Accounted()
      ensures var d := DrainTcp(if toHigh then old(high) else old(low), os);
        calls == d.calls &&
        if d.failed then
          r == Report(SOCKET_CLOSE, Message(id, owner, 0, NoData)) && Closed()
        else
          r == Quiet && socketType == old(socketType) && direct == old(direct) &&
          high == (if toHigh then d.list else old(high)) &&
          low == (if toHigh then old(low) else d.list) &&
          wbSize == old(wbSize) - |d.written|
    {
      var rest, failed;
      DrainTcpWrites(if toHigh then high else low, os);
      rest, calls, failed := WriteList(if toHigh then high else low, os);
      if failed {
        var msg := ForceClose(l);
        r := Report(SOCKET_CLOSE, msg);
      } else {
        SetList(toHigh, rest);
        r := Quiet;
      }
    }

    /**
     * The loop of `send_list_udp` over one list: what is left and the unused
     * call outcomes are exactly what `DrainUdp` predicts, and `wb_size` drops
     * by the bytes of every datagram sent or dropped.
     */
    method SendDatagrams(list: seq<WriteBuffer>, os: seq<OsWrite>) returns (rest: seq<WriteBuffer>, calls: seq<OsWrite>)
      modifies this`wbSize
      ensures var d := DrainUdp(protocol, list, os);
        rest == d.list && calls == d.calls && wbSize == old(wbSize) - Pending(list) + Pending(rest)
    {
      rest := list;
      calls := os;
      while rest != []
        invariant DrainUdp(protocol, list, os) == DrainUdp(protocol, rest, calls)
        invariant wbSize == old(wbSize) - Pending(list) + Pending(rest)
        decreases |rest|
      {
        var b := rest[0];
        assert Pending(rest) == |b.rest| + Pending(rest[1..]);
        if UdpSocketAddress(protocol, b.udpAddress).None? {
          wbSize := wbSize - |b.rest|;
          return rest[1..], calls;
        }
        if calls == [] {
          return;
        }
        var w := calls[0];
        if w.Interrupted? || w.WouldBlock? {
          return rest, calls[1..];
        }
        wbSize := wbSize - |b.rest|;
        if w.Failed? {
          return rest[1..], calls[1..];
        }
        rest, calls := rest[1..], calls[1..];
      }
    }

    /** `send_list_udp` on the high or low list, which is left as `DrainUdp` predicts. */
    method SendListUdp(toHigh: bool, os: seq<OsWrite>) returns (calls: seq<OsWrite>)
      modifies this`high, this`low, this`wbSize
      ensures var list := if toHigh then old(high) else old(low);
        var d := DrainUdp(protocol, list, os);
        calls == d.calls &&
        high == (if toHigh then d.list else old(high)) &&
        low == (if toHigh then old(low) else d.list) &&
        wbSize == old(wbSize) - Pending(list) + Pending(d.list)
    {
      var rest;
      rest, calls := SendDatagrams(if toHigh then high else low, os);
      SetList(toHigh, rest);
    }

    /** `send_list`. */
    method SendList(toHigh: bool, l: SocketLock, os: seq<OsWrite>) returns (r: Reply, calls: seq<OsWrite>)
      requires Accounted() && InUse() && l.Valid()
      modifies this`high, this`low, this`wbSize, this`socketType, this`direct, l
      ensures l.Valid() && l.count == old(l.count) && Accounted()
      ensures var d := Drain(protocol, if toHigh then old(high) else old(low), os);
        calls == d.calls &&
        if d.failed then
          r == Report(SOCKET_CLOSE, Message(id, owner, 0, NoData)) && Closed()
        else
          r == Quiet && socketType == old(socketType) && direct == old(direct) &&
          high == (if toHigh then d.list else old(high)) &&
          low == (if toHigh then old(low) else d.list)
    {
      if protocol == PROTOCOL_TCP {
        r, calls := SendListTcp(toHigh, l, os);
      } else {
        calls := SendListUdp(toHigh, os);
        r := Quiet;
      }
    }

    /** `raise_uncomplete`: the partly written head of the low list moves alone into the empty high list. */
    method RaiseUncomplete()
      requires low != [] && high == []
      modifies this`high, this`low
      ensures high == [old(low)[0]] && low == old(low)[1..]
      ensures Stream(high) + Stream(low) == Stream(old(low))
    {
      high := [low[0]];
      low := low[1..];
    }

    /**
     * What `send_buffer_` does, started with `high0` as the high list: the
     * lists are left as `Flush` says; a failed write closes the socket;
     * once both lists are empty a half-closed socket is closed and a pending
     * back-pressure warning is cleared with a `SOCKET_WARNING`; and
     * `wb_size` counts what is left.
     */
    ghost predicate FlushedAs(high0: seq<WriteBuffer>, low0: seq<WriteBuffer>, type0: SocketType, warn0: int,
                              os: seq<OsWrite>, r: Reply, calls: seq<OsWrite>)
      reads this
    {
      var f := Flush(protocol, high0, low0, os);
      var closing := Report(SOCKET_CLOSE, Message(id, owner, 0, NoData));
      calls == f.calls &&
      if FlushCloses(f, type0) then
        r == closing && Closed() && warnSize == warn0
      else if f.high != [] || f.low != [] then
        r == Quiet && socketType == type0 && high == f.high && low == f.low &&
        wbSize == Pending(f.high) + Pending(f.low) && warnSize == warn0
      else
        high == [] && low == [] && wbSize == 0 && socketType == type0 && warnSize == 0 &&
        r == (if warn0 > 0 then Report(SOCKET_WARNING, Message(id, owner, 0, NoData)) else Quiet)
    }

    /**
     * `send_buffer_`: the high list first; the low list only once the high
     * one is empty; a partly sent low head moves to the high list; and once
     * both lists are empty (`wb_size` is then 0) a half-closed socket is
     * closed and a pending back-pressure warning is cleared with a
     * `SOCKET_WARNING`.
     */
    method SendBufferInner(l: SocketLock, os: seq<OsWrite>) returns (r: Reply, calls: seq<OsWrite>)
      requires Valid() && InUse() && l.Valid()
      modifies this`high, this`low, this`wbSize, this`socketType, this`direct, this`warnSize, l
      ensures Valid() && l.Valid() && l.count == old(l.count)
      ensures FlushedAs(old(high), old(low), old(socketType), old(warnSize), os, r, calls)
      ensures direct == old(direct) || direct == None
    {
      r, calls := SendList(true, l, os);
      if r.Report? {
        FlushedHighFailed(old(high), old(low), old(socketType), old(warnSize), os, r, calls);
        return;
      }
      if high != [] {
        FlushedHigh(old(high), old(low), old(socketType), old(warnSize), os, r, calls);
        return;
      }
      if low != [] {
        r, calls := SendLow(l, calls);
        if r.Report? {
          FlushedLowFailed(old(high), old(low), old(socketType), old(warnSize), os, r, calls);
          return;
        }
        if high != [] || low != [] {
          FlushedLow(old(high), old(low), old(socketType), old(warnSize), os, r, calls);
          return;
        }
      }
      assert SendBufferEmpty() && wbSize == 0;
      r := AllSent(l);
      FlushedEmpty(old(high), old(low), old(socketType), old(warnSize), os, r, calls);
    }

    /* The ways out of `send_buffer_`, each in terms of the drains it ran. */

    lemma FlushedHighFailed(high0: seq<WriteBuffer>, low0: seq<WriteBuffer>, type0: SocketType, warn0: int,
                            os: seq<OsWrite>, r: Reply, calls: seq<OsWrite>)
      requires var h := Drain(protocol, high0, os);
        h.failed && calls == h.calls && r == Report(SOCKET_CLOSE, Message(id, owner, 0, NoData)) && Closed() &&
        warnSize == warn0
      ensures FlushedAs(high0, low0, type0, warn0, os, r, calls)
    {
    }

    lemma FlushedHigh(high0: seq<WriteBuffer>, low0: seq<WriteBuffer>, type0: SocketType, warn0: int,
                      os: seq<OsWrite>, r: Reply, calls: seq<OsWrite>)
      requires var h := Drain(protocol, high0, os);
        !h.failed && h.list != [] && calls == h.calls && r == Quiet && high == h.list && low == low0 &&
        socketType == type0 && warnSize == warn0 && wbSize == Pending(high) + Pending(low)
      ensures FlushedAs(high0, low0, type0, warn0, os, r, calls)
    {
    }

    lemma FlushedLowFailed(high0: seq<WriteBuffer>, low0: seq<WriteBuffer>, type0: SocketType, warn0: int,
                           os: seq<OsWrite>, r: Reply, calls: seq<OsWrite>)
      requires var h := Drain(protocol, high0, os);
        var lo := Drain(protocol, low0, h.calls);
        !h.failed && h.list == [] && low0 != [] && lo.failed && calls == lo.calls &&
        r == Report(SOCKET_CLOSE, Message(id, owner, 0, NoData)) && Closed() && warnSize == warn0
      ensures FlushedAs(high0, low0, type0, warn0, os, r, calls)
    {
    }

    lemma FlushedLow(high0: seq<WriteBuffer>, low0: seq<WriteBuffer>, type0: SocketType, warn0: int,
                     os: seq<OsWrite>, r: Reply, calls: seq<OsWrite>)
      requires var h := Drain(protocol, high0, os);
        var lo := Drain(protocol, low0, h.calls);
        !h.failed && h.list == [] && low0 != [] && !lo.failed && calls == lo.calls && r == Quiet &&
        (if ListUncomplete(lo.list) then high == [lo.list[0]] && low == lo.list[1..] else high == [] && low == lo.list) &&
        (high != [] || low != []) && socketType == type0 && warnSize == warn0 && wbSize == Pending(high) + Pending(low)
      ensures FlushedAs(high0, low0, type0, warn0, os, r, calls)
    {
    }

    lemma FlushedEmpty(high0: seq<WriteBuffer>, low0: seq<WriteBuffer>, type0: SocketType, warn0: int,
                       os: seq<OsWrite>, r: Reply, calls: seq<OsWrite>)
      requires var h := Drain(protocol, high0, os);
        var lo := Drain(protocol, low0, h.calls);
        !h.failed && h.list == [] && (low0 == [] || (!lo.failed && lo.list == [])) &&
        calls == (if low0 == [] then h.calls else lo.calls)
      requires type0 == HalfClose ==>
        r == Report(SOCKET_CLOSE, Message(id, owner, 0, NoData)) && Closed() && warnSize == warn0
      requires type0 != HalfClose ==>
        high == [] && low == [] && wbSize == 0 && socketType == type0 && warnSize == 0 &&
        r == (if warn0 > 0 then Report(SOCKET_WARNING, Message(id, owner, 0, NoData)) else Quiet)
      ensures FlushedAs(high0, low0, type0, warn0, os, r, calls)
    {
    }

    /**
     * Steps 2 and 3 of `send_buffer_`, once the high list is empty: the low
     * list as `send_list` leaves it, its partly written head raised alone into
     * the high list.
     */
    method SendLow(l: SocketLock, os: seq<OsWrite>) returns (r: Reply, calls: seq<OsWrite>)
      requires Valid() && InUse() && l.Valid() && high == []
      modifies this`high, this`low, this`wbSize, this`socketType, this`direct, l
      ensures Valid() && l.Valid() && l.count == old(l.count)
      ensures var lo := Drain(protocol, old(low), os);
        calls == lo.calls &&
        (lo.failed ==> r == Report(SOCKET_CLOSE, Message(id, owner, 0, NoData)) && Closed()) &&
        (!lo.failed ==>
          r == Quiet && socketType == old(socketType) && direct == old(direct) &&
          if ListUncomplete(lo.list) then high == [lo.list[0]] && low == lo.list[1..]
          else high == [] && low == lo.list)
    {
      r, calls := SendList(false, l, os);
      if r.Report? {
        return;
      }
      if ListUncomplete(low) {
        RaiseUncomplete();
      } else if low != [] {
        UntouchedCons(low);
      }
    }

    /**
     * Step 4 of `send_buffer_`, with both lists empty: a half-closed socket
     * is closed; otherwise a pending back-pressure warning is cleared and
     * reported.
     */
    method AllSent(l: SocketLock) returns (r: Reply)
      requires Valid() && InUse() && l.Valid() && SendBufferEmpty()
      modifies this`socketType, this`direct, this`warnSize, this`high, this`low, l
      ensures Valid() && l.Valid() && l.count == old(l.count)
      ensures old(socketType) == HalfClose ==>
        r == Report(SOCKET_CLOSE, Message(id, owner, 0, NoData)) && Closed() && warnSize == old(warnSize)
      ensures old(socketType) != HalfClose ==>
        high == [] && low == [] && socketType == old(socketType) && direct == old(direct) &&
        r == (if old(warnSize) > 0 then Report(SOCKET_WARNING, Message(id, owner, 0, NoData)) else Quiet) &&
        warnSize == (if old(warnSize) > 0 then 0 else old(warnSize))
    {
      if socketType == HalfClose {
        var msg := ForceClose(l);
        return Report(SOCKET_CLOSE, msg);
      }
      r := Quiet;
      if warnSize > 0 {
        warnSize := 0;
        r := Report(SOCKET_WARNING, Message(id, owner, 0, NoData));
      }
    }

    /** The first half of `send_buffer`: a direct-write remainder goes in front of the high list. */
    method PrependDirect()
      requires Valid() && InUse()
      modifies this`high, this`wbSize, this`direct
      ensures Valid() && direct == None
      ensures high == Prepended(old(direct), old(high))
      ensures wbSize == old(wbSize) + |DirectBytes(old(direct))|
    {
      if direct.Some? {
        var b := direct.value;
        assert Stream([b] + high) == b.rest + Stream(high) by {
          assert ([b] + high)[1..] == high;
        }
        wbSize := wbSize + |b.rest|;
        high := [b] + high;
        direct := None;
      }
    }

    /** Under `FlushedAs`, what is still owed is what the flush left of the lists it started from. */
    lemma FlushedBacklog(high0: seq<WriteBuffer>, low0: seq<WriteBuffer>, type0: SocketType, warn0: int,
                         os: seq<OsWrite>, r: Reply, calls: seq<OsWrite>)
      requires FlushedAs(high0, low0, type0, warn0, os, r, calls) && Untouched(low0) && direct == None
      ensures Leaves(Stream(high0) + Stream(low0), Backlog())
    {
      var f := Flush(protocol, high0, low0, os);
      if Closed() {
        assert Backlog() == [];
        LeavesNothing(Stream(high0) + Stream(low0));
      } else {
        assert !f.failed && high == f.high && low == f.low;
        FlushKeepsOrder(protocol, high0, low0, os);
        LeftOver(Stream(high0) + Stream(low0), f.high, f.low);
      }
    }

    /** The backlog of a socket without a direct-write remainder is the stream of its lists. */
    lemma LeftOver(before: seq<byte>, h: seq<WriteBuffer>, lo: seq<WriteBuffer>)
      requires direct == None && high == h && low == lo && Leaves(before, Stream(h) + Stream(lo))
      ensures Leaves(before, Backlog())
    {
      assert Backlog() == Stream(h) + Stream(lo);
    }

    /** `send_buffer` once the lock is taken: the remainder is queued in front and `send_buffer_` runs. */
    method SendLocked(l: SocketLock, os: seq<OsWrite>) returns (r: Reply, calls: seq<OsWrite>)
      requires Valid() && InUse() && l.Valid()
      modifies this`high, this`low, this`wbSize, this`socketType, this`direct, this`warnSize, l
      ensures Valid() && l.Valid() && l.count == old(l.count)
      ensures direct == None && FlushedAs(Prepended(old(direct), old(high)), old(low), old(socketType), old(warnSize), os, r, calls)
      ensures Leaves(old(Backlog()), Backlog())
      ensures r.Report? ==> r.msg == Message(id, owner, 0, NoData) && (r.kind == SOCKET_CLOSE || r.kind == SOCKET_WARNING)
      ensures r.Report? && r.kind == SOCKET_CLOSE <==> socketType == Invalid
    {
      PrependDirect();
      r, calls := SendBufferInner(l, os);
      FlushedBacklog(Prepended(old(direct), old(high)), old(low), old(socketType), old(warnSize), os, r, calls);
      FlushedReply(Prepended(old(direct), old(high)), old(low), old(socketType), old(warnSize), os, r, calls);
    }

    /** The replies of `send_buffer_`: a close or a cleared warning, naming the socket; a close exactly when the slot was freed. */
    lemma FlushedReply(high0: seq<WriteBuffer>, low0: seq<WriteBuffer>, type0: SocketType, warn0: int,
                       os: seq<OsWrite>, r: Reply, calls: seq<OsWrite>)
      requires FlushedAs(high0, low0, type0, warn0, os, r, calls) && type0 != Invalid
      ensures r.Report? ==> r.msg == Message(id, owner, 0, NoData) && (r.kind == SOCKET_CLOSE || r.kind == SOCKET_WARNING)
      ensures r.Report? && r.kind == SOCKET_CLOSE <==> socketType == Invalid
      ensures r.Report? && r.kind == SOCKET_CLOSE <==> FlushCloses(Flush(protocol, high0, low0, os), type0)
    {
    }

    /**
     * `send_buffer`: does nothing while a worker's direct write holds the
     * lock (`contended`); otherwise queues the direct-write remainder first
     * and runs `send_buffer_` under the lock.
     */
    method SendBuffer(l: SocketLock, contended: bool, os: seq<OsWrite>) returns (r: Reply, calls: seq<OsWrite>)
      requires Valid() && InUse() && l.Valid()
      modifies this`high, this`low, this`wbSize, this`socketType, this`direct, this`warnSize, l
      ensures Valid() && l.Valid() && l.count == old(l.count)
      ensures old(l.count) == 0 && contended ==>
        r == Quiet && calls == os && high == old(high) && low == old(low) && direct == old(direct) &&
        wbSize == old(wbSize) && socketType == old(socketType) && warnSize == old(warnSize)
      ensures !(old(l.count) == 0 && contended) ==>
        direct == None && FlushedAs(Prepended(old(direct), old(high)), old(low), old(socketType), old(warnSize), os, r, calls)
      ensures Leaves(old(Backlog()), Backlog())
      ensures r.Report? ==> r.msg == Message(id, owner, 0, NoData) && (r.kind == SOCKET_CLOSE || r.kind == SOCKET_WARNING)
      ensures r.Report? && r.kind == SOCKET_CLOSE <==> socketType == Invalid
    {
      var ok := l.TryLock(contended);
      if !ok {
        return Quiet, os;
      }
      r, calls := SendLocked(l, os);
      l.Unlock();
    }

    /**
     * `inc_sending_ref` on a socket: a TCP socket owned by `id` counts one
     * more queued send request; `mustWait` is the case in which the count is
     * saturated and the worker has to wait for the socket thread.
     */
    method IncSendingRef(id: Int32) returns (mustWait: bool)
      modifies this`sending
      ensures protocol != PROTOCOL_TCP ==> !mustWait && sending == old(sending)
      ensures protocol == PROTOCOL_TCP ==>
        mustWait == IncSending(old(sending), id).None? &&
        sending == (if mustWait then old(sending) else IncSending(old(sending), id).value)
      ensures protocol == PROTOCOL_TCP && !mustWait && SendingTag(old(sending)) == IdTag16(id) ==>
        !NomoreSendingData() && !CanDirectWrite(id)
    {
      if protocol != PROTOCOL_TCP {
        return false;
      }
      var next := IncSending(sending, id);
      if next.None? {
        return true;
      }
      sending := next.value;
      return false;
    }

    /**
     * `forward_message_tcp`: a read of at most `p.size` bytes. An error
     * closes the socket with `SOCKET_ERR`, end of file with `SOCKET_CLOSE`; a
     * half-closed socket discards what it reads; otherwise the bytes are
     * reported and the read size adapts.
     */
    method ForwardTcp(l: SocketLock, read: OsRead) returns (r: Reply)
      requires Valid() && InUse() && protocol == PROTOCOL_TCP && l.Valid()
      modifies this`high, this`low, this`socketType, this`direct, this`readSize, l
      ensures Valid() && l.Valid() && l.count == old(l.count)
      ensures read.ReadInterrupted? || read.ReadWouldBlock? ==>
        r == Quiet && socketType == old(socketType) && readSize == old(readSize) &&
        high == old(high) && low == old(low) && direct == old(direct)
      ensures read.ReadFailed? ==> r == Report(SOCKET_ERR, Message(id, owner, 0, OsError)) && Closed()
      ensures read.Arrived? && read.bytes == [] ==> r == Report(SOCKET_CLOSE, Message(id, owner, 0, NoData)) && Closed()
      ensures read.Arrived? && read.bytes != [] && old(socketType) == HalfClose ==>
        r == Quiet && socketType == HalfClose && readSize == old(readSize) &&
        high == old(high) && low == old(low) && direct == old(direct)
      ensures read.Arrived? && read.bytes != [] && old(socketType) != HalfClose ==>
        var n := Min(|read.bytes|, old(readSize));
        n > 0 && socketType == old(socketType) && high == old(high) && low == old(low) && direct == old(direct) &&
        r == Report(SOCKET_DATA, Message(id, owner, n, Received(read.bytes[..n]))) &&
        readSize == NextReadSize(old(readSize), n) && readSize >= MIN_READ_BUFFER
    {
      var sz := readSize;
      ReadSizeAtLeastMin(sz);
      match read {
        case ReadInterrupted => return Quiet;
        case ReadWouldBlock => return Quiet;
        case ReadFailed =>
          var msg := ForceClose(l);
          return Report(SOCKET_ERR, msg.(data := OsError));
        case Arrived(bytes) =>
          var n := Min(|bytes|, sz);
          if n == 0 {
            var msg := ForceClose(l);
            return Report(SOCKET_CLOSE, msg);
          }
          if socketType == HalfClose {
            return Quiet;
          }
          ReadSizeKept(sz, n);
          readSize := NextReadSize(sz, n);
          r := Report(SOCKET_DATA, Message(id, owner, n, Received(bytes[..n])));
      }
    }
  }
}
