/**
 * The slot table of the socket server and the request handlers of the socket
 * thread that look a socket up by its id.
 */
module SocketServer {
  import opened Bytes
  import opened Wrappers
  import opened SocketIds
  import opened SocketUdp
  import opened SocketRequests
  import opened WriteBuffers
  import opened Sockets

  /** `alloc_id` stays a non-negative C `int`. */
  const ALLOC_ID_SPAN: nat := 0x8000_0000

  /**
   * The `j`-th id `reserve_id` tries once `alloc_id` was `a`: each try
   * increments `alloc_id`, and the `& 0x7fffffff` after it turns negative
   * brings it back to 0.
   */
  function Probe(a: nat, j: nat): (r: nat)
    ensures r <= INT_MAX
  {
    (a + j) % ALLOC_ID_SPAN
  }

  /** One increment of `alloc_id` in `reserve_id`, which moves to the next probe. */
  lemma ProbeNext(a: nat, k: nat)
    requires a <= INT_MAX
    ensures Probe(a, k + 1) == if Probe(a, k) == INT_MAX then 0 else Probe(a, k) + 1
  {
    var q := (a + k) / ALLOC_ID_SPAN;
    assert a + k == ALLOC_ID_SPAN * q + Probe(a, k);
    if Probe(a, k) == INT_MAX {
      assert a + k + 1 == ALLOC_ID_SPAN * (q + 1);
    } else {
      assert a + k + 1 == ALLOC_ID_SPAN * q + (Probe(a, k) + 1);
    }
  }

  /** The slot of a probe: 65536 divides 2^31, so the wrap of `alloc_id` does not disturb the slot order. */
  lemma ProbeSlot(a: nat, j: nat)
    ensures HashId(Probe(a, j)) == (a + j) % MAX_SOCKET
  {
    var x := a + j;
    var q := x / ALLOC_ID_SPAN;
    assert x == ALLOC_ID_SPAN * q + Probe(a, j);
    assert x == MAX_SOCKET * (0x8000 * q) + Probe(a, j);
    var p := Probe(a, j);
    var pq := p / MAX_SOCKET;
    assert p == MAX_SOCKET * pq + p % MAX_SOCKET;
    assert x == MAX_SOCKET * (0x8000 * q + pq) + p % MAX_SOCKET;
  }

  /** `MAX_SOCKET` successive probes visit every slot. */
  lemma ProbeCovers(a: nat, i: nat) returns (j: nat)
    requires i < MAX_SOCKET
    ensures 1 <= j <= MAX_SOCKET && HashId(Probe(a, j)) == i
  {
    j := (i + MAX_SOCKET - a % MAX_SOCKET - 1) % MAX_SOCKET + 1;
    ProbeSlot(a, j);
    var q := a / MAX_SOCKET;
    assert a == MAX_SOCKET * q + a % MAX_SOCKET;
    if i >= a % MAX_SOCKET + 1 {
      assert j == i - a % MAX_SOCKET;
      assert a + j == MAX_SOCKET * q + i;
    } else {
      assert j == i + MAX_SOCKET - a % MAX_SOCKET;
      assert a + j == MAX_SOCKET * (q + 1) + i;
    }
  }

  /** A `struct socket_server`, reduced to its slot table and `alloc_id`. */
  class Server {
    const slot: array<Socket>
    var allocId: int

    ghost function Sockets(): set<Socket>
      reads slot
    {
      set i | 0 <= i < slot.Length :: slot[i]
    }

    ghost predicate Valid()
      reads this, slot, Sockets()
    {
      slot.Length == MAX_SOCKET && 0 <= allocId <= INT_MAX &&
      (forall i, j :: 0 <= i < j < slot.Length ==> slot[i] != slot[j]) &&
      (forall i :: 0 <= i < slot.Length ==> slot[i].Valid())
    }

    /** The slot part of `socket_server_create`: every slot free, `alloc_id` 0. */
    constructor ()
      ensures Valid() && allocId == 0 && fresh(slot)
      ensures forall i :: 0 <= i < MAX_SOCKET ==> slot[i].socketType == Invalid
    {
      var sockets: seq<Socket> := [];
      while |sockets| < MAX_SOCKET
        invariant |sockets| <= MAX_SOCKET
        invariant forall i :: 0 <= i < |sockets| ==> sockets[i].Valid() && sockets[i].socketType == Invalid
        invariant forall i, j :: 0 <= i < j < |sockets| ==> sockets[i] != sockets[j]
        invariant forall i :: 0 <= i < |sockets| ==> fresh(sockets[i])
      {
        var s := new Socket();
        sockets := sockets + [s];
      }
      slot := new Socket[MAX_SOCKET](i requires 0 <= i < |sockets| => sockets[i]);
      allocId := 0;
    }

    /**
     * The search loop of `reserve_id`: increments `alloc_id` until the slot
     * of the id it gives is free, for at most `MAX_SOCKET` tries.
     */
    method FindFree() returns (found: bool)
      requires Valid()
      modifies this`allocId
      ensures Valid()
      ensures found ==> slot[HashId(allocId)].socketType == Invalid
      ensures found ==> exists k :: (1 <= k <= MAX_SOCKET && allocId == Probe(old(allocId), k) &&
        forall j :: 1 <= j < k ==> slot[HashId(Probe(old(allocId), j))].socketType != Invalid)
      ensures !found ==> forall i :: 0 <= i < MAX_SOCKET ==> slot[i].socketType != Invalid
      ensures !found ==> allocId == Probe(old(allocId), MAX_SOCKET)
    {
      ghost var a0 := allocId;
      var k := 0;
      while k < MAX_SOCKET
        invariant 0 <= k <= MAX_SOCKET && 0 <= allocId <= INT_MAX
        invariant allocId == Probe(a0, k)
        invariant forall j :: 1 <= j <= k ==> slot[HashId(Probe(a0, j))].socketType != Invalid
      {
        ProbeNext(a0, k);
        allocId := if allocId == INT_MAX then 0 else allocId + 1;
        k := k + 1;
        if slot[HashId(allocId)].socketType == Invalid {
          return true;
        }
      }
      forall i | 0 <= i < MAX_SOCKET
        ensures slot[i].socketType != Invalid
      {
        var j := ProbeCovers(a0, i);
      }
      found := false;
    }

    /**
     * `reserve_id`: tries the next `MAX_SOCKET` ids in turn and turns the slot
     * of the first one whose slot is free into a reserved slot for that id;
     * -1 when every slot is taken.
     */
    method ReserveId() returns (id: int)
      requires Valid()
      modifies this`allocId, Sockets()
      ensures Valid()
      ensures -1 <= id <= INT_MAX
      ensures id == -1 <==> forall i :: 0 <= i < MAX_SOCKET ==> old(slot[i].socketType) != Invalid
      ensures id == -1 ==> forall i :: 0 <= i < MAX_SOCKET ==> unchanged(slot[i])
      ensures id == -1 ==> allocId == Probe(old(allocId), MAX_SOCKET)
      ensures id >= 0 ==> allocId == id
      ensures id >= 0 ==> exists k :: (1 <= k <= MAX_SOCKET && id == Probe(old(allocId), k) &&
        forall j :: 1 <= j < k ==> var s := slot[HashId(Probe(old(allocId), j))]; old(s.socketType) != Invalid)
      ensures id >= 0 ==> var s := slot[HashId(id)];
        old(s.socketType) == Invalid && s.socketType == Reserve && s.id == id && s.fd == -1 &&
        s.protocol == PROTOCOL_UNKNOWN && s.udpConnecting == 0 &&
        s.high == old(s.high) && s.low == old(s.low) && s.sending == old(s.sending) && s.direct == old(s.direct)
      ensures id >= 0 ==> forall i :: 0 <= i < MAX_SOCKET && i != HashId(id) ==> unchanged(slot[i])
    {
      var found := FindFree();
      if !found {
        return -1;
      }
      id := allocId;
      slot[HashId(id)].Claim(id);
    }

    /**
     * `new_fd`: a reserved slot that the event loop refuses (`add` and
     * `addFails`) becomes free again; otherwise it gets the fresh state of a
     * socket for `id`.
     */
    method NewFd(id: Int32, fd: int, protocol: byte, owner: Owner, add: bool, addFails: bool) returns (s: Socket?)
      requires Valid() && slot[HashId(id)].socketType == Reserve
      modifies slot[HashId(id)]
      ensures Valid()
      ensures add && addFails ==> s == null && slot[HashId(id)].socketType == Invalid
      ensures var t := slot[HashId(id)];
        add && addFails ==>
          t.id == old(t.id) && t.fd == old(t.fd) && t.protocol == old(t.protocol) && t.owner == old(t.owner) &&
          t.sending == old(t.sending) && t.readSize == old(t.readSize) && t.wbSize == old(t.wbSize) &&
          t.warnSize == old(t.warnSize) && t.high == old(t.high) && t.low == old(t.low) && t.direct == old(t.direct) &&
          t.udpConnecting == old(t.udpConnecting) && t.udpAddress == old(t.udpAddress)
      ensures !(add && addFails) ==> (s == slot[HashId(id)] &&
        s.socketType == Reserve && s.id == id && s.fd == fd && s.protocol == protocol && s.owner == owner &&
        s.sending == InitialSending(id) && s.readSize == MIN_READ_BUFFER && s.wbSize == 0 && s.warnSize == 0 &&
        s.high == [] && s.low == [] && s.direct == None &&
        s.udpConnecting == old(s.udpConnecting) && s.udpAddress == old(s.udpAddress))
    {
      s := slot[HashId(id)];
      if add && addFails {
        s.socketType := Invalid;
        return null;
      }
      s.Init(id, fd, protocol, owner);
    }

    /** `send_socket`: the request is handled by the slot of its id, as `Socket.SentAs` describes. */
    method SendSocket(id: Int32, payload: seq<byte>, priority: Priority, udpAddress: Option<UdpAddress>, sendto: OsWrite)
      returns (r: Reply)
      requires Valid()
      requires slot[HashId(id)].id == id ==> slot[HashId(id)].socketType != Reserve
      modifies slot[HashId(id)]
      ensures Valid()
      ensures slot[HashId(id)].SentAs(id, payload, priority, udpAddress, sendto, r)
    {
      r := slot[HashId(id)].Send(id, payload, priority, udpAddress, sendto);
    }

    /**
     * `close_socket`: an unknown id is reported closed at once; otherwise the
     * buffers are flushed first, and the socket is closed when asked to shut
     * down or when nothing is left to send, or else left half-closed until it
     * is.
     */
    method CloseSocket(id: Int32, owner: Owner, shutdown: bool, contended: bool, os: seq<OsWrite>)
      returns (r: Reply, calls: seq<OsWrite>)
      requires Valid()
      requires slot[HashId(id)].id == id ==> slot[HashId(id)].socketType != Reserve
      modifies slot[HashId(id)]
      ensures Valid()
      ensures var s := slot[HashId(id)];
        old(s.socketType) == Invalid || old(s.id) != id ==>
          r == Report(SOCKET_CLOSE, Message(id, owner, 0, NoData)) && calls == os && unchanged(s)
      ensures var s := slot[HashId(id)];
        old(s.socketType) != Invalid && old(s.id) == id ==>
          s.ClosedAs(owner, shutdown, contended, os, r, calls)
      ensures slot[HashId(id)].IdentityKept()
    {
      var s := slot[HashId(id)];
      if s.socketType == Invalid || s.id != id {
        return Report(SOCKET_CLOSE, Message(id, owner, 0, NoData)), os;
      }
      r, calls := s.Close(owner, shutdown, contended, os);
    }

    /**
     * `start_socket`: a socket waiting to be started joins the event loop
     * (`addFails` when that fails, which closes it) and becomes connected or
     * listening under its new owner; a connected socket only changes owner.
     */
    method StartSocket(id: Int32, owner: Owner, addFails: bool) returns (r: Reply)
      requires Valid()
      modifies slot[HashId(id)]
      ensures Valid()
      ensures var s := slot[HashId(id)];
        old(s.socketType) == Invalid || old(s.id) != id ==>
          r == Report(SOCKET_ERR, Message(id, owner, 0, Text("invalid socket"))) && unchanged(s)
      ensures var s := slot[HashId(id)];
        old(s.id) == id && old(s.socketType) in {PAccept, PListen} ==>
          if addFails then
            r == Report(SOCKET_ERR, Message(id, old(s.owner), 0, OsError)) && s.Closed()
          else
            r == Report(SOCKET_OPEN, Message(id, owner, 0, Text("start"))) && s.owner == owner &&
            s.socketType == (if old(s.socketType) == PAccept then Connected else Listen)
      ensures var s := slot[HashId(id)];
        old(s.id) == id && old(s.socketType) == Connected ==>
          r == Report(SOCKET_OPEN, Message(id, owner, 0, Text("transfer"))) && s.owner == owner &&
          s.socketType == Connected
      ensures var s := slot[HashId(id)];
        old(s.id) == id && old(s.socketType) in {PAccept, PListen, Connected} ==>
          s.id == old(s.id) && s.fd == old(s.fd) && s.protocol == old(s.protocol) && s.sending == old(s.sending) &&
          s.wbSize == old(s.wbSize) && s.warnSize == old(s.warnSize) && s.readSize == old(s.readSize) &&
          s.udpConnecting == old(s.udpConnecting) && s.udpAddress == old(s.udpAddress)
      ensures var s := slot[HashId(id)];
        old(s.id) == id && (old(s.socketType) == Connected || (old(s.socketType) in {PAccept, PListen} && !addFails)) ==>
          s.high == old(s.high) && s.low == old(s.low) && s.direct == old(s.direct)
      ensures var s := slot[HashId(id)];
        old(s.id) == id && old(s.socketType) !in {Invalid, PAccept, PListen, Connected} ==>
          r == Quiet && unchanged(s)
    {
      var s := slot[HashId(id)];
      if s.socketType == Invalid || s.id != id {
        return Report(SOCKET_ERR, Message(id, owner, 0, Text("invalid socket")));
      }
      if s.socketType == PAccept || s.socketType == PListen || s.socketType == Connected {
        r := s.Start(owner, addFails);
        return;
      }
      r := Quiet;
    }

    /**
     * `dec_sending_ref`: the socket thread has handled one send request for
     * `id`, and the count of the TCP socket owning `id` drops. A zero count
     * is left alone rather than asserted against (`UncountedSendFailsAssert`
     * shows a send that reaches it).
     */
    method DecSendingRef(id: Int32)
      requires Valid()
      modifies slot[HashId(id)]
      ensures Valid()
      ensures var s := slot[HashId(id)];
        s.socketType == old(s.socketType) && s.id == old(s.id) && s.protocol == old(s.protocol) &&
        s.high == old(s.high) && s.low == old(s.low) && s.wbSize == old(s.wbSize) && s.direct == old(s.direct)
      ensures var s := slot[HashId(id)];
        s.owner == old(s.owner) && s.fd == old(s.fd) && s.readSize == old(s.readSize) && s.warnSize == old(s.warnSize) &&
        s.udpConnecting == old(s.udpConnecting) && s.udpAddress == old(s.udpAddress)
      ensures var s := slot[HashId(id)];
        s.sending == if s.id == id && s.protocol == PROTOCOL_TCP then DecSendingGuarded(old(s.sending)) else old(s.sending)
    {
      var s := slot[HashId(id)];
      if s.id == id && s.protocol == PROTOCOL_TCP {
        s.sending := DecSendingGuarded(s.sending);
      }
    }

    /**
     * `socket_server_connect` with `open_request`: a host that does not fit a
     * request, or a full slot table, gives -1 and no request; otherwise a
     * slot is reserved and the `'O'` request written to the pipe reads back
     * as the reserved id, the port, the owner and the host.
     */
    method Connect(owner: Owner, host: seq<byte>, port: Int32, pad: seq<byte>) returns (id: int, frame: seq<byte>)
      requires Valid() && |pad| == 7
      requires forall i :: 0 <= i < |host| ==> host[i] != 0
      modifies this, Sockets()
      ensures Valid()
      ensures id < 0 ==> id == -1 && frame == []
      ensures !OpenRequestFits(host) ==> id == -1 && allocId == old(allocId)
      ensures !OpenRequestFits(host) ==> forall i :: 0 <= i < MAX_SOCKET ==> unchanged(slot[i])
      ensures OpenRequestFits(host) ==>
        (id == -1 <==> forall i :: 0 <= i < MAX_SOCKET ==> old(slot[i].socketType) != Invalid)
      ensures id >= 0 ==> id <= INT_MAX
      ensures id >= 0 ==> slot[HashId(id)].socketType == Reserve && old(slot[HashId(id)].socketType) == Invalid
      ensures id >= 0 ==> slot[HashId(id)].id == id && allocId == id
      ensures id >= 0 ==> forall i :: 0 <= i < MAX_SOCKET && i != HashId(id) ==> unchanged(slot[i])
      ensures id >= 0 ==> (var c := ReadCommand(frame);
        c.Some? && c.value.0.kind == REQ_OPEN && c.value.1 == [] &&
        DecodeOpen(c.value.0.body) == Some(OpenRequest(id, port, owner, host)))
    {
      if !OpenRequestFits(host) {
        return -1, [];
      }
      id := ReserveId();
      if id < 0 {
        return -1, [];
      }
      var req := OpenRequest(id, port, owner, host);
      var body := OpenBody(req, pad);
      OpenRequestRoundTrip(req, pad, []);
      frame := Frame(REQ_OPEN, body);
      assert frame + [] == frame;
    }
  }
}
