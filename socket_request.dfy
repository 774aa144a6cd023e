/**
 * Framing of the requests that worker threads send to the socket thread
 * through the control pipe.
 *
 * A request is one type letter, one length byte and the bytes of the request
 * struct. Integers in a request struct have the memory layout of the machine
 * (the pipe never leaves the process); the model fixes that layout to
 * little-endian with 64-bit pointers.
 */
module SocketRequests {
  import opened Bytes
  import opened Wrappers

  const REQ_START: byte := 'S' as int
  const REQ_BIND: byte := 'B' as int
  const REQ_LISTEN: byte := 'L' as int
  const REQ_CLOSE: byte := 'K' as int
  const REQ_OPEN: byte := 'O' as int
  const REQ_EXIT: byte := 'X' as int
  const REQ_SEND: byte := 'D' as int
  const REQ_SEND_LOW: byte := 'P' as int
  const REQ_SEND_UDP: byte := 'A' as int
  const REQ_SETOPT: byte := 'T' as int
  const REQ_UDP: byte := 'U' as int
  const REQ_SET_UDP: byte := 'C' as int

  /** One request as the socket thread sees it: its type letter and its body. */
  datatype Command = Command(kind: byte, body: seq<byte>)

  /**
   * `send_request`: `header[6]` is the type, `header[7]` the length truncated
   * to a byte, and the `len + 2` bytes from `header[6]` on go into the pipe.
   */
  function Frame(kind: byte, body: seq<byte>): (r: seq<byte>)
    ensures |r| == |body| + 2 && r[0] == kind && r[1] == |body| % 256 && r[2..] == body
  {
    [kind, |body| % 256] + body
  }

  /**
   * `ctrl_cmd`'s two reads: the two header bytes, then as many body bytes as
   * the length byte says. `None` when the pipe does not hold a whole request.
   */
  function ReadCommand(pipe: seq<byte>): (r: Option<(Command, seq<byte>)>)
    ensures r.Some? <==> |pipe| >= 2 && |pipe| >= 2 + pipe[1] as int
    ensures r.Some? ==> (|r.value.0.body| < 256 &&
      pipe == Frame(r.value.0.kind, r.value.0.body) + r.value.1)
  {
    if |pipe| < 2 || |pipe| < 2 + pipe[1] as int then None
    else
      var len: nat := pipe[1];
      assert pipe == [pipe[0], len] + pipe[2..2 + len] + pipe[2 + len..];
      Some((Command(pipe[0], pipe[2..2 + len]), pipe[2 + len..]))
  }

  /** A request shorter than 256 bytes is read back whole, and the pipe after it is untouched. */
  lemma FrameRoundTrip(kind: byte, body: seq<byte>, rest: seq<byte>)
    requires |body| < 256
    ensures ReadCommand(Frame(kind, body) + rest) == Some((Command(kind, body), rest))
  {
    var pipe := Frame(kind, body) + rest;
    assert pipe[2..2 + |body|] == body;
    assert pipe[2 + |body|..] == rest;
  }

  /** A body of 256 bytes or more would not survive the truncated length byte. */
  lemma FrameTruncated(kind: byte, body: seq<byte>, rest: seq<byte>)
    requires |body| >= 256
    ensures ReadCommand(Frame(kind, body) + rest) != Some((Command(kind, body), rest))
  {
  }

  function Frames(cmds: seq<Command>): seq<byte>
  {
    if cmds == [] then [] else Frame(cmds[0].kind, cmds[0].body) + Frames(cmds[1..])
  }

  /** The commands the socket thread reads, one `ctrl_cmd` after the other, until the pipe runs dry. */
  function ReadAll(pipe: seq<byte>): seq<Command>
    decreases |pipe|
  {
    match ReadCommand(pipe)
    case None => []
    case Some((c, rest)) => [c] + ReadAll(rest)
  }

  /** The pipe is a FIFO of requests: requests written in order are read in order, each one whole. */
  lemma {:induction false} PipeIsFifo(cmds: seq<Command>)
    requires forall i :: 0 <= i < |cmds| ==> |cmds[i].body| < 256
    ensures ReadAll(Frames(cmds)) == cmds
  {
    if cmds != [] {
      FrameRoundTrip(cmds[0].kind, cmds[0].body, Frames(cmds[1..]));
      PipeIsFifo(cmds[1..]);
    }
  }

  /** `uintptr_t opaque`: the handle of the service that owns a socket. */
  type Owner = x: int | 0 <= x < 0x1_0000_0000_0000_0000

  /** `sizeof(struct request_open)`: `int id`, `int port`, `uintptr_t opaque`, `char host[1]`, padded to 24. */
  const SIZEOF_REQUEST_OPEN: nat := 24
  const OPEN_HOST_OFFSET: nat := 16

  /** The fields of an `'O'` request. */
  datatype OpenRequest = OpenRequest(id: Int32, port: Int32, owner: Owner, host: seq<byte>)

  /**
   * The `sizeof(req->u.open) + len` bytes that `socket_server_connect` sends:
   * the three fields, the host, its terminating NUL and the seven bytes of
   * padding the struct ends with (`pad`, whose content the source leaves
   * unspecified).
   */
  function OpenBody(req: OpenRequest, pad: seq<byte>): (r: seq<byte>)
    requires |pad| == 7
    ensures |r| == SIZEOF_REQUEST_OPEN + |req.host|
  {
    assert Pow256(8) == 0x1_0000_0000_0000_0000;
    Int32Bytes(req.id) + Int32Bytes(req.port) + LittleEndian(req.owner, 8) + req.host + [0] + pad
  }

  /** `open_request`'s length check: the request has to fit a 256-byte request buffer. */
  predicate OpenRequestFits(host: seq<byte>)
  {
    |host| + SIZEOF_REQUEST_OPEN < 256
  }

  /** The bytes of a C string, up to its first NUL. */
  function CString(s: seq<byte>): (r: seq<byte>)
    ensures |r| <= |s| && r == s[..|r|]
    ensures forall i :: 0 <= i < |r| ==> r[i] != 0
  {
    if s == [] || s[0] == 0 then [] else [s[0]] + CString(s[1..])
  }

  lemma {:induction false} CStringOf(host: seq<byte>, rest: seq<byte>)
    requires forall i :: 0 <= i < |host| ==> host[i] != 0
    ensures CString(host + [0] + rest) == host
  {
    if host != [] {
      assert (host + [0] + rest)[1..] == host[1..] + [0] + rest;
      CStringOf(host[1..], rest);
    }
  }

  /** How `open_socket` reads an `'O'` body: fixed fields, then `host` as a C string. */
  function DecodeOpen(body: seq<byte>): (r: Option<OpenRequest>)
    ensures r.Some? <==> |body| >= SIZEOF_REQUEST_OPEN
  {
    if |body| < SIZEOF_REQUEST_OPEN then None
    else
      var owner := FromLittleEndian(body[8..16]);
      assert Pow256(8) == 0x1_0000_0000_0000_0000;
      Some(OpenRequest(Signed32(FromLittleEndian(body[0..4])), Signed32(FromLittleEndian(body[4..8])),
                       owner, CString(body[OPEN_HOST_OFFSET..])))
  }

  /**
   * A connect request that passes the length check reaches the socket thread
   * intact: the length byte is exact, and the body decodes to the id, port,
   * owner and host that were sent, whatever the padding holds.
   */
  lemma OpenRequestRoundTrip(req: OpenRequest, pad: seq<byte>, rest: seq<byte>)
    requires |pad| == 7 && OpenRequestFits(req.host)
    requires forall i :: 0 <= i < |req.host| ==> req.host[i] != 0
    ensures var body := OpenBody(req, pad);
      ReadCommand(Frame(REQ_OPEN, body) + rest) == Some((Command(REQ_OPEN, body), rest)) &&
      DecodeOpen(body) == Some(req)
  {
    var body := OpenBody(req, pad);
    FrameRoundTrip(REQ_OPEN, body, rest);
    assert Pow256(8) == 0x1_0000_0000_0000_0000;
    var idb, portb, opb := Int32Bytes(req.id), Int32Bytes(req.port), LittleEndian(req.owner, 8);
    assert body == idb + portb + opb + req.host + [0] + pad;
    assert body[0..4] == idb;
    assert body[4..8] == portb;
    assert body[8..16] == opb;
    assert body[OPEN_HOST_OFFSET..] == req.host + [0] + pad;
    Int32RoundTrip(req.id);
    Int32RoundTrip(req.port);
    LittleEndianRoundTrip(req.owner, 8);
    CStringOf(req.host, pad);
  }
}
