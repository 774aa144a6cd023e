/**
 * The fixed byte layout of a UDP peer address.
 *
 * A UDP address travels between services as one protocol byte, the two port
 * bytes exactly as they sit in the socket address (network order), and the 4
 * (IPv4) or 16 (IPv6) address bytes: 7 or 19 bytes. A socket stores the
 * address of its default peer in a 19-byte array.
 */
module SocketUdp {
  import opened Bytes
  import opened Wrappers

  const PROTOCOL_TCP: byte := 0
  const PROTOCOL_UDP: byte := 1
  const PROTOCOL_UDPv6: byte := 2
  const PROTOCOL_UNKNOWN: byte := 255

  const UDP_ADDRESS_SIZE: nat := 19

  /** The parts of a `sockaddr_in` / `sockaddr_in6` that the layout keeps. */
  datatype SockAddr = V4(port: seq<byte>, addr: seq<byte>) | V6(port: seq<byte>, addr: seq<byte>)
  {
    predicate WellFormed() {
      |port| == 2 && |addr| == (if V4? then 4 else 16)
    }

    /** The protocol `gen_udp_address` is called with for this family. */
    function Protocol(): byte {
      if V4? then PROTOCOL_UDP else PROTOCOL_UDPv6
    }
  }

  /** The size of the layout for a protocol byte, as `socket_server_udp_address` computes it. */
  function AddressSize(protocol: byte): (r: Option<nat>)
    ensures r.Some? <==> protocol == PROTOCOL_UDP || protocol == PROTOCOL_UDPv6
    ensures r.Some? ==> r.value == if protocol == PROTOCOL_UDP then 7 else 19
  {
    if protocol == PROTOCOL_UDP then Some(1 + 2 + 4)
    else if protocol == PROTOCOL_UDPv6 then Some(1 + 2 + 16)
    else None
  }

  /** `gen_udp_address`: the layout of a peer address; its length is what the function returns. */
  function GenUdpAddress(sa: SockAddr): (r: seq<byte>)
    requires sa.WellFormed()
    ensures |r| > 0 && AddressSize(r[0]) == Some(|r|)
    ensures r[0] == sa.Protocol()
  {
    [sa.Protocol()] + sa.port + sa.addr
  }

  /**
   * `udp_socket_address`: the peer a 19-byte stored address names for a socket
   * of protocol `protocol`; `None` (a zero length in the source) when the
   * protocol byte does not match the socket or the socket is not UDP.
   */
  function UdpSocketAddress(protocol: byte, a: seq<byte>): (r: Option<SockAddr>)
    requires |a| == UDP_ADDRESS_SIZE
    ensures r.Some? <==> a[0] == protocol && AddressSize(protocol).Some?
    ensures r.Some? ==> r.value.WellFormed() && r.value.Protocol() == protocol
  {
    if a[0] != protocol then None
    else if protocol == PROTOCOL_UDP then Some(V4(a[1..3], a[3..7]))
    else if protocol == PROTOCOL_UDPv6 then Some(V6(a[1..3], a[3..19]))
    else None
  }

  /**
   * Whatever follows the layout in the 19-byte array, a socket of the matching
   * protocol reads back exactly the address that was laid out.
   */
  lemma UdpAddressRoundTrip(sa: SockAddr, tail: seq<byte>)
    requires sa.WellFormed() && |GenUdpAddress(sa)| + |tail| == UDP_ADDRESS_SIZE
    ensures UdpSocketAddress(sa.Protocol(), GenUdpAddress(sa) + tail) == Some(sa)
  {
    var a := GenUdpAddress(sa) + tail;
    assert a[1..3] == sa.port;
    if sa.V4? {
      assert a[3..7] == sa.addr;
    } else {
      assert a[3..19] == sa.addr;
    }
  }

  /** A socket of another protocol never accepts the layout. */
  lemma UdpAddressMismatch(sa: SockAddr, protocol: byte, tail: seq<byte>)
    requires sa.WellFormed() && |GenUdpAddress(sa)| + |tail| == UDP_ADDRESS_SIZE
    requires protocol != sa.Protocol()
    ensures UdpSocketAddress(protocol, GenUdpAddress(sa) + tail) == None
  {
  }

  /** The data of a `SOCKET_UDP` message: the datagram followed by the sender's layout (`forward_message_udp`). */
  function UdpMessageData(datagram: seq<byte>, from: SockAddr): (r: seq<byte>)
    requires from.WellFormed()
    ensures |r| > |datagram| && r[..|datagram|] == datagram
  {
    datagram + GenUdpAddress(from)
  }

  /**
   * `socket_server_udp_address`: the size of the address layout that starts
   * right after the `ud` datagram bytes of a `SOCKET_UDP` message; `None` (a
   * NULL address) when the protocol byte there is not a UDP one.
   */
  function SocketServerUdpAddress(data: seq<byte>, ud: nat): (r: Option<nat>)
    requires ud < |data|
    ensures r.Some? <==> data[ud] == PROTOCOL_UDP || data[ud] == PROTOCOL_UDPv6
    ensures r.Some? ==> r.value == 7 || r.value == 19
  {
    AddressSize(data[ud])
  }

  /** A received message yields the sender's layout back, and hence the sender. */
  lemma UdpMessageAddressRoundTrip(datagram: seq<byte>, from: SockAddr)
    requires from.WellFormed()
    ensures var data := UdpMessageData(datagram, from);
      var n := |datagram|;
      SocketServerUdpAddress(data, n) == Some(|GenUdpAddress(from)|) &&
      data[n..] == GenUdpAddress(from)
  {
    var data := UdpMessageData(datagram, from);
    assert data[|datagram|..] == GenUdpAddress(from);
  }
}
