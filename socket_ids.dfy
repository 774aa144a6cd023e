/**
 * Socket ids and the `sending` word of a socket slot.
 *
 * An id is a non-negative C `int`; its low 16 bits select one of the 65536
 * slots (`HASH_ID`) and the next 16 bits form its tag (`ID_TAG16`). The
 * `sending` word of a slot keeps the tag of the id that owns it in its high
 * half and, in its low half, the number of send requests a worker has queued
 * for the socket thread and that the socket thread has not handled yet.
 */
module SocketIds {
  import opened Bytes
  import opened Wrappers

  const MAX_SOCKET_P: nat := 16
  const MAX_SOCKET: nat := 0x1_0000

  /** `HASH_ID(id)`: `((unsigned)id) % MAX_SOCKET`. */
  function HashId(id: Int32): (r: nat)
    ensures r < MAX_SOCKET
    ensures (id - r) % MAX_SOCKET == 0
  {
    Unsigned32(id) % MAX_SOCKET
  }

  /** `ID_TAG16(id)`: `(id >> MAX_SOCKET_P) & 0xffff` (an arithmetic shift). */
  function IdTag16(id: Int32): (r: nat)
    ensures r < 0x1_0000
    ensures id >= 0 ==> r == id / MAX_SOCKET
  {
    (id / MAX_SOCKET) % 0x1_0000
  }

  /** A non-negative id is its tag followed by its slot index. */
  lemma IdSplit(id: Int32)
    requires id >= 0
    ensures id == IdTag16(id) * MAX_SOCKET + HashId(id)
  {
  }

  /**
   * Two different non-negative ids that share a slot have different tags, so
   * the `sending` word of a slot tells its current owner from a stale one.
   */
  lemma StaleIdHasOtherTag(a: Int32, b: Int32)
    requires a >= 0 && b >= 0 && a != b && HashId(a) == HashId(b)
    ensures IdTag16(a) != IdTag16(b)
  {
    IdSplit(a);
    IdSplit(b);
  }

  /** The `sending` word is a `uint32_t`. */
  type Word = x: int | 0 <= x < 0x1_0000_0000

  function SendingTag(w: Word): nat
  {
    w / 0x1_0000
  }

  function SendingCount(w: Word): nat
  {
    w % 0x1_0000
  }

  /** `ID_TAG16(id) << 16 | 0`, as `new_fd` initialises it. */
  function InitialSending(id: Int32): (w: Word)
    ensures SendingTag(w) == IdTag16(id) && SendingCount(w) == 0
  {
    IdTag16(id) * 0x1_0000
  }

  /**
   * One pass of the `inc_sending_ref` loop on a TCP socket. `None` is the case
   * in which the low half is saturated at 0xffff and the worker waits for the
   * socket thread to decrement it.
   */
  function IncSending(w: Word, id: Int32): (r: Option<Word>)
    ensures r.None? <==> SendingTag(w) == IdTag16(id) && SendingCount(w) == 0xffff
    ensures r.Some? && SendingTag(w) == IdTag16(id) ==>
      SendingTag(r.value) == SendingTag(w) && SendingCount(r.value) == SendingCount(w) + 1
    ensures r.Some? && SendingTag(w) != IdTag16(id) ==> r.value == w
  {
    if SendingTag(w) == IdTag16(id) then
      if SendingCount(w) == 0xffff then None else Some(w + 1)
    else
      Some(w)
  }

  /** `dec_sending_ref` on a TCP socket owned by the id; the source asserts the count is positive. */
  function DecSending(w: Word): (r: Word)
    requires SendingCount(w) != 0
    ensures SendingTag(r) == SendingTag(w) && SendingCount(r) == SendingCount(w) - 1
  {
    w - 1
  }

  /**
   * A send request queued while the slot is still reserved is never counted,
   * yet its handling decrements: `socket_server_connect` reserves the slot
   * with protocol `PROTOCOL_UNKNOWN`, so `inc_sending_ref` skips it;
   * `new_fd` then sets the word for a TCP socket to a zero count under the
   * id's tag; and `dec_sending_ref` for the `'D'` request finds that tag with
   * a zero count. The assert fails, and the bare `ATOM_DEC` on the
   * `uint32_t` would borrow from the tag.
   */
  lemma UncountedSendFailsAssert(id: Int32)
    requires id >= 0
    ensures var w := InitialSending(id);
      SendingTag(w) == IdTag16(id) && SendingCount(w) == 0 &&
      SendingTag((w as int + 0xffff_ffff) % 0x1_0000_0000) != IdTag16(id)
  {
    var w := InitialSending(id);
    var t := IdTag16(id);
    if t == 0 {
      assert (w as int + 0xffff_ffff) % 0x1_0000_0000 == 0xffff_ffff;
    } else {
      assert (w as int + 0xffff_ffff) % 0x1_0000_0000 == (t - 1) * 0x1_0000 + 0xffff;
    }
  }

  /**
   * `dec_sending_ref` with the evidently intended guard: a zero count (a
   * request that was never counted) is left alone, so the tag always keeps
   * naming the slot's owner.
   */
  function DecSendingGuarded(w: Word): (r: Word)
    ensures SendingTag(r) == SendingTag(w)
    ensures SendingCount(r) == if SendingCount(w) == 0 then 0 else SendingCount(w) - 1
  {
    if SendingCount(w) == 0 then w else DecSending(w)
  }

  /** Under the guard a counted request and its handling still leave the word as it was. */
  lemma IncThenDecGuarded(w: Word, id: Int32)
    requires IncSending(w, id).Some? && SendingTag(w) == IdTag16(id)
    ensures DecSendingGuarded(IncSending(w, id).value) == w
  {
  }

  /** A queued request and its handling leave the word as it was. */
  lemma IncThenDec(w: Word, id: Int32)
    requires IncSending(w, id).Some? && SendingTag(w) == IdTag16(id)
    ensures DecSending(IncSending(w, id).value) == w
  {
  }

  /** A request for a stale id that shares the slot does not touch the word of the new owner. */
  lemma StaleIncLeavesWord(owner: Int32, stale: Int32)
    requires owner >= 0 && stale >= 0 && owner != stale && HashId(owner) == HashId(stale)
    ensures IncSending(InitialSending(owner), stale) == Some(InitialSending(owner))
  {
    StaleIdHasOtherTag(owner, stale);
  }
}
