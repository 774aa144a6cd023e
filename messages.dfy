/** The message record that actors exchange (struct skynet_message). */
module Messages {

  /** Allocated buffers and other pointers are modelled as abstract addresses;
      address 0 is NULL. */
  type Address = nat

  /** A message: who sent it, the session it answers, an owned payload and the
      size word, whose top byte carries the message type. */
  datatype Message = Message(source: nat, session: int, data: Address, sz: nat)

  /** Width of `size_t` on the 64-bit targets the runtime is built for: the type
      of a message lives in the top byte of `sz`. */
  const MESSAGE_TYPE_SHIFT: nat := 56

  /** The type of a reply message.  skynet.h, which defines it, is not part of
      this model; the value is the protocol number it gives to responses. */
  const PTYPE_RESPONSE: nat := 1

  /** The size word of a payload-free response: the type in the top byte, size 0. */
  function ResponseSize(): (sz: nat)
    ensures sz / Pow2(MESSAGE_TYPE_SHIFT) == PTYPE_RESPONSE
    ensures sz % Pow2(MESSAGE_TYPE_SHIFT) == 0
  {
    PTYPE_RESPONSE * Pow2(MESSAGE_TYPE_SHIFT)
  }

  function Pow2(n: nat): (r: nat)
    ensures r > 0
  {
    if n == 0 then 1 else 2 * Pow2(n - 1)
  }
}
