/** Fixed-width integers and byte order, as the agent uses them for addresses and ports. */
module Net {

  /** A C `uint16_t`. */
  type U16 = x: int | 0 <= x < 0x1_0000

  /** A C `uint32_t` / `in_addr_t` (an IPv4 address in network byte order). */
  type U32 = x: int | 0 <= x < 0x1_0000_0000

  /** The conversion of a C `int` to `uint16_t`: reduction modulo 2^16. */
  function ToU16(x: int): (r: U16)
    ensures (r - x) % 0x1_0000 == 0
  {
    x % 0x1_0000
  }

  /** `htons` on a little-endian host: the two bytes of the value swap places. */
  function Htons(x: U16): (r: U16)
    ensures r % 0x100 == x / 0x100 && r / 0x100 == x % 0x100
  {
    (x % 0x100) * 0x100 + x / 0x100
  }

  /** `ntohs` is the same swap, so converting twice gives back the host value. */
  lemma HtonsInvolutive(x: U16)
    ensures Htons(Htons(x)) == x
  {
    var h := Htons(x);
    assert h % 0x100 == x / 0x100 && h / 0x100 == x % 0x100;
  }

  /** Only the port 0 is 0 in network byte order. */
  lemma HtonsZero(x: U16)
    ensures Htons(x) == 0 <==> x == 0
  {
  }
}
