/** Machine words and byte order (src/lib/util.c).

    Words are mathematical integers with explicit bounds. A host reads a 16-bit
    word from two adjacent bytes in its own byte order; `hton16` and `ntoh16`
    swap on a little-endian host and do nothing on a big-endian one. */
module Words {

  type u8 = x: int | 0 <= x < 0x100
  type u16 = x: int | 0 <= x < 0x1_0000
  type u32 = x: int | 0 <= x < 0x1_0000_0000

  const TWO32 := 0x1_0000_0000

  datatype Endian = Little | Big

  lemma Split8(v: int, h: int, l: u8)
    requires v == h * 0x100 + l
    ensures v / 0x100 == h && v % 0x100 == l
  {
  }

  lemma Split16(v: int, h: int, l: u16)
    requires v == h * 0x1_0000 + l
    ensures v / 0x1_0000 == h && v % 0x1_0000 == l
  {
  }

  /** The word a host reads from two adjacent bytes. */
  function Load16(e: Endian, b0: u8, b1: u8): u16 {
    match e
    case Little => b0 + 0x100 * b1
    case Big => 0x100 * b0 + b1
  }

  /** The two bytes a host leaves in memory for a word. */
  function Store16(e: Endian, v: u16): (s: seq<u8>)
    ensures |s| == 2 && Load16(e, s[0], s[1]) == v
  {
    match e
    case Little => [v % 0x100, v / 0x100]
    case Big => [v / 0x100, v % 0x100]
  }

  function Byteswap16(v: u16): u16 {
    v % 0x100 * 0x100 + v / 0x100
  }

  lemma Swap16Halves(v: u16)
    ensures Byteswap16(v) % 0x100 == v / 0x100 && Byteswap16(v) / 0x100 == v % 0x100
    ensures Byteswap16(Byteswap16(v)) == v
  {
  }

  /** The two swapped halves change places; `Byteswap32Reverses` gives the bytes. */
  function Byteswap32(v: u32): u32 {
    Byteswap16(v % 0x1_0000) * 0x1_0000 + Byteswap16(v / 0x1_0000)
  }

  function Hton16(e: Endian, h: u16): u16 {
    if e == Little then Byteswap16(h) else h
  }

  function Ntoh16(e: Endian, n: u16): u16 {
    if e == Little then Byteswap16(n) else n
  }

  /** The four bytes an address occupies in memory on a little-endian host. */
  function Store32(v: u32): (s: seq<u8>)
    ensures |s| == 4
  {
    Store16(Little, v % 0x1_0000) + Store16(Little, v / 0x1_0000)
  }

  function Load32(s: seq<u8>): u32
    requires |s| == 4
  {
    Load16(Little, s[0], s[1]) + 0x1_0000 * Load16(Little, s[2], s[3])
  }

  lemma Load32Store32(v: u32)
    ensures Load32(Store32(v)) == v
  {
  }

  /** Whatever the host, the bytes of a converted word are most significant first,
      and converting back gives the word. */
  lemma NetworkOrder(e: Endian, h: u16)
    ensures Store16(e, Hton16(e, h)) == [h / 0x100, h % 0x100]
    ensures Ntoh16(e, Hton16(e, h)) == h
    ensures Hton16(e, Ntoh16(e, h)) == h
  {
  }

  lemma Hton16Injective(e: Endian, a: u16, b: u16)
    requires Hton16(e, a) == Hton16(e, b)
    ensures a == b
  {
    NetworkOrder(e, a);
    NetworkOrder(e, b);
  }

  lemma Byteswap32Reverses(v: u32)
    ensures Store32(Byteswap32(v)) == [Store32(v)[3], Store32(v)[2], Store32(v)[1], Store32(v)[0]]
    ensures Byteswap32(Byteswap32(v)) == v
  {
    var lo, hi := v % 0x1_0000, v / 0x1_0000;
    Split16(Byteswap32(v), Byteswap16(lo), Byteswap16(hi));
    Swap16Halves(lo);
    Swap16Halves(hi);
  }

  lemma Byteswap32Zero(v: u32)
    ensures Byteswap32(v) == 0 <==> v == 0
  {
  }

  lemma Byteswap32Injective(a: u32, b: u32)
    ensures Byteswap32(a) == Byteswap32(b) <==> a == b
  {
    Byteswap32Reverses(a);
    Byteswap32Reverses(b);
  }

  lemma SameRemainder(a: int, b: int, k: int)
    requires a == b + 0xffff * k
    ensures a % 0xffff == b % 0xffff
  {
  }

  lemma SwapExact(v: u16)
    ensures v * 0x100 == Byteswap16(v) + 0xffff * (v / 0x100)
    ensures Byteswap16(v) == 0 <==> v == 0
  {
  }

  /** Section 2(B) of RFC 1071: swapping bytes multiplies by 256 modulo 65535. */
  lemma SwapMultiplies(v: u16)
    ensures Byteswap16(v) % 0xffff == v * 0x100 % 0xffff
    ensures Byteswap16(v) == 0 <==> v == 0
  {
    SwapExact(v);
    SameRemainder(v * 0x100, Byteswap16(v), v / 0x100);
  }
}
