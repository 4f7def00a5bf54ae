/** Bitwise operations on bounded integers, as address masks need them. */
module Bits {
  import opened Words

  function Pow2(n: nat): (r: nat)
    ensures r >= 1
  {
    if n == 0 then 1 else 2 * Pow2(n - 1)
  }

  /** The low `n` bits of a number, least significant first. */
  function ToBits(n: nat, v: nat): (s: seq<bool>)
    ensures |s| == n
  {
    if n == 0 then [] else [v % 2 == 1] + ToBits(n - 1, v / 2)
  }

  function FromBits(s: seq<bool>): (v: nat)
    ensures v < Pow2(|s|)
  {
    if s == [] then 0 else (if s[0] then 1 else 0) + 2 * FromBits(s[1..])
  }

  function AndBits(a: seq<bool>, b: seq<bool>): (r: seq<bool>)
    requires |a| == |b|
    ensures |r| == |a|
  {
    seq(|a|, i requires 0 <= i < |a| => a[i] && b[i])
  }

  function OrBits(a: seq<bool>, b: seq<bool>): (r: seq<bool>)
    requires |a| == |b|
    ensures |r| == |a|
  {
    seq(|a|, i requires 0 <= i < |a| => a[i] || b[i])
  }

  function NotBits(a: seq<bool>): (r: seq<bool>)
    ensures |r| == |a|
  {
    seq(|a|, i requires 0 <= i < |a| => !a[i])
  }

  /** `a & b`, `a | b` and `~a` on 32-bit words. */
  function And32(a: u32, b: u32): u32 {
    Pow2Values();
    FromBits(AndBits(ToBits(32, a), ToBits(32, b)))
  }

  function Or32(a: u32, b: u32): u32 {
    Pow2Values();
    FromBits(OrBits(ToBits(32, a), ToBits(32, b)))
  }

  function Not32(a: u32): u32 {
    Pow2Values();
    FromBits(NotBits(ToBits(32, a)))
  }

  lemma Pow2Values()
    ensures Pow2(8) == 0x100 && Pow2(16) == 0x1_0000 && Pow2(32) == TWO32
  {
    assert Pow2(4) == 16;
    assert Pow2(8) == 0x100;
    assert Pow2(12) == 0x1000;
    assert Pow2(16) == 0x1_0000;
    assert Pow2(20) == 0x10_0000;
    assert Pow2(24) == 0x100_0000;
    assert Pow2(28) == 0x1000_0000;
    assert Pow2(32) == TWO32;
  }

  // ---------------------------------------------------------------- numbers and bits

  lemma {:induction false} BitsOfNumber(n: nat, v: nat)
    requires v < Pow2(n)
    ensures FromBits(ToBits(n, v)) == v
  {
    if n == 0 {
    } else {
      BitsOfNumber(n - 1, v / 2);
      assert ToBits(n, v)[1..] == ToBits(n - 1, v / 2);
    }
  }

  lemma {:induction false} NumberOfBits(s: seq<bool>)
    ensures ToBits(|s|, FromBits(s)) == s
  {
    if s == [] {
    } else {
      NumberOfBits(s[1..]);
      assert s == [s[0]] + s[1..];
    }
  }

  lemma TwiceProduct(p: int, h: int)
    ensures (2 * p) * h == 2 * (p * h)
  {
  }

  lemma {:induction false} FromBitsAppend(a: seq<bool>, b: seq<bool>)
    ensures FromBits(a + b) == FromBits(a) + Pow2(|a|) * FromBits(b)
  {
    if a == [] {
      assert a + b == b;
    } else {
      FromBitsAppend(a[1..], b);
      assert (a + b)[1..] == a[1..] + b;
      TwiceProduct(Pow2(|a| - 1), FromBits(b));
    }
  }

  /** The bits of a number given by its low and high parts. */
  lemma ToBitsAppend(n: nat, m: nat, lo: nat, hi: nat)
    requires lo < Pow2(n) && hi < Pow2(m)
    ensures ToBits(n + m, lo + Pow2(n) * hi) == ToBits(n, lo) + ToBits(m, hi)
  {
    var s := ToBits(n, lo) + ToBits(m, hi);
    FromBitsAppend(ToBits(n, lo), ToBits(m, hi));
    BitsOfNumber(n, lo);
    BitsOfNumber(m, hi);
    NumberOfBits(s);
  }

  // ---------------------------------------------------------------- prefixes

  lemma {:induction false} Pow2Monotone(a: nat, b: nat)
    requires a <= b
    ensures Pow2(a) <= Pow2(b)
    ensures a < b ==> Pow2(a) < Pow2(b)
    decreases b
  {
    if a == b {
    } else {
      Pow2Monotone(a, b - 1);
    }
  }

  function Filled(n: nat, b: bool): (s: seq<bool>)
    ensures |s| == n
  {
    seq(n, _ => b)
  }

  lemma {:induction false} FilledValue(n: nat, b: bool)
    ensures FromBits(Filled(n, b)) == if b then Pow2(n) - 1 else 0
  {
    if n == 0 {
    } else {
      FilledValue(n - 1, b);
      assert Filled(n, b)[1..] == Filled(n - 1, b);
    }
  }

  lemma {:induction false} MaskNumber(n: nat, k: nat)
    requires k <= n
    ensures FromBits(Filled(k, false) + Filled(n - k, true)) == Pow2(n) - Pow2(k)
    decreases k
  {
    var s := Filled(k, false) + Filled(n - k, true);
    if k == 0 {
      FilledValue(n, true);
      assert s == Filled(n, true);
    } else {
      MaskNumber(n - 1, k - 1);
      assert s[1..] == Filled(k - 1, false) + Filled(n - k, true);
    }
  }

  /** The bits of the mask that keeps all but the low `k` of `n` bits. */
  lemma MaskBits(n: nat, k: nat)
    requires k <= n
    ensures Pow2(k) <= Pow2(n)
    ensures ToBits(n, Pow2(n) - Pow2(k)) == Filled(k, false) + Filled(n - k, true)
  {
    Pow2Monotone(k, n);
    MaskNumber(n, k);
    NumberOfBits(Filled(k, false) + Filled(n - k, true));
  }

  // ---------------------------------------------------------------- byte order

  /** The mask of a prefix of `p` of `n` bits. */
  lemma PrefixMask(n: nat, m: nat, p: nat)
    requires p <= n && m + Pow2(n - p) == Pow2(n)
    ensures ToBits(n, m) == Filled(n - p, false) + Filled(p, true)
  {
    MaskBits(n, n - p);
  }


  /** Byte swapping as a rearrangement of bits. */
  function SwapBits(s: seq<bool>): (r: seq<bool>)
    requires |s| == 32
    ensures |r| == 32
  {
    s[24..] + s[16..24] + s[8..16] + s[..8]
  }

  lemma BytesBits(v: u16, lo: u8, hi: u8)
    requires v == lo + 0x100 * hi
    ensures ToBits(16, v) == ToBits(8, lo) + ToBits(8, hi)
  {
    Pow2Values();
    ToBitsAppend(8, 8, lo, hi);
  }

  lemma HalvesBits(v: u32, lo: u16, hi: u16)
    requires v == lo + 0x1_0000 * hi
    ensures ToBits(32, v) == ToBits(16, lo) + ToBits(16, hi)
  {
    Pow2Values();
    ToBitsAppend(16, 16, lo, hi);
  }

  lemma SwapConcat(a: seq<bool>, b: seq<bool>, c: seq<bool>, d: seq<bool>)
    requires |a| == |b| == |c| == |d| == 8
    ensures SwapBits((a + b) + (c + d)) == (d + c) + (b + a)
  {
  }

  lemma SwapAnd(x: seq<bool>, y: seq<bool>)
    requires |x| == |y| == 32
    ensures AndBits(SwapBits(x), SwapBits(y)) == SwapBits(AndBits(x, y))
  {
  }

  lemma Swap32Bits(v: u32)
    ensures ToBits(32, Byteswap32(v)) == SwapBits(ToBits(32, v))
  {
    var lo, hi := v % 0x1_0000, v / 0x1_0000;
    HalvesBits(v, lo, hi);
    HalvesBits(Byteswap32(v), Byteswap16(hi), Byteswap16(lo));
    BytesBits(lo, lo % 0x100, lo / 0x100);
    BytesBits(hi, hi % 0x100, hi / 0x100);
    BytesBits(Byteswap16(lo), lo / 0x100, lo % 0x100);
    BytesBits(Byteswap16(hi), hi / 0x100, hi % 0x100);
    SwapConcat(ToBits(8, lo % 0x100), ToBits(8, lo / 0x100), ToBits(8, hi % 0x100), ToBits(8, hi / 0x100));
  }

  lemma AndBitsOf(a: u32, b: u32)
    ensures ToBits(32, And32(a, b)) == AndBits(ToBits(32, a), ToBits(32, b))
  {
    NumberOfBits(AndBits(ToBits(32, a), ToBits(32, b)));
  }

  /** Masking commutes with byte swapping. */
  lemma AndSwap32(a: u32, b: u32)
    ensures And32(Byteswap32(a), Byteswap32(b)) == Byteswap32(And32(a, b))
  {
    var l, r := And32(Byteswap32(a), Byteswap32(b)), Byteswap32(And32(a, b));
    assert ToBits(32, l) == ToBits(32, r) by {
      AndBitsOf(Byteswap32(a), Byteswap32(b));
      AndBitsOf(a, b);
      Swap32Bits(a);
      Swap32Bits(b);
      Swap32Bits(And32(a, b));
      SwapAnd(ToBits(32, a), ToBits(32, b));
    }
    SameBits(l, r);
  }

  lemma SameBits(a: u32, b: u32)
    requires ToBits(32, a) == ToBits(32, b)
    ensures a == b
  {
    Pow2Values();
    BitsOfNumber(32, a);
    BitsOfNumber(32, b);
  }

  // ---------------------------------------------------------------- broadcast addresses

  /** `((u & m) | ~m) & m == u & m`. */
  lemma FilledHostPart(u: u32, m: u32)
    ensures And32(Or32(And32(u, m), Not32(m)), m) == And32(u, m)
  {
    var x, y := ToBits(32, u), ToBits(32, m);
    NumberOfBits(AndBits(x, y));
    NumberOfBits(NotBits(y));
    NumberOfBits(OrBits(AndBits(x, y), NotBits(y)));
    assert AndBits(OrBits(AndBits(x, y), NotBits(y)), y) == AndBits(x, y);
  }

  /** `((u & m) | ~m) | m` has every bit set. */
  lemma FilledToOnes(u: u32, m: u32)
    ensures Or32(Or32(And32(u, m), Not32(m)), m) == 0xffff_ffff
  {
    var x, y := ToBits(32, u), ToBits(32, m);
    NumberOfBits(AndBits(x, y));
    NumberOfBits(NotBits(y));
    NumberOfBits(OrBits(AndBits(x, y), NotBits(y)));
    Pow2Values();
    FilledValue(32, true);
    assert OrBits(OrBits(AndBits(x, y), NotBits(y)), y) == Filled(32, true);
  }

  lemma AndZero(a: u32)
    ensures And32(a, 0) == 0
  {
    Pow2Values();
    FilledValue(32, false);
    NumberOfBits(Filled(32, false));
    assert AndBits(ToBits(32, a), Filled(32, false)) == Filled(32, false);
  }
}
