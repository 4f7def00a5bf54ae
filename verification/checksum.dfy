/** The Internet checksum (src/lib/util.c, `cksum16`).

    The C routine adds host words into a 32-bit accumulator, folds the carries and
    complements. The reference is the end-around-carry sum of section 1 of RFC 1071. */
module Checksum {
  import opened Words

  /** End-around-carry addition of two 16-bit words. */
  function OnesAdd(a: u16, b: u16): u16 {
    if a + b > 0xffff then a + b - 0xffff else a + b
  }

  /** The ones-complement sum of section 1 of RFC 1071: big-endian words, an odd
      last byte padded with zero on the right. */
  function RfcSum(s: seq<u8>): u16 {
    if s == [] then 0
    else if |s| == 1 then Load16(Big, s[0], 0)
    else OnesAdd(Load16(Big, s[0], s[1]), RfcSum(s[2..]))
  }

  /** The reference checksum of a message. */
  function RfcChecksum(s: seq<u8>): u16 {
    0xffff - RfcSum(s)
  }

  /** The unfolded sum the C loop accumulates: host words, an odd last byte added as it is. */
  function Sum(e: Endian, s: seq<u8>): nat {
    if s == [] then 0
    else if |s| == 1 then s[0]
    else Load16(e, s[0], s[1]) + Sum(e, s[2..])
  }

  /** The ones-complement representative: congruent modulo 65535, and zero only for zero. */
  function Canon(n: nat): (r: u16)
    ensures r % 0xffff == n % 0xffff
    ensures r == 0 <==> n == 0
  {
    if n == 0 then 0 else (n - 1) % 0xffff + 1
  }

  /** What `cksum16` returns for the bytes `s` and the seed `init`. */
  function Cksum(e: Endian, s: seq<u8>, init: u32): u16 {
    0xffff - Canon((init + Sum(e, s)) % TWO32)
  }

  // ---------------------------------------------------------------- arithmetic

  lemma CanonUnique(n: nat, r: u16)
    requires r % 0xffff == n % 0xffff && (r == 0 <==> n == 0)
    ensures Canon(n) == r
  {
  }

  lemma CanonAbsorbs(a: nat, b: nat)
    ensures Canon(Canon(a) + b) == Canon(a + b)
  {
    var c := Canon(a);
    assert a % 0xffff == c % 0xffff;
    assert (c + b) % 0xffff == (a + b) % 0xffff by {
      assert a - c == (a / 0xffff - c / 0xffff) * 0xffff;
      var k := a / 0xffff - c / 0xffff;
      assert a + b == (c + b) + k * 0xffff;
    }
    CanonUnique(a + b, Canon(c + b));
  }

  lemma FoldOnce(n: nat)
    requires n >= 0x1_0000
    ensures Canon(n % 0x1_0000 + n / 0x1_0000) == Canon(n)
  {
    var m := n % 0x1_0000 + n / 0x1_0000;
    assert n == m + 0xffff * (n / 0x1_0000);
    assert m % 0xffff == n % 0xffff;
    CanonUnique(n, Canon(m));
  }

  lemma {:induction false} SumBound(e: Endian, s: seq<u8>)
    ensures Sum(e, s) <= 0xffff * ((|s| + 1) / 2)
  {
    if |s| <= 1 {
    } else {
      SumBound(e, s[2..]);
    }
  }

  lemma {:induction false} SumAppend(e: Endian, a: seq<u8>, b: seq<u8>)
    requires |a| % 2 == 0
    ensures Sum(e, a + b) == Sum(e, a) + Sum(e, b)
  {
    if a == [] {
      assert a + b == b;
    } else {
      assert (a + b)[2..] == a[2..] + b;
      SumAppend(e, a[2..], b);
    }
  }

  /** Replacing one aligned word changes the sum by the difference of the words. */
  lemma SumReplace(e: Endian, s: seq<u8>, k: nat, w: u16)
    requires k % 2 == 0 && k + 2 <= |s|
    ensures Sum(e, Put16(e, s, k, w)) == Sum(e, s) - Load16(e, s[k], s[k + 1]) + w
  {
    var t := Put16(e, s, k, w);
    SumAppend(e, s[..k], s[k..]);
    SumAppend(e, t[..k], t[k..]);
    assert s == s[..k] + s[k..] && t == t[..k] + t[k..];
    assert t[..k] == s[..k] && t[k..][2..] == s[k..][2..];
  }

  /** The bytes `s` with the word `w` stored at offset `k` in host order. */
  function Put16(e: Endian, s: seq<u8>, k: nat, w: u16): (t: seq<u8>)
    requires k + 2 <= |s|
    ensures |t| == |s| && t[..k] == s[..k] && t[k + 2..] == s[k + 2..]
    ensures Load16(e, t[k], t[k + 1]) == w
  {
    s[..k] + Store16(e, w) + s[k + 2..]
  }

  // ---------------------------------------------------------------- the routine

  /** `cksum16`: add, fold, complement. */
  method Cksum16(e: Endian, addr: seq<u8>, count: u16, init: u32) returns (r: u16)
    requires count <= |addr|
    ensures r == Cksum(e, addr[..count], init)
  {
    var sum := AddWords(e, addr, count, init);
    r := Fold(sum);
    r := 0xffff - r;
  }

  /** The first loop of `cksum16` and the odd byte; the accumulator wraps at 32 bits. */
  method AddWords(e: Endian, addr: seq<u8>, count: u16, init: u32) returns (sum: u32)
    requires count <= |addr|
    ensures sum == (init + Sum(e, addr[..count])) % TWO32
  {
    ghost var all := addr[..count];
    sum := init;
    var i: nat, left: nat := 0, count;
    while left > 1
      invariant i + left == count
      invariant (sum + Sum(e, all[i..])) % TWO32 == (init + Sum(e, all)) % TWO32
    {
      SumStep(e, all, i);
      WrapAdd(sum, Load16(e, addr[i], addr[i + 1]), Sum(e, all[i + 2..]));
      sum := (sum + Load16(e, addr[i], addr[i + 1])) % TWO32;
      i, left := i + 2, left - 2;
    }
    SumTail(e, all, i);
    if left > 0 {
      sum := (sum + addr[i]) % TWO32;
    } else {
      SmallMod(sum);
    }
  }

  /** The folding loop at the end of `cksum16`: it ends at the representative. */
  method Fold(start: u32) returns (r: u16)
    ensures r == Canon(start)
  {
    var sum: u32 := start;
    while sum >= 0x1_0000
      invariant Canon(sum) == Canon(start)
      decreases sum
    {
      FoldOnce(sum);
      sum := sum % 0x1_0000 + sum / 0x1_0000;
    }
    CanonOfWord(sum);
    r := sum;
  }

  lemma SumStep(e: Endian, s: seq<u8>, i: nat)
    requires i + 2 <= |s|
    ensures Sum(e, s[i..]) == Load16(e, s[i], s[i + 1]) + Sum(e, s[i + 2..])
  {
  }

  lemma SumTail(e: Endian, s: seq<u8>, i: nat)
    requires i <= |s| <= i + 1
    ensures Sum(e, s[i..]) == if i < |s| then s[i] else 0
  {
  }

  lemma SmallMod(n: nat)
    requires n < TWO32
    ensures n % TWO32 == n
  {
  }

  lemma WrapAdd(a: nat, b: nat, c: nat)
    ensures ((a + b) % TWO32 + c) % TWO32 == (a + (b + c)) % TWO32
  {
  }

  lemma CanonOfWord(w: u16)
    ensures Canon(w) == w
  {
  }

  /** A 16-bit seed and at most 65535 bytes never overflow the 32-bit accumulator. */
  lemma NoOverflow(e: Endian, s: seq<u8>, init: u16)
    requires |s| <= 0xffff
    ensures init + Sum(e, s) < TWO32
    ensures Cksum(e, s, init) == 0xffff - Canon(init + Sum(e, s))
  {
    SumBound(e, s);
    assert Sum(e, s) <= 0xffff * 0x8000;
    SmallMod(init + Sum(e, s));
  }

  lemma Unseeded(e: Endian, s: seq<u8>)
    requires |s| <= 0xffff
    ensures Cksum(e, s, 0) == 0xffff - Canon(Sum(e, s))
  {
    NoOverflow(e, s, 0);
  }

  // ---------------------------------------------------------------- against RFC 1071

  /** What padding an odd last byte on the right adds over leaving it as it is. */
  function PadExcess(s: seq<u8>): nat {
    if |s| % 2 == 1 then 0xff * (s[|s| - 1] as int) else 0
  }

  lemma {:induction false} RfcSumIsCanon(s: seq<u8>)
    ensures RfcSum(s) == Canon(Sum(Big, s) + PadExcess(s))
  {
    if |s| == 1 {
      CanonOfWord(Load16(Big, s[0], 0));
    } else if s != [] {
      var rest := s[2..];
      RfcSumIsCanon(rest);
      assert PadExcess(s) == PadExcess(rest);
      AddWord(Load16(Big, s[0], s[1]), Sum(Big, rest) + PadExcess(rest));
    }
  }

  lemma AddWord(w: u16, n: nat)
    ensures OnesAdd(w, Canon(n)) == Canon(w + n)
  {
  }

  /** The little-endian sum is the byte-swapped reference sum (section 2(B) of RFC 1071). */
  lemma {:induction false} SwappedSum(s: seq<u8>)
    ensures Canon(Sum(Little, s)) == Byteswap16(RfcSum(s))
  {
    if |s| == 1 {
      CanonOfWord(s[0]);
    } else if s != [] {
      var rest := s[2..];
      SwappedSum(rest);
      SwapOfLoad(s[0], s[1]);
      AddWord(Load16(Little, s[0], s[1]), Sum(Little, rest));
      SwapOnesAdd(Load16(Big, s[0], s[1]), RfcSum(rest));
    }
  }

  lemma SwapOfLoad(b0: u8, b1: u8)
    ensures Byteswap16(Load16(Big, b0, b1)) == Load16(Little, b0, b1)
  {
  }

  lemma SwapOnesAdd(a: u16, b: u16)
    ensures Byteswap16(OnesAdd(a, b)) == OnesAdd(Byteswap16(a), Byteswap16(b))
  {
    SwapExact(a);
    SwapExact(b);
    SwapExact(OnesAdd(a, b));
    SwapQuotients(a, b, a / 0x100, b / 0x100, OnesAdd(a, b) / 0x100);
  }

  /** The arithmetic of `SwapOnesAdd`, with the quotients as plain integers. */
  lemma SwapQuotients(a: int, b: int, p: int, q: int, c: int)
    requires 0 <= a <= 0xffff && 0 <= b <= 0xffff
    requires var x, y := a * 0x100 - 0xffff * p, b * 0x100 - 0xffff * q;
             var s := if a + b > 0xffff then a + b - 0xffff else a + b;
             var l := s * 0x100 - 0xffff * c;
             && 0 <= x <= 0xffff && 0 <= y <= 0xffff && 0 <= l <= 0xffff
             && (x == 0 <==> a == 0) && (y == 0 <==> b == 0) && (l == 0 <==> s == 0)
    ensures var x, y := a * 0x100 - 0xffff * p, b * 0x100 - 0xffff * q;
            var s := if a + b > 0xffff then a + b - 0xffff else a + b;
            s * 0x100 - 0xffff * c == if x + y > 0xffff then x + y - 0xffff else x + y
  {
    var x, y := a * 0x100 - 0xffff * p, b * 0x100 - 0xffff * q;
    var d, f := if a + b > 0xffff then 1 else 0, if x + y > 0xffff then 1 else 0;
    var l, r := (a + b - 0xffff * d) * 0x100 - 0xffff * c, x + y - 0xffff * f;
    SameRepresentative(l, r, p + q - c - 0x100 * d + f);
  }

  lemma SameRepresentative(l: int, r: int, k: int)
    requires 0 <= l <= 0xffff && 0 <= r <= 0xffff && l - r == 0xffff * k && (l == 0 <==> r == 0)
    ensures l == r
  {
  }

  lemma LittleChecksum(s: seq<u8>)
    requires |s| <= 0xffff
    ensures Cksum(Little, s, 0) == Byteswap16(RfcChecksum(s))
  {
    Unseeded(Little, s);
    SwappedSum(s);
    ComplementOfSwap(RfcSum(s));
  }

  lemma BigChecksum(s: seq<u8>)
    requires |s| <= 0xffff
    ensures Cksum(Big, s, 0) == RfcChecksum(s) <==> PadExcess(s) == 0
  {
    Unseeded(Big, s);
    RfcSumIsCanon(s);
    CanonShift(Sum(Big, s), PadExcess(s));
  }

  lemma ComplementOfSwap(v: u16)
    ensures Byteswap16(0xffff - v) == 0xffff - Byteswap16(v)
  {
    Split8(0xffff - v, 0xff - v / 0x100, 0xff - v % 0x100);
  }

  /** The word `cksum16` returns is the reference checksum in network order, for every
      message on a little-endian host; on a big-endian host, where the odd last byte is
      added unshifted, exactly when there is no odd last byte or it is zero. */
  lemma NetworkChecksumIff(e: Endian, s: seq<u8>)
    requires |s| <= 0xffff
    ensures Cksum(e, s, 0) == Hton16(e, RfcChecksum(s))
            <==> e == Little || |s| % 2 == 0 || s[|s| - 1] == 0
  {
    match e
    case Little => LittleChecksum(s);
    case Big => BigChecksum(s);
  }

  lemma CanonShift(n: nat, d: nat)
    requires d < 0xffff
    ensures Canon(n) == Canon(n + d) <==> d == 0
  {
  }

  /** A one-byte message on which a big-endian host departs from the reference. */
  lemma BigEndianOddByte()
    ensures Cksum(Big, [1], 0) == 0xfffe && RfcChecksum([1]) == 0xfeff
  {
  }

  // ---------------------------------------------------------------- what callers rely on

  /** Storing the checksum in its zeroed, aligned field makes verification return 0. */
  lemma StoreThenVerify(e: Endian, s: seq<u8>, k: nat, init: u16)
    requires |s| <= 0xffff && k % 2 == 0 && k + 2 <= |s| && s[k] == s[k + 1] == 0
    ensures Cksum(e, Put16(e, s, k, Cksum(e, s, init)), init) == 0
  {
    var c := Cksum(e, s, init);
    var t := Put16(e, s, k, c);
    NoOverflow(e, s, init);
    NoOverflow(e, t, init);
    SumReplace(e, s, k, c);
    var n := init + Sum(e, s);
    ComplementCancels(n);
  }

  lemma ComplementCancels(n: nat)
    ensures Canon(n + (0xffff - Canon(n))) == 0xffff
  {
    CanonAbsorbs(n, 0xffff - Canon(n));
  }

  /** Seeding with the complemented checksum of an even-length prefix checks the whole. */
  lemma Chaining(e: Endian, a: seq<u8>, b: seq<u8>)
    requires |a| % 2 == 0 && |a| + |b| <= 0xffff
    ensures Cksum(e, b, 0xffff - Cksum(e, a, 0)) == Cksum(e, a + b, 0)
  {
    NoOverflow(e, a, 0);
    NoOverflow(e, b, 0xffff - Cksum(e, a, 0));
    NoOverflow(e, a + b, 0);
    SumAppend(e, a, b);
    CanonAbsorbs(Sum(e, a), Sum(e, b));
  }

  /** The diagnostics' recomputation: the seed `-sum`, taken modulo 2^32 and with the
      pseudo-header seed added, gives the checksum of the message with a zeroed field. */
  lemma WrapAroundRecomputation(e: Endian, s: seq<u8>, k: nat, psum: u16)
    requires |s| <= 0xffff && k % 2 == 0 && k + 2 <= |s|
    ensures var sum := Load16(e, s[k], s[k + 1]);
            Cksum(e, s, (psum - sum) % TWO32) == Cksum(e, Put16(e, s, k, 0), psum)
  {
    SumReplace(e, s, k, 0);
    NoOverflow(e, Put16(e, s, k, 0), psum);
    WrapSeed(psum - Load16(e, s[k], s[k + 1]), Sum(e, s));
  }

  lemma WrapSeed(d: int, n: int)
    ensures (d % TWO32 + n) % TWO32 == (d + n) % TWO32
  {
  }

  /** Error detection: after one aligned word is replaced, a message that verified still
      verifies exactly when the word is unchanged or swapped between 0x0000 and 0xffff,
      and something nonzero is left to sum. */
  lemma ErrorDetection(e: Endian, s: seq<u8>, k: nat, w: u16, init: u16)
    requires |s| <= 0xffff && k % 2 == 0 && k + 2 <= |s|
    requires Cksum(e, s, init) == 0
    ensures var prev := Load16(e, s[k], s[k + 1]);
            var t := Put16(e, s, k, w);
            Cksum(e, t, init) == 0
            <==> (w == prev || {w, prev} == {0, 0xffff}) && init + Sum(e, t) != 0
  {
    SumReplace(e, s, k, w);
    VerifiesIff(e, s, init);
    VerifiesIff(e, Put16(e, s, k, w), init);
    StillMultiple(init + Sum(e, s), Load16(e, s[k], s[k + 1]), w);
  }

  lemma VerifiesIff(e: Endian, s: seq<u8>, init: u16)
    requires |s| <= 0xffff
    ensures Cksum(e, s, init) == 0 <==> Canon(init + Sum(e, s)) == 0xffff
  {
    NoOverflow(e, s, init);
  }

  lemma StillMultiple(n: nat, prev: u16, w: u16)
    requires prev <= n && Canon(n) == 0xffff
    ensures Canon(n - prev + w) == 0xffff
            <==> (w == prev || {w, prev} == {0, 0xffff}) && n - prev + w != 0
  {
  }
}
