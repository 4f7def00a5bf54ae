/** Text forms of addresses and endpoints (src/lib/ip.c, src/lib/ether.c). A C string is the
    sequence of its characters without the terminating NUL. */
module Text {
  import opened Options
  import opened Words
  import opened ArpCache
  import opened UdpMonitor

  // ---------------------------------------------------------------- strtol

  const LONG_MAX := 0x7fff_ffff_ffff_ffff

  predicate IsSpace(c: char) {
    c == ' ' || '\t' <= c <= '\r'
  }

  /** The value of a digit, or -1. */
  function Digit(c: char, base: nat): (d: int)
    ensures -1 <= d < base
  {
    var v := if '0' <= c <= '9' then c as int - '0' as int
             else if 'a' <= c <= 'z' then c as int - 'a' as int + 10
             else if 'A' <= c <= 'Z' then c as int - 'A' as int + 10
             else -1;
    if v < base then v else -1
  }

  /** The length of the longest prefix of spaces. */
  function Spaces(s: string): (n: nat)
    ensures n <= |s|
  {
    if s == "" || !IsSpace(s[0]) then 0 else 1 + Spaces(s[1..])
  }

  /** The length of the longest prefix of digits. */
  function Digits(s: string, base: nat): (n: nat)
    ensures n <= |s| && forall i :: 0 <= i < n ==> Digit(s[i], base) >= 0
  {
    if s == "" || Digit(s[0], base) < 0 then 0 else 1 + Digits(s[1..], base)
  }

  function Value(s: string, base: nat): nat
    requires forall i :: 0 <= i < |s| ==> Digit(s[i], base) >= 0
  {
    if s == "" then 0 else Value(s[..|s| - 1], base) * base + Digit(s[|s| - 1], base)
  }

  /** Where the digits start after spaces and a sign: the sign, and the position. */
  function SkipSign(s: string): (r: (bool, nat))
    ensures r.1 <= |s|
  {
    var i := Spaces(s);
    if i < |s| && s[i] == '-' then (true, i + 1)
    else if i < |s| && s[i] == '+' then (false, i + 1)
    else (false, i)
  }

  /** In base 16 a `0x` before a digit is skipped too. */
  function SkipPrefix(s: string, base: nat): (n: nat)
    ensures n <= |s|
  {
    if base == 16 && |s| > 2 && s[0] == '0' && (s[1] == 'x' || s[1] == 'X') && Digit(s[2], 16) >= 0 then 2 else 0
  }

  /** The number clamped to the range of `long`. */
  function Clamp(negative: bool, v: nat): int {
    if negative then (if v > LONG_MAX + 1 then -LONG_MAX - 1 else -(v as int))
    else if v > LONG_MAX then LONG_MAX else v
  }

  /** `strtol`: the value and how many characters it took, none if there is no number. */
  function StrToL(s: string, base: nat): (r: (int, nat))
    ensures r.1 <= |s|
  {
    var (negative, j) := SkipSign(s);
    var k := j + SkipPrefix(s[j..], base);
    var n := Digits(s[k..], base);
    if n == 0 then (0, 0) else (Clamp(negative, Value(s[k..][..n], base)), k + n)
  }

  lemma NothingToSkip(s: string, base: nat)
    requires base <= 16 && s != "" && Digit(s[0], base) >= 0
    requires base == 16 && |s| > 1 ==> s[1] != 'x' && s[1] != 'X'
    ensures SkipSign(s) == (false, 0) && SkipPrefix(s, base) == 0
  {
  }

  lemma StrToLPlain(s: string, base: nat)
    requires SkipSign(s) == (false, 0) && SkipPrefix(s, base) == 0 && Digits(s, base) > 0
    ensures var n := Digits(s, base); StrToL(s, base) == (Clamp(false, Value(s[..n], base)), n)
  {
  }

  /** A string of digits not followed by another digit is read whole. */
  lemma StrToLReads(d: string, t: string, base: nat)
    requires base <= 16 && d != "" && forall i :: 0 <= i < |d| ==> Digit(d[i], base) >= 0
    requires t == "" || Digit(t[0], base) < 0
    requires base == 16 ==> |d| >= 2
    requires Value(d, base) <= LONG_MAX
    ensures StrToL(d + t, base) == (Value(d, base) as int, |d|)
  {
    var s := d + t;
    assert s[0] == d[0] && (base == 16 ==> s[1] == d[1]);
    NothingToSkip(s, base);
    DigitsOf(d, t, base);
    StrToLPlain(s, base);
    assert s[..|d|] == d;
  }

  /** White space: a blank, or one of the characters 9 to 13. */
  predicate Blank(w: string) {
    forall i :: 0 <= i < |w| ==> w[i] as int == 32 || 9 <= w[i] as int <= 13
  }

  /** Digits with no digit after them, the number within `long`. */
  predicate Numeral(d: string, t: string, base: nat) {
    && d != "" && (forall i :: 0 <= i < |d| ==> Digit(d[i], base) >= 0) && Value(d, base) <= LONG_MAX
    && (t == "" || Digit(t[0], base) < 0)
  }

  /** White space before a number is skipped. */
  lemma StrToLBlank(w: string, d: string, t: string, base: nat, s: string)
    requires base != 16 && Blank(w) && Numeral(d, t, base) && s == w + (d + t)
    ensures StrToL(s, base) == (Value(d, base) as int, |w| + |d|)
  {
    assert (d + t)[0] == d[0] && s[|w|..] == d + t;
    SkipBlank(w, d + t);
    ReadFrom(s, |w|, false, d, t, base);
  }

  /** A minus sign negates it. */
  lemma StrToLMinus(w: string, d: string, t: string, base: nat, s: string)
    requires base != 16 && Blank(w) && Numeral(d, t, base) && s == w + ("-" + (d + t))
    ensures StrToL(s, base) == (-(Value(d, base) as int), |w| + 1 + |d|)
  {
    assert s[|w| + 1..] == d + t;
    SkipBlank(w, "-" + (d + t));
    ReadFrom(s, |w| + 1, true, d, t, base);
  }

  lemma SkipBlank(w: string, rest: string)
    requires Blank(w) && rest != "" && !IsSpace(rest[0]) && rest[0] != '+'
    ensures SkipSign(w + rest) == if rest[0] == '-' then (true, |w| + 1) else (false, |w|)
  {
    SpacesOf(w, rest);
    assert (w + rest)[|w|] == rest[0];
  }

  lemma ReadFrom(s: string, j: nat, negative: bool, d: string, t: string, base: nat)
    requires j <= |s| && SkipSign(s) == (negative, j) && s[j..] == d + t && base != 16 && Numeral(d, t, base)
    ensures StrToL(s, base) == (Clamp(negative, Value(d, base)), j + |d|)
  {
    DigitsOf(d, t, base);
    assert (d + t)[..|d|] == d;
    StrToLFrom(s, base, negative, j);
  }

  lemma StrToLFrom(s: string, base: nat, negative: bool, j: nat)
    requires SkipSign(s) == (negative, j) && SkipPrefix(s[j..], base) == 0 && Digits(s[j..], base) > 0
    ensures var n := Digits(s[j..], base); StrToL(s, base) == (Clamp(negative, Value(s[j..][..n], base)), j + n)
  {
  }

  lemma {:induction false} SpacesOf(w: string, t: string)
    requires Blank(w) && (t == "" || !IsSpace(t[0]))
    ensures Spaces(w + t) == |w|
    decreases |w|
  {
    if w == "" {
      assert w + t == t;
    } else {
      assert (w + t)[1..] == w[1..] + t;
      SpacesOf(w[1..], t);
    }
  }

  lemma {:induction false} DigitsOf(d: string, t: string, base: nat)
    requires forall i :: 0 <= i < |d| ==> Digit(d[i], base) >= 0
    requires t == "" || Digit(t[0], base) < 0
    ensures Digits(d + t, base) == |d|
    decreases |d|
  {
    if d == "" {
      assert d + t == t;
    } else {
      assert (d + t)[1..] == d[1..] + t;
      DigitsOf(d[1..], t, base);
    }
  }

  // ---------------------------------------------------------------- printing numbers

  const DIGITS := "0123456789abcdef"

  /** `%d` of a number that is not negative. */
  function Decimal(n: nat): (s: string)
    ensures s != "" && forall i :: 0 <= i < |s| ==> '0' <= s[i] <= '9'
  {
    if n < 10 then [DIGITS[n]] else Decimal(n / 10) + [DIGITS[n % 10]]
  }

  /** `%02x` of a byte. */
  function Hex2(b: u8): (s: string)
    ensures |s| == 2 && forall i :: 0 <= i < 2 ==> Digit(s[i], 16) >= 0
  {
    [DIGITS[b / 16], DIGITS[b % 16]]
  }

  lemma {:induction false} DecimalValue(n: nat)
    ensures Value(Decimal(n), 10) == n
  {
    if n >= 10 {
      DecimalValue(n / 10);
      var s := Decimal(n);
      assert s[..|s| - 1] == Decimal(n / 10);
    } else {
      var s := Decimal(n);
      assert s[..|s| - 1] == "";
    }
  }

  lemma Hex2Value(b: u8)
    ensures Value(Hex2(b), 16) == b
  {
    var s := Hex2(b);
    assert s[..1] == [s[0]] && [s[0]][..0] == "";
    assert Value(s[..1], 16) == Digit(s[0], 16);
    assert Digit(s[0], 16) == b / 16 && Digit(s[1], 16) == b % 16;
  }

  lemma {:induction false} DecimalLength(n: nat, bound: nat, digits: nat)
    requires (bound, digits) in {(10, 1), (100, 2), (1000, 3), (10000, 4), (100000, 5)} && n < bound
    ensures |Decimal(n)| <= digits
    decreases n
  {
    if n < 10 {
    } else {
      DecimalLength(n / 10, bound / 10, digits - 1);
    }
  }

  // ---------------------------------------------------------------- separated fields

  /** Reads a number at the start of a string: its value and its length. */
  type Reader = string -> (int, nat)

  /** `k` bytes separated by `sep`, and nothing after the last. This is the shape of both
      parse loops. */
  function ParseFields(s: string, k: nat, sep: char, read: Reader): (r: Option<seq<u8>>)
    requires k > 0
    ensures r.Some? ==> |r.value| == k
    decreases k
  {
    var (v, n) := read(s);
    if n == 0 || v < 0 || v > 255 then None
    else if k == 1 then (if n == |s| then Some([v]) else None)
    else if n < |s| && s[n] == sep then Joined([v], ParseFields(s[n + 1..], k - 1, sep, read))
    else None
  }

  /** Fields already read, in front of those still to read. */
  function Joined(n: seq<u8>, r: Option<seq<u8>>): Option<seq<u8>> {
    if r.None? then None else Some(n + r.value)
  }

  function PrintFields(b: seq<u8>, sep: char, print8: u8 -> string): string
    requires b != []
    decreases |b|
  {
    if |b| == 1 then print8(b[0]) else print8(b[0]) + ([sep] + PrintFields(b[1..], sep, print8))
  }

  /** What is printed for a byte is read back, if nothing or the separator follows. */
  ghost predicate ReadsBack(sep: char, read: Reader, print8: u8 -> string) {
    forall b: u8, t: string :: t == "" || t[0] == sep ==> ReadsBackAt(read, print8, b, t)
  }

  predicate ReadsBackAt(read: Reader, print8: u8 -> string, b: u8, t: string) {
    read(print8(b) + t) == (b as int, |print8(b)|) && print8(b) != ""
  }

  /** Parsing printed fields gives the bytes back. */
  lemma {:induction false} FieldsRoundTrip(b: seq<u8>, sep: char, read: Reader, print8: u8 -> string)
    requires b != [] && ReadsBack(sep, read, print8)
    ensures ParseFields(PrintFields(b, sep, print8), |b|, sep, read) == Some(b)
    decreases |b|
  {
    var first := print8(b[0]);
    if |b| == 1 {
      assert first + "" == first && b == [b[0]];
      assert ReadsBackAt(read, print8, b[0], "");
    } else {
      var tail := PrintFields(b[1..], sep, print8);
      var s := first + ([sep] + tail);
      assert s[|first|] == sep && s[|first| + 1..] == tail;
      assert ReadsBackAt(read, print8, b[0], [sep] + tail);
      FieldsRoundTrip(b[1..], sep, read, print8);
      assert b == [b[0]] + b[1..];
    }
  }

  // ---------------------------------------------------------------- what is accepted

  /** The pieces with separators between them. */
  function Join(pieces: seq<string>, sep: char): string
    requires pieces != []
    decreases |pieces|
  {
    if |pieces| == 1 then pieces[0] else pieces[0] + [sep] + Join(pieces[1..], sep)
  }

  /** The string is these pieces, and from each piece on the reader reads exactly the piece, as
      the corresponding byte. */
  ghost predicate ReadsAs(s: string, pieces: seq<string>, b: seq<u8>, sep: char, read: Reader)
    requires pieces != []
  {
    && |pieces| == |b| && s == Join(pieces, sep)
    && forall j :: 0 <= j < |b| ==> PieceRead(pieces, j, b[j], sep, read)
  }

  ghost predicate PieceRead(pieces: seq<string>, j: nat, v: u8, sep: char, read: Reader)
    requires j < |pieces|
  {
    pieces[j] != "" && read(Join(pieces[j..], sep)) == (v as int, |pieces[j]|)
  }

  /** Whatever is accepted consists of exactly `k` pieces read as the bytes. */
  lemma {:induction false} AcceptedFields(s: string, k: nat, sep: char, read: Reader) returns (pieces: seq<string>)
    requires k > 0 && ParseFields(s, k, sep, read).Some? && forall t :: read(t).1 <= |t|
    ensures |pieces| == k && ReadsAs(s, pieces, ParseFields(s, k, sep, read).value, sep, read)
    decreases k
  {
    var (v, n) := read(s);
    var b := ParseFields(s, k, sep, read).value;
    if k == 1 {
      pieces := [s];
    } else {
      var rest := AcceptedFields(s[n + 1..], k - 1, sep, read);
      pieces := [s[..n]] + rest;
      assert pieces[1..] == rest;
      assert s == s[..n] + [sep] + s[n + 1..];
      forall j | 0 <= j < k ensures PieceRead(pieces, j, b[j], sep, read) {
        if j == 0 {
          assert pieces[0..] == pieces;
        } else {
          assert pieces[j..] == rest[j - 1..];
          assert PieceRead(rest, j - 1, b[1..][j - 1], sep, read);
        }
      }
    }
  }

  /** And all such strings are accepted. */
  lemma {:induction false} FieldsAccepted(s: string, pieces: seq<string>, b: seq<u8>, sep: char, read: Reader)
    requires pieces != [] && ReadsAs(s, pieces, b, sep, read)
    ensures ParseFields(s, |b|, sep, read) == Some(b)
    decreases |pieces|
  {
    assert PieceRead(pieces, 0, b[0], sep, read) && pieces[0..] == pieces;
    if |pieces| == 1 {
      assert b == [b[0]];
    } else {
      var n := |pieces[0]|;
      assert s[n] == sep && s[n + 1..] == Join(pieces[1..], sep);
      forall j | 0 <= j < |b| - 1 ensures PieceRead(pieces[1..], j, b[1..][j], sep, read) {
        assert PieceRead(pieces, j + 1, b[j + 1], sep, read) && pieces[1..][j..] == pieces[j + 1..];
      }
      FieldsAccepted(s[n + 1..], pieces[1..], b[1..], sep, read);
      assert b == [b[0]] + b[1..];
    }
  }


  const DECIMAL_READER: Reader := (s: string) => StrToL(s, 10)
  const HEX_READER: Reader := (s: string) => StrToL(s, 16)
  const DECIMAL_PRINTER: u8 -> string := (b: u8) => Decimal(b)
  const HEX_PRINTER: u8 -> string := (b: u8) => Hex2(b)

  lemma DecimalReads(b: nat, t: string)
    requires b <= 0xffff && (t == "" || Digit(t[0], 10) < 0)
    ensures StrToL(Decimal(b) + t, 10) == (b as int, |Decimal(b)|)
  {
    DecimalValue(b);
    StrToLReads(Decimal(b), t, 10);
  }

  lemma HexReads(b: u8, t: string)
    requires t == "" || Digit(t[0], 16) < 0
    ensures StrToL(Hex2(b) + t, 16) == (b as int, 2)
  {
    Hex2Value(b);
    StrToLReads(Hex2(b), t, 16);
  }

  lemma DecimalReadsBack()
    ensures ReadsBack('.', DECIMAL_READER, DECIMAL_PRINTER)
  {
    forall b: u8, t: string | t == "" || t[0] == '.'
      ensures ReadsBackAt(DECIMAL_READER, DECIMAL_PRINTER, b, t)
    {
      DecimalReads(b, t);
    }
  }

  lemma HexReadsBack()
    ensures ReadsBack(':', HEX_READER, HEX_PRINTER)
  {
    forall b: u8, t: string | t == "" || t[0] == ':'
      ensures ReadsBackAt(HEX_READER, HEX_PRINTER, b, t)
    {
      HexReads(b, t);
    }
  }

  // ---------------------------------------------------------------- IPv4 addresses

  /** `ip_address_to_string`. */
  function AddressString(a: u32): string {
    PrintFields(Store32(a), '.', DECIMAL_PRINTER)
  }

  function ParseAddressBy(s: string, strtol: Reader): Option<u32> {
    var r := ParseFields(s, 4, '.', strtol);
    if r.None? then None else Some(Load32(r.value))
  }

  function ParseAddress(s: string): Option<u32> {
    ParseAddressBy(s, DECIMAL_READER)
  }

  lemma AddressRoundTrip(a: u32)
    ensures ParseAddress(AddressString(a)) == Some(a)
  {
    DecimalReadsBack();
    FieldsRoundTrip(Store32(a), '.', DECIMAL_READER, DECIMAL_PRINTER);
    Load32Store32(a);
  }

  /** `ip_string_to_address`: four numbers written byte by byte. The library call is a
      parameter. */
  method StringToAddress(p: string, strtol: Reader) returns (r: Option<u32>)
    ensures r == ParseAddressBy(p, strtol)
  {
    var n: seq<u8>, sp, idx := [], p, 0;
    ghost var all := ParseFields(p, 4, '.', strtol);
    JoinedNothing(all);
    while idx < 4
      invariant 0 <= idx <= 4 && |n| == idx
      invariant if idx < 4 then Joined(n, ParseFields(sp, 4 - idx, '.', strtol)) == all else all == Some(n)
    {
      var (ret, ep) := strtol(sp);
      if ret < 0 || ret > 255 || ep == 0 {
        return None;
      }
      if (idx == 3 && ep != |sp|) || (idx != 3 && !(ep < |sp| && sp[ep] == '.')) {
        return None;
      }
      if idx != 3 {
        JoinedOnce(n, ret, ParseFields(sp[ep + 1..], 3 - idx, '.', strtol));
        sp := sp[ep + 1..];
      }
      n := n + [ret];
      idx := idx + 1;
    }
    r := Some(Load32(n));
  }

  lemma JoinedNothing(r: Option<seq<u8>>)
    ensures Joined([], r) == r
  {
    if r.Some? { assert [] + r.value == r.value; }
  }

  lemma JoinedOnce(n: seq<u8>, v: u8, r: Option<seq<u8>>)
    ensures Joined(n, Joined([v], r)) == Joined(n + [v], r)
  {
    if r.Some? { assert n + ([v] + r.value) == (n + [v]) + r.value; }
  }

  // ---------------------------------------------------------------- hardware addresses

  /** `ether_addr_ntop`. */
  function MacString(m: Mac): string {
    PrintFields(m, ':', HEX_PRINTER)
  }

  function ParseMac(s: string): Option<seq<u8>> {
    ParseFields(s, 6, ':', HEX_READER)
  }

  lemma MacRoundTrip(m: Mac)
    ensures ParseMac(MacString(m)) == Some(m)
  {
    HexReadsBack();
    FieldsRoundTrip(m, ':', HEX_READER, HEX_PRINTER);
  }

  /** `ether_addr_pton`: on success the array holds the address. */
  method EtherAddrPton(p: string, n: array<u8>, strtol: Reader) returns (ok: bool)
    requires n.Length == 6
    modifies n
    ensures var r := ParseFields(p, n.Length, ':', strtol); (ok <==> r.Some?) && (ok ==> n[..] == r.value)
  {
    var sp, index := p, 0;
    ghost var all := ParseFields(p, n.Length, ':', strtol);
    JoinedNothing(all);
    while index < n.Length
      invariant 0 <= index <= n.Length
      invariant if index < n.Length then Joined(n[..index], ParseFields(sp, n.Length - index, ':', strtol)) == all
                else all == Some(n[..])
    {
      var (val, ep) := strtol(sp);
      if ep == 0 || val < 0 || val > 0xff || (index < n.Length - 1 && !(ep < |sp| && sp[ep] == ':')) {
        return false;
      }
      if index == n.Length - 1 && ep != |sp| {
        return false;
      }
      if index < n.Length - 1 {
        JoinedOnce(n[..index], val, ParseFields(sp[ep + 1..], n.Length - 1 - index, ':', strtol));
        sp := sp[ep + 1..];
      }
      ghost var before := n[..index];
      n[index] := val;
      assert n[..index + 1] == before + [val] && (index == n.Length - 1 ==> n[..index + 1] == n[..]);
      index := index + 1;
    }
    ok := true;
  }

  // ---------------------------------------------------------------- endpoints

  /** `strrchr`: the last position of a character, or the length. */
  function LastIndex(s: string, c: char, k: nat): (i: nat)
    requires k <= |s|
    ensures i <= |s|
    decreases k
  {
    if k == 0 then |s| else if s[k - 1] == c then k - 1 else LastIndex(s, c, k - 1)
  }

  /** `ip_endpoint_to_string`. */
  function EndpointString(e: Endpoint): string {
    AddressString(e.address) + [':'] + Decimal(Ntoh16(Little, e.port))
  }

  /** `ip_string_to_endpoint`. The C code copies the address part into 16 bytes; a longer one
      is outside its contract and rejected here. */
  function ParseEndpoint(s: string): Option<Endpoint> {
    var sep := LastIndex(s, ':', |s|);
    if sep == |s| || sep > 15 then None
    else
      var a := ParseAddress(s[..sep]);
      var port := StrToL(s[sep + 1..], 10).0;
      if a.None? || port <= 0 || port > 0xffff then None
      else Some(Endpoint(a.value, Hton16(Little, port)))
  }

  lemma {:induction false} LastIndexAt(s: string, c: char, k: nat, i: nat)
    requires i < k <= |s| && s[i] == c && forall j :: i < j < k ==> s[j] != c
    ensures LastIndex(s, c, k) == i
    decreases k
  {
    if i == k - 1 {
    } else {
      LastIndexAt(s, c, k - 1, i);
    }
  }

  lemma {:induction false} AddressLength(b: seq<u8>)
    requires b != []
    ensures |PrintFields(b, '.', DECIMAL_PRINTER)| <= 4 * |b| - 1
    decreases |b|
  {
    DecimalLength(b[0], 1000, 3);
    if |b| == 1 {
    } else {
      AddressLength(b[1..]);
    }
  }

  lemma {:induction false} MacLength(b: seq<u8>)
    requires b != []
    ensures |PrintFields(b, ':', HEX_PRINTER)| == 3 * |b| - 1
    decreases |b|
  {
    if |b| == 1 {
    } else {
      MacLength(b[1..]);
    }
  }

  /** Parsing a printed endpoint gives it back exactly when the port is nonzero; port 0 is
      printed and then refused. */
  lemma EndpointRoundTrip(e: Endpoint)
    ensures ParseEndpoint(EndpointString(e)) == if e.port != 0 then Some(e) else None
  {
    var a, port := AddressString(e.address), Ntoh16(Little, e.port);
    var d, s := Decimal(port), EndpointString(e);
    assert |a| <= 15 by { AddressLength(Store32(e.address)); }
    SeparatorFound(a, d);
    AddressRoundTrip(e.address);
    DecimalReads(port, "");
    assert d + "" == d;
    NetworkOrder(Little, e.port);
  }

  lemma SeparatorFound(a: string, d: string)
    requires forall i :: 0 <= i < |d| ==> d[i] != ':'
    ensures var s := a + [':'] + d;
            LastIndex(s, ':', |s|) == |a| && s[..|a|] == a && s[|a| + 1..] == d
  {
    var s := a + [':'] + d;
    LastIndexAt(s, ':', |s|, |a|);
  }

  /** What `ip_string_to_endpoint` accepts: an address, the last colon, and a number from 1 to
      65535, which becomes the port in network order. */
  lemma EndpointAcceptedIff(a: string, d: string)
    requires forall i :: 0 <= i < |d| ==> d[i] != ':'
    ensures var port := StrToL(d, 10).0;
            ParseEndpoint(a + [':'] + d) ==
              if |a| <= 15 && ParseAddress(a).Some? && 1 <= port <= 65535 then
                Some(Endpoint(ParseAddress(a).value, Hton16(Little, port)))
              else None
  {
    SeparatorFound(a, d);
  }

  lemma {:induction false} NoIndex(s: string, c: char, k: nat)
    requires k <= |s| && forall i :: 0 <= i < k ==> s[i] != c
    ensures LastIndex(s, c, k) == |s|
    decreases k
  {
    if k == 0 {
    } else {
      NoIndex(s, c, k - 1);
    }
  }

  /** Without a colon nothing is accepted. */
  lemma EndpointNeedsColon(s: string)
    requires forall i :: 0 <= i < |s| ==> s[i] != ':'
    ensures ParseEndpoint(s) == None
  {
    NoIndex(s, ':', |s|);
  }

  /** Printed forms with their terminating NUL fit the declared sizes. */
  lemma PrintedFormsFit(a: u32, m: Mac, e: Endpoint)
    ensures |AddressString(a)| + 1 <= 16
    ensures |MacString(m)| + 1 == 18
    ensures |EndpointString(e)| + 1 <= 22
  {
    AddressLength(Store32(a));
    AddressLength(Store32(e.address));
    MacLength(m);
    DecimalLength(Ntoh16(Little, e.port), 100000, 5);
  }
}
