/** Info-hashes and percent escapes in magnet links (`magnet.rs`; base32 as in section 6 of RFC 4648). */
module Magnet {
  import opened Arith
  import opened Bytes
  import opened NodeId

  // ---- digits ----

  function Base32Digit(c: byte): Option<nat>
  {
    if 65 <= c <= 90 then Some(c - 65)
    else if 97 <= c <= 122 then Some(c - 97)
    else if 50 <= c <= 55 then Some(26 + (c - 50))
    else None
  }

  /** `hex_nibble`. */
  function HexDigit(c: byte): Option<nat>
  {
    if 48 <= c <= 57 then Some(c - 48)
    else if 97 <= c <= 102 then Some(10 + c - 97)
    else if 65 <= c <= 70 then Some(10 + c - 65)
    else None
  }

  /** The letters in the order of their values. */
  ghost predicate Spells(alphabet: string, c: byte, d: nat)
  {
    d < |alphabet| && Ascii(alphabet)[d] == c
  }

  const BASE32: string := "ABCDEFGHIJKLMNOPQRSTUVWXYZ234567"
  const BASE32_LOWER: string := "abcdefghijklmnopqrstuvwxyz234567"
  const HEX: string := "0123456789ABCDEF"
  const HEX_LOWER: string := "0123456789abcdef"

  /** A character has a value exactly when it stands at that place of the alphabet, in either case. */
  lemma Alphabets(c: byte, d: nat)
    ensures Base32Digit(c) == Some(d) <==> Spells(BASE32, c, d) || Spells(BASE32_LOWER, c, d)
    ensures HexDigit(c) == Some(d) <==> Spells(HEX, c, d) || Spells(HEX_LOWER, c, d)
  {
    hide Ascii;
    if d < 32 {
      UpperAt(d);
      LowerAt(d);
    }
    if d < 16 { HexAt(d); }
  }

  lemma UpperAt(d: nat)
    requires d < 32
    ensures Ascii(BASE32)[d] == if d < 26 then 65 + d else 24 + d
  {
  }

  lemma LowerAt(d: nat)
    requires d < 32
    ensures Ascii(BASE32_LOWER)[d] == if d < 26 then 97 + d else 24 + d
  {
  }

  lemma HexAt(d: nat)
    requires d < 16
    ensures Ascii(HEX)[d] == if d < 10 then 48 + d else 55 + d
    ensures Ascii(HEX_LOWER)[d] == if d < 10 then 48 + d else 87 + d
  {
  }

  lemma DigitRanges(c: byte)
    ensures Base32Digit(c).Some? ==> Base32Digit(c).value < 32
    ensures HexDigit(c).Some? ==> HexDigit(c).value < 16
  {
  }

  predicate AllBase32(s: bytes) { forall i :: 0 <= i < |s| ==> Base32Digit(s[i]).Some? }

  predicate AllHex(s: bytes) { forall i :: 0 <= i < |s| ==> HexDigit(s[i]).Some? }

  /** The number a digit string denotes. */
  function Value32(s: bytes): nat
    requires AllBase32(s)
  {
    if s == [] then 0 else 32 * Value32(s[..|s| - 1]) + Base32Digit(s[|s| - 1]).value
  }

  function Value16(s: bytes): nat
    requires AllHex(s)
  {
    if s == [] then 0 else 16 * Value16(s[..|s| - 1]) + HexDigit(s[|s| - 1]).value
  }

  // ---- the shifting accumulator ----

  /** Taking one more digit: the accumulator keeps the low 32 bits, and the bytes written so far are the
      value without the bits still pending. */
  lemma DigitStep(value: nat, d: nat, bits: nat, written: nat)
    requires d < 32 && bits < 8 && Pow2(bits) > 0 && Pow2(bits + 5) > 0 && written == value / Pow2(bits)
    ensures (32 * value + d) / Pow2(bits + 5) == written
    ensures ((value % U32_LIMIT) * 32 % U32_LIMIT) + d == (32 * value + d) % U32_LIMIT
  {
    var p := Pow2(bits);
    var q, r := value / p, value % p;
    Pow2Five(bits);
    assert value == p * q + r;
    assert 32 * value + d == (32 * p) * q + (32 * r + d) by {
      assert 32 * (p * q) == (32 * p) * q;
    }
    assert 32 * r + d < 32 * p;
    DivModUnique(32 * value + d, 32 * p, q, 32 * r + d);
    ShiftLowBits(value, d);
  }

  lemma Pow2Five(bits: nat)
    ensures Pow2(bits + 5) == 32 * Pow2(bits)
  {
    assert Pow2(bits + 2) == 4 * Pow2(bits);
    assert Pow2(bits + 4) == 4 * Pow2(bits + 2);
  }

  /** `(buf << 5) | d` on 32 bits. */
  lemma ShiftLowBits(value: nat, d: nat)
    requires d < 32
    ensures ((value % U32_LIMIT) * 32 % U32_LIMIT) + d == (32 * value + d) % U32_LIMIT
  {
    var high, low := value / 0x800_0000, value % 0x800_0000;
    assert value == 0x800_0000 * high + low;
    assert 32 * value + d == U32_LIMIT * high + (32 * low + d);
    DivModUnique(32 * value + d, U32_LIMIT, high, 32 * low + d);
    var h, l := value / U32_LIMIT, value % U32_LIMIT;
    assert value == U32_LIMIT * h + l;
    assert l * 32 == U32_LIMIT * (high - 32 * h) + 32 * low;
    assert 0 <= high - 32 * h;
    DivModUnique(l * 32, U32_LIMIT, high - 32 * h, 32 * low);
  }

  /** Splitting off one more byte. */
  lemma SplitByte(value: nat, p: nat)
    requires p > 0
    ensures value / p == 256 * (value / (256 * p)) + value / p % 256
  {
    var q, r := value / p, value % p;
    var a, b := q / 256, q % 256;
    SplitTerms(value, p, q, r, a, b);
    DivModUnique(value, 256 * p, a, p * b + r);
  }

  lemma SplitTerms(value: nat, p: nat, q: nat, r: nat, a: nat, b: nat)
    requires r < p && b < 256 && value == p * q + r && q == 256 * a + b
    ensures value == a * (256 * p) + (p * b + r) && p * b + r < 256 * p
  {
    assert p * (256 * a + b) == p * (256 * a) + p * b;
    assert p * (256 * a) == a * (256 * p);
    Grows(p, b, 255);
  }

  lemma Grows(p: nat, b: nat, c: nat)
    requires b <= c
    ensures p * b <= p * c
  {
    assert p * c == p * b + p * (c - b);
  }

  /** A byte cut out of the low bits of a value is the same byte of the whole value. */
  lemma CutLow(value: nat, p: nat, m: nat, limit: nat)
    requires p > 0 && m > 0 && limit == 256 * p * m
    ensures limit > 0 && (value % limit) / p % 256 == value / p % 256
  {
    MulPositive(p, m);
    var h, l := value / limit, value % limit;
    var x, y := l / p, l % p;
    var k := m * h;
    assert value == limit * h + l && l == p * x + y;
    Regroup(p, m, h);
    Recombine(value, p, k, x, y);
    DivModUnique(256 * k + x, 256, k + x / 256, x % 256);
  }

  lemma Recombine(value: nat, p: nat, k: nat, x: nat, y: nat)
    requires p > 0 && y < p && value == 256 * k * p + p * x + y
    ensures value / p == 256 * k + x
  {
    assert (256 * k + x) * p == 256 * k * p + x * p;
    DivModUnique(value, p, 256 * k + x, y);
  }

  lemma MulPositive(p: nat, m: nat)
    requires p > 0 && m > 0
    ensures 256 * p * m > 0
  {
  }

  lemma Regroup(p: nat, m: nat, h: nat)
    ensures 256 * p * m * h == 256 * (m * h) * p
  {
    assert p * m * h == m * h * p;
  }

  lemma ByteCut(value: nat, bits: nat)
    requires bits < 8
    ensures (value % U32_LIMIT) / Pow2(bits) % 256 == value / Pow2(bits) % 256
    ensures value / Pow2(bits) == 256 * (value / Pow2(bits + 8)) + value / Pow2(bits) % 256
  {
    hide Pow2;
    PowByte(bits);
    SplitByte(value, Pow2(bits));
    Pow2Of32(bits);
    CutLow(value, Pow2(bits), Pow2(24 - bits), U32_LIMIT);
  }

  lemma Pow2Of32(bits: nat)
    requires bits < 8
    ensures U32_LIMIT == 256 * Pow2(bits) * Pow2(24 - bits)
  {
    PowAdd(bits, 24 - bits);
    assert Pow2(8) == 256 && Pow2(16) == 0x1_0000 by {
      assert Pow2(4) == 16 && Pow2(12) == 0x1000;
    }
    PowAdd(8, 16);
  }

  /** `parse_base32_20`: fails exactly on a character outside the alphabet; otherwise writes exactly 20
      bytes, whose big-endian value is the value of the digits. */
  method ParseBase32(s: bytes) returns (r: Option<bytes>)
    requires |s| == 32
    ensures r.Some? <==> AllBase32(s)
    ensures r.Some? ==> |r.value| == 20 && FromBigEndian(r.value) == Value32(s)
  {
    hide Pow2;
    hide Value32;
    hide FromBigEndian;
    var out := new byte[20];
    var bitBuf: u32, bits: nat, outIdx: nat := 0, 0, 0;
    assert out[..0] == [] && s[..0] == [];
    NoDigits();
    for i := 0 to 32
      invariant AllBase32(s[..i]) && bits < 8 && 8 * outIdx + bits == 5 * i
      invariant bitBuf == Value32(s[..i]) % U32_LIMIT
      invariant FromBigEndian(out[..outIdx]) == Value32(s[..i]) / Pow2(bits)
    {
      var digit := Base32Digit(s[i]);
      if digit.None? { return None; }
      ghost var value := Value32(s[..i]);
      DigitRanges(s[i]);
      NextDigit(s, i);
      DigitStep(value, digit.value, bits, value / Pow2(bits));
      bitBuf := (bitBuf * 32 % U32_LIMIT) + digit.value;
      bits := bits + 5;
      if bits >= 8 {
        bits := bits - 8;
        ByteCut(32 * value + digit.value, bits);
        var cut := bitBuf / Pow2(bits) % 256;
        NextByte(out[..outIdx], cut);
        ghost var before := out[..outIdx];
        out[outIdx] := cut;
        outIdx := outIdx + 1;
        assert out[..outIdx] == before + [cut];
      }
    }
    assert s[..32] == s && out[..20] == out[..];
    r := Some(out[..]);
  }

  lemma NoDigits()
    ensures Pow2(0) == 1 && Value32([]) == 0 && FromBigEndian([]) == 0
  {
  }

  lemma NextDigit(s: bytes, i: nat)
    requires i < |s| && AllBase32(s[..i]) && Base32Digit(s[i]).Some?
    ensures AllBase32(s[..i + 1]) && Value32(s[..i + 1]) == 32 * Value32(s[..i]) + Base32Digit(s[i]).value
  {
    assert s[..i + 1][..i] == s[..i];
  }

  lemma NextByte(s: bytes, b: byte)
    ensures FromBigEndian(s + [b]) == 256 * FromBigEndian(s) + b
  {
    assert (s + [b])[..|s|] == s;
  }

  /** `parse_hex_20`. */
  method ParseHex(s: bytes) returns (r: Option<bytes>)
    requires |s| == 40
    ensures r.Some? <==> AllHex(s)
    ensures r.Some? ==> |r.value| == 20 && FromBigEndian(r.value) == Value16(s)
  {
    var out := new byte[20];
    assert out[..0] == [];
    for i := 0 to 20
      invariant AllHex(s[..2 * i])
      invariant FromBigEndian(out[..i]) == Value16(s[..2 * i])
    {
      var hi := HexDigit(s[2 * i]);
      if hi.None? { return None; }
      var lo := HexDigit(s[2 * i + 1]);
      if lo.None? { return None; }
      DigitRanges(s[2 * i]);
      DigitRanges(s[2 * i + 1]);
      ghost var before := out[..i];
      out[i] := 16 * hi.value + lo.value;
      assert out[..i + 1][..i] == before;
      HexPair(s, i);
    }
    assert s[..40] == s && out[..20] == out[..];
    r := Some(out[..]);
  }

  lemma HexPair(s: bytes, i: nat)
    requires 2 * i + 1 < |s| && AllHex(s[..2 * i])
    requires HexDigit(s[2 * i]).Some? && HexDigit(s[2 * i + 1]).Some?
    ensures AllHex(s[..2 * i + 2])
    ensures Value16(s[..2 * i + 2]) ==
            256 * Value16(s[..2 * i]) + 16 * HexDigit(s[2 * i]).value + HexDigit(s[2 * i + 1]).value
  {
    assert s[..2 * i + 2][..2 * i + 1] == s[..2 * i + 1];
    assert s[..2 * i + 1][..2 * i] == s[..2 * i];
  }

  /** `parse_info_hash`: 40 hex digits or 32 base32 digits, read as the same 160-bit number. */
  method ParseInfoHash(s: bytes) returns (r: Option<bytes>)
    ensures r.Some? <==> (|s| == 40 && AllHex(s)) || (|s| == 32 && AllBase32(s))
    ensures r.Some? ==> |r.value| == 20 && FromBigEndian(r.value) == if |s| == 40 then Value16(s) else Value32(s)
  {
    if |s| == 40 {
      r := ParseHex(s);
    } else if |s| == 32 {
      r := ParseBase32(s);
    } else {
      r := None;
    }
  }

  // ---- what the value determines ----

  predicate SameDigits(a: bytes, b: bytes)
    requires |a| == |b|
  {
    forall i :: 0 <= i < |a| ==> Base32Digit(a[i]) == Base32Digit(b[i])
  }

  /** Two base32 strings name the same hash exactly when they agree digit by digit, whatever the case. */
  lemma {:induction false} SameHashSameDigits(a: bytes, b: bytes)
    requires |a| == |b| && AllBase32(a) && AllBase32(b)
    ensures Value32(a) == Value32(b) <==> SameDigits(a, b)
  {
    if a != [] {
      var n := |a| - 1;
      hide Base32Digit;
      DigitRanges(a[n]);
      DigitRanges(b[n]);
      SameHashSameDigits(a[..n], b[..n]);
      assert SameDigits(a, b) <==> SameDigits(a[..n], b[..n]) && Base32Digit(a[n]) == Base32Digit(b[n]);
    }
  }

  // ---- percent escapes ----

  /** `percent_decode`; a `+` stays a `+`. */
  function PercentDecode(s: bytes): Option<bytes>
  {
    if s == [] then Some([])
    else if s[0] == 37 then
      if |s| < 3 then None
      else
        var hi, lo, rest := HexDigit(s[1]), HexDigit(s[2]), PercentDecode(s[3..]);
        if hi.None? || lo.None? || rest.None? then None
        else
          DigitRanges(s[1]);
          DigitRanges(s[2]);
          Some([16 * hi.value + lo.value] + rest.value)
    else
      var rest := PercentDecode(s[1..]);
      if rest.None? then None else Some([s[0]] + rest.value)
  }

  function Prepend(out: bytes, r: Option<bytes>): Option<bytes>
  {
    if r.None? then None else Some(out + r.value)
  }

  method PercentDecodeLoop(s: bytes) returns (r: Option<bytes>)
    ensures r == PercentDecode(s)
  {
    var out: bytes := [];
    var i := 0;
    assert s[0..] == s;
    assert PercentDecode(s).Some? ==> [] + PercentDecode(s).value == PercentDecode(s).value;
    while i < |s|
      invariant i <= |s| && PercentDecode(s) == Prepend(out, PercentDecode(s[i..]))
    {
      PercentStep(s, i, out);
      if s[i] == 37 {
        if i + 2 >= |s| { return None; }
        var hi := HexDigit(s[i + 1]);
        if hi.None? { return None; }
        var lo := HexDigit(s[i + 2]);
        if lo.None? { return None; }
        DigitRanges(s[i + 1]);
        DigitRanges(s[i + 2]);
        out := out + [16 * hi.value + lo.value];
        i := i + 3;
      } else {
        out := out + [s[i]];
        i := i + 1;
      }
    }
    assert s[i..] == [] && out + [] == out;
    r := Some(out);
  }

  lemma PrependTwice(out: bytes, b: byte, r: Option<bytes>)
    ensures Prepend(out, Prepend([b], r)) == Prepend(out + [b], r)
  {
    if r.Some? { assert out + ([b] + r.value) == out + [b] + r.value; }
  }

  lemma PercentStep(s: bytes, i: nat, out: bytes)
    requires i < |s|
    ensures s[i] != 37 ==> Prepend(out, PercentDecode(s[i..])) == Prepend(out + [s[i]], PercentDecode(s[i + 1..]))
    ensures s[i] == 37 ==>
        if i + 2 < |s| && HexDigit(s[i + 1]).Some? && HexDigit(s[i + 2]).Some? then
          && 16 * HexDigit(s[i + 1]).value + HexDigit(s[i + 2]).value < 256
          && Prepend(out, PercentDecode(s[i..])) ==
             Prepend(out + [16 * HexDigit(s[i + 1]).value + HexDigit(s[i + 2]).value], PercentDecode(s[i + 3..]))
        else PercentDecode(s[i..]) == None
  {
    var t := s[i..];
    assert t[1..] == s[i + 1..];
    if s[i] != 37 {
      PrependTwice(out, s[i], PercentDecode(s[i + 1..]));
    } else if i + 2 < |s| && HexDigit(s[i + 1]).Some? && HexDigit(s[i + 2]).Some? {
      DigitRanges(s[i + 1]);
      DigitRanges(s[i + 2]);
      assert t[3..] == s[i + 3..];
      PrependTwice(out, 16 * HexDigit(s[i + 1]).value + HexDigit(s[i + 2]).value, PercentDecode(s[i + 3..]));
    }
  }

  /** One byte of a link: written as it is, or escaped with digits in either case. */
  datatype Unit = Plain(b: byte) | Escaped(hi: byte, lo: byte)

  predicate Proper(u: Unit)
  {
    match u
    case Plain(b) => b != 37
    case Escaped(hi, lo) => HexDigit(hi).Some? && HexDigit(lo).Some?
  }

  function Written(us: seq<Unit>): bytes
  {
    if us == [] then []
    else (match us[0] case Plain(b) => [b] case Escaped(hi, lo) => [37, hi, lo]) + Written(us[1..])
  }

  function Meant(u: Unit): byte
    requires Proper(u)
  {
    match u
    case Plain(b) => b
    case Escaped(hi, lo) =>
      DigitRanges(hi);
      DigitRanges(lo);
      16 * HexDigit(hi).value + HexDigit(lo).value
  }

  predicate AllProper(us: seq<Unit>) { forall i :: 0 <= i < |us| ==> Proper(us[i]) }

  function AllMeant(us: seq<Unit>): bytes
    requires AllProper(us)
  {
    if us == [] then [] else [Meant(us[0])] + AllMeant(us[1..])
  }

  /** However each byte was written, decoding gives the bytes meant. */
  lemma {:induction false} PercentRoundTrip(us: seq<Unit>)
    ensures AllProper(us) ==> PercentDecode(Written(us)) == Some(AllMeant(us))
  {
    if us != [] && AllProper(us) {
      PercentRoundTrip(us[1..]);
      var s := Written(us);
      assert Proper(us[0]);
      if us[0].Plain? {
        assert s[1..] == Written(us[1..]);
      } else {
        assert s[3..] == Written(us[1..]);
      }
    }
  }
}
