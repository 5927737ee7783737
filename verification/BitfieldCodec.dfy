/** Piece bitfields as wire bytes, most significant bit first (`peer/message.rs`). */
module BitfieldCodec {
  import opened Arith
  import opened Bytes
  import opened NodeId

  // ---- one number and its bits ----

  function Num(bits: seq<bool>): nat
  {
    if bits == [] then 0 else 2 * Num(bits[..|bits| - 1]) + if bits[|bits| - 1] then 1 else 0
  }

  function Bits(n: nat, width: nat): (r: seq<bool>)
    ensures |r| == width
  {
    if width == 0 then [] else Bits(n / 2, width - 1) + [n % 2 == 1]
  }

  lemma {:induction false} NumRange(bits: seq<bool>)
    ensures Num(bits) < Pow2(|bits|)
  {
    if bits != [] {
      NumRange(bits[..|bits| - 1]);
    }
  }

  lemma {:induction false} BitsOfNum(bits: seq<bool>)
    ensures Bits(Num(bits), |bits|) == bits
  {
    if bits != [] {
      BitsOfNum(bits[..|bits| - 1]);
    }
  }

  lemma {:induction false} NumOfBits(n: nat, width: nat)
    requires n < Pow2(width)
    ensures Num(Bits(n, width)) == n
  {
    if width > 0 {
      NumOfBits(n / 2, width - 1);
      var b := Bits(n, width);
      assert b[..|b| - 1] == Bits(n / 2, width - 1);
    }
  }

  function Zeros(n: nat): (r: seq<bool>)
    ensures |r| == n && forall i :: 0 <= i < n ==> !r[i]
  {
    seq(n, _ => false)
  }

  /** The low `e` bits are zero exactly when the number is a multiple of 2^e. */
  lemma {:induction false} LowBits(n: nat, width: nat, e: nat)
    requires e <= width
    ensures n % Pow2(e) == 0 <==> Bits(n, width)[width - e..] == Zeros(e)
    decreases e
  {
    if e > 0 {
      LowBits(n / 2, width - 1, e - 1);
      var b := Bits(n, width);
      HalfMultiple(n, Pow2(e - 1));
      assert b[width - e..] == Bits(n / 2, width - 1)[width - e..] + [n % 2 == 1];
      assert Zeros(e) == Zeros(e - 1) + [false];
      if b[width - e..] == Zeros(e) {
        assert b[width - e..][e - 1] == Zeros(e)[e - 1];
        assert b[width - e..][..e - 1] == Zeros(e)[..e - 1];
      }
    }
  }

  lemma HalfMultiple(n: nat, p: nat)
    requires p > 0
    ensures n % (2 * p) == 0 <==> n % 2 == 0 && (n / 2) % p == 0
  {
    var q, r := (n / 2) / p, (n / 2) % p;
    assert n / 2 == q * p + r;
    assert n == (2 * p) * q + (2 * r + n % 2) by {
      assert n == 2 * (n / 2) + n % 2;
    }
    DivModUnique(n, 2 * p, q, 2 * r + n % 2);
  }

  // ---- byte strings and their bits ----

  function AllBits(s: bytes): (r: seq<bool>)
    ensures |r| == 8 * |s|
  {
    if s == [] then [] else AllBits(s[..|s| - 1]) + Bits(s[|s| - 1], 8)
  }

  function Pack(bits: seq<bool>): (s: bytes)
    requires |bits| % 8 == 0
    ensures 8 * |s| == |bits|
  {
    if bits == [] then []
    else
      var n := |bits| - 8;
      ByteRange(bits[n..]);
      Pack(bits[..n]) + [Num(bits[n..])]
  }

  lemma ByteRange(bits: seq<bool>)
    requires |bits| == 8
    ensures Num(bits) < 256
  {
    NumRange(bits);
    Pow2Of8();
  }

  lemma Pow2Of8()
    ensures Pow2(8) == 256
  {
    assert Pow2(4) == 16;
  }

  lemma {:induction false} BitsOfPack(bits: seq<bool>)
    requires |bits| % 8 == 0
    ensures AllBits(Pack(bits)) == bits
  {
    if bits != [] {
      var n := |bits| - 8;
      BitsOfPack(bits[..n]);
      BitsOfNum(bits[n..]);
      var s := Pack(bits);
      assert s[..|s| - 1] == Pack(bits[..n]);
      assert bits == bits[..n] + bits[n..];
    }
  }

  lemma PackSnoc(front: seq<bool>, last: seq<bool>)
    requires |front| % 8 == 0 && |last| == 8
    ensures Num(last) < 256 && Pack(front + last) == Pack(front) + [Num(last)]
  {
    hide Num;
    var b := front + last;
    ByteRange(last);
    assert b[..|b| - 8] == front && b[|b| - 8..] == last;
  }

  lemma {:induction false} PackOfBits(s: bytes)
    ensures |AllBits(s)| % 8 == 0 && Pack(AllBits(s)) == s
  {
    hide Pack;
    hide Bits;
    hide Num;
    hide Pow2;
    if s == [] {
      PackNone();
    } else {
      var front, last := s[..|s| - 1], s[|s| - 1];
      PackOfBits(front);
      Pow2Of8();
      NumOfBits(last, 8);
      PackSnoc(AllBits(front), Bits(last, 8));
    }
  }

  lemma PackNone()
    ensures Pack([]) == []
  {
  }

  lemma {:induction false} BitAt(n: nat, width: nat, k: nat)
    requires k < width
    ensures Bits(n, width)[k] <==> n / Pow2(width - 1 - k) % 2 == 1
    decreases width
  {
    if k < width - 1 {
      BitAt(n / 2, width - 1, k);
      HalfDiv(n, Pow2(width - 2 - k));
    } else {
      assert Pow2(0) == 1;
    }
  }

  lemma HalfDiv(n: nat, p: nat)
    requires p > 0
    ensures n / 2 / p == n / (2 * p)
  {
    var q, r := n / 2 / p, n / 2 % p;
    assert n / 2 == p * q + r;
    assert n == (2 * p) * q + (2 * r + n % 2) by {
      assert n == 2 * (n / 2) + n % 2;
    }
    DivModUnique(n, 2 * p, q, 2 * r + n % 2);
  }

  /** Piece `i` is the bit worth 2^(7 - i % 8) of byte `i / 8`. */
  lemma {:induction false} BitPosition(s: bytes, i: nat)
    requires i < 8 * |s|
    ensures AllBits(s)[i] <==> s[i / 8] as nat / Pow2(7 - i % 8) % 2 == 1
  {
    var n := |s| - 1;
    if i < 8 * n {
      BitPosition(s[..n], i);
    } else {
      assert i / 8 == n && i % 8 == i - 8 * n;
      BitAt(s[n], 8, i - 8 * n);
    }
  }

  // ---- the codec ----

  function DivCeil8(n: nat): (r: nat)
    ensures 8 * r - 8 < n <= 8 * r
  {
    (n + 7) / 8
  }

  /** Padded with zeros to whole bytes. */
  function ToBytes(bf: seq<bool>): (s: bytes)
    ensures |s| == DivCeil8(|bf|)
  {
    Pack(bf + Zeros(8 * DivCeil8(|bf|) - |bf|))
  }

  predicate Malformed(s: bytes, n: nat)
  {
    |s| != DivCeil8(n) || (8 * |s| > n && s[|s| - 1] as int % Pow2(8 * |s| - n) != 0)
  }

  /** `bitfield_from_bytes`: the wrong length or a set spare bit is refused. */
  function FromBytes(s: bytes, n: nat): (r: Option<seq<bool>>)
  {
    if Malformed(s, n) then None else Some(AllBits(s)[..n])
  }

  /** Or-ing the mask of bit `k` into a byte. */
  function SetBit(b: byte, k: nat): byte
    requires k < 8
  {
    ByteRange(Bits(b, 8)[k := true]);
    Num(Bits(b, 8)[k := true])
  }

  lemma {:induction false} AllBitsAt(s: bytes, i: nat, b: byte)
    requires i < |s|
    ensures AllBits(s[i := b]) == AllBits(s)[..8 * i] + Bits(b, 8) + AllBits(s)[8 * i + 8..]
  {
    var t := s[i := b];
    var front := s[..|s| - 1];
    if i == |s| - 1 {
      assert t[..|s| - 1] == front;
    } else {
      assert t[..|s| - 1] == front[i := b];
      AllBitsAt(front, i, b);
    }
  }

  lemma SetBitEffect(s: bytes, i: nat)
    requires i < 8 * |s|
    ensures AllBits(s[i / 8 := SetBit(s[i / 8], i % 8)]) == AllBits(s)[i := true]
  {
    var j, k := i / 8, i % 8;
    var old' := Bits(s[j], 8);
    BitsOfNum(old'[k := true]);
    AllBitsAt(s, j, SetBit(s[j], k));
    AllBitsAt(s, j, s[j]);
    assert s[j := s[j]] == s;
    var all := AllBits(s);
    assert all == all[..8 * j] + old' + all[8 * j + 8..];
    assert i == 8 * j + k;
  }

  /** The setting loop. */
  method BitfieldToBytes(bf: seq<bool>) returns (s: bytes)
    ensures s == ToBytes(bf)
  {
    hide AllBits;
    hide Pack;
    hide SetBit;
    var size := DivCeil8(|bf|);
    s := seq(size, _ => 0);
    ZeroBytes(size);
    for i := 0 to |bf|
      invariant |s| == size
      invariant AllBits(s) == bf[..i] + Zeros(8 * size - i)
    {
      ghost var before := AllBits(s);
      if bf[i] {
        SetBitEffect(s, i);
        s := s[i / 8 := SetBit(s[i / 8], i % 8)];
      }
      SetNext(bf, i, before, 8 * size);
      assert AllBits(s) == before[i := bf[i]];
    }
    assert bf[..|bf|] == bf;
    PackOfBits(s);
  }

  lemma SetNext(bf: seq<bool>, i: nat, all: seq<bool>, size: nat)
    requires i < |bf| <= size && all == bf[..i] + Zeros(size - i)
    ensures all[i := bf[i]] == bf[..i + 1] + Zeros(size - (i + 1))
    ensures !bf[i] ==> all[i := bf[i]] == all
  {
  }

  lemma {:induction false} ZeroBytes(n: nat)
    ensures AllBits(seq(n, _ => 0)) == Zeros(8 * n)
  {
    if n > 0 {
      ZeroBytes(n - 1);
      var s: bytes := seq(n, _ => 0);
      assert s[..n - 1] == seq(n - 1, _ => 0);
      ZeroBits(8);
    }
  }

  lemma {:induction false} ZeroBits(width: nat)
    ensures Bits(0, width) == Zeros(width)
  {
    if width > 0 { ZeroBits(width - 1); }
  }

  // ---- mutual inverses ----

  lemma {:induction false} LastByteBits(s: bytes, e: nat)
    requires s != [] && e <= 8
    ensures AllBits(s)[8 * |s| - e..] == Bits(s[|s| - 1], 8)[8 - e..]
  {
  }

  /** Exactly the byte strings of the right length whose spare bits are zero are accepted. */
  lemma AcceptedIffSpareZero(s: bytes, n: nat)
    ensures FromBytes(s, n).Some? <==> |s| == DivCeil8(n) && AllBits(s)[n..] == Zeros(8 * |s| - n)
  {
    if |s| == DivCeil8(n) {
      var e := 8 * |s| - n;
      if e > 0 {
        LowBits(s[|s| - 1], 8, e);
        LastByteBits(s, e);
      }
    }
  }

  /** Sending then receiving gives the bitfield back. */
  lemma SendReceive(bf: seq<bool>)
    ensures FromBytes(ToBytes(bf), |bf|) == Some(bf)
  {
    var s, e := ToBytes(bf), 8 * DivCeil8(|bf|) - |bf|;
    BitsOfPack(bf + Zeros(e));
    assert AllBits(s)[|bf|..] == Zeros(e) && AllBits(s)[..|bf|] == bf;
    AcceptedIffSpareZero(s, |bf|);
  }

  /** Receiving then sending gives the bytes back. */
  lemma ReceiveSend(s: bytes, n: nat)
    ensures FromBytes(s, n).Some? ==> |FromBytes(s, n).value| == n && ToBytes(FromBytes(s, n).value) == s
  {
    hide AllBits;
    hide Pack;
    if FromBytes(s, n).Some? {
      AcceptedIffSpareZero(s, n);
      var e := 8 * |s| - n;
      hide Malformed;
      PackOfBits(s);
      assert AllBits(s) == AllBits(s)[..n] + Zeros(e);
    }
  }
}
