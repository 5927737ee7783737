/** 160-bit node identifiers, the XOR metric and bucket indices (`dht/node_id.rs`). */
module NodeId {
  import opened Arith
  import opened Bytes

  const ID_LEN: nat := 20
  const ID_BITS: nat := 160

  type NodeId = s: bytes | |s| == 20 witness seq(20, _ => 0)

  // ---- exclusive or on numbers ----

  function Xor(a: nat, b: nat): nat
    decreases a + b
  {
    if a == 0 && b == 0 then 0
    else 2 * Xor(a / 2, b / 2) + (if a % 2 == b % 2 then 0 else 1)
  }

  function Pow2(n: nat): (p: nat)
    ensures p > 0
  {
    if n == 0 then 1 else 2 * Pow2(n - 1)
  }

  lemma XorUnfold(a: nat, b: nat)
    ensures Xor(a, b) == 2 * Xor(a / 2, b / 2) + (if a % 2 == b % 2 then 0 else 1)
  {
  }

  lemma {:induction false} XorZeroIff(a: nat, b: nat)
    ensures Xor(a, b) == 0 <==> a == b
    decreases a + b
  {
    if a != 0 || b != 0 { XorZeroIff(a / 2, b / 2); }
  }

  lemma {:induction false} XorCommutes(a: nat, b: nat)
    ensures Xor(a, b) == Xor(b, a)
    decreases a + b
  {
    if a != 0 || b != 0 { XorCommutes(a / 2, b / 2); }
  }

  lemma {:induction false} XorAssociates(a: nat, b: nat, c: nat)
    ensures Xor(Xor(a, b), c) == Xor(a, Xor(b, c))
    decreases a + b + c
  {
    if a != 0 || b != 0 || c != 0 {
      var ab, bc := Xor(a, b), Xor(b, c);
      XorUnfold(a, b);
      XorUnfold(b, c);
      assert ab / 2 == Xor(a / 2, b / 2) && bc / 2 == Xor(b / 2, c / 2);
      XorAssociates(a / 2, b / 2, c / 2);
      XorUnfold(ab, c);
      XorUnfold(a, bc);
    }
  }

  lemma {:induction false} XorAtMostSum(a: nat, b: nat)
    ensures Xor(a, b) <= a + b
    decreases a + b
  {
    if a != 0 || b != 0 { XorAtMostSum(a / 2, b / 2); }
  }

  lemma {:induction false} XorBound(a: nat, b: nat, n: nat)
    requires a < Pow2(n) && b < Pow2(n)
    ensures Xor(a, b) < Pow2(n)
    decreases n
  {
    if n > 0 { XorBound(a / 2, b / 2, n - 1); }
  }

  lemma XorSplitStep(am: nat, bm: nat, p: nat, q: nat, t: nat)
    requires Xor(am + p / 2, bm + q / 2) == t + Xor(p / 2, q / 2)
    ensures Xor(2 * am + p, 2 * bm + q) == 2 * t + Xor(p, q)
  {
    var x, y := 2 * am + p, 2 * bm + q;
    assert x / 2 == am + p / 2 && x % 2 == p % 2;
    assert y / 2 == bm + q / 2 && y % 2 == q % 2;
    XorUnfold(x, y);
    XorUnfold(p, q);
  }

  lemma MulDouble(a: nat, m: nat)
    ensures a * (2 * m) == 2 * (a * m)
  {
  }

  /** High parts and low parts are combined independently. */
  lemma {:induction false} XorSplit(a: nat, b: nat, p: nat, q: nat, n: nat)
    requires p < Pow2(n) && q < Pow2(n)
    ensures Xor(a * Pow2(n) + p, b * Pow2(n) + q) == Xor(a, b) * Pow2(n) + Xor(p, q)
    decreases n
  {
    hide Xor;
    if n == 0 {
      XorZeroIff(0, 0);
    } else {
      var m := Pow2(n - 1);
      XorSplit(a, b, p / 2, q / 2, n - 1);
      XorSplitStep(a * m, b * m, p, q, Xor(a, b) * m);
      MulDouble(a, m);
      MulDouble(b, m);
      MulDouble(Xor(a, b), m);
    }
  }

  /** `u8 ^ u8`. */
  function XorByte(a: byte, b: byte): (r: byte)
  {
    XorByteBound(a, b);
    Xor(a, b)
  }

  lemma XorByteBound(a: byte, b: byte)
    ensures Xor(a, b) < 256
  {
    assert Pow2(8) == 256;
    XorBound(a, b, 8);
  }

  // ---- distance ----

  function Xors(a: bytes, b: bytes): (r: bytes)
    requires |a| == |b|
    ensures |r| == |a|
    ensures forall i :: 0 <= i < |a| ==> r[i] == XorByte(a[i], b[i])
  {
    if a == [] then [] else Xors(a[..|a| - 1], b[..|b| - 1]) + [XorByte(a[|a| - 1], b[|b| - 1])]
  }

  /** The distance loop fills an array slot by slot. */
  method DistanceLoop(a: NodeId, b: NodeId) returns (out: NodeId)
    ensures out == Xors(a, b)
  {
    var slots := new byte[20](_ => 0);
    for i := 0 to 20
      invariant forall j :: 0 <= j < i ==> slots[j] == XorByte(a[j], b[j])
    {
      slots[i] := XorByte(a[i], b[i]);
    }
    assert slots[..] == Xors(a, b);
    out := slots[..];
  }

  /** The distance as the unsigned integer it stands for. */
  function Dist(a: NodeId, b: NodeId): nat
  {
    FromBigEndian(Xors(a, b))
  }

  lemma {:induction false} XorsValue(a: bytes, b: bytes)
    requires |a| == |b|
    ensures FromBigEndian(Xors(a, b)) == Xor(FromBigEndian(a), FromBigEndian(b))
  {
    if a != [] {
      var a', b' := a[..|a| - 1], b[..|b| - 1];
      var r := Xors(a, b);
      assert r[..|r| - 1] == Xors(a', b');
      XorsValue(a', b');
      assert Pow2(8) == 256;
      XorSplit(FromBigEndian(a'), FromBigEndian(b'), a[|a| - 1], b[|b| - 1], 8);
    }
  }

  lemma {:induction false} BigEndianBound(s: bytes)
    ensures FromBigEndian(s) < Pow2(8 * |s|)
  {
    if s != [] {
      BigEndianBound(s[..|s| - 1]);
      var n := 8 * (|s| - 1);
      PowByte(n);
    }
  }

  /** Byte strings of one length are told apart by the numbers they denote. */
  lemma {:induction false} BigEndianInjective(a: bytes, b: bytes)
    requires |a| == |b|
    ensures FromBigEndian(a) == FromBigEndian(b) <==> a == b
  {
    if a != [] {
      BigEndianInjective(a[..|a| - 1], b[..|b| - 1]);
      assert a == a[..|a| - 1] + [a[|a| - 1]] && b == b[..|b| - 1] + [b[|b| - 1]];
    }
  }

  /** The array comparison the sorts use is the numeric comparison of distances. */
  lemma {:induction false} LessIsNumeric(a: bytes, b: bytes)
    requires |a| == |b|
    ensures Less(a, b) <==> FromBigEndian(a) < FromBigEndian(b)
  {
    if a != [] {
      HeadSplit(a);
      HeadSplit(b);
      LessIsNumeric(a[1..], b[1..]);
      BigEndianBound(a[1..]);
      BigEndianBound(b[1..]);
      CompareHeads(a[0], b[0], FromBigEndian(a[1..]), FromBigEndian(b[1..]), Pow2(8 * (|a| - 1)));
    }
  }

  /** Comparing two-digit numbers: the high digits decide unless they are equal. */
  lemma CompareHeads(x: nat, y: nat, u: nat, v: nat, m: nat)
    requires u < m && v < m
    ensures x < y ==> x * m + u < y * m + v
    ensures y < x ==> y * m + v < x * m + u
  {
    if x < y {
      MulAtLeast(y - x, m);
      assert y * m == x * m + (y - x) * m;
    } else if y < x {
      MulAtLeast(x - y, m);
      assert x * m == y * m + (x - y) * m;
    }
  }

  lemma {:induction false} HeadSplit(s: bytes)
    requires s != []
    ensures FromBigEndian(s) == s[0] as int * Pow2(8 * (|s| - 1)) + FromBigEndian(s[1..])
  {
    if |s| == 1 {
      assert s[..0] == [] && s[1..] == [];
    } else {
      var front := s[..|s| - 1];
      HeadSplit(front);
      assert front[1..] == s[1..][..|s| - 2];
      var n := 8 * (|s| - 2);
      PowByte(n);
      assert 256 * (s[0] as int * Pow2(n)) == s[0] as int * Pow2(n + 8);
    }
  }

  /** A metric in which, from any target, no two ids are equally far. */
  lemma XorMetric(a: NodeId, b: NodeId, c: NodeId)
    ensures Dist(a, b) == 0 <==> a == b
    ensures Dist(a, b) == Dist(b, a)
    ensures Dist(a, c) <= Dist(a, b) + Dist(b, c)
    ensures Dist(a, c) == Dist(b, c) ==> a == b
    ensures Dist(a, b) < Pow2(ID_BITS)
  {
    var x, y, z := FromBigEndian(a), FromBigEndian(b), FromBigEndian(c);
    XorsValue(a, b);
    XorsValue(b, a);
    XorsValue(a, c);
    XorsValue(b, c);
    XorZeroIff(x, y);
    XorCommutes(x, y);
    XorCommutes(y, z);
    if x == y { BigEndianInjective(a, b); }
    XorChain(x, y, z);
    XorAtMostSum(Xor(x, y), Xor(y, z));
    BigEndianBound(Xors(a, b));
  }

  lemma XorChain(x: nat, y: nat, z: nat)
    ensures Xor(Xor(x, y), Xor(y, z)) == Xor(x, z)
    ensures Xor(x, z) == Xor(y, z) ==> x == y
  {
    XorAssociates(x, y, Xor(y, z));
    XorAssociates(y, y, z);
    XorZeroIff(y, y);
    XorZeroLeft(z);
    XorCommutes(y, z);
    XorZeroIff(Xor(x, z), Xor(y, z));
    XorAssociates(x, z, Xor(z, y));
    XorAssociates(z, z, y);
    XorZeroIff(z, z);
    XorZeroLeft(y);
    XorZeroIff(x, y);
  }

  lemma {:induction false} XorZeroLeft(z: nat)
    ensures Xor(0, z) == z
  {
    if z != 0 { XorZeroLeft(z / 2); }
  }

  // ---- bucket index ----

  /** `u8::leading_zeros`. */
  function LeadingZeros(b: byte): (n: nat)
    ensures n <= 8
    ensures b > 0 ==> n < 8 && Pow2(7 - n) <= b < Pow2(8 - n)
  {
    assert Pow2(8) == 256 && Pow2(7) == 128 && Pow2(6) == 64 && Pow2(5) == 32;
    assert Pow2(4) == 16 && Pow2(3) == 8 && Pow2(2) == 4 && Pow2(1) == 2;
    if b >= 128 then 0 else if b >= 64 then 1 else if b >= 32 then 2 else if b >= 16 then 3
    else if b >= 8 then 4 else if b >= 4 then 5 else if b >= 2 then 6 else if b >= 1 then 7 else 8
  }

  /**
   * `bucket_index`: none for the same id; otherwise the one bit position `b` with
   * 2^b <= distance < 2^(b+1).
   */
  method BucketIndexLoop(a: NodeId, b: NodeId) returns (r: Option<nat>)
    ensures r.None? <==> a == b
    ensures r.Some? ==> r.value < ID_BITS && Pow2(r.value) <= Dist(a, b) < Pow2(r.value + 1)
    ensures r == BucketIndex(a, b)
  {
    hide Pow2;
    hide Xors;
    hide FromBigEndian;
    hide LeadingZeros;
    hide BucketOf;
    var d := DistanceLoop(a, b);
    XorMetric(a, b, b);
    for i := 0 to 20
      invariant forall j :: 0 <= j < i ==> d[j] == 0
    {
      if d[i] != 0 {
        var lz := LeadingZeros(d[i]);
        var bitPosition := i * 8 + lz;
        HighBit(d, i);
        BucketUnique(a, b, 159 - bitPosition);
        return Some(159 - bitPosition);
      }
    }
    AllZero(d);
    r := None;
  }

  lemma {:induction false} AllZero(s: bytes)
    requires forall j :: 0 <= j < |s| ==> s[j] == 0
    ensures FromBigEndian(s) == 0
  {
    if s != [] { AllZero(s[..|s| - 1]); }
  }

  /** The highest set bit of a string whose first non-zero byte is at `i`. */
  lemma {:induction false} HighBit(s: bytes, i: nat)
    requires i < |s| && s[i] != 0 && forall j :: 0 <= j < i ==> s[j] == 0
    ensures var b := 8 * (|s| - i) - 1 - LeadingZeros(s[i]);
      0 <= b && Pow2(b) <= FromBigEndian(s) < Pow2(b + 1)
  {
    HeadSplit(s);
    if i == 0 {
      BigEndianBound(s[1..]);
      var lz, m := LeadingZeros(s[0]), 8 * (|s| - 1);
      PowAdd(7 - lz, m);
      PowAdd(8 - lz, m);
      Scale(Pow2(7 - lz), s[0], Pow2(8 - lz), FromBigEndian(s[1..]), Pow2(m));
    } else {
      assert s[1..][i - 1] == s[i];
      HighBit(s[1..], i - 1);
      assert s[0] as int * Pow2(8 * (|s| - 1)) == 0;
    }
  }

  lemma Scale(lo: nat, x: nat, hi: nat, u: nat, m: nat)
    requires lo <= x < hi && u < m
    ensures lo * m <= x * m + u < hi * m
  {
    MulAtLeast(hi - x, m);
    assert hi * m == x * m + (hi - x) * m;
    assert x * m == lo * m + (x - lo) * m;
  }

  lemma PowByte(n: nat)
    ensures Pow2(n + 8) == 256 * Pow2(n)
  {
    assert Pow2(8) == 256;
    PowAdd(8, n);
  }

  lemma {:induction false} PowAdd(a: nat, b: nat)
    ensures Pow2(a + b) == Pow2(a) * Pow2(b)
  {
    if a > 0 {
      PowAdd(a - 1, b);
      assert Pow2(a) * Pow2(b) == 2 * (Pow2(a - 1) * Pow2(b));
    }
  }

  lemma {:induction false} PowMonotone(a: nat, b: nat)
    requires a <= b
    ensures Pow2(a) <= Pow2(b)
    decreases b - a
  {
    if a < b { PowMonotone(a + 1, b); }
  }

  /** The bucket a contact belongs to, by the size of its distance. */
  function BucketOf(d: nat, n: nat): (r: Option<nat>)
    ensures r.Some? ==> r.value < n && Pow2(r.value) <= d < Pow2(r.value + 1)
    ensures r.None? && d < Pow2(n) ==> d == 0
  {
    if n == 0 then None
    else if Pow2(n - 1) <= d < Pow2(n) then Some(n - 1)
    else BucketOf(d, n - 1)
  }

  function BucketIndex(a: NodeId, b: NodeId): (r: Option<nat>)
  {
    BucketOf(Dist(a, b), ID_BITS)
  }

  lemma BucketUnique(a: NodeId, b: NodeId, i: nat)
    requires i < ID_BITS && Pow2(i) <= Dist(a, b) < Pow2(i + 1)
    ensures BucketIndex(a, b) == Some(i)
  {
    XorMetric(a, b, b);
    var r := BucketIndex(a, b);
    if r.value < i { PowMonotone(r.value + 1, i); }
    if i < r.value { PowMonotone(i + 1, r.value); }
  }
}
