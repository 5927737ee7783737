/** Bytes, byte strings, and the orders and big-endian readings the wire formats use. */
module Bytes {

  type byte = x: int | 0 <= x < 256
  type bytes = seq<byte>

  datatype Option<+T> = None | Some(value: T)

  const U32_LIMIT: int := 0x1_0000_0000
  const USIZE_LIMIT: int := 0x1_0000_0000_0000_0000
  const I64_LIMIT: int := 0x8000_0000_0000_0000

  type u16 = x: int | 0 <= x < 0x1_0000
  type u32 = x: int | 0 <= x < 0x1_0000_0000
  type i64 = x: int | -0x8000_0000_0000_0000 <= x < 0x8000_0000_0000_0000

  /** The bytes of a text of plain characters. */
  function Ascii(s: string): (r: bytes)
    ensures |r| == |s| && forall i :: 0 <= i < |s| && s[i] as int < 128 ==> r[i] == s[i] as int
  {
    seq(|s|, i requires 0 <= i < |s| => if s[i] as int < 128 then s[i] as int else 63)
  }

  /** The offset of the first `b` in `s`, or `|s|` when there is none. */
  function IndexOf(s: bytes, b: byte): (k: nat)
    ensures k <= |s|
    ensures k < |s| ==> s[k] == b
    ensures b !in s[..k]
  {
    if s == [] then 0
    else if s[0] == b then 0
    else
      var k := IndexOf(s[1..], b);
      assert s[..k + 1] == [s[0]] + s[1..][..k];
      k + 1
  }

  lemma {:induction false} IndexOfPrefix(c: bytes, b: byte, tail: bytes)
    requires b !in c
    ensures IndexOf(c + [b] + tail, b) == |c|
  {
    var s := c + [b] + tail;
    if c == [] {
      assert s[0] == b;
    } else {
      assert s[1..] == c[1..] + [b] + tail;
      IndexOfPrefix(c[1..], b, tail);
    }
  }

  /** Lexicographic order on byte strings, the order of a `BTreeMap<Vec<u8>, _>`. */
  predicate Less(a: bytes, b: bytes)
  {
    if b == [] then false
    else if a == [] then true
    else if a[0] != b[0] then a[0] < b[0]
    else Less(a[1..], b[1..])
  }

  lemma {:induction false} LessTransitive(a: bytes, b: bytes, c: bytes)
    requires Less(a, b) && Less(b, c)
    ensures Less(a, c)
  {
    if a != [] && a[0] == b[0] && b[0] == c[0] {
      LessTransitive(a[1..], b[1..], c[1..]);
    }
  }

  lemma {:induction false} LessIrreflexive(a: bytes)
    ensures !Less(a, a)
  {
    if a != [] { LessIrreflexive(a[1..]); }
  }

  lemma {:induction false} LessTotal(a: bytes, b: bytes)
    ensures a == b || Less(a, b) || Less(b, a)
  {
    if a != [] && b != [] && a[0] == b[0] {
      LessTotal(a[1..], b[1..]);
      assert a == [a[0]] + a[1..] && b == [b[0]] + b[1..];
    }
  }

  /** The number a big-endian byte string denotes. */
  function FromBigEndian(s: bytes): (n: nat)
  {
    if s == [] then 0 else 256 * FromBigEndian(s[..|s| - 1]) + s[|s| - 1]
  }

  function Be16(n: u16): (s: bytes)
    ensures |s| == 2
  {
    [n / 256, n % 256]
  }

  function ReadBe16(s: bytes): (n: u16)
    requires |s| == 2
  {
    s[0] as int * 256 + s[1] as int
  }

  function Be32(n: u32): (s: bytes)
    ensures |s| == 4
  {
    Be16(n / 0x1_0000) + Be16(n % 0x1_0000)
  }

  function ReadBe32(s: bytes): (n: u32)
    requires |s| == 4
  {
    ReadBe16(s[..2]) as int * 0x1_0000 + ReadBe16(s[2..]) as int
  }

  /** The writers are big-endian. */
  lemma Be16Value(n: u16)
    ensures FromBigEndian(Be16(n)) == n
  {
    var s := Be16(n);
    assert s[..1][..0] == [];
    assert FromBigEndian(s[..1]) == 256 * FromBigEndian(s[..1][..0]) + s[..1][0];
    assert FromBigEndian(s) == 256 * FromBigEndian(s[..1]) + s[1];
  }

  lemma Be32Value(n: u32)
    ensures FromBigEndian(Be32(n)) == n
  {
    var s := Be32(n);
    var hi, lo := n / 0x1_0000, n % 0x1_0000;
    Be16Value(hi);
    assert s[..3][..2] == Be16(hi) && s[..3] == Be16(hi) + [lo / 256];
    assert FromBigEndian(s[..3]) == 256 * FromBigEndian(s[..3][..2]) + lo / 256;
    assert s[3] == lo % 256;
  }

  /** Reading back a written integer gives it back. */
  lemma ReadBe16OfBe16(n: u16)
    ensures ReadBe16(Be16(n)) == n
  {
  }

  /** Writing back a read integer gives the same bytes. */
  lemma Be16OfReadBe16(s: bytes)
    requires |s| == 2
    ensures Be16(ReadBe16(s)) == s
  {
    var n := s[0] as int * 256 + s[1] as int;
    assert n / 256 == s[0] && n % 256 == s[1];
    assert s == [s[0], s[1]];
  }

  lemma ReadBe32OfBe32(n: u32)
    ensures ReadBe32(Be32(n)) == n
  {
    assert Be32(n)[..2] == Be16(n / 0x1_0000) && Be32(n)[2..] == Be16(n % 0x1_0000);
  }

  lemma Be32OfReadBe32(s: bytes)
    requires |s| == 4
    ensures Be32(ReadBe32(s)) == s
  {
    var hi, lo := ReadBe16(s[..2]) as int, ReadBe16(s[2..]) as int;
    var n := hi * 0x1_0000 + lo;
    assert n / 0x1_0000 == hi && n % 0x1_0000 == lo;
    Be16OfReadBe16(s[..2]);
    Be16OfReadBe16(s[2..]);
    assert s == s[..2] + s[2..];
  }
}
