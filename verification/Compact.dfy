/** The 26-byte compact contact: id, IPv4 address, big-endian port (BEP 5). */
module Compact {
  import opened Bytes
  import opened NodeId
  import opened Net

  const COMPACT_LEN: nat := 26

  function Pack(c: Contact): (s: bytes)
    requires c.addr.V4?
    ensures |s| == COMPACT_LEN
  {
    c.id + c.addr.ip + Be16(c.addr.port)
  }

  function Unpack(s: bytes, now: int): (c: Contact)
    requires |s| == COMPACT_LEN
    ensures c.addr.V4? && c.lastSeen == now
  {
    Contact(s[..20], V4(s[20..24], ReadBe16(s[24..])), now)
  }

  lemma UnpackPack(c: Contact, now: int)
    requires c.addr.V4?
    ensures Unpack(Pack(c), now) == c.(lastSeen := now)
  {
    var s := Pack(c);
    assert s[..20] == c.id && s[20..24] == c.addr.ip && s[24..] == Be16(c.addr.port);
    ReadBe16OfBe16(c.addr.port);
  }

  /** Contacts with an IPv6 address are skipped. */
  function V4Only(cs: seq<Contact>): (r: seq<Contact>)
    ensures forall c :: c in r <==> c in cs && c.addr.V4?
    ensures |r| <= |cs|
  {
    if cs == [] then []
    else
      var front, last := cs[..|cs| - 1], cs[|cs| - 1];
      assert cs == front + [last];
      if last.addr.V4? then V4Only(front) + [last] else V4Only(front)
  }

  function PackAll(cs: seq<Contact>): (s: bytes)
    requires forall c :: c in cs ==> c.addr.V4?
    ensures |s| == COMPACT_LEN * |cs|
  {
    if cs == [] then [] else PackAll(cs[..|cs| - 1]) + Pack(cs[|cs| - 1])
  }

  function UnpackAll(s: bytes, now: int): (cs: seq<Contact>)
    requires |s| % COMPACT_LEN == 0
    ensures COMPACT_LEN * |cs| == |s|
    decreases |s|
  {
    if s == [] then []
    else
      var n := |s| - COMPACT_LEN;
      UnpackAll(s[..n], now) + [Unpack(s[n..], now)]
  }

  function SeenAt(cs: seq<Contact>, now: int): (r: seq<Contact>)
    ensures |r| == |cs| && forall i :: 0 <= i < |cs| ==> r[i] == cs[i].(lastSeen := now)
  {
    if cs == [] then [] else SeenAt(cs[..|cs| - 1], now) + [cs[|cs| - 1].(lastSeen := now)]
  }

  /** Unpacking what was packed gives the contacts back, seen now. */
  lemma {:induction false} UnpackPackAll(cs: seq<Contact>, now: int)
    requires forall c :: c in cs ==> c.addr.V4?
    ensures |PackAll(cs)| % COMPACT_LEN == 0
    ensures UnpackAll(PackAll(cs), now) == SeenAt(cs, now)
  {
    if cs != [] {
      var front, last := cs[..|cs| - 1], cs[|cs| - 1];
      UnpackPackAll(front, now);
      UnpackPack(last, now);
      var s := PackAll(cs);
      assert s[..|s| - COMPACT_LEN] == PackAll(front) && s[|s| - COMPACT_LEN..] == Pack(last);
    }
  }

  /** Packing what was unpacked gives the bytes back. */
  lemma {:induction false} PackUnpackAll(s: bytes, now: int)
    requires |s| % COMPACT_LEN == 0
    ensures forall c :: c in UnpackAll(s, now) ==> c.addr.V4? && c.lastSeen == now
    ensures PackAll(UnpackAll(s, now)) == s
    decreases |s|
  {
    if s != [] {
      var n := |s| - COMPACT_LEN;
      PackUnpackAll(s[..n], now);
      var front, c := UnpackAll(s[..n], now), Unpack(s[n..], now);
      PackSnoc(front, c);
      Be16OfReadBe16(s[n..][24..]);
      assert s == s[..n] + s[n..][..20] + s[n..][20..24] + s[n..][24..];
    }
  }

  lemma PackSnoc(cs: seq<Contact>, c: Contact)
    requires c.addr.V4? && forall x :: x in cs ==> x.addr.V4?
    ensures PackAll(cs + [c]) == PackAll(cs) + c.id + c.addr.ip + Be16(c.addr.port)
  {
    assert (cs + [c])[..|cs|] == cs;
    assert PackAll(cs) + Pack(c) == PackAll(cs) + c.id + c.addr.ip + Be16(c.addr.port);
  }

  lemma V4Snoc(cs: seq<Contact>, i: nat)
    requires i < |cs|
    ensures V4Only(cs[..i + 1]) == if cs[i].addr.V4? then V4Only(cs[..i]) + [cs[i]] else V4Only(cs[..i])
  {
    assert cs[..i + 1][..i] == cs[..i];
  }

  /** The appending loop of `nodes_to_bytes` and `save`. */
  method PackV4Loop(cs: seq<Contact>) returns (out: bytes, count: nat)
    ensures out == PackAll(V4Only(cs)) && count == |V4Only(cs)|
  {
    hide V4Only;
    assert cs[..|cs|] == cs;
    assert cs[..0] == [] && |V4Only([])| == 0;
    out, count := [], 0;
    for i := 0 to |cs|
      invariant out == PackAll(V4Only(cs[..i])) && count == |V4Only(cs[..i])|
    {
      var c := cs[i];
      V4Snoc(cs, i);
      if c.addr.V4? {
        PackSnoc(V4Only(cs[..i]), c);
        out := out + c.id;
        out := out + c.addr.ip;
        out := out + Be16(c.addr.port);
        count := count + 1;
      }
    }
  }
}
