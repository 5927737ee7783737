/** Saving and restoring the routing table (`dht/persist.rs`). */
module Persist {
  import opened Arith
  import opened Bytes
  import opened NodeId
  import opened Net
  import opened Sorting
  import opened Routing
  import opened Compact

  const MAGIC: bytes := [82, 84, 68, 72]
  const VERSION: byte := 1
  const HEADER: nat := 29

  /** The file starts with four letters, a version byte, the id and a count. */
  lemma HeaderText()
    ensures MAGIC == Ascii("RTDH") && VERSION == 1 && HEADER == |Ascii("RTDH")| + 1 + ID_LEN + 4
  {
  }

  /** What `save` writes: every contact, nearest to our own id first, IPv6 ones skipped. */
  function SavedContacts(id: NodeId, t: Table): seq<Contact>
  {
    V4Only(Closest(t, id, Len(t)))
  }

  method Save(id: NodeId, t: Table) returns (out: bytes)
    requires Valid(t)
    ensures var cs := SavedContacts(id, t);
      |cs| < U32_LIMIT && out == MAGIC + [VERSION] + id + Be32(|cs|) + PackAll(cs)
  {
    SavedCount(id, t);
    var count := Len(t);
    var contacts := Closest(t, id, count);
    out := MAGIC;
    out := out + [VERSION];
    out := out + id;
    var payload, v4 := PackV4Loop(contacts);
    out := out + Be32(v4);
    out := out + payload;
  }

  /** `load`: anything that is not exactly the format is refused. */
  function Load(s: bytes, now: int): (r: Option<(NodeId, seq<Contact>)>)
  {
    if |s| < HEADER then None
    else if s[..4] != MAGIC || s[4] != VERSION then None
    else
      var n := ReadBe32(s[25..29]);
      if |s| != HEADER + COMPACT_LEN * n then None
      else
        Multiple(n);
        Some((s[5..25], UnpackAll(s[29..], now)))
  }

  lemma Multiple(n: nat)
    ensures (COMPACT_LEN * n) % COMPACT_LEN == 0
  {
    DivModUnique(COMPACT_LEN * n, COMPACT_LEN, n, 0);
  }

  /** The loop of `load`, chunk by chunk. */
  method LoadLoop(s: bytes, now: int) returns (r: Option<(NodeId, seq<Contact>)>)
    ensures r == Load(s, now)
  {
    if |s| < HEADER { return None; }
    if s[..4] != MAGIC || s[4] != VERSION { return None; }
    var n := ReadBe32(s[25..29]);
    if |s| != HEADER + COMPACT_LEN * n { return None; }
    Multiple(n);
    var body := s[29..];
    var contacts: seq<Contact> := [];
    for i := 0 to n
      invariant (COMPACT_LEN * i) % COMPACT_LEN == 0
      invariant contacts == UnpackAll(body[..COMPACT_LEN * i], now)
    {
      Multiple(i + 1);
      ghost var p := body[..COMPACT_LEN * (i + 1)];
      assert p[..COMPACT_LEN * i] == body[..COMPACT_LEN * i];
      var chunk := body[COMPACT_LEN * i..COMPACT_LEN * i + COMPACT_LEN];
      assert p[COMPACT_LEN * i..] == chunk;
      contacts := contacts + [Unpack(chunk, now)];
    }
    assert body[..COMPACT_LEN * n] == body;
    r := Some((s[5..25], contacts));
  }

  lemma {:induction false} FlattenSmall(t: Table, n: nat)
    requires Valid(t) && n <= ID_BITS
    ensures |Flatten(t.buckets[..n])| <= K * n
  {
    if n > 0 {
      assert t.buckets[..n][..n - 1] == t.buckets[..n - 1];
      FlattenSmall(t, n - 1);
      assert BucketOk(t.localId, t.buckets[n - 1], n - 1);
    }
  }

  lemma SavedCount(id: NodeId, t: Table)
    requires Valid(t)
    ensures |SavedContacts(id, t)| <= K * ID_BITS
  {
    assert t.buckets[..ID_BITS] == t.buckets;
    FlattenSmall(t, ID_BITS);
    ClosestIsTopK(t, id, Len(t));
  }

  /** Loading a saved table gives its id and its IPv4 contacts, seen now. */
  lemma LoadSaved(id: NodeId, t: Table, now: int, file: bytes)
    requires Valid(t)
    requires var cs := SavedContacts(id, t);
      |cs| < U32_LIMIT && file == MAGIC + [VERSION] + id + Be32(|cs|) + PackAll(cs)
    ensures Load(file, now) == Some((id, SeenAt(SavedContacts(id, t), now)))
  {
    var cs := V4Only(Closest(t, id, Len(t)));
    LoadFile(id, cs, now, file);
  }

  lemma LoadFile(id: NodeId, cs: seq<Contact>, now: int, file: bytes)
    requires |cs| < U32_LIMIT && forall c :: c in cs ==> c.addr.V4?
    requires file == MAGIC + [VERSION] + id + Be32(|cs|) + PackAll(cs)
    ensures Load(file, now) == Some((id, SeenAt(cs, now)))
  {
    hide PackAll;
    hide UnpackAll;
    UnpackPackAll(cs, now);
    ReadBe32OfBe32(|cs|);
    assert file[..4] == MAGIC && file[4] == VERSION;
    assert file[5..25] == id && file[25..29] == Be32(|cs|) && file[29..] == PackAll(cs);
  }

  function Header(id: NodeId, count: u32): (s: bytes)
    ensures |s| == HEADER
  {
    MAGIC + [VERSION] + id + Be32(count)
  }

  /** The file that saving these contacts writes. */
  ghost predicate IsFileOf(file: bytes, now: int, id: NodeId, cs: seq<Contact>)
  {
    && |cs| < U32_LIMIT
    && (forall c :: c in cs ==> c.addr.V4? && c.lastSeen == now)
    && file == Header(id, |cs|) + PackAll(cs)
  }

  /** A file is accepted exactly when it is what saving those contacts would write. */
  lemma LoadAccepts(file: bytes, now: int, id: NodeId, cs: seq<Contact>)
    ensures Load(file, now) == Some((id, cs)) <==> IsFileOf(file, now, id, cs)
  {
    hide Load;
    hide IsFileOf;
    if Load(file, now).Some? {
      AcceptedIsFile(file, now);
    }
    if IsFileOf(file, now, id, cs) {
      FileIsAccepted(file, now, id, cs);
    }
  }

  lemma AcceptedIsFile(file: bytes, now: int)
    requires Load(file, now).Some?
    ensures IsFileOf(file, now, Load(file, now).value.0, Load(file, now).value.1)
  {
    hide PackAll;
    hide UnpackAll;
    hide Be32;
    hide ReadBe32;
    var n := ReadBe32(file[25..29]);
    Multiple(n);
    var cs := UnpackAll(file[29..], now);
    PackUnpackAll(file[29..], now);
    Be32OfReadBe32(file[25..29]);
    assert |cs| == n;
    assert file == file[..4] + [file[4]] + file[5..25] + file[25..29] + file[29..];
  }

  lemma FileIsAccepted(file: bytes, now: int, id: NodeId, cs: seq<Contact>)
    requires IsFileOf(file, now, id, cs)
    ensures Load(file, now) == Some((id, cs))
  {
    hide Load;
    hide PackAll;
    LoadFile(id, cs, now, file);
    forall i | 0 <= i < |cs| ensures SeenAt(cs, now)[i] == cs[i] {
      assert cs[i] in cs;
    }
    assert SeenAt(cs, now) == cs;
  }

  // ---- re-inserting into a fresh table ----

  function InsertAll(t: Table, cs: seq<Contact>, now: int): (r: (Table, bool))
    requires |t.buckets| == ID_BITS
    ensures |r.0.buckets| == ID_BITS && r.0.localId == t.localId
  {
    if cs == [] then (t, true)
    else
      var (u, ok) := InsertAll(t, cs[..|cs| - 1], now);
      var (v, ok') := TableInsert(u, cs[|cs| - 1], now);
      (v, ok && ok')
  }

  /** The contacts of bucket `b`, in order. */
  function InBucket(local: NodeId, cs: seq<Contact>, b: nat): (r: seq<Contact>)
    ensures forall c :: c in r <==> c in cs && BucketIndex(local, c.id) == Some(b)
  {
    if cs == [] then []
    else
      var front, last := cs[..|cs| - 1], cs[|cs| - 1];
      assert cs == front + [last];
      InBucket(local, front, b) + (if BucketIndex(local, last.id) == Some(b) then [last] else [])
  }

  /** With distinct ids and no bucket overfull, everything is accepted, bucket by bucket in order. */
  lemma {:induction false} InsertAllFits(local: NodeId, cs: seq<Contact>, now: int)
    requires UniqueIds(cs) && forall c :: c in cs ==> c.id != local
    requires forall b :: 0 <= b < ID_BITS ==> |InBucket(local, cs, b)| <= K
    ensures var (t, ok) := InsertAll(EmptyTable(local), cs, now);
      ok && forall b :: 0 <= b < ID_BITS ==> t.buckets[b] == InBucket(local, cs, b)
  {
    hide BucketInsert;
    hide BucketIndex;
    if cs != [] {
      var front, c := cs[..|cs| - 1], cs[|cs| - 1];
      forall b | 0 <= b < ID_BITS ensures |InBucket(local, front, b)| <= K {
        assert |InBucket(local, cs, b)| <= K;
      }
      InsertAllFits(local, front, now);
      assert cs == front + [c];
      var t := InsertAll(EmptyTable(local), front, now).0;
      BucketIndexRange(local, c.id);
      var b := BucketIndex(local, c.id).value;
      assert |InBucket(local, cs, b)| == |InBucket(local, front, b)| + 1;
      FreshRoom(t.buckets[b], c, now, front);
    }
  }

  lemma FreshRoom(bucket: seq<Contact>, c: Contact, now: int, front: seq<Contact>)
    requires |bucket| < K && UniqueIds(front + [c]) && forall x :: x in bucket ==> x in front
    ensures BucketInsert(bucket, c, now) == (bucket + [c], true)
  {
    forall x | x in bucket ensures x.id != c.id {
      var i :| 0 <= i < |front| && front[i] == x;
      assert (front + [c])[i] == x && (front + [c])[|front|] == c;
    }
  }

  ghost function IdsOf(cs: seq<Contact>): set<NodeId>
  {
    set c | c in cs :: c.id
  }

  lemma {:induction false} IdCount(cs: seq<Contact>)
    ensures |IdsOf(cs)| <= |cs|
    ensures UniqueIds(cs) ==> |IdsOf(cs)| == |cs|
  {
    if cs != [] {
      var front, last := cs[..|cs| - 1], cs[|cs| - 1];
      IdCount(front);
      IdsSnoc(cs);
      if UniqueIds(cs) {
        forall x | x in front ensures x.id != last.id {
          var i :| 0 <= i < |front| && front[i] == x;
          assert cs[i] == x;
        }
      }
    }
  }

  lemma IdsSnoc(cs: seq<Contact>)
    requires cs != []
    ensures IdsOf(cs) == IdsOf(cs[..|cs| - 1]) + {cs[|cs| - 1].id}
  {
    assert cs == cs[..|cs| - 1] + [cs[|cs| - 1]];
  }

  // ---- the restart round trip ----

  /** A selection of the front, extended by the last contact, repeats no id. */
  lemma UniqueSnoc(cs: seq<Contact>, r: seq<Contact>)
    requires UniqueIds(cs) && cs != [] && UniqueIds(r) && forall x :: x in r ==> x in cs[..|cs| - 1]
    ensures UniqueIds(r + [cs[|cs| - 1]])
  {
    var last := cs[|cs| - 1];
    forall x | x in r ensures x.id != last.id {
      var i :| 0 <= i < |cs| - 1 && cs[..|cs| - 1][i] == x;
      assert cs[i] == x;
    }
    UniqueConcat(r, [last]);
  }

  lemma {:induction false} V4Unique(cs: seq<Contact>)
    requires UniqueIds(cs)
    ensures UniqueIds(V4Only(cs))
  {
    if cs != [] {
      V4Unique(cs[..|cs| - 1]);
      UniqueSnoc(cs, V4Only(cs[..|cs| - 1]));
    }
  }

  /** The reloaded contacts: exactly the IPv4 ones of the table, each id once. */
  lemma ReloadedContacts(t: Table, now: int)
    requires Valid(t)
    ensures var cs := SeenAt(SavedContacts(t.localId, t), now);
      && UniqueIds(cs)
      && (forall c :: c in cs ==> c.addr.V4? && c.id != t.localId)
      && (forall id, addr :: HasAt(cs, id, addr) <==> addr.V4? && TableHasAt(t, id, addr))
  {
    hide Sort;
    hide BucketOf;
    var id := t.localId;
    var saved := SavedContacts(id, t);
    SavedIsV4(t);
    var cs := SeenAt(saved, now);
    forall c | c in cs ensures c.addr.V4? && c.id != id {
      var i :| 0 <= i < |cs| && cs[i] == c;
      assert saved[i] in saved;
      HomeBucket(t, saved[i]);
      BucketIndexRange(id, c.id);
    }
    forall x, addr ensures HasAt(cs, x, addr) <==> addr.V4? && TableHasAt(t, x, addr) {
      SeenHasAt(saved, now, x, addr);
      if HasAt(saved, x, addr) {
        var c :| c in saved && c.id == x && c.addr == addr;
        assert InTable(t, c);
      }
      if addr.V4? && TableHasAt(t, x, addr) {
        var c :| InTable(t, c) && c.id == x && c.addr == addr;
        assert c in saved;
      }
    }
  }

  lemma SavedIsV4(t: Table)
    requires Valid(t)
    ensures var cs := SavedContacts(t.localId, t);
      UniqueIds(cs) && forall c :: c in cs <==> InTable(t, c) && c.addr.V4?
  {
    var key := ByDist(t.localId);
    var s := Sort(Flatten(t.buckets), key);
    SortedTable(t, t.localId);
    forall i, j | 0 <= i < j < |s| ensures s[i].id != s[j].id {
      assert key(s[i]) < key(s[j]);
    }
    assert Closest(t, t.localId, Len(t)) == s;
    V4Unique(s);
  }

  predicate HasAt(cs: seq<Contact>, id: NodeId, addr: Addr)
  {
    exists c :: c in cs && c.id == id && c.addr == addr
  }

  /** The table maps `id` to `addr`. */
  ghost predicate TableHasAt(t: Table, id: NodeId, addr: Addr)
  {
    exists c :: InTable(t, c) && c.id == id && c.addr == addr
  }

  lemma SeenHasAt(cs: seq<Contact>, now: int, id: NodeId, addr: Addr)
    ensures HasAt(SeenAt(cs, now), id, addr) <==> HasAt(cs, id, addr)
    ensures UniqueIds(cs) ==> UniqueIds(SeenAt(cs, now))
  {
    var r := SeenAt(cs, now);
    if HasAt(r, id, addr) {
      var i :| 0 <= i < |r| && r[i].id == id && r[i].addr == addr;
      assert cs[i] in cs;
    }
    if HasAt(cs, id, addr) {
      var i :| 0 <= i < |cs| && cs[i].id == id && cs[i].addr == addr;
      assert r[i] in r;
    }
  }

  lemma {:induction false} InBucketUnique(local: NodeId, cs: seq<Contact>, b: nat)
    requires UniqueIds(cs)
    ensures UniqueIds(InBucket(local, cs, b))
  {
    hide BucketIndex;
    if cs != [] {
      InBucketUnique(local, cs[..|cs| - 1], b);
      UniqueSnoc(cs, InBucket(local, cs[..|cs| - 1], b));
    }
  }

  /** A selection of a valid table's ids never overfills a bucket. */
  lemma ReloadFits(t: Table, cs: seq<Contact>, b: nat)
    requires Valid(t) && UniqueIds(cs) && b < ID_BITS
    requires forall c :: c in cs ==> TableHasAt(t, c.id, c.addr)
    ensures |InBucket(t.localId, cs, b)| <= K
  {
    var r, bucket := InBucket(t.localId, cs, b), t.buckets[b];
    InBucketUnique(t.localId, cs, b);
    IdCount(r);
    IdCount(bucket);
    assert BucketOk(t.localId, bucket, b);
    forall id | id in IdsOf(r) ensures id in IdsOf(bucket) {
      var c :| c in r && c.id == id;
      var x :| InTable(t, x) && x.id == id && x.addr == c.addr;
      HomeBucket(t, x);
    }
    SubsetSize(IdsOf(r), IdsOf(bucket));
  }

  /** The rebuilt table maps an id to an address exactly when the old one did and the address is IPv4. */
  ghost predicate SameV4Map(t: Table, u: Table)
  {
    forall id, addr :: TableHasAt(u, id, addr) <==> addr.V4? && TableHasAt(t, id, addr)
  }

  lemma Rebuilt(t: Table, cs: seq<Contact>, now: int)
    requires Valid(t) && UniqueIds(cs)
    requires forall c :: c in cs ==> c.addr.V4? && c.id != t.localId
    requires forall id, addr :: HasAt(cs, id, addr) <==> addr.V4? && TableHasAt(t, id, addr)
    ensures var (u, ok) := InsertAll(EmptyTable(t.localId), cs, now); ok && SameV4Map(t, u)
  {
    hide BucketIndex;
    forall c | c in cs ensures TableHasAt(t, c.id, c.addr) {
      assert HasAt(cs, c.id, c.addr);
    }
    forall b | 0 <= b < ID_BITS ensures |InBucket(t.localId, cs, b)| <= K {
      ReloadFits(t, cs, b);
    }
    InsertAllFits(t.localId, cs, now);
    var u := InsertAll(EmptyTable(t.localId), cs, now).0;
    forall c ensures InTable(u, c) <==> c in cs {
      if c in cs {
        BucketIndexRange(t.localId, c.id);
        var b := BucketIndex(t.localId, c.id).value;
        assert c in u.buckets[b];
      }
    }
    forall id, addr ensures TableHasAt(u, id, addr) <==> HasAt(cs, id, addr) {
    }
  }

  /** Save, load and re-insert after any history of inserts: every insert is accepted and the
      rebuilt table holds the same ids at the same addresses, IPv6 ones left behind. */
  lemma RestartRoundTrip(localId: NodeId, ops: seq<Op>, seen: int, now: int, file: bytes)
    ensures
      var t := Run(EmptyTable(localId), ops);
      var cs := SavedContacts(localId, t);
      |cs| < U32_LIMIT && (file == MAGIC + [VERSION] + localId + Be32(|cs|) + PackAll(cs) ==>
        && Load(file, seen) == Some((localId, SeenAt(cs, seen)))
        && InsertAll(EmptyTable(localId), SeenAt(cs, seen), now).1
        && SameV4Map(t, InsertAll(EmptyTable(localId), SeenAt(cs, seen), now).0))
  {
    hide Load;
    hide InsertAll;
    hide SavedContacts;
    RunValid(localId, ops);
    var t := Run(EmptyTable(localId), ops);
    SavedCount(localId, t);
    var cs := SavedContacts(localId, t);
    SavedIsV4(t);
    if file == MAGIC + [VERSION] + localId + Be32(|cs|) + PackAll(cs) {
      LoadSaved(localId, t, seen, file);
      ReloadedContacts(t, seen);
      Rebuilt(t, SeenAt(cs, seen), now);
    }
  }

  /** A shutdown and the next start: write the file, read it, insert every warm contact. */
  method Restart(old': Table, seen: int, now: int) returns (table: RoutingTable, accepted: bool)
    requires Valid(old')
    ensures fresh(table) && table.Ok() && table.localId == old'.localId
    ensures accepted && SameV4Map(old', table.View())
  {
    assert InsertAll(EmptyTable(old'.localId), [], now) == (EmptyTable(old'.localId), true);
    hide InsertAll;
    hide SavedContacts;
    var file := Save(old'.localId, old');
    LoadSaved(old'.localId, old', seen, file);
    ReloadedContacts(old', seen);
    var loaded := LoadLoop(file, seen);
    var (id, contacts) := loaded.value;
    table := new RoutingTable(id);
    accepted := true;
    assert contacts[..0] == [];
    for i := 0 to |contacts|
      invariant table.Ok() && table.localId == id && fresh(table)
      invariant (table.View(), accepted) == InsertAll(EmptyTable(id), contacts[..i], now)
    {
      InsertNext(id, contacts, i, now);
      var ok := table.Insert(contacts[i], now);
      accepted := accepted && ok;
    }
    assert contacts[..|contacts|] == contacts;
    Rebuilt(old', contacts, now);
  }

  lemma InsertNext(local: NodeId, cs: seq<Contact>, i: nat, now: int)
    requires i < |cs|
    ensures
      var (t, ok) := InsertAll(EmptyTable(local), cs[..i], now);
      var (u, ok') := TableInsert(t, cs[i], now);
      InsertAll(EmptyTable(local), cs[..i + 1], now) == (u, ok && ok')
  {
    assert cs[..i + 1][..i] == cs[..i];
  }
}
