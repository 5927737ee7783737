/** The k-bucket routing table (`dht/routing.rs`). */
module Routing {
  import opened Bytes
  import opened NodeId
  import opened Net
  import opened Sorting

  const K: nat := 8
  const GOOD_NODE_TTL: int := 15 * 60 * 1_000_000_000

  predicate IsGood(c: Contact, now: int)
  {
    now - c.lastSeen < GOOD_NODE_TTL
  }

  // ---- one bucket ----

  /** `Iterator::position`: the first index satisfying `p`. */
  function Position(cs: seq<Contact>, p: Contact -> bool): (r: Option<nat>)
    ensures r.Some? ==> r.value < |cs| && p(cs[r.value]) && forall j :: 0 <= j < r.value ==> !p(cs[j])
    ensures r.None? ==> forall j :: 0 <= j < |cs| ==> !p(cs[j])
  {
    if cs == [] then None
    else if p(cs[0]) then Some(0)
    else
      var r := Position(cs[1..], p);
      if r.None? then None else Some(r.value + 1)
  }

  function Without<T>(s: seq<T>, i: nat): seq<T>
    requires i < |s|
  {
    s[..i] + s[i + 1..]
  }

  /** `KBucket::insert`, with the time at which staleness is judged. */
  function BucketInsert(cs: seq<Contact>, c: Contact, now: int): (r: (seq<Contact>, bool))
  {
    var pos := Position(cs, (x: Contact) => x.id == c.id);
    if pos.Some? then (Without(cs, pos.value) + [cs[pos.value].(lastSeen := c.lastSeen, addr := c.addr)], true)
    else if |cs| < K then (cs + [c], true)
    else
      var stale := Position(cs, (x: Contact) => !IsGood(x, now));
      if stale.Some? then (Without(cs, stale.value) + [c], true) else (cs, false)
  }

  ghost predicate UniqueIds(cs: seq<Contact>)
  {
    forall i, j :: 0 <= i < j < |cs| ==> cs[i].id != cs[j].id
  }

  predicate Has(cs: seq<Contact>, id: NodeId)
  {
    exists c :: c in cs && c.id == id
  }

  /** The four cases of the insertion policy, by what they do to the contents. */
  lemma BucketInsertCases(cs: seq<Contact>, c: Contact, now: int)
    requires UniqueIds(cs) && |cs| <= K
    ensures var (r, ok) := BucketInsert(cs, c, now);
      && UniqueIds(r) && |r| <= K
      && (forall x :: x in r ==> x == c || x in cs)
      && (ok ==> c in r)
      && (!ok ==> r == cs && |cs| == K && !Has(cs, c.id) && forall x :: x in cs ==> now - x.lastSeen < GOOD_NODE_TTL)
      && (forall x :: x in cs && x.id != c.id && now - x.lastSeen < GOOD_NODE_TTL ==> x in r)
      && (Has(cs, c.id) || |cs| < K ==> forall x :: x in cs && x.id != c.id ==> x in r)
  {
    var pos := Position(cs, (x: Contact) => x.id == c.id);
    var stale := Position(cs, (x: Contact) => !IsGood(x, now));
    if pos.Some? {
      ReplaceAt(cs, pos.value, c);
    } else if |cs| >= K && stale.Some? {
      ReplaceAt(cs, stale.value, c);
    }
  }

  lemma ReplaceAt(cs: seq<Contact>, i: nat, c: Contact)
    requires UniqueIds(cs) && i < |cs| && forall j :: 0 <= j < |cs| && j != i ==> cs[j].id != c.id
    ensures var r := Without(cs, i) + [c];
      && |r| == |cs| && UniqueIds(r) && c in r
      && (forall x :: x in r ==> x == c || x in cs)
      && (forall x :: x in cs && x != cs[i] ==> x in r)
  {
    var r := Without(cs, i) + [c];
    assert r[|r| - 1] == c;
    forall x | x in cs && x != cs[i] ensures x in r {
      var j :| 0 <= j < |cs| && cs[j] == x;
      assert r[if j < i then j else j - 1] == x;
    }
  }

  /** Least recently seen first. */
  ghost predicate BySeen(cs: seq<Contact>)
  {
    forall i, j :: 0 <= i <= j < |cs| ==> cs[i].lastSeen <= cs[j].lastSeen
  }

  /** While contacts arrive in the order they were seen, a bucket stays in that order, and a full one gives
      up its least recently seen contact and no other, exactly when that one is stale. */
  lemma BucketEvictsOldest(cs: seq<Contact>, c: Contact, now: int)
    requires BySeen(cs) && forall x :: x in cs ==> x.lastSeen <= c.lastSeen
    ensures BySeen(BucketInsert(cs, c, now).0)
    ensures |cs| >= K && !Has(cs, c.id) ==>
              BucketInsert(cs, c, now) == if now - cs[0].lastSeen < GOOD_NODE_TTL then (cs, false) else (cs[1..] + [c], true)
  {
    var pos := Position(cs, (x: Contact) => x.id == c.id);
    var stale := Position(cs, (x: Contact) => !IsGood(x, now));
    if pos.Some? {
      assert cs[pos.value] in cs;
      MovedToEnd(cs, pos.value, c);
    } else if |cs| >= K && stale.Some? {
      assert cs[0].lastSeen <= cs[stale.value].lastSeen;
      assert stale.value == 0;
      assert Without(cs, 0) == cs[1..];
      MovedToEnd(cs, 0, c);
    }
  }

  lemma MovedToEnd(cs: seq<Contact>, i: nat, c: Contact)
    requires BySeen(cs) && i < |cs| && forall x :: x in cs ==> x.lastSeen <= c.lastSeen
    ensures BySeen(Without(cs, i) + [c])
  {
    forall j | 0 <= j < |cs| ensures cs[j].lastSeen <= c.lastSeen {
      assert cs[j] in cs;
    }
  }

  // ---- the table ----

  datatype Table = Table(localId: NodeId, buckets: seq<seq<Contact>>)

  function EmptyTable(localId: NodeId): Table
  {
    Table(localId, seq(ID_BITS, _ => []))
  }

  function TableInsert(t: Table, c: Contact, now: int): (r: (Table, bool))
    requires |t.buckets| == ID_BITS
    ensures |r.0.buckets| == ID_BITS && r.0.localId == t.localId
  {
    var b := BucketIndex(t.localId, c.id);
    if c.id == t.localId || b.None? then (t, false)
    else
      var (cs, ok) := BucketInsert(t.buckets[b.value], c, now);
      (t.(buckets := t.buckets[b.value := cs]), ok)
  }

  ghost predicate BucketOk(localId: NodeId, cs: seq<Contact>, b: nat)
  {
    && |cs| <= K
    && UniqueIds(cs)
    && forall c :: c in cs ==> Pow2(b) <= Dist(localId, c.id) < Pow2(b + 1)
  }

  /** Every contact sits in the bucket of its distance, buckets are small, ids are unique. */
  ghost predicate Valid(t: Table)
  {
    |t.buckets| == ID_BITS && forall b :: 0 <= b < ID_BITS ==> BucketOk(t.localId, t.buckets[b], b)
  }

  lemma BucketIndexRange(a: NodeId, id: NodeId)
    ensures BucketIndex(a, id).None? <==> a == id
    ensures var b := BucketIndex(a, id);
      b.Some? ==> b.value < ID_BITS && Pow2(b.value) <= Dist(a, id) < Pow2(b.value + 1)
  {
    XorMetric(a, id, id);
  }

  lemma InsertKeepsValid(t: Table, c: Contact, now: int)
    requires Valid(t)
    ensures Valid(TableInsert(t, c, now).0)
  {
    hide BucketInsert;
    hide BucketOf;
    hide Xors;
    var b := BucketIndex(t.localId, c.id);
    BucketIndexRange(t.localId, c.id);
    if b.Some? {
      BucketInsertCases(t.buckets[b.value], c, now);
    }
  }

  /** No two contacts of the table, in whichever buckets, share an id. */
  lemma GloballyUnique(t: Table, b: nat, i: nat, b': nat, i': nat)
    requires Valid(t)
    requires b < ID_BITS && i < |t.buckets[b]| && b' < ID_BITS && i' < |t.buckets[b']|
    requires t.buckets[b][i].id == t.buckets[b'][i'].id
    ensures b == b' && i == i'
  {
    var c, c' := t.buckets[b][i], t.buckets[b'][i'];
    assert c in t.buckets[b] && c' in t.buckets[b'];
    BucketUnique(t.localId, c.id, b);
    BucketUnique(t.localId, c.id, b');
  }

  ghost predicate InTable(t: Table, c: Contact)
  {
    exists b :: 0 <= b < |t.buckets| && c in t.buckets[b]
  }

  /** The bucket of a stored contact is the one its id points to. */
  lemma HomeBucket(t: Table, c: Contact)
    requires Valid(t) && InTable(t, c)
    ensures BucketIndex(t.localId, c.id).Some?
    ensures c in t.buckets[BucketIndex(t.localId, c.id).value]
  {
    var b :| 0 <= b < |t.buckets| && c in t.buckets[b];
    BucketUnique(t.localId, c.id, b);
  }

  lemma InsertResult(t: Table, c: Contact, now: int)
    requires Valid(t)
    ensures var (t', ok) := TableInsert(t, c, now); if ok then InTable(t', c) else t' == t
  {
    hide BucketInsert;
    hide BucketOf;
    hide Xors;
    var b := BucketIndex(t.localId, c.id);
    BucketIndexRange(t.localId, c.id);
    if b.Some? {
      BucketInsertCases(t.buckets[b.value], c, now);
      var t' := TableInsert(t, c, now).0;
      assert t'.buckets[b.value] == BucketInsert(t.buckets[b.value], c, now).0;
    }
  }

  lemma InsertKeeps(t: Table, c: Contact, now: int, x: Contact)
    requires Valid(t) && InTable(t, x) && x.id != c.id && now - x.lastSeen < GOOD_NODE_TTL
    ensures InTable(TableInsert(t, c, now).0, x)
  {
    hide BucketInsert;
    hide BucketOf;
    hide Xors;
    var b := BucketIndex(t.localId, c.id);
    BucketIndexRange(t.localId, c.id);
    if b.Some? {
      BucketInsertCases(t.buckets[b.value], c, now);
      var t' := TableInsert(t, c, now).0;
      var d :| 0 <= d < |t.buckets| && x in t.buckets[d];
      assert x in t'.buckets[d];
    }
  }

  lemma InsertOrigin(t: Table, c: Contact, now: int, x: Contact)
    requires Valid(t) && InTable(TableInsert(t, c, now).0, x)
    ensures x == c || InTable(t, x)
  {
    hide BucketInsert;
    hide BucketOf;
    hide Xors;
    var b := BucketIndex(t.localId, c.id);
    BucketIndexRange(t.localId, c.id);
    if b.Some? {
      BucketInsertCases(t.buckets[b.value], c, now);
      var t' := TableInsert(t, c, now).0;
      var d :| 0 <= d < |t'.buckets| && x in t'.buckets[d];
      if x != c { assert x in t.buckets[d]; }
    }
  }

  /**
   * One insert: the new contact replaces its own earlier entry or takes free room or a stale
   * slot. Whatever else was good at that time is still there, and nothing appears from nowhere.
   */
  lemma InsertEffect(t: Table, c: Contact, now: int)
    requires Valid(t)
    ensures var (t', ok) := TableInsert(t, c, now);
      && (if ok then InTable(t', c) else t' == t)
      && (forall x :: InTable(t', x) ==> x == c || InTable(t, x))
      && (forall x :: InTable(t, x) && x.id != c.id && now - x.lastSeen < GOOD_NODE_TTL ==> InTable(t', x))
  {
    InsertResult(t, c, now);
    forall x | InTable(TableInsert(t, c, now).0, x) ensures x == c || InTable(t, x) {
      InsertOrigin(t, c, now, x);
    }
    forall x | InTable(t, x) && x.id != c.id && now - x.lastSeen < GOOD_NODE_TTL ensures InTable(TableInsert(t, c, now).0, x) {
      InsertKeeps(t, c, now, x);
    }
  }

  // ---- runs ----

  datatype Op = Op(contact: Contact, now: int)

  function Run(t: Table, ops: seq<Op>): (r: Table)
    requires |t.buckets| == ID_BITS
    ensures |r.buckets| == ID_BITS && r.localId == t.localId
  {
    if ops == [] then t
    else TableInsert(Run(t, ops[..|ops| - 1]), ops[|ops| - 1].contact, ops[|ops| - 1].now).0
  }

  /** After any sequence of inserts into a fresh table, at any times, the table is valid. */
  lemma {:induction false} RunValid(localId: NodeId, ops: seq<Op>)
    ensures Valid(Run(EmptyTable(localId), ops))
  {
    if ops != [] {
      RunValid(localId, ops[..|ops| - 1]);
      InsertKeepsValid(Run(EmptyTable(localId), ops[..|ops| - 1]), ops[|ops| - 1].contact, ops[|ops| - 1].now);
    }
  }

  /**
   * Flood resistance over whole runs: a contact last seen at or after `since` survives any
   * number of inserts made before it could become stale. Its entry is either untouched or
   * refreshed by an insert of its own id.
   */
  lemma {:induction false} FloodCannotEvict(t: Table, ops: seq<Op>, c: Contact, since: int)
    requires Valid(t) && InTable(t, c) && c.lastSeen >= since
    requires forall o :: o in ops ==> o.contact.lastSeen >= since && o.now - since < GOOD_NODE_TTL
    ensures Valid(Run(t, ops))
    ensures exists c' :: InTable(Run(t, ops), c') && c'.id == c.id && c'.lastSeen >= since
  {
    if ops != [] {
      var front, o := ops[..|ops| - 1], ops[|ops| - 1];
      var u := Run(t, front);
      FloodCannotEvict(t, front, c, since);
      var x :| InTable(u, x) && x.id == c.id && x.lastSeen >= since;
      assert o in ops && o.now - x.lastSeen < GOOD_NODE_TTL;
      InsertKeepsValid(u, o.contact, o.now);
      InsertEffect(u, o.contact, o.now);
      if o.contact.id == x.id { OwnInsertAccepted(u, x, o.contact, o.now); }
    }
  }

  /** Inserting an id that is already present is never refused. */
  lemma OwnInsertAccepted(t: Table, x: Contact, c: Contact, now: int)
    requires Valid(t) && InTable(t, x) && x.id == c.id
    ensures TableInsert(t, c, now).1
  {
    HomeBucket(t, x);
    var b := BucketIndex(t.localId, c.id).value;
    assert Has(t.buckets[b], c.id);
    BucketIndexRange(t.localId, c.id);
    BucketInsertCases(t.buckets[b], c, now);
  }

  // ---- reading the table ----

  function Flatten(bs: seq<seq<Contact>>): (r: seq<Contact>)
    ensures forall c :: c in r <==> exists b :: 0 <= b < |bs| && c in bs[b]
  {
    if bs == [] then [] else
      var r := Flatten(bs[..|bs| - 1]) + bs[|bs| - 1];
      r
  }

  function ByDist(target: NodeId): Contact -> nat
  {
    (c: Contact) => Dist(c.id, target)
  }

  /** `closest`: all contacts, sorted by distance to the target, the first `count`. */
  function Closest(t: Table, target: NodeId, count: nat): seq<Contact>
  {
    Take(Sort(Flatten(t.buckets), ByDist(target)), count)
  }

  function Len(t: Table): nat { |Flatten(t.buckets)| }

  lemma {:induction false} FlattenUnique(t: Table, n: nat)
    requires Valid(t) && n <= ID_BITS
    ensures UniqueIds(Flatten(t.buckets[..n]))
  {
    if n > 0 {
      var bs := t.buckets[..n];
      assert bs[..n - 1] == t.buckets[..n - 1];
      FlattenUnique(t, n - 1);
      var a, b := Flatten(t.buckets[..n - 1]), t.buckets[n - 1];
      assert BucketOk(t.localId, b, n - 1);
      forall x, y | x in a && y in b ensures x.id != y.id {
        var d :| 0 <= d < n - 1 && x in t.buckets[..n - 1][d];
        assert x in t.buckets[d];
        if x.id == y.id {
          BucketUnique(t.localId, x.id, d);
          BucketUnique(t.localId, y.id, n - 1);
        }
      }
      UniqueConcat(a, b);
    }
  }

  lemma UniqueConcat(a: seq<Contact>, b: seq<Contact>)
    requires UniqueIds(a) && UniqueIds(b) && forall x, y :: x in a && y in b ==> x.id != y.id
    ensures UniqueIds(a + b)
  {
    var s := a + b;
    forall i, j | 0 <= i < j < |s| ensures s[i].id != s[j].id {
      if i < |a| <= j { assert s[i] in a && s[j] in b; }
    }
  }

  lemma UniqueIdsDistinct(cs: seq<Contact>, target: NodeId)
    requires UniqueIds(cs)
    ensures DistinctKeys(cs, ByDist(target))
  {
    forall i, j | 0 <= i < j < |cs| ensures ByDist(target)(cs[i]) != ByDist(target)(cs[j]) {
      XorMetric(cs[i].id, cs[j].id, target);
    }
  }

  lemma SortedTable(t: Table, target: NodeId)
    requires Valid(t)
    ensures StrictlySorted(Sort(Flatten(t.buckets), ByDist(target)), ByDist(target))
    ensures forall c :: c in Sort(Flatten(t.buckets), ByDist(target)) <==> InTable(t, c)
  {
    assert t.buckets[..ID_BITS] == t.buckets;
    FlattenUnique(t, ID_BITS);
    UniqueIdsDistinct(Flatten(t.buckets), target);
    SortStrict(Flatten(t.buckets), ByDist(target));
    forall c ensures c in Sort(Flatten(t.buckets), ByDist(target)) <==> InTable(t, c) {
      SortMember(Flatten(t.buckets), ByDist(target), c);
    }
  }

  /**
   * `closest` is strictly nearest-first, as long as the table allows up to `count`, made of
   * table contacts, and no contact it leaves out is nearer than one it returns.
   */
  lemma ClosestIsTopK(t: Table, target: NodeId, count: nat)
    requires Valid(t)
    ensures var r := Closest(t, target, count);
      && StrictlySorted(r, ByDist(target))
      && |r| == (if Len(t) <= count then Len(t) else count)
      && (forall c :: c in r ==> InTable(t, c))
      && (forall c, x :: c in r && InTable(t, x) && x !in r ==> Dist(c.id, target) < Dist(x.id, target))
  {
    var s := Sort(Flatten(t.buckets), ByDist(target));
    SortedTable(t, target);
    TakeNearest(s, count, ByDist(target));
    var r := Closest(t, target, count);
    forall c, x | c in r && InTable(t, x) && x !in r ensures Dist(c.id, target) < Dist(x.id, target) {
      assert x in s;
      assert ByDist(target)(c) < ByDist(target)(x);
    }
  }

  /** The table as the object that is updated in place. */
  class RoutingTable {
    const localId: NodeId
    var buckets: seq<seq<Contact>>

    ghost function View(): Table
      reads this
    {
      Table(localId, buckets)
    }

    ghost predicate Ok()
      reads this
    {
      Valid(View())
    }

    constructor (localId: NodeId)
      ensures Ok() && View() == EmptyTable(localId)
    {
      this.localId := localId;
      this.buckets := seq(ID_BITS, _ => []);
    }

    method Insert(c: Contact, now: int) returns (ok: bool)
      requires Ok()
      modifies this
      ensures Ok()
      ensures (View(), ok) == TableInsert(old(View()), c, now)
    {
      InsertKeepsValid(View(), c, now);
      if c.id == localId { return false; }
      var b := BucketIndexLoop(localId, c.id);
      if b.None? { return false; }
      var (cs, added) := BucketInsert(buckets[b.value], c, now);
      buckets := buckets[b.value := cs];
      ok := added;
    }

    method ClosestTo(target: NodeId, count: nat) returns (r: seq<Contact>)
      requires Ok()
      ensures r == Closest(View(), target, count)
      ensures StrictlySorted(r, ByDist(target))
      ensures forall c, x :: c in r && InTable(View(), x) && x !in r ==> Dist(c.id, target) < Dist(x.id, target)
    {
      ClosestIsTopK(View(), target, count);
      var all := Flatten(buckets);
      all := Sort(all, ByDist(target));
      r := Take(all, count);
    }
  }
}
