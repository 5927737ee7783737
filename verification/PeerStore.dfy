/** The bounded store of announced peers (`record_announce`, `prune_peer_store` in `dht/server.rs`). */
module PeerStore {
  import opened NodeId
  import opened Net

  const ANNOUNCE_TTL: int := 30 * 60 * 1_000_000_000
  const MAX_PEERS_PER_INFO_HASH: nat := 256
  const MAX_INFO_HASHES: nat := 16384

  datatype Entry = Entry(addr: Addr, at: int)

  type Store = map<NodeId, seq<Entry>>

  // ---- list operations ----

  /** `Vec::retain`. */
  function Keep(es: seq<Entry>, p: Entry -> bool): (r: seq<Entry>)
    ensures |r| <= |es|
  {
    if es == [] then [] else if p(es[0]) then [es[0]] + Keep(es[1..], p) else Keep(es[1..], p)
  }

  /** The newest `n` entries: what is left after draining the front. */
  function Last(es: seq<Entry>, n: nat): seq<Entry>
  {
    if |es| > n then es[|es| - n..] else es
  }

  function NotFrom(addr: Addr): Entry -> bool
  {
    (e: Entry) => e.addr != addr
  }

  function Fresh(now: int): Entry -> bool
  {
    (e: Entry) => now - e.at <= ANNOUNCE_TTL
  }

  // ---- the two operations ----

  function Listed(s: Store, h: NodeId): seq<Entry>
  {
    if h in s then s[h] else []
  }

  predicate Admits(s: Store, h: NodeId)
  {
    |s| < MAX_INFO_HASHES || h in s
  }

  function Record(s: Store, h: NodeId, addr: Addr, now: int): Store
  {
    if Admits(s, h)
    then s[h := Last(Keep(Listed(s, h), NotFrom(addr)) + [Entry(addr, now)], MAX_PEERS_PER_INFO_HASH)]
    else s
  }

  function Prune(s: Store, now: int): Store
  {
    map h | h in s && Keep(s[h], Fresh(now)) != [] :: Keep(s[h], Fresh(now))
  }

  // ---- runs ----

  datatype Step = Announce(h: NodeId, addr: Addr, at: int) | Sweep(at: int)

  function Run(steps: seq<Step>): Store
  {
    if steps == [] then map[]
    else
      var s := Run(steps[..|steps| - 1]);
      match steps[|steps| - 1]
      case Announce(h, addr, at) => Record(s, h, addr, at)
      case Sweep(at) => Prune(s, at)
  }

  /** The clock under the lock: an announce is stamped no earlier than anything before it. A sweep
      reads the clock before it takes the lock, so its time may lie behind the newest entries. */
  ghost predicate Timed(steps: seq<Step>)
  {
    forall i, j :: 0 <= i < j < |steps| && steps[j].Announce? ==> steps[i].at <= steps[j].at
  }

  // ---- what the store should hold ----

  /** Every announce for `h` that was let in, in order. */
  function Accepted(steps: seq<Step>, h: NodeId): seq<Entry>
  {
    if steps == [] then []
    else
      var front, last := steps[..|steps| - 1], steps[|steps| - 1];
      if last.Announce? && last.h == h && Admits(Run(front), h)
      then Accepted(front, h) + [Entry(last.addr, last.at)]
      else Accepted(front, h)
  }

  predicate FromIn(es: seq<Entry>, addr: Addr)
  {
    exists e :: e in es && e.addr == addr
  }

  /** An announce counts only if its sender does not announce again later. */
  function Latest(es: seq<Entry>): seq<Entry>
  {
    if es == [] then []
    else if FromIn(es[1..], es[0].addr) then Latest(es[1..])
    else [es[0]] + Latest(es[1..])
  }

  /** No sweep so far has found an entry of this age expired. */
  function Survives(steps: seq<Step>): Entry -> bool
  {
    (e: Entry) => forall s :: s in steps && s.Sweep? ==> s.at - e.at <= ANNOUNCE_TTL
  }

  /** The newest announcers of `h`, each at its latest announce, expired ones left out. */
  ghost function Expected(steps: seq<Step>, h: NodeId): seq<Entry>
  {
    Keep(Last(Latest(Accepted(steps, h)), MAX_PEERS_PER_INFO_HASH), Survives(steps))
  }

  // ---- lemmas about the lists ----

  ghost predicate InOrder(es: seq<Entry>)
  {
    forall i, j :: 0 <= i <= j < |es| ==> es[i].at <= es[j].at
  }

  ghost predicate OneEach(es: seq<Entry>)
  {
    forall i, j :: 0 <= i < j < |es| ==> es[i].addr != es[j].addr
  }

  /** Keeping an entry also keeps the younger ones. */
  ghost predicate KeepsYounger(p: Entry -> bool)
  {
    forall d: Entry, e: Entry :: p(d) && d.at <= e.at ==> p(e)
  }

  function Both(p: Entry -> bool, q: Entry -> bool): Entry -> bool
  {
    e => p(e) && q(e)
  }

  lemma {:induction false} KeepMember(es: seq<Entry>, p: Entry -> bool, e: Entry)
    ensures e in Keep(es, p) <==> e in es && p(e)
  {
    if es != [] {
      KeepMember(es[1..], p, e);
      assert es == [es[0]] + es[1..];
    }
  }

  lemma {:induction false} KeepConcat(a: seq<Entry>, b: seq<Entry>, p: Entry -> bool)
    ensures Keep(a + b, p) == Keep(a, p) + Keep(b, p)
  {
    if a == [] {
      assert a + b == b;
    } else {
      var h := a[0];
      KeepConcat(a[1..], b, p);
      assert (a + b)[1..] == a[1..] + b && (a + b)[0] == h;
      assert p(h) ==> [h] + (Keep(a[1..], p) + Keep(b, p)) == ([h] + Keep(a[1..], p)) + Keep(b, p);
    }
  }

  lemma {:induction false} KeepAll(es: seq<Entry>, p: Entry -> bool)
    requires forall e :: e in es ==> p(e)
    ensures Keep(es, p) == es
  {
    if es != [] {
      assert es[0] in es;
      KeepAll(es[1..], p);
    }
  }

  lemma {:induction false} KeepAnd(es: seq<Entry>, p: Entry -> bool, q: Entry -> bool)
    ensures Keep(Keep(es, p), q) == Keep(es, Both(p, q))
  {
    if es != [] {
      KeepAnd(es[1..], p, q);
      if p(es[0]) {
        assert Keep(es, p)[1..] == Keep(es[1..], p);
        assert Keep(es, p)[0] == es[0];
      }
    }
  }

  lemma {:induction false} KeepSame(es: seq<Entry>, p: Entry -> bool, q: Entry -> bool)
    requires forall e :: e in es ==> p(e) == q(e)
    ensures Keep(es, p) == Keep(es, q)
  {
    if es != [] {
      assert es[0] in es;
      KeepSame(es[1..], p, q);
    }
  }

  /** On a list in time order, sweeping removes a prefix, all of it expired. */
  lemma {:induction false} KeepIsSuffix(es: seq<Entry>, p: Entry -> bool)
    requires InOrder(es) && KeepsYounger(p)
    ensures |Keep(es, p)| <= |es|
    ensures var k := |es| - |Keep(es, p)|;
      && Keep(es, p) == es[k..]
      && (forall i :: 0 <= i < k ==> !p(es[i]))
      && (forall i :: k <= i < |es| ==> p(es[i]))
  {
    if es != [] {
      if p(es[0]) {
        forall e | e in es ensures p(e) {
          var i :| 0 <= i < |es| && es[i] == e;
          assert es[0].at <= es[i].at;
        }
        KeepAll(es, p);
      } else {
        KeepIsSuffix(es[1..], p);
      }
    }
  }

  lemma KeepLast(es: seq<Entry>, p: Entry -> bool, n: nat)
    requires InOrder(es) && KeepsYounger(p)
    ensures Keep(Last(es, n), p) == Last(Keep(es, p), n)
  {
    hide Keep;
    KeepIsSuffix(es, p);
    if |es| > n {
      var k, m := |es| - |Keep(es, p)|, |es| - n;
      var tail := es[m..];
      if k <= m {
        KeepAll(tail, p);
      } else {
        assert tail == es[m..k] + es[k..];
        KeepConcat(es[m..k], es[k..], p);
        KeepNone(es[m..k], p);
        KeepAll(es[k..], p);
      }
    }
  }

  lemma {:induction false} KeepNone(es: seq<Entry>, p: Entry -> bool)
    requires forall e :: e in es ==> !p(e)
    ensures Keep(es, p) == []
  {
    if es != [] {
      assert es[0] in es;
      KeepNone(es[1..], p);
    }
  }

  lemma {:induction false} KeepOneEach(es: seq<Entry>, p: Entry -> bool)
    requires OneEach(es)
    ensures OneEach(Keep(es, p))
  {
    if es != [] {
      KeepOneEach(es[1..], p);
      forall e | e in Keep(es[1..], p) ensures e.addr != es[0].addr {
        KeepMember(es[1..], p, e);
        var i :| 0 <= i < |es[1..]| && es[1..][i] == e;
      }
    }
  }

  lemma {:induction false} KeepInOrder(es: seq<Entry>, p: Entry -> bool)
    requires InOrder(es)
    ensures InOrder(Keep(es, p))
  {
    if es != [] {
      KeepInOrder(es[1..], p);
      forall e | e in Keep(es[1..], p) ensures es[0].at <= e.at {
        KeepMember(es[1..], p, e);
        var i :| 0 <= i < |es[1..]| && es[1..][i] == e;
      }
    }
  }

  /** Taking one sender out of a list with one entry each shortens it by at most one. */
  lemma {:induction false} DropsOne(es: seq<Entry>, addr: Addr)
    requires OneEach(es)
    ensures FromIn(es, addr) ==> |Keep(es, NotFrom(addr))| == |es| - 1
    ensures !FromIn(es, addr) ==> Keep(es, NotFrom(addr)) == es
  {
    if !FromIn(es, addr) {
      KeepAll(es, NotFrom(addr));
    } else {
      var h, t := es[0], es[1..];
      DropsOne(t, addr);
      if h.addr != addr {
        var e :| e in es && e.addr == addr;
        assert e in t;
      }
    }
  }

  /** Trimming before or after the update makes no difference to the newest `n`. */
  lemma TrimCommutes(es: seq<Entry>, x: Entry, n: nat)
    requires OneEach(es) && n > 0
    ensures Last(Keep(Last(es, n), NotFrom(x.addr)) + [x], n) == Last(Keep(es, NotFrom(x.addr)) + [x], n)
  {
    hide Keep;
    if |es| > n {
      var p := NotFrom(x.addr);
      var a, b := es[..|es| - n], es[|es| - n..];
      assert a + b == es;
      KeepConcat(a, b, p);
      DropsOne(b, x.addr);
      if FromIn(b, x.addr) {
        LastConcat(Keep(a, p), Keep(b, p) + [x], n);
        assert Keep(a, p) + (Keep(b, p) + [x]) == Keep(es, p) + [x];
      } else {
        assert Keep(a, p) + (b + [x]) == Keep(es, p) + [x];
        LastConcat(Keep(a, p), b + [x], n);
      }
    }
  }

  lemma LastConcat(a: seq<Entry>, b: seq<Entry>, n: nat)
    requires |b| >= n
    ensures Last(a + b, n) == Last(b, n)
  {
  }

  /** One more announce: its sender moves to the end. */
  lemma {:induction false} LatestSnoc(es: seq<Entry>, x: Entry)
    ensures Latest(es + [x]) == Keep(Latest(es), NotFrom(x.addr)) + [x]
  {
    if es == [] {
      assert es + [x] == [x];
    } else {
      var h, t := es[0], es[1..];
      LatestSnoc(t, x);
      assert (es + [x])[1..] == t + [x];
      assert FromIn(t + [x], h.addr) <==> FromIn(t, h.addr) || x.addr == h.addr by {
        assert x in t + [x];
        if FromIn(t, h.addr) {
          var e :| e in t && e.addr == h.addr;
          assert e in t + [x];
        }
      }
      if FromIn(t, h.addr) {
      } else if x.addr == h.addr {
        assert Latest(es) == [h] + Latest(t);
        assert Latest(es)[1..] == Latest(t);
      } else {
        assert Latest(es)[1..] == Latest(t);
      }
    }
  }

  lemma {:induction false} LatestMember(es: seq<Entry>)
    ensures forall e :: e in Latest(es) ==> e in es
    ensures OneEach(Latest(es))
  {
    if es != [] {
      LatestMember(es[1..]);
    }
  }

  lemma {:induction false} LatestInOrder(es: seq<Entry>)
    requires InOrder(es)
    ensures InOrder(Latest(es))
  {
    if es != [] {
      LatestInOrder(es[1..]);
      LatestMember(es[1..]);
      forall e | e in Latest(es[1..]) ensures es[0].at <= e.at {
        var i :| 0 <= i < |es[1..]| && es[1..][i] == e;
      }
    }
  }

  // ---- the refinement ----

  ghost predicate Happened(steps: seq<Step>, at: int)
  {
    exists i :: 0 <= i < |steps| && steps[i].at == at
  }

  lemma HappenedFront(steps: seq<Step>, at: int)
    requires steps != [] && Happened(steps[..|steps| - 1], at)
    ensures Happened(steps, at)
  {
    var front := steps[..|steps| - 1];
    var i :| 0 <= i < |front| && front[i].at == at;
    assert steps[i].at == at;
  }

  lemma {:induction false} AcceptedTimes(steps: seq<Step>, h: NodeId)
    requires Timed(steps)
    ensures InOrder(Accepted(steps, h))
    ensures forall e :: e in Accepted(steps, h) ==> Happened(steps, e.at)
  {
    if steps != [] {
      var front, last := steps[..|steps| - 1], steps[|steps| - 1];
      AcceptedTimes(front, h);
      var es := Accepted(front, h);
      forall e | e in es ensures Happened(steps, e.at) && (last.Announce? ==> e.at <= last.at) {
        HappenedFront(steps, e.at);
        var i :| 0 <= i < |front| && front[i].at == e.at;
        assert steps[i].at == e.at;
      }
      assert Happened(steps, last.at);
      if last.Announce? { OrderedSnoc(es, Entry(last.addr, last.at)); }
    }
  }

  lemma OrderedSnoc(es: seq<Entry>, x: Entry)
    requires InOrder(es) && forall e :: e in es ==> e.at <= x.at
    ensures InOrder(es + [x])
  {
  }

  ghost predicate Refines(steps: seq<Step>, h: NodeId)
  {
    && Listed(Run(steps), h) == Expected(steps, h)
    && (h in Run(steps) ==> Expected(steps, h) != [])
  }

  /** A sweep. */
  lemma SweepStep(steps: seq<Step>, now: int, h: NodeId)
    requires Timed(steps + [Sweep(now)]) && Refines(steps, h)
    ensures Refines(steps + [Sweep(now)], h)
  {
    hide Accepted;
    hide Latest;
    hide Timed;
    var next := steps + [Sweep(now)];
    RunSnoc(steps, Sweep(now));
    var l := Last(Latest(Accepted(steps, h)), MAX_PEERS_PER_INFO_HASH);
    KeepAnd(l, Survives(steps), Fresh(now));
    assert Sweep(now) in next;
    forall e ensures Survives(next)(e) <==> Survives(steps)(e) && Fresh(now)(e) {
      assert forall s :: s in next <==> s in steps || s == Sweep(now);
    }
    KeepSame(l, Both(Survives(steps), Fresh(now)), Survives(next));
  }

  lemma RunSnoc(steps: seq<Step>, last: Step)
    ensures Run(steps + [last]) ==
            (if last.Sweep? then Prune(Run(steps), last.at) else Record(Run(steps), last.h, last.addr, last.at))
    ensures forall h :: Accepted(steps + [last], h) ==
                        if last.Announce? && last.h == h && Admits(Run(steps), h)
                        then Accepted(steps, h) + [Entry(last.addr, last.at)]
                        else Accepted(steps, h)
  {
    var next := steps + [last];
    assert next[..|next| - 1] == steps;
  }

  /** An announce leaves what a sweep has decided alone. */
  lemma AnnounceSurvives(steps: seq<Step>, last: Step)
    requires last.Announce?
    ensures forall e :: Survives(steps + [last])(e) <==> Survives(steps)(e)
    ensures Timed(steps + [last]) ==> Survives(steps)(Entry(last.addr, last.at))
  {
    var next := steps + [last];
    assert forall s :: s in next <==> s in steps || s == last;
    if Timed(next) {
      forall s | s in steps && s.Sweep? ensures s.at - last.at <= ANNOUNCE_TTL {
        var i :| 0 <= i < |steps| && steps[i] == s;
        assert next[i] == s && next[|steps|] == last;
      }
    }
  }

  lemma TimedFront(steps: seq<Step>, last: Step)
    requires Timed(steps + [last])
    ensures Timed(steps)
  {
    var next := steps + [last];
    forall i, j | 0 <= i < j < |steps| && steps[j].Announce? ensures steps[i].at <= steps[j].at {
      assert next[i] == steps[i] && next[j] == steps[j];
    }
  }

  /** The list update, seen through the history. */
  lemma RecordList(hist: seq<Entry>, x: Entry, p: Entry -> bool, n: nat)
    requires InOrder(hist) && KeepsYounger(p) && p(x) && n > 0 && InOrder(hist + [x])
    ensures Last(Keep(Keep(Last(Latest(hist), n), p), NotFrom(x.addr)) + [x], n) ==
            Keep(Last(Latest(hist + [x]), n), p)
  {
    hide Keep;
    hide Last;
    hide Latest;
    var l, q := Latest(hist), NotFrom(x.addr);
    LatestMember(hist);
    LatestInOrder(hist);
    LatestInOrder(hist + [x]);
    KeepLast(l, p, n);
    KeepOneEach(l, p);
    TrimCommutes(Keep(l, p), x, n);
    KeepAnd(l, p, q);
    KeepAnd(l, q, p);
    KeepSame(l, Both(p, q), Both(q, p));
    LatestSnoc(hist, x);
    KeepConcat(Keep(l, q), [x], p);
    KeepAll([x], p);
    KeepLast(Latest(hist + [x]), p, n);
  }

  lemma AnnounceStep(steps: seq<Step>, last: Step, h: NodeId)
    requires last.Announce? && Timed(steps + [last]) && Refines(steps, h)
    ensures Refines(steps + [last], h)
  {
    var next := steps + [last];
    var x := Entry(last.addr, last.at);
    hide Latest;
    hide Timed;
    hide Keep;
    hide Survives;
    hide Last;
    hide Accepted;
    RunSnoc(steps, last);
    AnnounceSurvives(steps, last);
    KeepSame(Last(Latest(Accepted(steps, h)), MAX_PEERS_PER_INFO_HASH), Survives(steps), Survives(next));
    if last.h == h && Admits(Run(steps), h) {
      TimedFront(steps, last);
      AcceptedTimes(steps, h);
      AcceptedTimes(next, h);
      KeptFacts(steps, Keep(Listed(Run(steps), h), NotFrom(x.addr)), x);
      RecordList(Accepted(steps, h), x, Survives(steps), MAX_PEERS_PER_INFO_HASH);
      KeepSame(Last(Latest(Accepted(next, h)), MAX_PEERS_PER_INFO_HASH), Survives(steps), Survives(next));
    }
  }

  lemma KeptFacts(steps: seq<Step>, es: seq<Entry>, x: Entry)
    ensures KeepsYounger(Survives(steps))
    ensures Last(es + [x], MAX_PEERS_PER_INFO_HASH) != []
  {
  }

  /** Over every run the store holds, for every hash, exactly the newest announcers of the accepted
      history with the expired ones removed, and never more than `MAX_INFO_HASHES` hashes. */
  lemma {:induction false} StoreRefinesHistory(steps: seq<Step>, h: NodeId)
    ensures |Run(steps)| <= MAX_INFO_HASHES
    ensures Timed(steps) ==>
        && Listed(Run(steps), h) == Expected(steps, h)
        && (h in Run(steps) <==> Expected(steps, h) != [])
        && |Listed(Run(steps), h)| <= MAX_PEERS_PER_INFO_HASH
  {
    assert Expected([], h) == [] && |Expected(steps, h)| <= MAX_PEERS_PER_INFO_HASH;
    hide Expected;
    if steps != [] {
      var front, last := steps[..|steps| - 1], steps[|steps| - 1];
      StoreRefinesHistory(front, h);
      assert steps == front + [last];
      RunSnoc(front, last);
      if last.Sweep? {
        PruneShrinks(Run(front), last.at);
      }
      if Timed(steps) {
        TimedFront(front, last);
        if last.Sweep? {
          SweepStep(front, last.at, h);
        } else {
          AnnounceStep(front, last, h);
        }
      }
    }
  }

  lemma PruneShrinks(s: Store, now: int)
    ensures |Prune(s, now)| <= |s|
  {
    var r := Prune(s, now);
    assert r.Keys <= s.Keys;
    assert s.Keys == r.Keys + (s.Keys - r.Keys);
    assert |r| == |r.Keys| && |s| == |s.Keys|;
  }

  ghost predicate CutAt(s: seq<Entry>, r: seq<Entry>, now: int, k: nat)
    requires k <= |s|
  {
    && r == s[k..]
    && (forall i :: 0 <= i < k ==> now - s[i].at > ANNOUNCE_TTL)
    && (forall i :: k <= i < |s| ==> now - s[i].at <= ANNOUNCE_TTL)
  }

  /** A sweep cuts an expired prefix off every list and drops the hashes left empty. */
  lemma SweepCutsPrefix(steps: seq<Step>, now: int, h: NodeId)
    ensures
      var s := Listed(Run(steps), h);
      var r := Listed(Run(steps + [Sweep(now)]), h);
      Timed(steps) ==>
        exists k :: 0 <= k <= |s| && CutAt(s, r, now, k)
  {
    hide Latest;
    hide Keep;
    hide Accepted;
    hide Survives;
    hide Timed;
    hide Happened;
    hide Run;
    if Timed(steps) {
      var s := Listed(Run(steps), h);
      StoreRefinesHistory(steps, h);
      AcceptedTimes(steps, h);
      LatestInOrder(Accepted(steps, h));
      KeepInOrder(Last(Latest(Accepted(steps, h)), MAX_PEERS_PER_INFO_HASH), Survives(steps));
      KeepIsSuffix(s, Fresh(now));
      RunSnoc(steps, Sweep(now));
      assert CutAt(s, Keep(s, Fresh(now)), now, |s| - |Keep(s, Fresh(now))|);
      assert Listed(Run(steps + [Sweep(now)]), h) == Keep(s, Fresh(now));
    }
  }

  /** The store as the object behind the lock; `steps` is its ghost history. */
  class AnnounceStore {
    var store: Store
    ghost var steps: seq<Step>

    ghost predicate Valid()
      reads this
    {
      store == Run(steps) && Timed(steps)
    }

    constructor ()
      ensures Valid() && store == map[] && steps == []
    {
      store := map[];
      steps := [];
    }

    method RecordAnnounce(h: NodeId, addr: Addr, now: int)
      requires Valid() && forall s :: s in steps ==> s.at <= now
      modifies this
      ensures Valid() && steps == old(steps) + [Announce(h, addr, now)]
      ensures |store| <= MAX_INFO_HASHES
      ensures forall g :: Listed(store, g) == Expected(steps, g)
      ensures old(|store| < MAX_INFO_HASHES || h in store) ==> Entry(addr, now) in Listed(store, h)
    {
      hide Run;
      hide Keep;
      hide Expected;
      ghost var before := store;
      if |store| < MAX_INFO_HASHES || h in store {
        var entry := if h in store then store[h] else [];
        entry := Keep(entry, NotFrom(addr));
        entry := entry + [Entry(addr, now)];
        if |entry| > MAX_PEERS_PER_INFO_HASH {
          entry := entry[|entry| - MAX_PEERS_PER_INFO_HASH..];
        }
        store := store[h := entry];
        assert entry[|entry| - 1] == Entry(addr, now);
      }
      assert store == Record(before, h, addr, now);
      RunSnoc(steps, Announce(h, addr, now));
      steps := steps + [Announce(h, addr, now)];
      Everywhere(steps);
    }

    method PrunePeerStore(now: int)
      requires Valid()
      modifies this
      ensures Valid() && steps == old(steps) + [Sweep(now)]
      ensures |store| <= MAX_INFO_HASHES
      ensures forall g :: Listed(store, g) == Expected(steps, g)
      ensures forall g :: Listed(store, g) == Keep(old(Listed(store, g)), Fresh(now))
    {
      hide Run;
      hide Keep;
      hide Expected;
      store := map h | h in store && Keep(store[h], Fresh(now)) != [] :: Keep(store[h], Fresh(now));
      RunSnoc(steps, Sweep(now));
      steps := steps + [Sweep(now)];
      Everywhere(steps);
    }
  }

  lemma Everywhere(steps: seq<Step>)
    requires Timed(steps)
    ensures |Run(steps)| <= MAX_INFO_HASHES
    ensures forall h :: Listed(Run(steps), h) == Expected(steps, h)
  {
    StoreRefinesHistory(steps, seq(ID_LEN, _ => 0));
    forall h ensures Listed(Run(steps), h) == Expected(steps, h) {
      StoreRefinesHistory(steps, h);
    }
  }
}
