/** The request tables of the torrent engine and the accounting of what was asked and what was taken. */
module Requests {
  import opened Bytes
  import opened Distinct
  import opened Net

  datatype Key = Key(index: u32, begin: u32)

  datatype Request = Request(addr: Addr, sentAt: int)

  type Outstanding = map<Key, Request>
  type Endgame = map<Key, seq<Addr>>

  /** What the outside sees: a Request put on a peer's channel, a peer's block handed to the piece manager. */
  datatype Event = Sent(addr: Addr, key: Key) | Passed(addr: Addr, key: Key)

  type Trace = seq<Event>

  ghost function SentTo(trace: Trace, p: Addr): multiset<Key>
  {
    if trace == [] then multiset{}
    else
      var e := trace[|trace| - 1];
      SentTo(trace[..|trace| - 1], p) + (if e.Sent? && e.addr == p then multiset{e.key} else multiset{})
  }

  ghost function PassedFrom(trace: Trace, p: Addr): multiset<Key>
  {
    if trace == [] then multiset{}
    else
      var e := trace[|trace| - 1];
      PassedFrom(trace[..|trace| - 1], p) + (if e.Passed? && e.addr == p then multiset{e.key} else multiset{})
  }

  ghost function OutKeys(out: Outstanding, p: Addr): set<Key>
  {
    set k | k in out && out[k].addr == p
  }

  ghost function EndgameKeys(eg: Endgame, p: Addr): set<Key>
  {
    set k | k in eg && p in eg[k]
  }

  /** Everything charged to a peer's requests, key by key, was covered by a Request sent to it. */
  ghost predicate Covered(out: Outstanding, eg: Endgame, trace: Trace, p: Addr)
  {
    PassedFrom(trace, p) + multiset(OutKeys(out, p)) + multiset(EndgameKeys(eg, p)) <= SentTo(trace, p)
  }

  ghost predicate Conserved(out: Outstanding, eg: Endgame, trace: Trace)
  {
    forall p :: Covered(out, eg, trace, p)
  }

  /** Endgame lists are never empty and never name a peer twice. */
  ghost predicate ListsOk(eg: Endgame)
  {
    forall k :: k in eg ==> eg[k] != [] && NoRepeats(eg[k])
  }

  /** At no moment was a block taken from a peer that had not been asked for it that often. */
  ghost predicate Balanced(trace: Trace)
  {
    forall n, p :: 0 <= n <= |trace| ==> PassedFrom(trace[..n], p) <= SentTo(trace[..n], p)
  }

  // ---- the steps ----

  ghost predicate Fewer(out': Outstanding, eg': Endgame, out: Outstanding, eg: Endgame)
  {
    && (forall k :: k in out' ==> k in out && out'[k].addr == out[k].addr)
    && (forall k :: k in eg' ==> k in eg && forall a :: a in eg'[k] ==> a in eg[k])
  }

  /** Forgetting entries keeps the account. */
  lemma ForgetConserves(out: Outstanding, eg: Endgame, out': Outstanding, eg': Endgame, trace: Trace)
    requires Conserved(out, eg, trace) && Fewer(out', eg', out, eg)
    ensures Conserved(out', eg', trace)
  {
    forall p ensures Covered(out', eg', trace, p) {
      assert Covered(out, eg, trace, p);
      assert OutKeys(out', p) <= OutKeys(out, p) && EndgameKeys(eg', p) <= EndgameKeys(eg, p);
      SubMultiset(OutKeys(out', p), OutKeys(out, p));
      SubMultiset(EndgameKeys(eg', p), EndgameKeys(eg, p));
    }
  }

  lemma SubMultiset(a: set<Key>, b: set<Key>)
    requires a <= b
    ensures multiset(a) <= multiset(b)
  {
  }

  lemma Snoc(trace: Trace, e: Event, p: Addr)
    ensures SentTo(trace + [e], p) == SentTo(trace, p) + if e.Sent? && e.addr == p then multiset{e.key} else multiset{}
    ensures PassedFrom(trace + [e], p) == PassedFrom(trace, p) + if e.Passed? && e.addr == p then multiset{e.key} else multiset{}
  {
    var t := trace + [e];
    assert t[..|t| - 1] == trace;
  }

  /** A Request on the normal path. */
  lemma SendConserves(out: Outstanding, eg: Endgame, trace: Trace, k: Key, r: Request)
    requires Conserved(out, eg, trace)
    ensures Conserved(out[k := r], eg, trace + [Sent(r.addr, k)])
  {
    hide SentTo;
    hide PassedFrom;
    var next, t := out[k := r], trace + [Sent(r.addr, k)];
    forall p ensures Covered(next, eg, t, p) {
      Snoc(trace, Sent(r.addr, k), p);
      assert Covered(out, eg, trace, p);
      AddedKey(OutKeys(next, p), OutKeys(out, p), k, p == r.addr);
    }
  }

  lemma AddedKey(now: set<Key>, before: set<Key>, k: Key, added: bool)
    requires now <= before + (if added then {k} else {})
    ensures multiset(now) <= multiset(before) + if added then multiset{k} else multiset{}
  {
  }

  /** A Request in endgame. */
  lemma SendEndgameConserves(out: Outstanding, eg: Endgame, trace: Trace, k: Key, a: Addr)
    requires Conserved(out, eg, trace)
    ensures Conserved(out, eg[k := Listed(eg, k) + [a]], trace + [Sent(a, k)])
  {
    hide SentTo;
    hide PassedFrom;
    var next, t := eg[k := Listed(eg, k) + [a]], trace + [Sent(a, k)];
    forall p ensures Covered(out, next, t, p) {
      Snoc(trace, Sent(a, k), p);
      assert Covered(out, eg, trace, p);
      AddedKey(EndgameKeys(next, p), EndgameKeys(eg, p), k, p == a);
    }
  }

  function Listed(eg: Endgame, k: Key): seq<Addr>
  {
    if k in eg then eg[k] else []
  }

  /** The solicitation check of the Block handler. */
  predicate Solicited(out: Outstanding, eg: Endgame, a: Addr, k: Key)
  {
    (k in out && out[k].addr == a) || (k in eg && a in eg[k])
  }

  /** A solicited block is taken, and its sender is struck from both tables for that key. */
  lemma PassConserves(out: Outstanding, eg: Endgame, out': Outstanding, eg': Endgame, trace: Trace, k: Key, a: Addr)
    requires Conserved(out, eg, trace) && Fewer(out', eg', out, eg) && Solicited(out, eg, a, k)
    requires !Solicited(out', eg', a, k)
    ensures Conserved(out', eg', trace + [Passed(a, k)])
  {
    hide SentTo;
    hide PassedFrom;
    hide OutKeys;
    hide EndgameKeys;
    var t := trace + [Passed(a, k)];
    forall p ensures Covered(out', eg', t, p) {
      Snoc(trace, Passed(a, k), p);
      assert Covered(out, eg, trace, p);
      KeysShrink(out, eg, out', eg', k, a, p);
      Struck(PassedFrom(trace, p), OutKeys(out', p), OutKeys(out, p), EndgameKeys(eg', p), EndgameKeys(eg, p), k, p == a);
    }
  }

  lemma KeysShrink(out: Outstanding, eg: Endgame, out': Outstanding, eg': Endgame, k: Key, a: Addr, p: Addr)
    requires Fewer(out', eg', out, eg) && Solicited(out, eg, a, k) && !Solicited(out', eg', a, k)
    ensures OutKeys(out', p) <= OutKeys(out, p) && EndgameKeys(eg', p) <= EndgameKeys(eg, p)
    ensures p == a ==> k in OutKeys(out, p) || k in EndgameKeys(eg, p)
    ensures p == a ==> k !in OutKeys(out', p) && k !in EndgameKeys(eg', p)
  {
  }

  lemma Struck(passed: multiset<Key>, o': set<Key>, o: set<Key>, e': set<Key>, e: set<Key>, k: Key, struck: bool)
    requires o' <= o && e' <= e
    requires struck ==> (k in o || k in e) && k !in o' && k !in e'
    ensures (passed + if struck then multiset{k} else multiset{}) + multiset(o') + multiset(e') <=
            passed + multiset(o) + multiset(e)
  {
  }

  lemma BalancedSnoc(out: Outstanding, eg: Endgame, trace: Trace, e: Event)
    requires Balanced(trace) && Conserved(out, eg, trace + [e])
    ensures Balanced(trace + [e])
  {
    hide SentTo;
    hide PassedFrom;
    var t := trace + [e];
    forall n, p | 0 <= n <= |t| ensures PassedFrom(t[..n], p) <= SentTo(t[..n], p) {
      if n <= |trace| {
        assert t[..n] == trace[..n];
      } else {
        assert t[..n] == t;
        assert Covered(out, eg, t, p);
      }
    }
  }

  // ---- what the account means ----

  /** Per peer: blocks taken plus entries in both tables never exceed the Requests sent. */
  lemma CountsConserved(out: Outstanding, eg: Endgame, trace: Trace, p: Addr)
    requires Conserved(out, eg, trace)
    ensures |PassedFrom(trace, p)| + |OutKeys(out, p)| + |EndgameKeys(eg, p)| <= |SentTo(trace, p)|
  {
    assert Covered(out, eg, trace, p);
    var a := PassedFrom(trace, p) + multiset(OutKeys(out, p)) + multiset(EndgameKeys(eg, p));
    assert SentTo(trace, p) == a + (SentTo(trace, p) - a);
  }

  lemma {:induction false} SentEarlier(trace: Trace, p: Addr, k: Key)
    requires k in SentTo(trace, p)
    ensures exists i :: 0 <= i < |trace| && trace[i] == Sent(p, k)
  {
    var e := trace[|trace| - 1];
    if e != Sent(p, k) {
      SentEarlier(trace[..|trace| - 1], p, k);
      var i :| 0 <= i < |trace| - 1 && trace[..|trace| - 1][i] == Sent(p, k);
      assert trace[i] == Sent(p, k);
    }
  }

  /** Every block taken answers an earlier Request for that very block to that very peer. */
  lemma PassedWasRequested(trace: Trace, j: nat)
    ensures Balanced(trace) && j < |trace| && trace[j].Passed? ==>
              exists i :: 0 <= i < j && trace[i] == Sent(trace[j].addr, trace[j].key)
  {
    if Balanced(trace) && j < |trace| && trace[j].Passed? {
      var p, k := trace[j].addr, trace[j].key;
      var t := trace[..j + 1];
      assert PassedFrom(t, p) <= SentTo(t, p);
      assert t == trace[..j] + [trace[j]];
      Snoc(trace[..j], trace[j], p);
      assert k in PassedFrom(t, p);
      assert k in SentTo(trace[..j], p);
      SentEarlier(trace[..j], p, k);
      var i :| 0 <= i < j && trace[..j][i] == Sent(p, k);
      assert trace[i] == Sent(p, k);
    }
  }

  // ---- list upkeep ----

  function Strike(list: seq<Addr>, a: Addr): (r: seq<Addr>)
    ensures forall x :: x in r <==> x in list && x != a
  {
    if list == [] then []
    else
      assert list == [list[0]] + list[1..];
      if list[0] == a then Strike(list[1..], a) else [list[0]] + Strike(list[1..], a)
  }

  lemma {:induction false} StrikeNoRepeats(list: seq<Addr>, a: Addr)
    requires NoRepeats(list)
    ensures NoRepeats(Strike(list, a))
  {
    if list != [] {
      StrikeNoRepeats(list[1..], a);
      var r := Strike(list[1..], a);
      forall j | 0 <= j < |r| ensures r[j] != list[0] {
        assert r[j] in r;
        var i :| 0 <= i < |list[1..]| && list[1..][i] == r[j];
        assert list[i + 1] == r[j];
      }
      assert NoRepeats([list[0]] + r);
    }
  }

  /** The tail of `cleanup_disconnected_peer`: strike the peer everywhere, drop emptied lists. */
  function StrikeAll(eg: Endgame, a: Addr): Endgame
  {
    map k | k in eg && Strike(eg[k], a) != [] :: Strike(eg[k], a)
  }

  lemma StrikeAllOk(eg: Endgame, a: Addr)
    requires ListsOk(eg)
    ensures ListsOk(StrikeAll(eg, a))
    ensures forall k, x :: k in StrikeAll(eg, a) && x in StrikeAll(eg, a)[k] <==> k in eg && x in eg[k] && x != a
  {
    forall k | k in StrikeAll(eg, a) ensures NoRepeats(StrikeAll(eg, a)[k]) {
      StrikeNoRepeats(eg[k], a);
    }
    forall k, x ensures k in StrikeAll(eg, a) && x in StrikeAll(eg, a)[k] <==> k in eg && x in eg[k] && x != a {
      if k in eg && x in eg[k] && x != a {
        assert x in Strike(eg[k], a);
      }
    }
  }

  function WithoutPiece(eg: Endgame, index: u32): Endgame
  {
    map k | k in eg && k.index != index :: eg[k]
  }
}
