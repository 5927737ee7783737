/** Announcing to the nearest nodes that issued a token (`announce_peer`). */
module Announce {
  import opened Bytes
  import opened NodeId
  import opened Net
  import opened Sorting
  import opened Routing
  import opened Lookup

  /** A queried node that answered with a token, at the address it was queried at. */
  datatype Holder = Holder(id: NodeId, token: bytes, addr: Addr)

  function HolderOf(net: Network, round: nat, c: Contact): seq<Holder>
  {
    var r := net.reply(round, c);
    if r.Peers? || r.PeersNodes? then [Holder(c.id, r.token, c.addr)] else []
  }

  function HoldersIn(net: Network, round: nat, next: seq<Contact>): seq<Holder>
  {
    if next == [] then []
    else HoldersIn(net, round, next[..|next| - 1]) + HolderOf(net, round, next[|next| - 1])
  }

  /** Every node of the run that answered with a token, with its own token. */
  function Holders(net: Network, rounds: seq<seq<Contact>>): seq<Holder>
  {
    if rounds == [] then []
    else
      var n := |rounds| - 1;
      Holders(net, rounds[..n]) + HoldersIn(net, n, rounds[n])
  }

  /** Some node asked in the run answered, at its own address, with this token. */
  ghost predicate Issued(net: Network, rounds: seq<seq<Contact>>, h: Holder)
  {
    exists n, c :: 0 <= n < |rounds| && c in rounds[n] && IssuedBy(net, n, c, h)
  }

  ghost predicate IssuedBy(net: Network, round: nat, c: Contact, h: Holder)
  {
    var r := net.reply(round, c);
    (r.Peers? || r.PeersNodes?) && h.id == c.id && h.token == r.token && h.addr == c.addr
  }

  lemma {:induction false} HoldersInMember(net: Network, round: nat, next: seq<Contact>, h: Holder)
    ensures h in HoldersIn(net, round, next) <==> exists c :: c in next && IssuedBy(net, round, c, h)
  {
    if next != [] {
      var front, last := next[..|next| - 1], next[|next| - 1];
      HoldersInMember(net, round, front, h);
      assert next == front + [last];
      assert h in HolderOf(net, round, last) <==> IssuedBy(net, round, last, h);
    }
  }

  lemma {:induction false} HoldersMember(net: Network, rounds: seq<seq<Contact>>, h: Holder)
    ensures h in Holders(net, rounds) <==> Issued(net, rounds, h)
  {
    hide IssuedBy;
    if rounds != [] {
      var n := |rounds| - 1;
      HoldersMember(net, rounds[..n], h);
      HoldersInMember(net, n, rounds[n], h);
      if Issued(net, rounds[..n], h) {
        var m, c :| 0 <= m < n && c in rounds[..n][m] && IssuedBy(net, m, c, h);
        assert c in rounds[m];
      }
      if Issued(net, rounds, h) {
        var m, c :| 0 <= m < |rounds| && c in rounds[m] && IssuedBy(net, m, c, h);
        if m < n { assert c in rounds[..n][m]; }
      }
    }
  }

  /** The token table: id to token and address. */
  type Tokens = map<NodeId, (bytes, Addr)>

  function Store(tokens: Tokens, hs: seq<Holder>): Tokens
  {
    if hs == [] then tokens
    else Store(tokens, hs[..|hs| - 1])[hs[|hs| - 1].id := (hs[|hs| - 1].token, hs[|hs| - 1].addr)]
  }

  lemma {:induction false} StoreConcat(tokens: Tokens, a: seq<Holder>, b: seq<Holder>)
    ensures Store(tokens, a + b) == Store(Store(tokens, a), b)
  {
    if b == [] {
      assert a + b == a;
    } else {
      assert (a + b)[..|a + b| - 1] == a + b[..|b| - 1];
      StoreConcat(tokens, a, b[..|b| - 1]);
    }
  }

  ghost predicate DistinctHolders(hs: seq<Holder>)
  {
    forall i, j :: 0 <= i < j < |hs| ==> hs[i].id != hs[j].id
  }

  /** With distinct ids the table and the list say the same. */
  lemma {:induction false} StoreHolds(hs: seq<Holder>, h: Holder)
    requires DistinctHolders(hs)
    ensures var m := Store(map[], hs); h in hs <==> h.id in m && m[h.id] == (h.token, h.addr)
  {
    if hs != [] {
      var front, last := hs[..|hs| - 1], hs[|hs| - 1];
      StoreHolds(front, h);
      LastIsNew(hs, h);
    }
  }

  lemma LastIsNew(hs: seq<Holder>, h: Holder)
    requires DistinctHolders(hs) && hs != []
    ensures h in hs <==> h in hs[..|hs| - 1] || h == hs[|hs| - 1]
    ensures h in hs[..|hs| - 1] ==> h.id != hs[|hs| - 1].id
  {
    var front, last := hs[..|hs| - 1], hs[|hs| - 1];
    assert hs == front + [last];
    if h in front {
      var i :| 0 <= i < |front| && front[i] == h;
      assert hs[i].id != last.id;
    }
  }

  lemma {:induction false} HoldersAsked(net: Network, rounds: seq<seq<Contact>>, h: Holder)
    requires h in Holders(net, rounds)
    ensures exists c :: c in Asked(rounds) && c.id == h.id
  {
    var n := |rounds| - 1;
    var front := rounds[..n];
    if h in Holders(net, front) {
      HoldersAsked(net, front, h);
      var c :| c in Asked(front) && c.id == h.id;
      assert c in Asked(rounds);
    } else {
      HoldersInAsked(net, n, rounds[n], h);
      var c :| c in rounds[n] && c.id == h.id;
      assert c in Asked(rounds);
    }
  }

  lemma {:induction false} HoldersInAsked(net: Network, round: nat, next: seq<Contact>, h: Holder)
    requires h in HoldersIn(net, round, next)
    ensures exists c :: c in next && c.id == h.id
  {
    var front := next[..|next| - 1];
    if h in HoldersIn(net, round, front) {
      HoldersInAsked(net, round, front, h);
      var c :| c in front && c.id == h.id;
      assert c in next;
    } else {
      assert next[|next| - 1] in next;
    }
  }

  /** A list of contacts with distinct ids yields holders with distinct ids. */
  lemma {:induction false} HoldersInDistinct(net: Network, round: nat, next: seq<Contact>)
    requires Distinct(Ids(next))
    ensures DistinctHolders(HoldersIn(net, round, next))
  {
    if next != [] {
      var front, c := next[..|next| - 1], next[|next| - 1];
      var a, b := HoldersIn(net, round, front), HolderOf(net, round, c);
      assert next == front + [c];
      DistinctSplit(front, [c]);
      HoldersInDistinct(net, round, front);
      forall h | h in a ensures h.id != c.id {
        HoldersInAsked(net, round, front, h);
        assert c in [c];
      }
      DistinctAppend(a, b);
    }
  }

  lemma DistinctAppend(a: seq<Holder>, b: seq<Holder>)
    requires DistinctHolders(a) && DistinctHolders(b)
    requires forall x, y :: x in a && y in b ==> x.id != y.id
    ensures DistinctHolders(a + b)
  {
    var s := a + b;
    forall i, j | 0 <= i < j < |s| ensures s[i].id != s[j].id {
      if i < |a| <= j { assert s[i] in a && s[j] in b; }
    }
  }

  lemma {:induction false} HoldersDistinct(net: Network, rounds: seq<seq<Contact>>)
    requires Distinct(Ids(Asked(rounds)))
    ensures DistinctHolders(Holders(net, rounds))
  {
    if rounds != [] {
      var n := |rounds| - 1;
      var front, next := rounds[..n], rounds[n];
      DistinctSplit(Asked(front), next);
      HoldersDistinct(net, front);
      HoldersInDistinct(net, n, next);
      var a, b := Holders(net, front), HoldersIn(net, n, next);
      forall x, y | x in a && y in b ensures x.id != y.id {
        HoldersAsked(net, front, x);
        HoldersInAsked(net, n, next, y);
      }
      DistinctAppend(a, b);
    }
  }

  lemma DistinctParts(a: seq<NodeId>, b: seq<NodeId>)
    requires Distinct(a + b)
    ensures Distinct(a) && Distinct(b)
    ensures forall i, j :: 0 <= i < |a| && 0 <= j < |b| ==> a[i] != b[j]
  {
    var s := a + b;
    assert forall i :: 0 <= i < |a| ==> s[i] == a[i];
    assert forall j :: 0 <= j < |b| ==> s[|a| + j] == b[j];
  }

  lemma DistinctSplit(a: seq<Contact>, b: seq<Contact>)
    requires Distinct(Ids(a + b))
    ensures Distinct(Ids(a)) && Distinct(Ids(b))
    ensures forall x, y :: x in a && y in b ==> x.id != y.id
  {
    hide Ids;
    IdsConcat(a, b);
    DistinctParts(Ids(a), Ids(b));
    forall x, y | x in a && y in b ensures x.id != y.id {
      var i :| 0 <= i < |a| && a[i] == x;
      var j :| 0 <= j < |b| && b[j] == y;
      assert Ids(a)[i] != Ids(b)[j];
    }
  }

  function HolderDist(target: NodeId): Holder -> nat
  {
    (h: Holder) => Dist(h.id, target)
  }

  /** The K nearest of the token holders, and nothing else. */
  ghost predicate NearestHolders(r: seq<Holder>, hs: seq<Holder>, target: NodeId)
  {
    && StrictlySorted(r, HolderDist(target))
    && |r| <= K
    && (forall h :: h in r ==> h in hs)
    && (forall h :: h in hs ==> h in r || (|r| == K && forall g :: g in r ==> Dist(g.id, target) < Dist(h.id, target)))
  }

  /** The same, of those who issued a token in the run. */
  ghost predicate NearestIssuers(r: seq<Holder>, net: Network, rounds: seq<seq<Contact>>, target: NodeId)
  {
    && StrictlySorted(r, HolderDist(target))
    && |r| <= K
    && (forall h :: h in r ==> Issued(net, rounds, h))
    && (forall h :: Issued(net, rounds, h) ==> h in r || (|r| == K && forall g :: g in r ==> Dist(g.id, target) < Dist(h.id, target)))
  }

  lemma HoldersAreIssuers(r: seq<Holder>, net: Network, rounds: seq<seq<Contact>>, target: NodeId)
    ensures NearestHolders(r, Holders(net, rounds), target) <==> NearestIssuers(r, net, rounds, target)
  {
    hide Holders;
    hide Issued;
    forall h ensures h in Holders(net, rounds) <==> Issued(net, rounds, h) {
      HoldersMember(net, rounds, h);
    }
  }

  lemma SortedHolders(items: seq<Holder>, hs: seq<Holder>, target: NodeId)
    requires DistinctHolders(items)
    requires forall h :: h in items <==> h in hs
    ensures NearestHolders(Take(Sort(items, HolderDist(target)), K), hs, target)
  {
    var key := HolderDist(target);
    forall i, j | 0 <= i < j < |items| ensures key(items[i]) != key(items[j]) {
      XorMetric(items[i].id, items[j].id, target);
    }
    SortStrict(items, key);
    var s := Sort(items, key);
    TakeNearest(s, K, key);
    var r := Take(s, K);
    forall h | h in r ensures h in hs { SortMember(items, key, h); }
    forall h | h in hs ensures h in r || (|r| == K && forall g :: g in r ==> Dist(g.id, target) < Dist(h.id, target)) {
      SortMember(items, key, h);
      if h !in r {
        forall g | g in r ensures Dist(g.id, target) < Dist(h.id, target) {
          assert key(g) < key(h);
        }
      }
    }
  }

  /** Draining the hash map into a list, in whatever order it iterates. */
  method Drain(tokens: Tokens) returns (items: seq<Holder>)
    ensures DistinctHolders(items)
    ensures forall h :: h in items <==> h.id in tokens && tokens[h.id] == (h.token, h.addr)
  {
    items := [];
    var left := tokens.Keys;
    while left != {}
      invariant left <= tokens.Keys
      invariant DistinctHolders(items)
      invariant forall h :: h in items <==> h.id in tokens.Keys - left && tokens[h.id] == (h.token, h.addr)
      decreases left
    {
      var id :| id in left;
      var h := Holder(id, tokens[id].0, tokens[id].1);
      assert forall x :: x in items ==> x.id != id;
      DistinctAppend(items, [h]);
      items := items + [h];
      left := left - {id};
    }
  }

  method AnnouncePeer(t: Table, target: NodeId, net: Network)
    returns (targets: seq<Holder>, exhausted: bool, rounds: seq<seq<Contact>>)
    requires Valid(t)
    ensures IsRun(GetPeers, net, target, Closest(t, target, 2 * K), rounds)
    ensures forall n :: 0 <= n < |rounds| ==>
              rounds[n] != [] && IsRound(GetPeers, net, target, Closest(t, target, 2 * K), rounds[..n], rounds[n])
    ensures NearestIssuers(targets, net, rounds, target)
    ensures exhausted ==> NextRound(GetPeers, net, target, Closest(t, target, 2 * K), rounds) == []
    ensures exhausted || net.timeUp(|rounds|)
  {
    hide *;
    ghost var initial := Closest(t, target, 2 * K);
    var shortlist := Closest(t, target, 2 * K);
    StartShortlist(t, target);
    RunStart(GetPeers, net, target, initial);
    var queried: set<NodeId> := {};
    var tokens: Tokens := map[];
    var round := 0;
    rounds := [];
    exhausted := false;
    NoHolders(net);
    while !net.timeUp(round)
      invariant round == |rounds|
      invariant IsRun(GetPeers, net, target, initial, rounds)
      invariant shortlist == Take(Nearest(Heard(GetPeers, net, initial, rounds), target), 4 * K)
      invariant queried == IdSet(Asked(rounds))
      invariant tokens == Store(map[], Holders(net, rounds))
      decreases AllStrings(20) - queried
    {
      var next := NextToQuery(shortlist, queried, ALPHA);
      NextRoundIs(GetPeers, net, target, initial, rounds);
      if next == [] {
        exhausted := true;
        break;
      }
      assert next[0] in next && next[0].id !in queried;
      IdSetMember(next, next[0]);
      queried := MarkQueried(queried, next);
      tokens := CollectTokens(net, round, next, tokens);
      shortlist := Gather(GetPeers, net, round, next, shortlist);
      shortlist := Trimmed(shortlist, target);
      RunGrows(GetPeers, net, target, initial, rounds, next);
      HoldersGrow(net, rounds, next);
      rounds, round := rounds + [next], round + 1;
    }
    var closest := Drain(tokens);
    NeverTwice(GetPeers, net, target, initial, rounds);
    HoldersDistinct(net, rounds);
    forall h ensures h in closest <==> h in Holders(net, rounds) {
      StoreHolds(Holders(net, rounds), h);
    }
    SortedHolders(closest, Holders(net, rounds), target);
    targets := Take(Sort(closest, HolderDist(target)), K);
    HoldersAreIssuers(targets, net, rounds, target);
    Convergence(GetPeers, net, target, initial, rounds);
  }

  lemma NoHolders(net: Network)
    ensures Store(map[], Holders(net, [])) == map[]
  {
  }

  lemma HoldersGrow(net: Network, rounds: seq<seq<Contact>>, next: seq<Contact>)
    ensures Store(map[], Holders(net, rounds + [next]))
         == Store(Store(map[], Holders(net, rounds)), HoldersIn(net, |rounds|, next))
  {
    assert (rounds + [next])[..|rounds|] == rounds;
    StoreConcat(map[], Holders(net, rounds), HoldersIn(net, |rounds|, next));
  }

  method CollectTokens(net: Network, round: nat, next: seq<Contact>, tokens0: Tokens) returns (tokens: Tokens)
    ensures tokens == Store(tokens0, HoldersIn(net, round, next))
  {
    tokens := tokens0;
    for i := 0 to |next|
      invariant tokens == Store(tokens0, HoldersIn(net, round, next[..i]))
    {
      var c := next[i];
      var resp := net.reply(round, c);
      assert next[..i + 1][..i] == next[..i];
      StoreConcat(tokens0, HoldersIn(net, round, next[..i]), HolderOf(net, round, c));
      StoreOne(tokens, net, round, c);
      if resp.Peers? || resp.PeersNodes? {
        tokens := tokens[c.id := (resp.token, c.addr)];
      }
    }
    assert next[..|next|] == next;
  }

  lemma StoreOne(tokens: Tokens, net: Network, round: nat, c: Contact)
    ensures var r := net.reply(round, c);
      Store(tokens, HolderOf(net, round, c)) ==
      if r.Peers? || r.PeersNodes? then tokens[c.id := (r.token, c.addr)] else tokens
  {
    var r := net.reply(round, c);
    if r.Peers? || r.PeersNodes? {
      var hs := HolderOf(net, round, c);
      assert hs[..0] == [];
    }
  }

  // ---- who is reached ----

  ghost predicate Increasing(s: seq<nat>)
  {
    forall i, j :: 0 <= i < j < |s| ==> s[i] < s[j]
  }

  /** An increasing list taken from another increasing list cannot outrun it. */
  lemma {:induction false} Rank(r: seq<nat>, all: seq<nat>, i: nat, k: nat)
    requires Increasing(r) && Increasing(all)
    requires i < |r| && k < |all| && all[k] == r[i]
    requires forall x :: x in r ==> x in all
    ensures i <= k
    decreases i
  {
    if i > 0 {
      assert r[i - 1] in r;
      var m :| 0 <= m < |all| && all[m] == r[i - 1];
      Rank(r, all, i - 1, m);
    }
  }

  ghost function Dists(ids: seq<NodeId>, target: NodeId): (r: seq<nat>)
    ensures |r| == |ids| && forall i :: 0 <= i < |ids| ==> r[i] == Dist(ids[i], target)
  {
    seq(|ids|, i requires 0 <= i < |ids| => Dist(ids[i], target))
  }

  function HolderIds(hs: seq<Holder>): (r: seq<NodeId>)
    ensures |r| == |hs| && forall i :: 0 <= i < |hs| ==> r[i] == hs[i].id
  {
    if hs == [] then [] else [hs[0].id] + HolderIds(hs[1..])
  }

  /** The distance of every holder of the run is among those of the reference list. */
  lemma HolderHeard(net: Network, target: NodeId, initial: seq<Contact>, rounds: seq<seq<Contact>>, h: Holder)
    requires IsRun(GetPeers, net, target, initial, rounds) && h in Holders(net, rounds)
    ensures Dist(h.id, target) in Dists(Ids(Nearest(Heard(GetPeers, net, initial, rounds), target)), target)
  {
    hide IsRun;
    hide Holders;
    hide Heard;
    hide Ids;
    hide Asked;
    var heard := Heard(GetPeers, net, initial, rounds);
    var all := Nearest(heard, target);
    RunInv(GetPeers, net, target, initial, rounds);
    HoldersAsked(net, rounds, h);
    var c :| c in Asked(rounds) && c.id == h.id;
    AddAllCovers(heard, ByDist(target), c);
    var y :| y in all && ByDist(target)(y) == ByDist(target)(c);
    var k :| 0 <= k < |all| && all[k] == y;
    assert Dists(Ids(all), target)[k] == Dist(h.id, target);
  }

  /**
   * Every one of the K nearest ids ever heard that issued a token is announced to, with that
   * token. After exhaustion, where all of those have been queried, only silent ones are missed.
   */
  lemma AnnounceReachesNearest(net: Network, target: NodeId, initial: seq<Contact>, rounds: seq<seq<Contact>>,
                               near: seq<Contact>, targets: seq<Holder>, h: Holder)
    ensures
      && IsRun(GetPeers, net, target, initial, rounds)
      && IsNearestHeard(near, GetPeers, net, initial, rounds, target, K)
      && NearestIssuers(targets, net, rounds, target)
      && Issued(net, rounds, h) && Has(near, h.id)
      ==> h in targets
  {
    hide *;
    if IsRun(GetPeers, net, target, initial, rounds) && IsNearestHeard(near, GetPeers, net, initial, rounds, target, K)
       && NearestIssuers(targets, net, rounds, target) && Issued(net, rounds, h) && Has(near, h.id) {
      Convergence(GetPeers, net, target, initial, rounds);
      NearestHeardUnique(near, Take(Nearest(Heard(GetPeers, net, initial, rounds), target), K),
                         GetPeers, net, initial, rounds, target, K, h.id);
      HoldersAreIssuers(targets, net, rounds, target);
      HoldersMember(net, rounds, h);
      Reached(net, target, initial, rounds, targets, h);
    }
  }

  lemma Reached(net: Network, target: NodeId, initial: seq<Contact>,
                rounds: seq<seq<Contact>>, targets: seq<Holder>, h: Holder)
    requires IsRun(GetPeers, net, target, initial, rounds)
    requires NearestHolders(targets, Holders(net, rounds), target)
    requires h in Holders(net, rounds)
    requires Has(Take(Nearest(Heard(GetPeers, net, initial, rounds), target), K), h.id)
    ensures h in targets
  {
    hide Nearest;
    hide Heard;
    hide Holders;
    hide IsRun;
    hide Dist;
    hide Ids;
    var heard := Heard(GetPeers, net, initial, rounds);
    var all := Nearest(heard, target);
    var c :| c in Take(all, K) && c.id == h.id;
    var k :| 0 <= k < |Take(all, K)| && Take(all, K)[k] == c;
    if h !in targets {
      var m := LastTargetRank(net, target, initial, rounds, targets);
      NearestIncreasing(heard, target);
      assert false;
    }
  }

  lemma LastTargetRank(net: Network, target: NodeId, initial: seq<Contact>,
                       rounds: seq<seq<Contact>>, targets: seq<Holder>) returns (m: nat)
    requires IsRun(GetPeers, net, target, initial, rounds)
    requires NearestHolders(targets, Holders(net, rounds), target) && |targets| == K
    ensures var all := Nearest(Heard(GetPeers, net, initial, rounds), target);
      K - 1 <= m < |all| && Dist(all[m].id, target) == Dist(targets[K - 1].id, target)
  {
    hide Nearest;
    hide Heard;
    hide Holders;
    hide IsRun;
    hide Dist;
    var all := Nearest(Heard(GetPeers, net, initial, rounds), target);
    var ds, rs := Dists(Ids(all), target), Dists(HolderIds(targets), target);
    NearestIncreasing(Heard(GetPeers, net, initial, rounds), target);
    HoldersIncreasing(targets, target);
    forall x | x in rs ensures x in ds {
      var i :| 0 <= i < |rs| && rs[i] == x;
      assert targets[i] in targets;
      HolderHeard(net, target, initial, rounds, targets[i]);
    }
    assert rs[K - 1] in rs;
    m :| 0 <= m < |ds| && ds[m] == rs[K - 1];
    Rank(rs, ds, K - 1, m);
  }

  lemma NearestIncreasing(heard: seq<Contact>, target: NodeId)
    ensures Increasing(Dists(Ids(Nearest(heard, target)), target))
  {
    var all := Nearest(heard, target);
    AddAllStrict(heard, ByDist(target));
    forall i, j | 0 <= i < j < |all| ensures Dist(all[i].id, target) < Dist(all[j].id, target) {
      assert ByDist(target)(all[i]) < ByDist(target)(all[j]);
    }
  }

  lemma HoldersIncreasing(hs: seq<Holder>, target: NodeId)
    requires StrictlySorted(hs, HolderDist(target))
    ensures Increasing(Dists(HolderIds(hs), target))
  {
    forall i, j | 0 <= i < j < |hs| ensures Dist(hs[i].id, target) < Dist(hs[j].id, target) {
      assert HolderDist(target)(hs[i]) < HolderDist(target)(hs[j]);
    }
  }
}
