/** Searching for the peers of an info-hash (`lookup_get_peers` in `dht/server.rs`). */
module PeerSearch {
  import opened Distinct
  import opened NodeId
  import opened Net
  import opened Sorting
  import opened Routing
  import opened Lookup

  /** Peers enough to stop early. */
  const SOFT_STOP: nat := 20

  function ValuesOf(r: Reply): seq<Addr>
  {
    if r.Peers? then r.values else []
  }

  function ToldIn(net: Network, round: nat, next: seq<Contact>, peers: seq<Addr>): seq<Addr>
  {
    if next == [] then peers
    else AddNew(ToldIn(net, round, next[..|next| - 1], peers), ValuesOf(net.reply(round, next[|next| - 1])))
  }

  /** Everything the replies of a run told, in order of first mention. */
  function Told(net: Network, rounds: seq<seq<Contact>>): seq<Addr>
  {
    if rounds == [] then []
    else ToldIn(net, |rounds| - 1, rounds[|rounds| - 1], Told(net, rounds[..|rounds| - 1]))
  }

  /** Some queried contact of this round named `a`. */
  ghost predicate NamedIn(net: Network, round: nat, next: seq<Contact>, a: Addr)
  {
    exists c :: c in next && net.reply(round, c).Peers? && a in net.reply(round, c).values
  }

  lemma {:induction false} ToldInMembers(net: Network, round: nat, next: seq<Contact>, peers: seq<Addr>, a: Addr)
    ensures a in ToldIn(net, round, next, peers) <==> a in peers || NamedIn(net, round, next, a)
    ensures NoRepeats(peers) ==> NoRepeats(ToldIn(net, round, next, peers))
  {
    if next != [] {
      var front, c := next[..|next| - 1], next[|next| - 1];
      ToldInMembers(net, round, front, peers, a);
      AddNewMembers(ToldIn(net, round, front, peers), ValuesOf(net.reply(round, c)), a);
      assert next == front + [c];
      if NamedIn(net, round, front, a) {
        var x :| x in front && net.reply(round, x).Peers? && a in net.reply(round, x).values;
        assert x in next;
      }
      if NamedIn(net, round, next, a) {
        var x :| x in next && net.reply(round, x).Peers? && a in net.reply(round, x).values;
        assert x == c || x in front;
      }
    }
  }

  /** Exactly the addresses some reply of the run named, each once. */
  lemma {:induction false} ToldMembers(net: Network, rounds: seq<seq<Contact>>, a: Addr)
    ensures NoRepeats(Told(net, rounds))
    ensures a in Told(net, rounds) <==> exists n :: 0 <= n < |rounds| && NamedIn(net, n, rounds[n], a)
  {
    if rounds != [] {
      var n := |rounds| - 1;
      var front := rounds[..n];
      ToldMembers(net, front, a);
      ToldInMembers(net, n, rounds[n], Told(net, front), a);
      assert forall m :: 0 <= m < n ==> front[m] == rounds[m];
    }
  }

  method Collect(net: Network, round: nat, next: seq<Contact>, peers0: seq<Addr>) returns (peers: seq<Addr>)
    ensures peers == ToldIn(net, round, next, peers0)
  {
    peers := peers0;
    for i := 0 to |next|
      invariant peers == ToldIn(net, round, next[..i], peers0)
    {
      assert next[..i + 1][..i] == next[..i];
      var resp := net.reply(round, next[i]);
      if resp.Peers? {
        peers := PushNew(peers, resp.values);
      }
    }
    assert next[..|next|] == next;
  }

  /** The search ends because nothing is left to ask, the time is up, or enough peers are known; what it
      returns is exactly what the queried nodes named, and it went on as long as it had too few. */
  method LookupGetPeers(t: Table, target: NodeId, net: Network)
    returns (peers: seq<Addr>, exhausted: bool, rounds: seq<seq<Contact>>)
    requires Valid(t)
    ensures IsRun(GetPeers, net, target, Closest(t, target, 2 * K), rounds)
    ensures forall n :: 0 <= n < |rounds| ==>
              rounds[n] != [] && IsRound(GetPeers, net, target, Closest(t, target, 2 * K), rounds[..n], rounds[n])
    ensures peers == Told(net, rounds) && NoRepeats(peers)
    ensures forall a :: a in peers <==> exists n :: 0 <= n < |rounds| && NamedIn(net, n, rounds[n], a)
    ensures exhausted ==> NextRound(GetPeers, net, target, Closest(t, target, 2 * K), rounds) == []
    ensures exhausted || net.timeUp(|rounds|) || |peers| >= SOFT_STOP
    ensures forall n :: 0 < n < |rounds| ==> |Told(net, rounds[..n])| < SOFT_STOP
  {
    hide *;
    ghost var initial := Closest(t, target, 2 * K);
    var shortlist := Closest(t, target, 2 * K);
    StartShortlist(t, target);
    RunStart(GetPeers, net, target, initial);
    var queried: set<NodeId> := {};
    var round := 0;
    rounds, peers, exhausted := [], [], false;
    ToldNothing(net);
    while !net.timeUp(round)
      invariant round == |rounds|
      invariant IsRun(GetPeers, net, target, initial, rounds)
      invariant shortlist == Take(Nearest(Heard(GetPeers, net, initial, rounds), target), 4 * K)
      invariant queried == IdSet(Asked(rounds))
      invariant peers == Told(net, rounds)
      invariant forall n :: 0 < n <= |rounds| ==> |Told(net, rounds[..n])| < SOFT_STOP
      decreases AllStrings(20) - queried
    {
      var next := NextToQuery(shortlist, queried, ALPHA);
      NextRoundIs(GetPeers, net, target, initial, rounds);
      if next == [] {
        exhausted := true;
        break;
      }
      assert next[0] in next && next[0].id !in queried;
      IdSetMember(next, next[0]);
      queried := MarkQueried(queried, next);
      peers := Collect(net, round, next, peers);
      shortlist := Gather(GetPeers, net, round, next, shortlist);
      shortlist := Trimmed(shortlist, target);
      RunGrows(GetPeers, net, target, initial, rounds, next);
      ToldGrows(net, rounds, next);
      ghost var before := rounds;
      rounds, round := rounds + [next], round + 1;
      assert forall n :: 0 < n < |rounds| ==> rounds[..n] == before[..n];
      if |peers| >= SOFT_STOP { break; }
      assert rounds[..|rounds|] == rounds;
    }
    forall a ensures NoRepeats(peers) && (a in peers <==> exists n :: 0 <= n < |rounds| && NamedIn(net, n, rounds[n], a)) {
      ToldMembers(net, rounds, a);
    }
    ToldMembers(net, rounds, V4([0, 0, 0, 0], 0));
    Convergence(GetPeers, net, target, initial, rounds);
  }

  lemma ToldNothing(net: Network)
    ensures Told(net, []) == []
  {
  }

  lemma ToldGrows(net: Network, rounds: seq<seq<Contact>>, next: seq<Contact>)
    ensures Told(net, rounds + [next]) == ToldIn(net, |rounds|, next, Told(net, rounds))
  {
    assert (rounds + [next])[..|rounds|] == rounds;
  }
}
