/** The iterative, alpha-parallel node lookup (`lookup_find_node`, `announce_peer`). */
module Lookup {
  import opened Arith
  import opened Bytes
  import opened NodeId
  import opened Net
  import opened Sorting
  import opened Routing

  const ALPHA: nat := 3

  /** What one query brings back: a timeout, or one of the four response kinds. */
  datatype Reply =
    | NoReply
    | IdOnly
    | Nodes(nodes: seq<Contact>)
    | Peers(token: bytes, values: seq<Addr>)
    | PeersNodes(token: bytes, nodes: seq<Contact>)

  datatype Kind = FindNode | GetPeers

  /** The contacts a reply adds to the shortlist: each kind of lookup reads its own response. */
  function NodesIn(kind: Kind, r: Reply): seq<Contact>
  {
    if kind.FindNode? && r.Nodes? then r.nodes
    else if kind.GetPeers? && r.PeersNodes? then r.nodes
    else []
  }

  /**
   * Everything outside the program: the answer each contact gives when queried in a round,
   * whether the time budget is spent by a round, and which addresses may be dialled.
   */
  datatype Network = Network(reply: (nat, Contact) -> Reply, timeUp: nat -> bool, dialable: Addr -> bool)

  function Dialable(net: Network, nodes: seq<Contact>): seq<Contact>
  {
    if nodes == [] then []
    else (if net.dialable(nodes[0].addr) then [nodes[0]] else []) + Dialable(net, nodes[1..])
  }

  /** `filter(unqueried).take(n)`. */
  function NextToQuery(shortlist: seq<Contact>, queried: set<NodeId>, n: nat): (r: seq<Contact>)
    ensures |r| <= n
    ensures forall c :: c in r ==> c in shortlist && c.id !in queried
  {
    if n == 0 || shortlist == [] then []
    else if shortlist[0].id in queried then NextToQuery(shortlist[1..], queried, n)
    else [shortlist[0]] + NextToQuery(shortlist[1..], queried, n - 1)
  }

  /** They are the nearest unqueried ones: whatever unqueried entry is passed over is farther. */
  lemma {:induction false} NextIsNearest(shortlist: seq<Contact>, queried: set<NodeId>, n: nat, target: NodeId)
    requires StrictlySorted(shortlist, ByDist(target))
    ensures var r := NextToQuery(shortlist, queried, n);
      && StrictlySorted(r, ByDist(target))
      && (forall c, x :: c in r && x in shortlist && x.id !in queried && x !in r ==> Dist(c.id, target) < Dist(x.id, target))
      && (|r| < n ==> forall x :: x in shortlist && x.id !in queried ==> x in r)
  {
    NextSorted(shortlist, queried, n, ByDist(target));
    var r := NextToQuery(shortlist, queried, n);
    forall c, x | c in r && x in shortlist && x.id !in queried && x !in r ensures Dist(c.id, target) < Dist(x.id, target) {
      NextPassesOver(shortlist, queried, n, ByDist(target), c, x);
      assert ByDist(target)(c) < ByDist(target)(x);
    }
    NextExhausts(shortlist, queried, n);
  }

  lemma {:induction false} NextSorted(shortlist: seq<Contact>, queried: set<NodeId>, n: nat, key: Contact -> nat)
    requires StrictlySorted(shortlist, key)
    ensures StrictlySorted(NextToQuery(shortlist, queried, n), key)
  {
    if n > 0 && shortlist != [] {
      var h, rest := shortlist[0], shortlist[1..];
      NextSorted(rest, queried, if h.id in queried then n else n - 1, key);
      if h.id !in queried {
        StrictCons(h, NextToQuery(rest, queried, n - 1), key);
      }
    }
  }

  lemma NextNonEmpty(shortlist: seq<Contact>, queried: set<NodeId>, n: nat)
    requires NextToQuery(shortlist, queried, n) != []
    ensures n > 0 && shortlist != []
    ensures NextToQuery(shortlist, queried, n) ==
            if shortlist[0].id in queried then NextToQuery(shortlist[1..], queried, n)
            else [shortlist[0]] + NextToQuery(shortlist[1..], queried, n - 1)
  {
  }

  lemma {:induction false} NextPassesOver(shortlist: seq<Contact>, queried: set<NodeId>, n: nat, key: Contact -> nat, c: Contact, x: Contact)
    requires StrictlySorted(shortlist, key)
    requires c in NextToQuery(shortlist, queried, n)
    requires x in shortlist && x.id !in queried && x !in NextToQuery(shortlist, queried, n)
    ensures key(c) < key(x)
  {
    NextNonEmpty(shortlist, queried, n);
    var h, rest := shortlist[0], shortlist[1..];
    var m := if h.id in queried then n else n - 1;
    StrictHead(shortlist, key, x);
    assert shortlist == [h] + rest;
    hide StrictlySorted;
    hide NextToQuery;
    if c in NextToQuery(rest, queried, m) {
      assert x !in NextToQuery(rest, queried, m);
      NextPassesOver(rest, queried, m, key, c, x);
    } else {
      assert c == h != x;
    }
  }

  lemma StrictHead(s: seq<Contact>, key: Contact -> nat, x: Contact)
    requires s != [] && StrictlySorted(s, key)
    ensures StrictlySorted(s[1..], key) && (x in s[1..] ==> key(s[0]) < key(x))
  {
    if x in s[1..] {
      var i :| 0 <= i < |s| - 1 && s[1..][i] == x;
      assert s[i + 1] == x;
    }
  }

  lemma {:induction false} NextExhausts(shortlist: seq<Contact>, queried: set<NodeId>, n: nat)
    ensures var r := NextToQuery(shortlist, queried, n);
      |r| < n ==> forall x :: x in shortlist && x.id !in queried ==> x in r
  {
    if n > 0 && shortlist != [] {
      NextExhausts(shortlist[1..], queried, if shortlist[0].id in queried then n else n - 1);
      assert shortlist == [shortlist[0]] + shortlist[1..];
    }
  }

  /** All contacts the replies of one round teach, in the order the tasks are awaited. */
  function Learned(kind: Kind, net: Network, round: nat, next: seq<Contact>): seq<Contact>
  {
    if next == [] then []
    else Learned(kind, net, round, next[..|next| - 1]) + Dialable(net, NodesIn(kind, net.reply(round, next[|next| - 1])))
  }

  /** Sort by distance, drop repeated ids, keep the nearest `4 * K`. */
  function Trimmed(s: seq<Contact>, target: NodeId): seq<Contact>
  {
    Take(DedupIds(Sort(s, ByDist(target))), 4 * K)
  }

  /** `dedup_by_key(id)`. */
  function DedupIds(s: seq<Contact>): seq<Contact>
    decreases |s|
  {
    if |s| < 2 then s
    else if s[0].id == s[1].id then DedupIds([s[0]] + s[2..])
    else [s[0]] + DedupIds(s[1..])
  }

  lemma {:induction false} DedupIdsIsDedup(s: seq<Contact>, target: NodeId)
    ensures DedupIds(s) == Dedup(s, ByDist(target))
    decreases |s|
  {
    if |s| >= 2 {
      XorMetric(s[0].id, s[1].id, target);
      DedupIdsIsDedup([s[0]] + s[2..], target);
      DedupIdsIsDedup(s[1..], target);
    }
  }

  /** The reference: every contact heard, each id once as first heard, nearest first. */
  ghost function Nearest(heard: seq<Contact>, target: NodeId): seq<Contact>
  {
    AddAll([], heard, ByDist(target))
  }

  lemma TrimStep(heard: seq<Contact>, new': seq<Contact>, target: NodeId)
    ensures Trimmed(Take(Nearest(heard, target), 4 * K) + new', target)
         == Take(Nearest(heard + new', target), 4 * K)
  {
    var s := Take(Nearest(heard, target), 4 * K) + new';
    DedupIdsIsDedup(Sort(s, ByDist(target)), target);
    ShortlistStep(heard, new', 4 * K, ByDist(target));
  }

  // ---- the id space is finite ----

  ghost function AllStrings(n: nat): (r: set<bytes>)
    ensures forall s: bytes :: s in r <==> |s| == n
  {
    if n == 0 then {[]}
    else
      var r := set p, b: byte | p in AllStrings(n - 1) && 0 <= b < 256 :: p + [b];
      assert forall s: bytes :: |s| == n ==> s in r by {
        forall s: bytes | |s| == n ensures s in r {
          assert s == s[..n - 1] + [s[n - 1]] && s[..n - 1] in AllStrings(n - 1);
        }
      }
      r
  }

  // ---- the loop ----

  ghost predicate Distinct(ids: seq<NodeId>)
  {
    forall i, j :: 0 <= i < j < |ids| ==> ids[i] != ids[j]
  }

  function Ids(cs: seq<Contact>): (r: seq<NodeId>)
    ensures |r| == |cs| && forall i :: 0 <= i < |cs| ==> r[i] == cs[i].id
  {
    if cs == [] then [] else [cs[0].id] + Ids(cs[1..])
  }

  /** Everything that holds between rounds. `asked` is the trace of queries sent. */
  ghost predicate Inv(target: NodeId, heard: seq<Contact>, shortlist: seq<Contact>,
                      queried: set<NodeId>, asked: seq<Contact>)
  {
    && shortlist == Take(Nearest(heard, target), 4 * K)
    && Distinct(Ids(asked))
    && (forall id :: id in queried <==> id in Ids(asked))
    && (forall c :: c in asked ==> c in heard)
  }

  lemma RoundKeepsInv(target: NodeId, heard: seq<Contact>, shortlist: seq<Contact>, queried: set<NodeId>,
                      asked: seq<Contact>, next: seq<Contact>, new': seq<Contact>)
    requires Inv(target, heard, shortlist, queried, asked)
    requires next == NextToQuery(shortlist, queried, ALPHA)
    ensures Inv(target, heard + new', Trimmed(shortlist + new', target), queried + IdSet(next), asked + next)
  {
    hide Trimmed;
    hide Nearest;
    TrimStep(heard, new', target);
    ShortlistMembers(heard, target);
    NextDistinct(heard, shortlist, queried, target);
    AskedDistinct(queried, asked, next);
    AskedIds(queried, asked, next);
  }

  ghost function IdSet(cs: seq<Contact>): set<NodeId>
  {
    set c | c in cs :: c.id
  }

  lemma AskedDistinct(queried: set<NodeId>, asked: seq<Contact>, next: seq<Contact>)
    requires Distinct(Ids(asked)) && (forall id :: id in queried <==> id in Ids(asked))
    requires forall c :: c in next ==> c.id !in queried
    requires forall i, j :: 0 <= i < j < |next| ==> next[i].id != next[j].id
    ensures Distinct(Ids(asked + next))
  {
    IdsConcat(asked, next);
    var a, b := Ids(asked), Ids(next);
    hide Ids;
    forall id | id in b ensures id !in a {
      var k :| 0 <= k < |b| && b[k] == id;
      assert next[k] in next;
    }
    DistinctConcat(a, b);
  }

  lemma DistinctConcat(a: seq<NodeId>, b: seq<NodeId>)
    requires Distinct(a) && Distinct(b) && forall id :: id in b ==> id !in a
    ensures Distinct(a + b)
  {
    var s := a + b;
    forall i, j | 0 <= i < j < |s| ensures s[i] != s[j] {
      if i < |a| <= j { assert s[i] in a && s[j] in b; }
    }
  }

  lemma AskedIds(queried: set<NodeId>, asked: seq<Contact>, next: seq<Contact>)
    requires forall id :: id in queried <==> id in Ids(asked)
    ensures forall id :: id in queried + IdSet(next) <==> id in Ids(asked + next)
  {
    IdsConcat(asked, next);
    forall id: NodeId ensures id in IdSet(next) <==> id in Ids(next) {
      if id in IdSet(next) {
        var c :| c in next && c.id == id;
        var k :| 0 <= k < |next| && next[k] == c;
        assert Ids(next)[k] == id;
      }
      if id in Ids(next) {
        var k :| 0 <= k < |next| && Ids(next)[k] == id;
        assert next[k] in next;
      }
    }
  }

  lemma IdsConcat(a: seq<Contact>, b: seq<Contact>)
    ensures Ids(a + b) == Ids(a) + Ids(b)
  {
  }

  /** The shortlist is strictly sorted and made of contacts heard. */
  lemma ShortlistMembers(heard: seq<Contact>, target: NodeId)
    ensures StrictlySorted(Take(Nearest(heard, target), 4 * K), ByDist(target))
    ensures forall c :: c in Take(Nearest(heard, target), 4 * K) ==> c in heard
  {
    AddAllStrict(heard, ByDist(target));
    TakeNearest(Nearest(heard, target), 4 * K, ByDist(target));
    forall c | c in Nearest(heard, target) ensures c in heard {
      AddAllFirst(heard, ByDist(target), c);
    }
  }

  lemma NextDistinct(heard: seq<Contact>, shortlist: seq<Contact>, queried: set<NodeId>, target: NodeId)
    requires shortlist == Take(Nearest(heard, target), 4 * K)
    ensures var next := NextToQuery(shortlist, queried, ALPHA);
      forall i, j :: 0 <= i < j < |next| ==> next[i].id != next[j].id
  {
    ShortlistMembers(heard, target);
    NextIsNearest(shortlist, queried, ALPHA, target);
    var next := NextToQuery(shortlist, queried, ALPHA);
    forall i, j | 0 <= i < j < |next| ensures next[i].id != next[j].id {
      assert ByDist(target)(next[i]) < ByDist(target)(next[j]);
    }
  }

  // ---- runs ----

  function Asked(rounds: seq<seq<Contact>>): seq<Contact>
  {
    if rounds == [] then [] else Asked(rounds[..|rounds| - 1]) + rounds[|rounds| - 1]
  }

  /** Everything heard by the end of the given rounds: the initial list, then each round's lessons. */
  function Heard(kind: Kind, net: Network, initial: seq<Contact>, rounds: seq<seq<Contact>>): seq<Contact>
  {
    if rounds == [] then initial
    else
      var n := |rounds| - 1;
      Heard(kind, net, initial, rounds[..n]) + Learned(kind, net, n, rounds[n])
  }

  ghost function NextRound(kind: Kind, net: Network, target: NodeId, initial: seq<Contact>,
                           rounds: seq<seq<Contact>>): seq<Contact>
  {
    NextToQuery(Take(Nearest(Heard(kind, net, initial, rounds), target), 4 * K), IdSet(Asked(rounds)), ALPHA)
  }

  /** Each round queries the nearest unqueried entries of the `4 * K` nearest heard so far. */
  ghost predicate IsRun(kind: Kind, net: Network, target: NodeId, initial: seq<Contact>, rounds: seq<seq<Contact>>)
  {
    rounds == [] ||
    var front := rounds[..|rounds| - 1];
    && IsRun(kind, net, target, initial, front)
    && rounds[|rounds| - 1] != []
    && rounds[|rounds| - 1] == NextRound(kind, net, target, initial, front)
  }

  lemma IdSetIds(cs: seq<Contact>)
    ensures forall id :: id in IdSet(cs) <==> id in Ids(cs)
  {
    AskedIds({}, [], cs);
    assert [] + cs == cs && {} + IdSet(cs) == IdSet(cs);
  }

  lemma IdSetConcat(a: seq<Contact>, b: seq<Contact>)
    ensures IdSet(a + b) == IdSet(a) + IdSet(b)
  {
    IdSetIds(a);
    IdSetIds(b);
    IdSetIds(a + b);
    IdsConcat(a, b);
  }

  lemma {:induction false} RunInv(kind: Kind, net: Network, target: NodeId, initial: seq<Contact>,
                                  rounds: seq<seq<Contact>>)
    requires IsRun(kind, net, target, initial, rounds)
    ensures var heard := Heard(kind, net, initial, rounds);
      Inv(target, heard, Take(Nearest(heard, target), 4 * K), IdSet(Asked(rounds)), Asked(rounds))
  {
    IdSetIds(Asked(rounds));
    if rounds != [] {
      var n := |rounds| - 1;
      var front, next := rounds[..n], rounds[n];
      RunInv(kind, net, target, initial, front);
      var heard, new' := Heard(kind, net, initial, front), Learned(kind, net, n, next);
      RoundKeepsInv(target, heard, Take(Nearest(heard, target), 4 * K), IdSet(Asked(front)), Asked(front), next, new');
      TrimStep(heard, new', target);
      IdSetConcat(Asked(front), next);
    }
  }

  /** Over a whole run, in which every reply is arbitrary, no id is ever queried twice. */
  lemma NeverTwice(kind: Kind, net: Network, target: NodeId, initial: seq<Contact>, rounds: seq<seq<Contact>>)
    ensures IsRun(kind, net, target, initial, rounds) ==>
        && Distinct(Ids(Asked(rounds)))
        && (forall n :: 0 <= n < |rounds| ==> |rounds[n]| <= ALPHA)
  {
    if IsRun(kind, net, target, initial, rounds) {
      RunInv(kind, net, target, initial, rounds);
      forall n | 0 <= n < |rounds| ensures |rounds[n]| <= ALPHA {
        RoundSmall(kind, net, target, initial, rounds, n);
      }
    }
  }

  lemma {:induction false} RoundSmall(kind: Kind, net: Network, target: NodeId, initial: seq<Contact>,
                                      rounds: seq<seq<Contact>>, n: nat)
    requires IsRun(kind, net, target, initial, rounds) && n < |rounds|
    ensures |rounds[n]| <= ALPHA
    decreases |rounds|
  {
    hide NextToQuery;
    hide Nearest;
    if n < |rounds| - 1 { RoundSmall(kind, net, target, initial, rounds[..|rounds| - 1], n); }
  }

  // ---- where a contact was heard ----

  /** A position in everything heard: the initial list is round -1; within a round, by query, then by item. */
  datatype Place = Place(round: int, query: nat, item: nat)

  ghost predicate Before(p: Place, q: Place)
  {
    p.round < q.round || (p.round == q.round && (p.query < q.query || (p.query == q.query && p.item < q.item)))
  }

  ghost predicate Increasing(ps: seq<Place>)
  {
    forall i, j :: 0 <= i < j < |ps| ==> Before(ps[i], ps[j])
  }

  /** The answer of `q` in this round carries the dialable contact `c`: each kind of lookup reads its own response. */
  ghost predicate LessonAt(kind: Kind, net: Network, round: nat, q: Contact, item: nat, c: Contact)
  {
    var r := net.reply(round, q);
    && net.dialable(c.addr)
    && (if kind.FindNode? then r.Nodes? && item < |r.nodes| && r.nodes[item] == c
        else r.PeersNodes? && item < |r.nodes| && r.nodes[item] == c)
  }

  ghost predicate HeardAt(kind: Kind, net: Network, initial: seq<Contact>, rounds: seq<seq<Contact>>, p: Place, c: Contact)
  {
    if p.round < 0 then p.round == -1 && p.query == 0 && p.item < |initial| && initial[p.item] == c
    else p.round < |rounds| && p.query < |rounds[p.round]| && LessonAt(kind, net, p.round, rounds[p.round][p.query], p.item, c)
  }

  /** `c` was heard, and nothing with its id was heard earlier. */
  ghost predicate FirstHeard(kind: Kind, net: Network, initial: seq<Contact>, rounds: seq<seq<Contact>>, c: Contact)
  {
    exists p :: HeardAt(kind, net, initial, rounds, p, c) &&
      forall q, x :: HeardAt(kind, net, initial, rounds, q, x) && x.id == c.id ==> !Before(q, p)
  }

  /** `r` is exactly the `n` nearest distinct ids ever heard, each as first heard. */
  ghost predicate IsNearestHeard(r: seq<Contact>, kind: Kind, net: Network, initial: seq<Contact>, rounds: seq<seq<Contact>>,
                                 target: NodeId, n: nat)
  {
    && StrictlySorted(r, ByDist(target))
    && |r| <= n
    && (forall c :: c in r ==> FirstHeard(kind, net, initial, rounds, c))
    && (forall p, x :: HeardAt(kind, net, initial, rounds, p, x) ==>
          Has(r, x.id) || (|r| == n && forall c :: c in r ==> Dist(c.id, target) < Dist(x.id, target)))
  }

  lemma {:induction false} DialableConcat(net: Network, a: seq<Contact>, b: seq<Contact>)
    ensures Dialable(net, a + b) == Dialable(net, a) + Dialable(net, b)
  {
    if a == [] {
      assert a + b == b;
    } else {
      assert (a + b)[1..] == a[1..] + b;
      DialableConcat(net, a[1..], b);
    }
  }

  /** Exactly the dialable nodes, in their order. */
  ghost predicate Selected(net: Network, nodes: seq<Contact>, out: seq<Contact>, n: int, q: nat, ps: seq<Place>)
  {
    && |ps| == |out| && Increasing(ps)
    && (forall k :: 0 <= k < |ps| ==>
          && ps[k].round == n && ps[k].query == q && ps[k].item < |nodes|
          && nodes[ps[k].item] == out[k] && net.dialable(out[k].addr))
    && (forall i :: 0 <= i < |nodes| && net.dialable(nodes[i].addr) ==> Place(n, q, i) in ps)
  }

  lemma {:induction false} DialablePlaces(net: Network, nodes: seq<Contact>, n: int, q: nat) returns (ps: seq<Place>)
    ensures Selected(net, nodes, Dialable(net, nodes), n, q, ps)
  {
    if nodes == [] {
      ps := [];
    } else {
      var m := |nodes| - 1;
      var front, last := nodes[..m], nodes[m];
      assert nodes == front + [last];
      var fs := DialablePlaces(net, front, n, q);
      DialableConcat(net, front, [last]);
      ps := fs + if net.dialable(last.addr) then [Place(n, q, m)] else [];
      SelectedSnoc(net, front, last, Dialable(net, front), n, q, fs);
    }
  }

  lemma SelectedSnoc(net: Network, front: seq<Contact>, last: Contact, out: seq<Contact>, n: int, q: nat, fs: seq<Place>)
    requires Selected(net, front, out, n, q, fs)
    ensures
      var yes := net.dialable(last.addr);
      Selected(net, front + [last], out + (if yes then [last] else []), n, q, fs + if yes then [Place(n, q, |front|)] else [])
  {
    if net.dialable(last.addr) {
      IncreasingConcat(fs, [Place(n, q, |front|)]);
    } else {
      assert fs + [] == fs && out + [] == out;
    }
  }

  /** The filter keeps exactly the dialable contacts. */
  lemma DialableMember(net: Network, nodes: seq<Contact>, c: Contact)
    ensures c in Dialable(net, nodes) <==> c in nodes && net.dialable(c.addr)
  {
    var ps := DialablePlaces(net, nodes, 0, 0);
    if c in nodes && net.dialable(c.addr) {
      var i :| 0 <= i < |nodes| && nodes[i] == c;
      var k :| 0 <= k < |ps| && ps[k] == Place(0, 0, i);
      assert Dialable(net, nodes)[k] == c;
    }
    if c in Dialable(net, nodes) {
      var k :| 0 <= k < |ps| && Dialable(net, nodes)[k] == c;
      assert nodes[ps[k].item] == c;
    }
  }

  /** Exactly what the replies of one round teach, in the order the tasks are awaited. */
  ghost predicate Taught(kind: Kind, net: Network, round: nat, next: seq<Contact>, out: seq<Contact>, ps: seq<Place>)
  {
    && |ps| == |out| && Increasing(ps)
    && (forall k :: 0 <= k < |ps| ==>
          && ps[k].round == round && ps[k].query < |next|
          && LessonAt(kind, net, round, next[ps[k].query], ps[k].item, out[k]))
    && (forall q, i, c :: 0 <= q < |next| && LessonAt(kind, net, round, next[q], i, c) ==> Place(round, q, i) in ps)
  }

  lemma {:induction false} LearnedPlaces(kind: Kind, net: Network, round: nat, next: seq<Contact>) returns (ps: seq<Place>)
    ensures Taught(kind, net, round, next, Learned(kind, net, round, next), ps)
  {
    if next == [] {
      ps := [];
    } else {
      var m := |next| - 1;
      var front, last := next[..m], next[m];
      var fs := LearnedPlaces(kind, net, round, front);
      var nodes := NodesIn(kind, net.reply(round, last));
      var ls := DialablePlaces(net, nodes, round, m);
      ps := fs + ls;
      LearnedJoins(kind, net, round, next, Learned(kind, net, round, front), fs, Dialable(net, nodes), ls);
    }
  }

  lemma LearnedJoins(kind: Kind, net: Network, round: nat, next: seq<Contact>, a: seq<Contact>, fs: seq<Place>,
                     b: seq<Contact>, ls: seq<Place>)
    requires next != []
    requires Taught(kind, net, round, next[..|next| - 1], a, fs)
    requires Selected(net, NodesIn(kind, net.reply(round, next[|next| - 1])), b, round, |next| - 1, ls)
    ensures Taught(kind, net, round, next, a + b, fs + ls)
  {
    var m := |next| - 1;
    IncreasingConcat(fs, ls);
    forall q, i, c | 0 <= q < |next| && LessonAt(kind, net, round, next[q], i, c) ensures Place(round, q, i) in fs + ls {
      if q < m {
        assert next[..m][q] == next[q];
      }
    }
  }

  lemma IncreasingConcat(a: seq<Place>, b: seq<Place>)
    requires Increasing(a) && Increasing(b)
    requires forall i, j :: 0 <= i < |a| && 0 <= j < |b| ==> Before(a[i], b[j])
    ensures Increasing(a + b)
  {
    var s := a + b;
    forall i, j | 0 <= i < j < |s| ensures Before(s[i], s[j]) {
      if i < |a| <= j { assert Before(a[i], b[j - |a|]); }
    }
  }

  /** `heard` is everything heard, in order. */
  ghost predicate Chronicle(kind: Kind, net: Network, initial: seq<Contact>, rounds: seq<seq<Contact>>,
                            heard: seq<Contact>, ps: seq<Place>)
  {
    && |ps| == |heard| && Increasing(ps)
    && (forall k :: 0 <= k < |ps| ==> HeardAt(kind, net, initial, rounds, ps[k], heard[k]))
    && (forall p, c :: HeardAt(kind, net, initial, rounds, p, c) ==> p in ps)
  }

  lemma {:induction false} HeardPlaces(kind: Kind, net: Network, initial: seq<Contact>, rounds: seq<seq<Contact>>)
    returns (ps: seq<Place>)
    ensures Chronicle(kind, net, initial, rounds, Heard(kind, net, initial, rounds), ps)
  {
    if rounds == [] {
      ps := seq(|initial|, i requires 0 <= i < |initial| => Place(-1, 0, i));
      forall p, c | HeardAt(kind, net, initial, rounds, p, c) ensures p in ps {
        assert ps[p.item] == p;
      }
    } else {
      var n := |rounds| - 1;
      var fs := HeardPlaces(kind, net, initial, rounds[..n]);
      var ls := LearnedPlaces(kind, net, n, rounds[n]);
      ps := fs + ls;
      HeardJoins(kind, net, initial, rounds, Heard(kind, net, initial, rounds[..n]), fs, Learned(kind, net, n, rounds[n]), ls);
    }
  }

  lemma HeardJoins(kind: Kind, net: Network, initial: seq<Contact>, rounds: seq<seq<Contact>>,
                   a: seq<Contact>, fs: seq<Place>, b: seq<Contact>, ls: seq<Place>)
    requires rounds != []
    requires Chronicle(kind, net, initial, rounds[..|rounds| - 1], a, fs)
    requires Taught(kind, net, |rounds| - 1, rounds[|rounds| - 1], b, ls)
    ensures Chronicle(kind, net, initial, rounds, a + b, fs + ls)
  {
    hide LessonAt;
    var n := |rounds| - 1;
    IncreasingConcat(fs, ls);
    forall p, c | HeardAt(kind, net, initial, rounds, p, c) ensures p in fs + ls {
      if p.round < n {
        assert HeardAt(kind, net, initial, rounds[..n], p, c);
      } else {
        assert p == Place(n, p.query, p.item);
      }
    }
  }

  /** First in the list is first in time. */
  lemma ListFirstIsFirst(kind: Kind, net: Network, initial: seq<Contact>, rounds: seq<seq<Contact>>,
                         heard: seq<Contact>, ps: seq<Place>, c: Contact)
    requires Chronicle(kind, net, initial, rounds, heard, ps) && FirstWithId(heard, c)
    ensures FirstHeard(kind, net, initial, rounds, c)
  {
    hide HeardAt;
    var i :| 0 <= i < |heard| && heard[i] == c && forall j :: 0 <= j < i ==> heard[j].id != c.id;
    assert HeardAt(kind, net, initial, rounds, ps[i], c);
    forall q, x | HeardAt(kind, net, initial, rounds, q, x) && x.id == c.id ensures !Before(q, ps[i]) {
      var j :| 0 <= j < |ps| && ps[j] == q;
      SamePlace(kind, net, initial, rounds, q, x, heard[j]);
    }
  }

  lemma SamePlace(kind: Kind, net: Network, initial: seq<Contact>, rounds: seq<seq<Contact>>, p: Place, x: Contact, y: Contact)
    requires HeardAt(kind, net, initial, rounds, p, x) && HeardAt(kind, net, initial, rounds, p, y)
    ensures x == y
  {
  }

  /** The list holds exactly the initial contacts and the dialable ones the run's replies of the right kind named. */
  lemma HeardMember(kind: Kind, net: Network, initial: seq<Contact>, rounds: seq<seq<Contact>>, c: Contact)
    ensures c in Heard(kind, net, initial, rounds) <==>
            c in initial || exists n, q, i :: 0 <= n < |rounds| && q in rounds[n] && LessonAt(kind, net, n, q, i, c)
  {
    hide Heard;
    hide LessonAt;
    var heard := Heard(kind, net, initial, rounds);
    var ps := HeardPlaces(kind, net, initial, rounds);
    if c in heard {
      var k :| 0 <= k < |heard| && heard[k] == c;
      assert HeardAt(kind, net, initial, rounds, ps[k], c);
    }
    if c in initial {
      var i :| 0 <= i < |initial| && initial[i] == c;
      PlaceInList(kind, net, initial, rounds, heard, ps, Place(-1, 0, i), c);
    }
    if n, q, i :| 0 <= n < |rounds| && q in rounds[n] && LessonAt(kind, net, n, q, i, c) {
      var j :| 0 <= j < |rounds[n]| && rounds[n][j] == q;
      PlaceInList(kind, net, initial, rounds, heard, ps, Place(n, j, i), c);
    }
  }

  lemma PlaceInList(kind: Kind, net: Network, initial: seq<Contact>, rounds: seq<seq<Contact>>,
                    heard: seq<Contact>, ps: seq<Place>, p: Place, c: Contact)
    requires Chronicle(kind, net, initial, rounds, heard, ps) && HeardAt(kind, net, initial, rounds, p, c)
    ensures c in heard
  {
    var j :| 0 <= j < |ps| && ps[j] == p;
    SamePlace(kind, net, initial, rounds, p, c, heard[j]);
  }

  /** What is nearest in the list is nearest of everything heard. */
  lemma NearestHeard(r: seq<Contact>, kind: Kind, net: Network, initial: seq<Contact>, rounds: seq<seq<Contact>>,
                     target: NodeId, n: nat)
    requires IsNearestOf(r, Heard(kind, net, initial, rounds), target, n)
    ensures IsNearestHeard(r, kind, net, initial, rounds, target, n)
  {
    hide Heard;
    hide HeardAt;
    var heard := Heard(kind, net, initial, rounds);
    var ps := HeardPlaces(kind, net, initial, rounds);
    forall c | c in r ensures FirstHeard(kind, net, initial, rounds, c) {
      ListFirstIsFirst(kind, net, initial, rounds, heard, ps, c);
    }
    forall p, x | HeardAt(kind, net, initial, rounds, p, x) ensures x in heard {
      PlaceInList(kind, net, initial, rounds, heard, ps, p, x);
    }
  }

  /** Only one set of ids can be the `n` nearest. */
  lemma NearestHeardUnique(r: seq<Contact>, s: seq<Contact>, kind: Kind, net: Network, initial: seq<Contact>,
                           rounds: seq<seq<Contact>>, target: NodeId, n: nat, id: NodeId)
    requires IsNearestHeard(r, kind, net, initial, rounds, target, n)
    requires IsNearestHeard(s, kind, net, initial, rounds, target, n)
    requires Has(r, id)
    ensures Has(s, id)
  {
    hide HeardAt;
    var c :| c in r && c.id == id;
    if !Has(s, id) {
      var p :| HeardAt(kind, net, initial, rounds, p, c);
      assert |s| == n && forall y :: y in s ==> Dist(y.id, target) < Dist(c.id, target);
      forall y | y in s ensures Has(r, y.id) {
        var q :| HeardAt(kind, net, initial, rounds, q, y);
      }
      TooMany(r, s, c, target);
      assert false;
    }
  }

  /** A list that names every id of `s` and one more is longer than `s`. */
  lemma TooMany(r: seq<Contact>, s: seq<Contact>, c: Contact, target: NodeId)
    requires StrictlySorted(s, ByDist(target)) && c in r && !Has(s, c.id)
    requires forall y :: y in s ==> Has(r, y.id)
    ensures |r| > |s|
  {
    var a, b := IdSet(s), IdSet(r);
    IdSetSize(r);
    StrictIdSetSize(s, target);
    assert a + {c.id} <= b;
    SubsetSize(a + {c.id}, b);
  }

  lemma {:induction false} IdSetSize(cs: seq<Contact>)
    ensures |IdSet(cs)| <= |cs|
  {
    if cs != [] {
      var front := cs[..|cs| - 1];
      IdSetSize(front);
      assert cs == front + [cs[|cs| - 1]];
      assert IdSet(cs) == IdSet(front) + {cs[|cs| - 1].id};
    }
  }

  lemma {:induction false} StrictIdSetSize(cs: seq<Contact>, target: NodeId)
    requires StrictlySorted(cs, ByDist(target))
    ensures |IdSet(cs)| == |cs|
  {
    if cs != [] {
      var front, last := cs[..|cs| - 1], cs[|cs| - 1];
      StrictIdSetSize(front, target);
      assert cs == front + [last];
      IdSetConcat(front, [last]);
      assert IdSet([last]) == {last.id};
      LastIdNew(cs, target);
    }
  }

  lemma LastIdNew(cs: seq<Contact>, target: NodeId)
    requires cs != [] && StrictlySorted(cs, ByDist(target))
    ensures cs[|cs| - 1].id !in IdSet(cs[..|cs| - 1])
  {
    assert forall i :: 0 <= i < |cs| - 1 ==> ByDist(target)(cs[i]) < ByDist(target)(cs[|cs| - 1]);
  }

  /** `r` is exactly the `n` nearest distinct ids of `heard`, each as first heard. */
  ghost predicate IsNearestOf(r: seq<Contact>, heard: seq<Contact>, target: NodeId, n: nat)
  {
    && StrictlySorted(r, ByDist(target))
    && |r| <= n
    && (forall c :: c in r ==> FirstWithId(heard, c))
    && (forall x :: x in heard ==> Has(r, x.id) || (|r| == n && forall c :: c in r ==> Dist(c.id, target) < Dist(x.id, target)))
  }

  ghost predicate FirstWithId(heard: seq<Contact>, c: Contact)
  {
    exists i :: 0 <= i < |heard| && heard[i] == c && forall j :: 0 <= j < i ==> heard[j].id != c.id
  }

  /**
   * Truncating every round loses nothing: the returned prefix is exactly the nearest of
   * everything ever heard, and for each id the contact is the one first heard, so no later
   * reply can redirect an id to another address.
   */
  lemma TakeNearestOf(heard: seq<Contact>, target: NodeId, n: nat)
    ensures IsNearestOf(Take(Nearest(heard, target), n), heard, target, n)
  {
    var all := Nearest(heard, target);
    var r := Take(all, n);
    AddAllStrict(heard, ByDist(target));
    TakeNearest(all, n, ByDist(target));
    forall c | c in r ensures FirstWithId(heard, c) {
      AddAllFirst(heard, ByDist(target), c);
      FirstKeyIsFirstId(heard, target, c);
    }
    forall x | x in heard ensures Has(r, x.id) || (|r| == n && forall c :: c in r ==> Dist(c.id, target) < Dist(x.id, target)) {
      AddAllCovers(heard, ByDist(target), x);
      var y :| y in all && ByDist(target)(y) == ByDist(target)(x);
      XorMetric(x.id, y.id, target);
      if y !in r {
        forall c | c in r ensures Dist(c.id, target) < Dist(x.id, target) {
          assert ByDist(target)(c) < ByDist(target)(y);
        }
      }
    }
  }

  lemma FirstKeyIsFirstId(heard: seq<Contact>, target: NodeId, c: Contact)
    requires FirstWithKey(heard, c, ByDist(target))
    ensures FirstWithId(heard, c)
  {
    var i :| 0 <= i < |heard| && heard[i] == c && forall j :: 0 <= j < i ==> ByDist(target)(heard[j]) != ByDist(target)(c);
    forall j | 0 <= j < i ensures heard[j].id != c.id {
      assert ByDist(target)(heard[j]) != ByDist(target)(c);
    }
  }

  ghost predicate WasAsked(rounds: seq<seq<Contact>>, id: NodeId)
  {
    exists n, q :: 0 <= n < |rounds| && q in rounds[n] && q.id == id
  }

  lemma {:induction false} AskedMeans(rounds: seq<seq<Contact>>, id: NodeId)
    ensures id in Ids(Asked(rounds)) <==> WasAsked(rounds, id)
  {
    if rounds != [] {
      var n := |rounds| - 1;
      AskedMeans(rounds[..n], id);
      IdsConcat(Asked(rounds[..n]), rounds[n]);
      IdSetIds(rounds[n]);
      if WasAsked(rounds[..n], id) {
        var m, q :| 0 <= m < n && q in rounds[..n][m] && q.id == id;
        assert q in rounds[m];
      }
      if WasAsked(rounds, id) {
        var m, q :| 0 <= m < |rounds| && q in rounds[m] && q.id == id;
        if m < n { assert q in rounds[..n][m]; }
      }
    }
  }

  /** The round asks the nearest ids not asked before, among the `4 * K` nearest heard so far: `ALPHA` of them,
      or all there are. */
  ghost predicate IsRound(kind: Kind, net: Network, target: NodeId, initial: seq<Contact>, before: seq<seq<Contact>>, next: seq<Contact>)
  {
    exists s :: IsNearestHeard(s, kind, net, initial, before, target, 4 * K) && IsNextOf(next, s, before, target)
  }

  ghost predicate IsNextOf(next: seq<Contact>, s: seq<Contact>, before: seq<seq<Contact>>, target: NodeId)
  {
    && StrictlySorted(next, ByDist(target))
    && |next| <= ALPHA
    && (forall c :: c in next ==> c in s && !WasAsked(before, c.id))
    && (forall x :: x in s && !WasAsked(before, x.id) ==>
          x in next || (|next| == ALPHA && forall c :: c in next ==> Dist(c.id, target) < Dist(x.id, target)))
  }

  lemma NextRoundIsRound(kind: Kind, net: Network, target: NodeId, initial: seq<Contact>, rounds: seq<seq<Contact>>)
    ensures IsRound(kind, net, target, initial, rounds, NextRound(kind, net, target, initial, rounds))
  {
    var heard := Heard(kind, net, initial, rounds);
    var s := Take(Nearest(heard, target), 4 * K);
    hide Heard;
    hide Nearest;
    TakeNearestOf(heard, target, 4 * K);
    hide IsNearestOf;
    NearestHeard(s, kind, net, initial, rounds, target, 4 * K);
    hide IsNearestHeard;
    ShortlistMembers(heard, target);
    NextIsNearest(s, IdSet(Asked(rounds)), ALPHA, target);
    IdSetIds(Asked(rounds));
    forall id ensures id in IdSet(Asked(rounds)) <==> WasAsked(rounds, id) {
      AskedMeans(rounds, id);
    }
    hide IdSet;
    hide NextToQuery;
    assert IsNextOf(NextRound(kind, net, target, initial, rounds), s, rounds, target);
  }

  lemma {:induction false} RunRounds(kind: Kind, net: Network, target: NodeId, initial: seq<Contact>,
                                     rounds: seq<seq<Contact>>, n: nat)
    requires IsRun(kind, net, target, initial, rounds) && n < |rounds|
    ensures rounds[n] != [] && IsRound(kind, net, target, initial, rounds[..n], rounds[n])
    decreases |rounds|
  {
    hide IsRound;
    hide NextRound;
    var front := rounds[..|rounds| - 1];
    if n < |rounds| - 1 {
      RunRounds(kind, net, target, initial, front, n);
      assert front[..n] == rounds[..n];
    } else {
      NextRoundIsRound(kind, net, target, initial, front);
    }
  }

  /**
   * A run in the terms of the network alone: every round asks the nearest unasked ids known at
   * that point, and when there is nothing left to ask, all of the 4K nearest ids that the initial
   * list or any reply named have been asked. The result is exactly the K nearest of those ids,
   * each at the address it was first heard at.
   */
  lemma Convergence(kind: Kind, net: Network, target: NodeId, initial: seq<Contact>, rounds: seq<seq<Contact>>)
    ensures IsRun(kind, net, target, initial, rounds) ==>
        && (forall n :: 0 <= n < |rounds| ==> rounds[n] != [] && IsRound(kind, net, target, initial, rounds[..n], rounds[n]))
        && var heard := Heard(kind, net, initial, rounds);
        && IsNearestHeard(Take(Nearest(heard, target), K), kind, net, initial, rounds, target, K)
        && IsNearestHeard(Take(Nearest(heard, target), 4 * K), kind, net, initial, rounds, target, 4 * K)
        && (NextRound(kind, net, target, initial, rounds) == [] ==>
              forall c :: c in Take(Nearest(heard, target), 4 * K) ==> WasAsked(rounds, c.id))
  {
    if IsRun(kind, net, target, initial, rounds) {
      hide IsNearestHeard;
      hide IsRound;
      var heard := Heard(kind, net, initial, rounds);
      forall n | 0 <= n < |rounds| ensures rounds[n] != [] && IsRound(kind, net, target, initial, rounds[..n], rounds[n]) {
        RunRounds(kind, net, target, initial, rounds, n);
      }
      TakeNearestOf(heard, target, K);
      NearestHeard(Take(Nearest(heard, target), K), kind, net, initial, rounds, target, K);
      TakeNearestOf(heard, target, 4 * K);
      NearestHeard(Take(Nearest(heard, target), 4 * K), kind, net, initial, rounds, target, 4 * K);
      if NextRound(kind, net, target, initial, rounds) == [] {
        NothingLeft(kind, net, target, initial, rounds);
      }
    }
  }

  lemma NothingLeft(kind: Kind, net: Network, target: NodeId, initial: seq<Contact>, rounds: seq<seq<Contact>>)
    requires IsRun(kind, net, target, initial, rounds) && NextRound(kind, net, target, initial, rounds) == []
    ensures forall c :: c in Take(Nearest(Heard(kind, net, initial, rounds), target), 4 * K) ==> WasAsked(rounds, c.id)
  {
    var s := Take(Nearest(Heard(kind, net, initial, rounds), target), 4 * K);
    NextExhausts(s, IdSet(Asked(rounds)), ALPHA);
    IdSetIds(Asked(rounds));
    forall c | c in s ensures WasAsked(rounds, c.id) {
      AskedMeans(rounds, c.id);
    }
  }

  // ---- the loops as written ----

  method LookupFindNode(t: Table, target: NodeId, net: Network)
    returns (result: seq<Contact>, exhausted: bool, rounds: seq<seq<Contact>>)
    requires Valid(t)
    ensures
      var initial := Closest(t, target, 2 * K);
      && IsRun(FindNode, net, target, initial, rounds)
      && (forall n :: 0 <= n < |rounds| ==> rounds[n] != [] && IsRound(FindNode, net, target, initial, rounds[..n], rounds[n]))
      && IsNearestHeard(result, FindNode, net, initial, rounds, target, K)
    ensures exhausted ==> forall c :: c in result ==> WasAsked(rounds, c.id)
    ensures exhausted || net.timeUp(|rounds|)
  {
    hide *;
    ghost var initial := Closest(t, target, 2 * K);
    var shortlist := Closest(t, target, 2 * K);
    StartShortlist(t, target);
    RunStart(FindNode, net, target, initial);
    var queried: set<NodeId> := {};
    var round := 0;
    rounds := [];
    exhausted := false;
    while !net.timeUp(round)
      invariant round == |rounds|
      invariant IsRun(FindNode, net, target, initial, rounds)
      invariant shortlist == Take(Nearest(Heard(FindNode, net, initial, rounds), target), 4 * K)
      invariant queried == IdSet(Asked(rounds))
      decreases AllStrings(20) - queried
    {
      var next := NextToQuery(shortlist, queried, ALPHA);
      NextRoundIs(FindNode, net, target, initial, rounds);
      if next == [] {
        Convergence(FindNode, net, target, initial, rounds);
        exhausted := true;
        break;
      }
      assert next[0] in next && next[0].id !in queried;
      IdSetMember(next, next[0]);
      queried := MarkQueried(queried, next);
      shortlist := Gather(FindNode, net, round, next, shortlist);
      shortlist := Trimmed(shortlist, target);
      RunGrows(FindNode, net, target, initial, rounds, next);
      rounds, round := rounds + [next], round + 1;
    }
    Convergence(FindNode, net, target, initial, rounds);
    TakeTake(Nearest(Heard(FindNode, net, initial, rounds), target));
    shortlist := Take(shortlist, K);
    result := shortlist;
  }

  lemma RunStart(kind: Kind, net: Network, target: NodeId, initial: seq<Contact>)
    ensures IsRun(kind, net, target, initial, [])
    ensures Heard(kind, net, initial, []) == initial && IdSet(Asked([])) == {}
  {
  }

  lemma NextRoundIs(kind: Kind, net: Network, target: NodeId, initial: seq<Contact>, rounds: seq<seq<Contact>>)
    ensures NextRound(kind, net, target, initial, rounds)
         == NextToQuery(Take(Nearest(Heard(kind, net, initial, rounds), target), 4 * K), IdSet(Asked(rounds)), ALPHA)
  {
  }

  lemma IdSetMember(cs: seq<Contact>, c: Contact)
    requires c in cs
    ensures c.id in IdSet(cs)
  {
  }

  lemma TakeTake(s: seq<Contact>)
    ensures Take(Take(s, 4 * K), K) == Take(s, K)
    ensures forall c :: c in Take(s, K) ==> c in Take(s, 4 * K)
  {
  }

  /** One round appended to a run, and what it does to the three loop variables. */
  lemma RunGrows(kind: Kind, net: Network, target: NodeId, initial: seq<Contact>,
                 rounds: seq<seq<Contact>>, next: seq<Contact>)
    requires IsRun(kind, net, target, initial, rounds)
    requires next == NextRound(kind, net, target, initial, rounds) && next != []
    ensures var rounds' := rounds + [next];
      && IsRun(kind, net, target, initial, rounds')
      && IdSet(Asked(rounds')) == IdSet(Asked(rounds)) + IdSet(next)
      && Trimmed(Take(Nearest(Heard(kind, net, initial, rounds), target), 4 * K)
                 + Learned(kind, net, |rounds|, next), target)
         == Take(Nearest(Heard(kind, net, initial, rounds'), target), 4 * K)
  {
    hide NextToQuery;
    hide Nearest;
    var rounds' := rounds + [next];
    assert rounds'[..|rounds|] == rounds;
    TrimStep(Heard(kind, net, initial, rounds), Learned(kind, net, |rounds|, next), target);
    IdSetConcat(Asked(rounds), next);
  }

  method MarkQueried(queried0: set<NodeId>, next: seq<Contact>) returns (queried: set<NodeId>)
    ensures queried == queried0 + IdSet(next)
  {
    queried := queried0;
    for i := 0 to |next|
      invariant queried == queried0 + IdSet(next[..i])
    {
      assert next[..i + 1] == next[..i] + [next[i]];
      queried := queried + {next[i].id};
    }
    assert next[..|next|] == next;
  }

  /** Awaits the round's tasks in order and extends the shortlist with what they taught. */
  method Gather(kind: Kind, net: Network, round: nat, next: seq<Contact>, shortlist0: seq<Contact>)
    returns (shortlist: seq<Contact>)
    ensures shortlist == shortlist0 + Learned(kind, net, round, next)
    ensures exists ps :: Taught(kind, net, round, next, Learned(kind, net, round, next), ps)
  {
    ghost var ps := LearnedPlaces(kind, net, round, next);
    hide Taught;
    hide Learned;
    hide Dialable;
    shortlist := shortlist0;
    LearnedNone(kind, net, round);
    for i := 0 to |next|
      invariant shortlist == shortlist0 + Learned(kind, net, round, next[..i])
    {
      var resp := net.reply(round, next[i]);
      LearnedSnoc(kind, net, round, next, i);
      shortlist := shortlist + Dialable(net, NodesIn(kind, resp));
    }
    assert next[..|next|] == next;
  }

  lemma LearnedNone(kind: Kind, net: Network, round: nat)
    ensures Learned(kind, net, round, []) == []
  {
  }

  lemma LearnedSnoc(kind: Kind, net: Network, round: nat, next: seq<Contact>, i: nat)
    requires i < |next|
    ensures Learned(kind, net, round, next[..i + 1]) ==
            Learned(kind, net, round, next[..i]) + Dialable(net, NodesIn(kind, net.reply(round, next[i])))
  {
    assert next[..i + 1][..i] == next[..i];
  }

  /** What the table hands out is already in shortlist form. */
  lemma StartShortlist(t: Table, target: NodeId)
    requires Valid(t)
    ensures var s := Closest(t, target, 2 * K);
      s == Take(Nearest(s, target), 4 * K)
  {
    var s := Closest(t, target, 2 * K);
    ClosestIsTopK(t, target, 2 * K);
    AddAllSorted(s, ByDist(target));
  }
}
