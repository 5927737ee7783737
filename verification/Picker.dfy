/** Piece availability and selection (`piece/picker.rs`). */
module Picker {
  import opened Arith
  import opened Bytes
  import opened Net

  const U32_MAX: u32 := 0xffff_ffff

  type Bitfields = map<Addr, seq<bool>>

  function SatAdd(a: u32): u32 { if a == U32_MAX then a else a + 1 }

  function SatSub(a: u32): u32 { if a == 0 then a else a - 1 }

  predicate Bit(bf: seq<bool>, i: nat)
  {
    i < |bf| && bf[i]
  }

  /** The peers whose stored bitfield has piece `i`. */
  ghost function Holders(peers: Bitfields, i: nat): set<Addr>
  {
    set a | a in peers && Bit(peers[a], i)
  }

  lemma HoldersRemove(peers: Bitfields, a: Addr, i: nat)
    ensures
      var n := |Holders(peers - {a}, i)|;
      |Holders(peers, i)| == if a in peers && Bit(peers[a], i) then n + 1 else n
  {
    var h, k := Holders(peers, i), Holders(peers - {a}, i);
    if a in h {
      assert h == k + {a};
    } else {
      assert h == k;
    }
  }

  lemma HoldersInsert(peers: Bitfields, a: Addr, bf: seq<bool>, i: nat)
    ensures
      var n := |Holders(peers - {a}, i)|;
      |Holders(peers[a := bf], i)| == if Bit(bf, i) then n + 1 else n
  {
    HoldersRemove(peers[a := bf], a, i);
    assert peers[a := bf] - {a} == peers - {a};
  }

  lemma HoldersBound(peers: Bitfields, i: nat)
    ensures |Holders(peers, i)| <= |peers|
  {
    assert peers.Keys == Holders(peers, i) + (peers.Keys - Holders(peers, i));
    assert |peers| == |peers.Keys|;
  }

  /** The counters are the holder counts. */
  ghost predicate Agree(availability: seq<u32>, peers: Bitfields)
  {
    forall i :: 0 <= i < |availability| ==> availability[i] == |Holders(peers, i)|
  }

  // ---- counter updates ----

  function Lowered(av: seq<u32>, bf: seq<bool>): (r: seq<u32>)
    ensures |r| == |av|
  {
    seq(|av|, i requires 0 <= i < |av| => if Bit(bf, i) then SatSub(av[i]) else av[i])
  }

  function Raised(av: seq<u32>, bf: seq<bool>): (r: seq<u32>)
    ensures |r| == |av|
  {
    seq(|av|, i requires 0 <= i < |av| => if Bit(bf, i) then SatAdd(av[i]) else av[i])
  }

  lemma LoweredAgrees(av: seq<u32>, peers: Bitfields, a: Addr)
    requires Agree(av, peers) && a in peers
    ensures Agree(Lowered(av, peers[a]), peers - {a})
  {
    forall i | 0 <= i < |av| ensures Lowered(av, peers[a])[i] == |Holders(peers - {a}, i)| {
      HoldersRemove(peers, a, i);
    }
  }

  lemma RaisedAgrees(av: seq<u32>, peers: Bitfields, a: Addr, bf: seq<bool>)
    requires a !in peers && Agree(av, peers) && |peers[a := bf]| <= U32_MAX
    ensures Agree(Raised(av, bf), peers[a := bf])
  {
    assert peers - {a} == peers;
    forall i | 0 <= i < |av| ensures Raised(av, bf)[i] == |Holders(peers[a := bf], i)| {
      HoldersInsert(peers, a, bf, i);
      HoldersBound(peers[a := bf], i);
    }
  }

  ghost predicate Injective(assignment: map<Addr, nat>)
  {
    forall a, b :: a in assignment && b in assignment && assignment[a] == assignment[b] ==> a == b
  }

  // ---- what the piece manager answers during one pick ----

  datatype Pieces = Pieces(complete: nat -> bool, wanted: nat -> bool)

  predicate Fetchable(pm: Pieces, i: nat)
  {
    !pm.complete(i) && pm.wanted(i)
  }

  /** The peer has the piece, the piece is missing and wanted, and outside endgame nobody is on it. */
  ghost predicate MayFetch(peers: Bitfields, assignment: map<Addr, nat>, addr: Addr, pm: Pieces, endgame: bool, i: nat)
  {
    addr in Holders(peers, i) && !pm.complete(i) && pm.wanted(i) &&
    (endgame || forall a :: a in assignment ==> assignment[a] != i)
  }

  /** The pieces `addr` may be newly assigned. */
  function Usable(peers: Bitfields, assignment: map<Addr, nat>, addr: Addr, pm: Pieces, endgame: bool): nat -> bool
  {
    (i: nat) => addr in peers && Bit(peers[addr], i) && Fetchable(pm, i) && (endgame || i !in assignment.Values)
  }

  lemma UsableMeans(peers: Bitfields, assignment: map<Addr, nat>, addr: Addr, pm: Pieces, endgame: bool)
    ensures forall i :: 0 <= i ==>
              (Usable(peers, assignment, addr, pm, endgame)(i) <==> MayFetch(peers, assignment, addr, pm, endgame, i))
    ensures forall i :: 0 <= i && MayFetch(peers, assignment, addr, pm, endgame, i) ==> addr in peers
  {
    forall i | 0 <= i ensures Usable(peers, assignment, addr, pm, endgame)(i) <==> MayFetch(peers, assignment, addr, pm, endgame, i) {
      assert i in assignment.Values <==> exists a :: a in assignment && assignment[a] == i;
    }
  }

  lemma FreshKeepsInjective(peers: Bitfields, assignment: map<Addr, nat>, addr: Addr, pm: Pieces, i: nat)
    requires MayFetch(peers, assignment, addr, pm, false, i)
    ensures Injective(assignment) ==> Injective(assignment[addr := i])
  {
  }

  ghost predicate NoneUsable(usable: nat -> bool, n: nat)
  {
    forall i :: 0 <= i < n ==> !usable(i)
  }

  ghost predicate FirstOf(usable: nat -> bool, n: nat, i: nat)
  {
    i < n && usable(i) && forall j :: 0 <= j < i ==> !usable(j)
  }

  ghost predicate LowestCounter(usable: nat -> bool, av: seq<u32>, i: nat)
  {
    i < |av| && usable(i) && forall j :: 0 <= j < |av| && usable(j) ==> av[i] <= av[j]
  }

  ghost predicate FewestHolders(usable: nat -> bool, n: nat, peers: Bitfields, i: nat)
  {
    i < n && usable(i) && forall j :: 0 <= j < n && usable(j) ==> |Holders(peers, i)| <= |Holders(peers, j)|
  }

  lemma RarestHasFewest(usable: nat -> bool, av: seq<u32>, peers: Bitfields, i: nat)
    requires LowestCounter(usable, av, i)
    ensures Agree(av, peers) ==> FewestHolders(usable, |av|, peers, i)
  {
  }

  /** The lowest usable index. */
  method FirstUsable(usable: nat -> bool, n: nat) returns (r: Option<nat>)
    ensures r.None? <==> NoneUsable(usable, n)
    ensures r.Some? ==> FirstOf(usable, n, r.value)
  {
    for i := 0 to n
      invariant NoneUsable(usable, i)
    {
      if usable(i) { return Some(i); }
    }
    r := None;
  }

  /** One pass that keeps the group of usable pieces tied at the lowest counter. */
  method Rarest(usable: nat -> bool, av: seq<u32>) returns (ties: seq<nat>)
    ensures forall k :: 0 <= k < |ties| ==> LowestCounter(usable, av, ties[k])
    ensures forall i :: LowestCounter(usable, av, i) ==> i in ties
    ensures ties == [] <==> NoneUsable(usable, |av|)
  {
    var minAv := U32_MAX;
    ties := [];
    for i := 0 to |av|
      invariant forall k :: 0 <= k < |ties| ==> ties[k] < i && usable(ties[k]) && av[ties[k]] == minAv
      invariant forall j :: 0 <= j < i && usable(j) ==> minAv <= av[j] && (av[j] == minAv ==> j in ties)
      invariant ties == [] ==> minAv == U32_MAX
    {
      if usable(i) {
        if av[i] < minAv {
          minAv := av[i];
          ties := [i];
        } else if av[i] == minAv {
          ties := ties + [i];
        }
      }
    }
    if ties != [] {
      assert usable(ties[0]);
      forall i: nat | LowestCounter(usable, av, i) ensures i in ties {
        assert av[i] <= av[ties[0]];
      }
    }
  }

  class Picker {
    const numPieces: nat
    var peers: Bitfields
    var availability: seq<u32>
    var assignment: map<Addr, nat>
    var sequential: bool
    /** The most bitfields ever stored at once. */
    ghost var peak: nat
    /** Whether a fresh pick was ever made in endgame mode. */
    ghost var shared: bool

    ghost predicate Valid()
      reads this
    {
      && |availability| == numPieces
      && |peers| <= peak
      && (peak <= U32_MAX ==> Agree(availability, peers))
      && (forall a :: a in assignment ==> assignment[a] < numPieces)
      && (!shared ==> Injective(assignment))
    }

    constructor (numPieces: nat)
      ensures Valid() && this.numPieces == numPieces && peers == map[] && assignment == map[]
      ensures !sequential && peak == 0 && !shared
    {
      this.numPieces := numPieces;
      peers := map[];
      availability := seq(numPieces, _ => 0);
      assignment := map[];
      sequential, peak, shared := false, 0, false;
      new;
      forall i | 0 <= i < numPieces ensures availability[i] == |Holders(peers, i)| {
        HoldersBound(peers, i);
      }
    }

    method SetSequential(on: bool)
      requires Valid()
      modifies this`sequential
      ensures Valid() && sequential == on
    {
      sequential := on;
    }

    /** The decrementing loop shared by `set_peer_bitfield` and `forget_peer`. */
    method Withdraw(bf: seq<bool>)
      requires |availability| == numPieces
      modifies this`availability
      ensures availability == Lowered(old(availability), bf)
    {
      var n := if numPieces < |bf| then numPieces else |bf|;
      for i := 0 to n
        invariant |availability| == numPieces
        invariant forall j :: 0 <= j < numPieces ==>
          availability[j] == if j < i && bf[j] then SatSub(old(availability)[j]) else old(availability)[j]
      {
        if bf[i] {
          availability := availability[i := SatSub(availability[i])];
        }
      }
    }

    method Contribute(bf: seq<bool>)
      requires |availability| == numPieces
      modifies this`availability
      ensures availability == Raised(old(availability), bf)
    {
      var n := if numPieces < |bf| then numPieces else |bf|;
      for i := 0 to n
        invariant |availability| == numPieces
        invariant forall j :: 0 <= j < numPieces ==>
          availability[j] == if j < i && bf[j] then SatAdd(old(availability)[j]) else old(availability)[j]
      {
        if bf[i] {
          availability := availability[i := SatAdd(availability[i])];
        }
      }
    }

    method SetPeerBitfield(addr: Addr, bf: seq<bool>)
      requires Valid()
      modifies this
      ensures Valid() && peers == old(peers)[addr := bf]
      ensures assignment == old(assignment) && sequential == old(sequential) && shared == old(shared)
      ensures peak == Max(old(peak), |peers|)
    {
      hide Agree;
      hide Injective;
      ghost var before := peers;
      if addr in peers {
        var was := peers[addr];
        if peak <= U32_MAX { LoweredAgrees(availability, peers, addr); }
        peers := peers - {addr};
        Withdraw(was);
      }
      assert peers == before - {addr};
      assert before[addr := bf] == peers[addr := bf];
      ghost var now := Max(peak, |peers[addr := bf]|);
      if now <= U32_MAX { RaisedAgrees(availability, peers, addr, bf); }
      Contribute(bf);
      peers := peers[addr := bf];
      peak := now;
    }

    /** `peer_has`. */
    method PeerHas(addr: Addr, index: nat) returns (has: bool)
      ensures has <==> addr in Holders(peers, index)
    {
      has := addr in peers && index < |peers[addr]| && peers[addr][index];
    }

    method AddHave(addr: Addr, index: nat)
      requires Valid()
      modifies this
      ensures Valid()
      ensures peers == if index < numPieces then old(peers)[addr := WithBit(old(peers), addr, numPieces, index)] else old(peers)
      ensures assignment == old(assignment) && sequential == old(sequential) && shared == old(shared)
      ensures peak == Max(old(peak), |peers|)
    {
      hide Agree;
      hide Injective;
      if index >= numPieces { return; }
      var bf := if addr in peers then peers[addr] else seq(numPieces, _ => false);
      if |bf| < numPieces {
        bf := bf + seq(numPieces - |bf|, _ => false);
      }
      assert bf == Padded(peers, addr, numPieces);
      hide Padded;
      HaveStep(availability, peers, addr, index, peak);
      if !bf[index] {
        bf := bf[index := true];
        availability := availability[index := SatAdd(availability[index])];
      }
      assert bf == WithBit(peers, addr, numPieces, index);
      peers := peers[addr := bf];
      peak := Max(peak, |peers|);
    }

    method ForgetPeer(addr: Addr)
      requires Valid()
      modifies this
      ensures Valid() && peers == old(peers) - {addr} && assignment == old(assignment) - {addr}
      ensures sequential == old(sequential) && shared == old(shared) && peak == old(peak)
    {
      if addr in peers {
        var bf := peers[addr];
        if peak <= U32_MAX { LoweredAgrees(availability, peers, addr); }
        RemoveSize(peers, addr);
        peers := peers - {addr};
        Withdraw(bf);
      }
      assert peers == old(peers) - {addr};
      assignment := assignment - {addr};
    }

    method ReleaseAssignment(addr: Addr)
      requires Valid()
      modifies this`assignment
      ensures Valid() && assignment == old(assignment) - {addr}
    {
      assignment := assignment - {addr};
    }

    method ClearAssignmentIf(addr: Addr, index: nat)
      requires Valid()
      modifies this`assignment
      ensures Valid()
      ensures assignment == if addr in old(assignment) && old(assignment)[addr] == index then old(assignment) - {addr} else old(assignment)
    {
      if addr in assignment && assignment[addr] == index {
        assignment := assignment - {addr};
      }
    }

    /** A pick: the sticky piece if it is still worth fetching, else the least piece the peer may fetch or one
        of those that the fewest stored bitfields have; the choice among ties is arbitrary. */
    method PickFor(addr: Addr, pm: Pieces, endgame: bool) returns (r: Option<nat>)
      requires Valid()
      modifies this`assignment, this`shared
      ensures Valid() && (r.Some? ==> r.value < numPieces)
      ensures
        var was := old(assignment);
        if addr in was && !pm.complete(was[addr]) && pm.wanted(was[addr]) then
          r == Some(was[addr]) && assignment == was && shared == old(shared)
        else
          && (r.None? <==> forall i :: 0 <= i < numPieces ==> !MayFetch(peers, was, addr, pm, endgame, i))
          && (r.Some? ==> MayFetch(peers, was, addr, pm, endgame, r.value))
          && (r.Some? && sequential ==>
                forall i :: 0 <= i < r.value ==> !MayFetch(peers, was, addr, pm, endgame, i))
          && (r.Some? && !sequential && peak <= U32_MAX ==>
                forall i :: 0 <= i < numPieces && MayFetch(peers, was, addr, pm, endgame, i) ==>
                  |Holders(peers, r.value)| <= |Holders(peers, i)|)
          && assignment == (if r.None? then was else was[addr := r.value])
          && shared == (old(shared) || (r.Some? && endgame))
    {
      hide Agree;
      hide MayFetch;
      hide Usable;
      hide Injective;
      if addr in assignment && Fetchable(pm, assignment[addr]) {
        return Some(assignment[addr]);
      }
      var usable := Usable(peers, assignment, addr, pm, endgame);
      UsableMeans(peers, assignment, addr, pm, endgame);
      if addr !in peers { return None; }
      var chosen;
      if sequential {
        var first := FirstUsable(usable, numPieces);
        if first.None? { return None; }
        chosen := first.value;
      } else {
        var ties := Rarest(usable, availability);
        if ties == [] { return None; }
        var k :| 0 <= k < |ties|;
        chosen := ties[k];
        RarestHasFewest(usable, availability, peers, chosen);
      }
      if endgame {
        shared := true;
      } else {
        FreshKeepsInjective(peers, assignment, addr, pm, chosen);
      }
      assignment := assignment[addr := chosen];
      r := Some(chosen);
    }
  }

  lemma RemoveSize(peers: Bitfields, a: Addr)
    ensures |peers - {a}| <= |peers|
  {
    assert (peers - {a}).Keys == peers.Keys - {a};
    assert |peers - {a}| == |(peers - {a}).Keys| && |peers| == |peers.Keys|;
  }

  /** The stored bitfield grown to the number of pieces. */
  function Padded(peers: Bitfields, a: Addr, n: nat): (bf: seq<bool>)
    ensures |bf| >= n
  {
    var bf := if a in peers then peers[a] else [];
    if |bf| < n then bf + seq(n - |bf|, _ => false) else bf
  }

  function WithBit(peers: Bitfields, a: Addr, n: nat, index: nat): seq<bool>
    requires index < n
  {
    Padded(peers, a, n)[index := true]
  }

  /** A Have adds its sender to the holders of that piece and touches no other piece. */
  lemma HaveHolders(peers: Bitfields, a: Addr, n: nat, index: nat, i: nat)
    ensures index < n ==>
              Holders(peers[a := WithBit(peers, a, n, index)], i) ==
              Holders(peers, i) + (if i == index then {a} else {})
  {
    if index < n {
      PaddedBits(peers, a, n);
      assert Bit(WithBit(peers, a, n, index), i) <==> i == index || Bit(Padded(peers, a, n), i);
    }
  }

  lemma PaddedBits(peers: Bitfields, a: Addr, n: nat)
    ensures forall i :: 0 <= i ==> (Bit(Padded(peers, a, n), i) <==> a in peers && Bit(peers[a], i))
  {
  }

  lemma SizeOfUpdate(peers: Bitfields, a: Addr, bf: seq<bool>, bf': seq<bool>)
    ensures |peers| <= |peers[a := bf]| == |peers[a := bf']|
  {
    assert peers[a := bf].Keys == peers.Keys + {a} == peers[a := bf'].Keys;
    assert |peers[a := bf]| == |peers[a := bf].Keys| && |peers| == |peers.Keys|;
    assert |peers[a := bf']| == |peers[a := bf'].Keys|;
  }

  /** What a Have does to the counters. */
  lemma HaveStep(av: seq<u32>, peers: Bitfields, a: Addr, index: nat, peak: nat)
    requires index < |av| && |peers| <= peak && (peak <= U32_MAX ==> Agree(av, peers))
    ensures
      var bf, next := Padded(peers, a, |av|), peers[a := WithBit(peers, a, |av|, index)];
      && (Max(peak, |next|) <= U32_MAX ==> Agree(if bf[index] then av else av[index := SatAdd(av[index])], next))
      && (bf[index] ==> WithBit(peers, a, |av|, index) == bf)
  {
    hide Agree;
    var bf := Padded(peers, a, |av|);
    PaddedBits(peers, a, |av|);
    assert bf[index] ==> bf[index := true] == bf;
    SizeOfUpdate(peers, a, bf, bf[index := true]);
    if Max(peak, |peers[a := bf]|) <= U32_MAX {
      HaveAgrees(av, peers, a, bf, index);
    }
  }

  /** Setting one bit of a padded bitfield raises exactly that counter. */
  lemma HaveAgrees(av: seq<u32>, peers: Bitfields, a: Addr, bf: seq<bool>, index: nat)
    requires Agree(av, peers) && index < |av| <= |bf|
    requires forall i :: 0 <= i ==> (Bit(bf, i) <==> a in peers && Bit(peers[a], i))
    requires |peers[a := bf]| <= U32_MAX
    ensures bf[index] ==> Agree(av, peers[a := bf])
    ensures !bf[index] ==> Agree(av[index := SatAdd(av[index])], peers[a := bf[index := true]])
  {
    var up := bf[index := true];
    SizeOfUpdate(peers, a, bf, up);
    forall i | 0 <= i < |av|
      ensures |Holders(peers[a := bf], i)| == |Holders(peers, i)|
      ensures |Holders(peers[a := up], i)| == |Holders(peers, i)| + if i == index && !bf[index] then 1 else 0
      ensures |Holders(peers[a := up], i)| <= U32_MAX
    {
      assert Bit(up, i) <==> i == index || Bit(bf, i);
      HoldersInsert(peers, a, bf, i);
      HoldersInsert(peers, a, up, i);
      HoldersRemove(peers, a, i);
      HoldersBound(peers[a := up], i);
    }
  }
}
