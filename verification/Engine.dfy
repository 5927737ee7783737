/** The block-request state machine of the torrent engine (`engine.rs`). The piece manager, the channels,
    the throttle and the peer manager answer arbitrarily: their answers are parameters. */
module Engine {
  import opened Bytes
  import opened Distinct
  import opened Net
  import opened Requests
  import P = Picker

  const PIPELINE_DEPTH: nat := 5
  const ENDGAME_REMAINING: nat := 5
  const REQUEST_TIMEOUT: int := 30 * 1_000_000_000

  datatype PeerEvent =
    | Connected(addr: Addr)
    | Disconnected(addr: Addr)
    | HaveAll(addr: Addr)
    | RejectRequest(addr: Addr, index: u32, begin: u32)
    | Bitfield(addr: Addr, bits: seq<bool>)
    | Have(addr: Addr, index: u32)
    | Choke(addr: Addr)
    | Unchoke(addr: Addr)
    | Block(addr: Addr, index: u32, begin: u32, outcome: BlockOutcome, banned: bool)
    | Written(index: u32, connected: seq<Addr>)
    | StorageError(failed: Option<u32>)
    | ReaperTick
    | Pause
    | Resume(connected: seq<Addr>)

  /** What became of a block handed to the piece manager: refused by it, completing a piece with the wrong
      hash, lost with the hashing task, or taken. */
  datatype BlockOutcome = Invalid | Mismatch | TaskLost | Taken

  /** What the collaborators answer in one turn of the pump: the piece states, the block reserved, the
      unfinished blocks, the throttle, the peer's channel. */
  datatype Turn = Turn(pieces: P.Pieces, reserved: Option<(u32, u32)>, unfinished: seq<(u32, u32)>, admitted: bool, sent: bool)

  /** What they answer a whole pump: how many pieces are missing, then turn by turn. */
  datatype World = World(missing: nat, turn: nat -> Turn)

  datatype PumpStep = NoBlock | Stop | Asked

  datatype TurnEnd = Exhausted(piece: nat) | Went | Over(why: PumpEnd)

  /** Why a pump ended: not allowed to ask, pipeline full, nothing new to pick, or a request refused. */
  datatype PumpEnd = Silent | Full | NothingToPick | Refused

  ghost predicate OnlyRequestsTo(events: Trace, addr: Addr)
  {
    forall i :: 0 <= i < |events| ==> events[i].Sent? && events[i].addr == addr
  }

  ghost predicate OnlyRequests(events: Trace)
  {
    forall i :: 0 <= i < |events| ==> events[i].Sent?
  }

  /** Outside endgame, the first turn finds a piece the peer may fetch, a block of it, and a way out. */
  ghost predicate Ready(w: World, peers: P.Bitfields, assignment: map<Addr, nat>, numPieces: nat, addr: Addr)
  {
    var t := w.turn(0);
    && !(0 < w.missing < ENDGAME_REMAINING) && t.reserved.Some? && t.admitted && t.sent
    && exists i :: 0 <= i < numPieces && P.MayFetch(peers, assignment, addr, t.pieces, false, i)
  }

  // ---- how the tables may change ----

  /** The tables grew by exactly the Requests `new'`, all to `addr`: every entry is an old one or one of
      them, none is lost, and each of them is on record. */
  ghost predicate Grew(out: Outstanding, eg: Endgame, out': Outstanding, eg': Endgame, new': Trace, addr: Addr, now: int)
  {
    && OnlyRequestsTo(new', addr)
    && (forall k :: k in out' ==> (k in out && out'[k] == out[k]) || (out'[k] == Request(addr, now) && Sent(addr, k) in new'))
    && (forall k :: k in out ==> k in out')
    && (forall k, a :: k in eg' && a in eg'[k] ==> (k in eg && a in eg[k]) || (a == addr && Sent(addr, k) in new'))
    && (forall k, a :: k in eg && a in eg[k] ==> k in eg' && a in eg'[k])
    && (forall e :: e in new' ==> Solicited(out', eg', addr, e.key))
  }

  lemma GrewNone(out: Outstanding, eg: Endgame, addr: Addr, now: int)
    ensures Grew(out, eg, out, eg, [], addr, now)
  {
  }

  lemma NoGrowth(out: Outstanding, eg: Endgame, trace: Trace, addr: Addr, now: int)
    ensures Grew(out, eg, out, eg, trace[|trace|..], addr, now)
  {
    assert trace[|trace|..] == [];
    GrewNone(out, eg, addr, now);
  }

  lemma GrewNormal(out: Outstanding, eg: Endgame, k: Key, addr: Addr, now: int)
    ensures Grew(out, eg, out[k := Request(addr, now)], eg, [Sent(addr, k)], addr, now)
  {
  }

  lemma GrewEndgame(out: Outstanding, eg: Endgame, k: Key, addr: Addr, now: int)
    ensures Grew(out, eg, out, eg[k := Listed(eg, k) + [addr]], [Sent(addr, k)], addr, now)
  {
  }

  lemma GrewTwice(out: Outstanding, eg: Endgame, out1: Outstanding, eg1: Endgame, out2: Outstanding, eg2: Endgame,
                  new1: Trace, new2: Trace, addr: Addr, now: int)
    requires Grew(out, eg, out1, eg1, new1, addr, now) && Grew(out1, eg1, out2, eg2, new2, addr, now)
    ensures Grew(out, eg, out2, eg2, new1 + new2, addr, now)
  {
    var new' := new1 + new2;
    assert forall e :: e in new' <==> e in new1 || e in new2;
    forall i | 0 <= i < |new'| ensures new'[i].Sent? && new'[i].addr == addr {
      assert new'[i] == if i < |new1| then new1[i] else new2[i - |new1|];
    }
  }

  lemma GrewFresh(out: Outstanding, eg: Endgame, out': Outstanding, eg': Endgame, new': Trace, addr: Addr, now: int)
    requires Grew(out, eg, out', eg', new', addr, now)
    ensures forall k :: k in out' && now - out'[k].sentAt > REQUEST_TIMEOUT ==> k in out && out'[k] == out[k]
    ensures forall k :: k in out ==> k in out'
    ensures OnlyRequestsTo(new', addr)
  {
  }

  ghost predicate NoEntries(out: Outstanding, eg: Endgame, a: Addr)
  {
    forall k :: !Solicited(out, eg, a, k)
  }

  /** Only lists of other pieces are left, except for what was asked meanwhile. */
  ghost predicate AskedAnew(eg: Endgame, eg': Endgame, index: u32, new': Trace)
  {
    forall k, a :: k in eg' && a in eg'[k] ==> (k.index != index && k in eg && a in eg[k]) || Sent(a, k) in new'
  }

  lemma NothingAnew(eg: Endgame, eg': Endgame, index: u32, trace: Trace)
    requires PieceForgotten(eg, eg', index)
    ensures AskedAnew(eg, eg', index, trace[|trace|..])
  {
  }

  lemma AnewGrows(eg: Endgame, out1: Outstanding, eg1: Endgame, out2: Outstanding, eg2: Endgame, index: u32,
                  new1: Trace, new2: Trace, addr: Addr, now: int)
    requires AskedAnew(eg, eg1, index, new1) && Grew(out1, eg1, out2, eg2, new2, addr, now)
    ensures AskedAnew(eg, eg2, index, new1 + new2)
  {
  }

  lemma GrewNobodyElse(out: Outstanding, eg: Endgame, out': Outstanding, eg': Endgame, new': Trace, addr: Addr, now: int)
    requires Grew(out, eg, out', eg', new', addr, now)
    ensures forall a :: a != addr && NoEntries(out, eg, a) ==> NoEntries(out', eg', a)
  {
    forall a, k | a != addr && NoEntries(out, eg, a) ensures !Solicited(out', eg', a, k) {
      assert !Solicited(out, eg, a, k);
    }
  }

  lemma FewerEntries(out: Outstanding, eg: Endgame, out': Outstanding, eg': Endgame)
    requires Fewer(out', eg', out, eg)
    ensures forall a :: NoEntries(out, eg, a) ==> NoEntries(out', eg', a)
  {
    forall a, k | NoEntries(out, eg, a) ensures !Solicited(out', eg', a, k) {
      assert !Solicited(out, eg, a, k);
    }
  }

  /** Exactly the peer's entries left the table. */
  ghost predicate Released(out: Outstanding, out': Outstanding, addr: Addr)
  {
    && (forall k :: k in out' <==> k in out && out[k].addr != addr)
    && (forall k :: k in out' ==> out'[k] == out[k])
  }

  /** Exactly the peer left every list. */
  ghost predicate PeerStruck(eg: Endgame, eg': Endgame, addr: Addr)
  {
    forall k, a :: k in eg' && a in eg'[k] <==> k in eg && a in eg[k] && a != addr
  }

  /** Exactly the piece's lists went. */
  ghost predicate PieceForgotten(eg: Endgame, eg': Endgame, index: u32)
  {
    && (forall k :: k in eg' <==> k in eg && k.index != index)
    && (forall k :: k in eg' ==> eg'[k] == eg[k])
  }

  /** The events by which a peer comes to have a choke state, and with it anything else. */
  ghost predicate Revives(ev: PeerEvent, a: Addr)
  {
    (ev.Connected? || ev.Choke? || ev.Unchoke?) && ev.addr == a
  }

  /** The peer disconnected with event `i` and no later event brings it back. */
  ghost predicate LeftAt(events: seq<PeerEvent>, i: nat, a: Addr)
  {
    i < |events| && events[i] == Disconnected(a) && forall j :: i < j < |events| ==> !Revives(events[j], a)
  }

  lemma LeftBefore(events: seq<PeerEvent>, n: nat, i: nat, a: Addr)
    requires n < |events| && LeftAt(events[..n + 1], i, a)
    ensures if i == n then events[n] == Disconnected(a) else LeftAt(events[..n], i, a) && !Revives(events[n], a)
  {
    var all := events[..n + 1];
    if i < n {
      assert all[n] == events[n] && !Revives(all[n], a);
      forall j | i < j < n ensures !Revives(events[..n][j], a) { assert all[j] == events[..n][j]; }
    }
  }

  lemma RevivesIs(ev: PeerEvent)
    ensures ev.Connected? || ev.Choke? || ev.Unchoke? ==> Revives(ev, ev.addr)
  {
  }

  ghost function PausedAfter(paused: bool, events: seq<PeerEvent>): bool
  {
    if events == [] then paused
    else
      var ev := events[|events| - 1];
      if ev.Pause? then true else if ev.Resume? then false else PausedAfter(paused, events[..|events| - 1])
  }

  ghost function Cleared(assignment: map<Addr, nat>, addr: Addr, piece: nat): map<Addr, nat>
  {
    if addr in assignment && assignment[addr] == piece then assignment - {addr} else assignment
  }

  function CountOf(counts: map<Addr, nat>, a: Addr): nat
  {
    if a in counts then counts[a] else 0
  }

  class TorrentEngine {
    const picker: P.Picker
    var inflight: map<Addr, nat>
    var outstanding: Outstanding
    var endgame: Endgame
    var choking: map<Addr, bool>
    var paused: bool
    ghost var trace: Trace

    ghost predicate Valid()
      reads this, picker
    {
      && picker.Valid()
      && (forall a :: a in inflight ==> inflight[a] <= PIPELINE_DEPTH)
      && ListsOk(endgame)
      && Conserved(outstanding, endgame, trace)
      && Balanced(trace)
    }

    constructor (numPieces: nat)
      ensures Valid() && fresh(picker) && picker.numPieces == numPieces && trace == [] && !paused
      ensures inflight == map[] && outstanding == map[] && endgame == map[] && choking == map[]
    {
      picker := new P.Picker(numPieces);
      inflight, outstanding, endgame, choking, paused := map[], map[], map[], map[], false;
      trace := [];
      new;
      forall p ensures Covered(outstanding, endgame, trace, p) {
        assert OutKeys(outstanding, p) == {} && EndgameKeys(endgame, p) == {};
      }
    }

    function Inflight(a: Addr): nat
      reads this
    {
      CountOf(inflight, a)
    }

    /** Nothing in the choke states, the counts or the request tables is this peer's. */
    ghost predicate Absent(a: Addr)
      reads this
    {
      a !in choking && a !in inflight && NoEntries(outstanding, endgame, a)
    }

    /** Whether a pump for this peer may ask at all. */
    ghost predicate MayAsk(addr: Addr)
      reads this
    {
      !paused && addr in choking && !choking[addr]
    }

    /** Each peer's pump ran, in order, and ended for its own reason. */
    ghost predicate AllPumped(connected: seq<Addr>, ends: seq<PumpEnd>)
      reads this
    {
      && |ends| == |connected|
      && forall i :: 0 <= i < |ends| ==>
           (ends[i] == Silent <==> !MayAsk(connected[i])) && (ends[i] == Full ==> Inflight(connected[i]) >= PIPELINE_DEPTH)
    }

    /** Whether a pump for this peer, with a slot free, is bound to send something. */
    ghost predicate MustAsk(w: World, addr: Addr)
      reads this, picker
    {
      MayAsk(addr) && Ready(w, picker.peers, picker.assignment, picker.numPieces, addr)
    }

    // ---- the request pump ----

    /** The first unfinished block this peer was not yet asked for in endgame. */
    method FirstUnasked(blocks: seq<(u32, u32)>, piece: u32, addr: Addr) returns (r: Option<nat>)
      ensures r.None? <==> forall i :: 0 <= i < |blocks| ==> addr in Listed(endgame, Key(piece, blocks[i].0))
      ensures r.Some? ==> r.value < |blocks| && addr !in Listed(endgame, Key(piece, blocks[r.value].0))
      ensures r.Some? ==> forall i :: 0 <= i < r.value ==> addr in Listed(endgame, Key(piece, blocks[i].0))
    {
      for i := 0 to |blocks|
        invariant forall j :: 0 <= j < i ==> addr in Listed(endgame, Key(piece, blocks[j].0))
      {
        if addr !in Listed(endgame, Key(piece, blocks[i].0)) { return Some(i); }
      }
      r := None;
    }

    /** Bookkeeping for a Request that went out. */
    method RecordSent(addr: Addr, k: Key, inEndgame: bool, now: int)
      requires Valid() && Inflight(addr) < PIPELINE_DEPTH && (inEndgame ==> addr !in Listed(endgame, k))
      modifies this`inflight, this`outstanding, this`endgame, this`trace
      ensures Valid() && trace == old(trace) + [Sent(addr, k)]
      ensures inflight == old(inflight)[addr := old(Inflight(addr)) + 1]
      ensures inEndgame ==> outstanding == old(outstanding)
      ensures !inEndgame ==> endgame == old(endgame)
      ensures Grew(old(outstanding), old(endgame), outstanding, endgame, [Sent(addr, k)], addr, now)
    {
      hide Conserved;
      hide Balanced;
      hide Grew;
      hide NoEntries;
      inflight := inflight[addr := Inflight(addr) + 1];
      if inEndgame {
        GrewEndgame(outstanding, endgame, k, addr, now);
        SendEndgameConserves(outstanding, endgame, trace, k, addr);
        endgame := endgame[k := Listed(endgame, k) + [addr]];
      } else {
        GrewNormal(outstanding, endgame, k, addr, now);
        SendConserves(outstanding, endgame, trace, k, Request(addr, now));
        outstanding := outstanding[k := Request(addr, now)];
      }
      BalancedSnoc(outstanding, endgame, trace, Sent(addr, k));
      trace := trace + [Sent(addr, k)];
    }

    method Pick(addr: Addr, w: World, n: nat, inEndgame: bool) returns (r: Option<nat>)
      requires Valid() && inEndgame == (0 < w.missing < ENDGAME_REMAINING)
      modifies picker`assignment, picker`shared
      ensures Valid() && (r.Some? ==> r.value < picker.numPieces)
      ensures n == 0 && old(Ready(w, picker.peers, picker.assignment, picker.numPieces, addr)) ==> r.Some?
    {
      hide Conserved;
      hide Balanced;
      hide P.MayFetch;
      r := picker.PickFor(addr, w.turn(n).pieces, inEndgame);
    }

    method Unpick(addr: Addr, piece: nat)
      requires Valid()
      modifies picker`assignment
      ensures Valid()
      ensures picker.assignment == Cleared(old(picker.assignment), addr, piece)
    {
      hide Conserved;
      hide Balanced;
      picker.ClearAssignmentIf(addr, piece);
    }

    /** Whether the piece manager offers a block this peer can be asked for. */
    ghost predicate Offers(t: Turn, piece: u32, inEndgame: bool, addr: Addr, b: u32)
      reads this
    {
      if inEndgame then
        exists i :: 0 <= i < |t.unfinished| && FirstFor(t.unfinished, piece, addr, i) && t.unfinished[i].0 == b
      else t.reserved.Some? && t.reserved.value.0 == b
    }

    ghost predicate FirstFor(blocks: seq<(u32, u32)>, piece: u32, addr: Addr, i: nat)
      requires i < |blocks|
      reads this
    {
      && addr !in Listed(endgame, Key(piece, blocks[i].0))
      && forall j :: 0 <= j < i ==> addr in Listed(endgame, Key(piece, blocks[j].0))
    }

    /** One turn of the pump on the piece picked: without a block on offer nothing happens; with one, it is
        asked for and recorded exactly when the throttle and the channel let it through. */
    method TryPiece(addr: Addr, piece: nat, inEndgame: bool, t: Turn, now: int) returns (step: PumpStep)
      requires Valid() && Inflight(addr) < PIPELINE_DEPTH
      modifies this`inflight, this`outstanding, this`endgame, this`trace
      ensures Valid()
      ensures step == NoBlock <==> forall b :: !old(Offers(t, piece % U32_LIMIT, inEndgame, addr, b))
      ensures !inEndgame && t.reserved.Some? ==> step != NoBlock
      ensures step != NoBlock ==> (step == Asked <==> t.admitted && t.sent)
      ensures step != Asked ==>
          trace == old(trace) && inflight == old(inflight) && outstanding == old(outstanding) && endgame == old(endgame)
      ensures step == Asked ==>
          && (exists b :: old(Offers(t, piece % U32_LIMIT, inEndgame, addr, b)) &&
                trace == old(trace) + [Sent(addr, Key(piece % U32_LIMIT, b))])
          && inflight == old(inflight)[addr := old(Inflight(addr)) + 1]
          && Grew(old(outstanding), old(endgame), outstanding, endgame, trace[|old(trace)|..], addr, now)
          && (inEndgame ==> outstanding == old(outstanding)) && (!inEndgame ==> endgame == old(endgame))
    {
      hide Valid;
      hide Grew;
      hide NoEntries;
      var wire: u32 := piece % U32_LIMIT;
      var begin: u32;
      if inEndgame {
        var found := FirstUnasked(t.unfinished, wire, addr);
        if found.None? { return NoBlock; }
        begin := t.unfinished[found.value].0;
        assert FirstFor(t.unfinished, wire, addr, found.value);
      } else {
        if t.reserved.None? { return NoBlock; }
        begin := t.reserved.value.0;
      }
      assert Offers(t, wire, inEndgame, addr, begin);
      if !t.admitted { return Stop; }
      if !t.sent { return Stop; }
      RecordSent(addr, Key(wire, begin), inEndgame, now);
      assert trace[|old(trace)|..] == [Sent(addr, Key(wire, begin))];
      step := Asked;
    }

    /** One turn of the pump: pick, then try. A piece without blocks goes back to the picker. */
    method PumpTurn(addr: Addr, w: World, n: nat, inEndgame: bool, exhausted: set<nat>, now: int) returns (end: TurnEnd)
      requires Valid() && Inflight(addr) < PIPELINE_DEPTH && inEndgame == (0 < w.missing < ENDGAME_REMAINING)
      modifies this`inflight, this`outstanding, this`endgame, this`trace, picker`assignment, picker`shared
      ensures Valid()
      ensures end.Exhausted? ==> end.piece < picker.numPieces && end.piece !in exhausted
      ensures end.Over? ==> end.why == NothingToPick || (end.why == Refused && !(w.turn(n).admitted && w.turn(n).sent))
      ensures n == 0 && exhausted == {} && old(Ready(w, picker.peers, picker.assignment, picker.numPieces, addr)) ==> end.Went?
      ensures !end.Went? ==>
          trace == old(trace) && inflight == old(inflight) && outstanding == old(outstanding) && endgame == old(endgame)
      ensures end.Went? ==>
          && old(trace) < trace && |trace| == |old(trace)| + 1
          && inflight == old(inflight)[addr := old(Inflight(addr)) + 1]
          && Grew(old(outstanding), old(endgame), outstanding, endgame, trace[|old(trace)|..], addr, now)
          && (inEndgame ==> outstanding == old(outstanding)) && (!inEndgame ==> endgame == old(endgame))
    {
      hide Valid;
      hide Grew;
      hide NoEntries;
      hide Offers;
      hide P.MayFetch;
      var pick := Pick(addr, w, n, inEndgame);
      if pick.None? { return Over(NothingToPick); }
      var piece := pick.value;
      if piece in exhausted { return Over(NothingToPick); }
      var step := TryPiece(addr, piece, inEndgame, w.turn(n), now);
      match step
      case Stop => end := Over(Refused);
      case NoBlock =>
        Unpick(addr, piece);
        end := Exhausted(piece);
      case Asked => end := Went;
    }

    /** The loop of the pump. */
    method FillPipeline(addr: Addr, w: World, now: int) returns (ghost why: PumpEnd)
      requires Valid()
      modifies this`inflight, this`outstanding, this`endgame, this`trace, picker`assignment, picker`shared
      ensures Valid() && old(trace) <= trace
      ensures Grew(old(outstanding), old(endgame), outstanding, endgame, trace[|old(trace)|..], addr, now)
      ensures 0 < w.missing < ENDGAME_REMAINING ==> outstanding == old(outstanding)
      ensures !(0 < w.missing < ENDGAME_REMAINING) ==> endgame == old(endgame)
      ensures Inflight(addr) == old(Inflight(addr)) + |trace| - |old(trace)|
      ensures forall a :: a != addr ==> Inflight(a) == old(Inflight(a)) && (a in inflight <==> a in old(inflight))
      ensures why != Silent && (why == Full <==> Inflight(addr) >= PIPELINE_DEPTH)
      ensures why == Refused ==> exists n :: !w.turn(n).admitted || !w.turn(n).sent
      ensures old(Inflight(addr) < PIPELINE_DEPTH && Ready(w, picker.peers, picker.assignment, picker.numPieces, addr)) ==>
                old(trace) < trace
    {
      hide Valid;
      hide Grew;
      hide NoEntries;
      hide Ready;
      var inEndgame := w.missing < ENDGAME_REMAINING && w.missing > 0;
      var exhausted: set<nat> := {};
      ghost var out0, eg0 := outstanding, endgame;
      NoGrowth(outstanding, endgame, trace, addr, now);
      var n := 0;
      while true
        invariant Valid() && old(trace) <= trace
        invariant Grew(out0, eg0, outstanding, endgame, trace[|old(trace)|..], addr, now)
        invariant (inEndgame ==> outstanding == out0) && (!inEndgame ==> endgame == eg0)
        invariant Inflight(addr) == old(Inflight(addr)) + |trace| - |old(trace)|
        invariant forall a :: a != addr ==> Inflight(a) == old(Inflight(a)) && (a in inflight <==> a in old(inflight))
        invariant forall i :: i in exhausted ==> i < picker.numPieces
        invariant n == 0 ==> exhausted == {} && trace == old(trace) && picker.assignment == old(picker.assignment)
        invariant n > 0 && old(Ready(w, picker.peers, picker.assignment, picker.numPieces, addr)) ==> old(trace) < trace
        decreases PIPELINE_DEPTH - Inflight(addr) + picker.numPieces - |exhausted|
      {
        BelowCount(exhausted, picker.numPieces);
        if Inflight(addr) >= PIPELINE_DEPTH { return Full; }
        ghost var out1, eg1, trace1 := outstanding, endgame, trace;
        var end := PumpTurn(addr, w, n, inEndgame, exhausted, now);
        match end {
          case Over(e) => return e;
          case Exhausted(piece) =>
            BelowCount(exhausted + {piece}, picker.numPieces);
            exhausted := exhausted + {piece};
          case Went =>
            GrewTwice(out0, eg0, out1, eg1, outstanding, endgame, trace1[|old(trace)|..], trace[|trace1|..], addr, now);
            NewPart(old(trace), trace1, trace);
        }
        n := n + 1;
      }
    }

    /** Fills the pipeline of one peer. Ends for all answers of its collaborators; counts and records exactly
        the Requests it sends, all to that peer; stops short of a full pipeline only when there is nothing
        new to pick or a request is refused. */
    method MaybeRequestBlocks(addr: Addr, w: World, now: int) returns (ghost why: PumpEnd)
      requires Valid()
      modifies this`inflight, this`outstanding, this`endgame, this`trace, picker`assignment, picker`shared
      ensures Valid() && old(trace) <= trace
      ensures Grew(old(outstanding), old(endgame), outstanding, endgame, trace[|old(trace)|..], addr, now)
      ensures 0 < w.missing < ENDGAME_REMAINING ==> outstanding == old(outstanding)
      ensures !(0 < w.missing < ENDGAME_REMAINING) ==> endgame == old(endgame)
      ensures Inflight(addr) == old(Inflight(addr)) + |trace| - |old(trace)|
      ensures forall a :: a != addr ==> Inflight(a) == old(Inflight(a))
      ensures forall a :: old(Absent(a)) ==> Absent(a)
      ensures why == Silent <==> !MayAsk(addr)
      ensures why != Silent ==> (why == Full <==> Inflight(addr) == PIPELINE_DEPTH)
      ensures why == Refused ==> exists n :: !w.turn(n).admitted || !w.turn(n).sent
      ensures old(Inflight(addr) < PIPELINE_DEPTH && MustAsk(w, addr)) ==> old(trace) < trace
      ensures why == Silent ==>
                trace == old(trace) && outstanding == old(outstanding) && endgame == old(endgame) && inflight == old(inflight)
    {
      hide Conserved;
      hide Balanced;
      hide ListsOk;
      hide Grew;
      hide NoEntries;
      hide Ready;
      NoGrowth(outstanding, endgame, trace, addr, now);
      if paused { return Silent; }
      if addr !in choking || choking[addr] { return Silent; }
      why := FillPipeline(addr, w, now);
      GrewNobodyElse(old(outstanding), old(endgame), outstanding, endgame, trace[|old(trace)|..], addr, now);
    }

    // ---- letting go ----

    /** A saturating decrement of the peer's count. */
    method Decrement(addr: Addr)
      requires Valid()
      modifies this`inflight
      ensures Valid() && inflight.Keys == old(inflight).Keys
      ensures Inflight(addr) == Pred(old(Inflight(addr))) && forall a :: a != addr ==> Inflight(a) == old(Inflight(a))
      ensures forall a :: old(Absent(a)) ==> Absent(a)
    {
      if addr in inflight {
        inflight := inflight[addr := if inflight[addr] == 0 then 0 else inflight[addr] - 1];
      }
    }

    method Forget(k: Key)
      requires Valid()
      modifies this`outstanding
      ensures Valid() && outstanding == old(outstanding) - {k}
      ensures forall a :: old(Absent(a)) ==> Absent(a)
    {
      hide Conserved;
      ForgetConserves(outstanding, endgame, outstanding - {k}, endgame, trace);
      FewerEntries(outstanding, endgame, outstanding - {k}, endgame);
      outstanding := outstanding - {k};
    }

    method ReleaseOutstandingFor(addr: Addr)
      requires Valid()
      modifies this`outstanding
      ensures Valid() && Released(old(outstanding), outstanding, addr)
      ensures forall a :: old(Absent(a)) ==> Absent(a)
    {
      hide Conserved;
      var release := set k | k in outstanding && outstanding[k].addr == addr;
      ghost var all := release;
      while release != {}
        invariant release <= all
        invariant forall k :: k in outstanding <==> k in old(outstanding) && (k in all ==> k in release)
        invariant forall k :: k in outstanding ==> outstanding[k] == old(outstanding)[k]
        decreases |release|
      {
        var k :| k in release;
        outstanding := outstanding - {k};
        release := release - {k};
      }
      ForgetConserves(old(outstanding), endgame, outstanding, endgame, trace);
      FewerEntries(old(outstanding), endgame, outstanding, endgame);
    }

    /** Nothing of a departed peer stays in any table; nothing of anybody else is touched. */
    method CleanupDisconnectedPeer(addr: Addr)
      requires Valid()
      modifies this`inflight, this`outstanding, this`endgame, this`choking, picker
      ensures Valid()
      ensures Released(old(outstanding), outstanding, addr) && PeerStruck(old(endgame), endgame, addr)
      ensures inflight == old(inflight) - {addr} && choking == old(choking) - {addr}
      ensures picker.peers == old(picker.peers) - {addr} && picker.assignment == old(picker.assignment) - {addr}
      ensures forall a :: old(Absent(a)) ==> Absent(a)
      ensures Absent(addr)
    {
      hide Conserved;
      hide Balanced;
      hide ListsOk;
      hide Released;
      hide PeerStruck;
      choking := choking - {addr};
      inflight := inflight - {addr};
      LeavePicker(addr);
      ReleaseOutstandingFor(addr);
      ghost var eg := endgame;
      StrikePeer(addr);
      NothingLeft(old(outstanding), outstanding, eg, endgame, addr);
    }

    method LeavePicker(addr: Addr)
      requires Valid()
      modifies picker
      ensures Valid()
      ensures picker.peers == old(picker.peers) - {addr} && picker.assignment == old(picker.assignment) - {addr}
    {
      hide Conserved;
      hide Balanced;
      hide ListsOk;
      picker.ReleaseAssignment(addr);
      picker.ForgetPeer(addr);
    }

    method StrikePeer(addr: Addr)
      requires Valid()
      modifies this`endgame
      ensures Valid() && PeerStruck(old(endgame), endgame, addr)
      ensures forall a :: old(Absent(a)) ==> Absent(a)
    {
      hide Conserved;
      hide Balanced;
      hide ListsOk;
      hide StrikeAll;
      StrikeAllOk(endgame, addr);
      StruckFewer(outstanding, endgame, StrikeAll(endgame, addr), addr);
      ForgetConserves(outstanding, endgame, outstanding, StrikeAll(endgame, addr), trace);
      FewerEntries(outstanding, endgame, outstanding, StrikeAll(endgame, addr));
      endgame := StrikeAll(endgame, addr);
    }

    // ---- the events ----

    method OnConnected(addr: Addr)
      requires Valid()
      modifies this`inflight, this`choking
      ensures Valid() && inflight == old(inflight)[addr := 0] && choking == old(choking)[addr := true]
      ensures forall a :: a != addr && old(Absent(a)) ==> Absent(a)
    {
      choking := choking[addr := true];
      inflight := inflight[addr := 0];
    }

    method OnChoke(addr: Addr)
      requires Valid()
      modifies this`inflight, this`choking, this`outstanding, picker`assignment
      ensures Valid() && inflight == old(inflight)[addr := 0] && choking == old(choking)[addr := true]
      ensures Released(old(outstanding), outstanding, addr)
      ensures picker.assignment == old(picker.assignment) - {addr}
      ensures forall a :: a != addr && old(Absent(a)) ==> Absent(a)
    {
      hide Released;
      choking := choking[addr := true];
      inflight := inflight[addr := 0];
      picker.ReleaseAssignment(addr);
      ReleaseOutstandingFor(addr);
    }

    method OnUnchoke(addr: Addr, w: World, now: int) returns (ghost why: PumpEnd)
      requires Valid()
      modifies this`choking, this`inflight, this`outstanding, this`endgame, this`trace, picker`assignment, picker`shared
      ensures Valid() && choking == old(choking)[addr := false] && old(trace) <= trace
      ensures Grew(old(outstanding), old(endgame), outstanding, endgame, trace[|old(trace)|..], addr, now)
      ensures !paused ==> why != Silent && (why == Full <==> Inflight(addr) == PIPELINE_DEPTH)
      ensures forall a :: Inflight(a) == old(Inflight(a)) + if a == addr then |trace| - |old(trace)| else 0
      ensures !paused && old(Inflight(addr) < PIPELINE_DEPTH && Ready(w, picker.peers, picker.assignment, picker.numPieces, addr)) ==>
                old(trace) < trace
      ensures forall a :: a != addr && old(Absent(a)) ==> Absent(a)
    {
      hide Ready;
      hide Conserved;
      hide Balanced;
      hide ListsOk;
      hide Grew;
      hide NoEntries;
      choking := choking[addr := false];
      why := MaybeRequestBlocks(addr, w, now);
    }

    method OnBitfield(addr: Addr, bits: seq<bool>, w: World, now: int)
      requires Valid()
      modifies this`inflight, this`outstanding, this`endgame, this`trace, picker
      ensures Valid() && picker.peers == old(picker.peers)[addr := bits] && old(trace) <= trace
      ensures Grew(old(outstanding), old(endgame), outstanding, endgame, trace[|old(trace)|..], addr, now)
      ensures forall a :: Inflight(a) == old(Inflight(a)) + if a == addr then |trace| - |old(trace)| else 0
      ensures MayAsk(addr) && old(Inflight(addr)) < PIPELINE_DEPTH ==>
                Ready(w, picker.peers, old(picker.assignment), picker.numPieces, addr) ==> old(trace) < trace
      ensures forall a :: old(Absent(a)) ==> Absent(a)
    {
      hide Ready;
      hide Conserved;
      hide Balanced;
      hide ListsOk;
      hide Grew;
      hide NoEntries;
      picker.SetPeerBitfield(addr, bits);
      ghost var why := MaybeRequestBlocks(addr, w, now);
    }

    method OnHave(addr: Addr, index: u32, w: World, now: int)
      requires Valid()
      modifies this`inflight, this`outstanding, this`endgame, this`trace, picker
      ensures Valid() && old(trace) <= trace
      ensures forall i: nat, a :: a in P.Holders(picker.peers, i) <==>
                a in P.Holders(old(picker.peers), i) || (a == addr && i == index && index < picker.numPieces)
      ensures Grew(old(outstanding), old(endgame), outstanding, endgame, trace[|old(trace)|..], addr, now)
      ensures forall a :: Inflight(a) == old(Inflight(a)) + if a == addr then |trace| - |old(trace)| else 0
      ensures MayAsk(addr) && old(Inflight(addr)) < PIPELINE_DEPTH ==>
                Ready(w, picker.peers, old(picker.assignment), picker.numPieces, addr) ==> old(trace) < trace
      ensures forall a :: old(Absent(a)) ==> Absent(a)
    {
      hide Ready;
      hide Conserved;
      hide Balanced;
      hide ListsOk;
      hide Grew;
      hide NoEntries;
      ghost var before := picker.peers;
      picker.AddHave(addr, index);
      forall i: nat ensures P.Holders(picker.peers, i) ==
                            P.Holders(before, i) + (if i == index && index < picker.numPieces then {addr} else {}) {
        P.HaveHolders(before, addr, picker.numPieces, index, i);
      }
      ghost var why := MaybeRequestBlocks(addr, w, now);
    }

    /** A rejection frees the sender's slot, and clears a request only if it was sent to that very peer. */
    method OnRejectRequest(addr: Addr, index: u32, begin: u32, w: World, now: int)
      requires Valid()
      modifies this`inflight, this`outstanding, this`endgame, this`trace, picker`assignment, picker`shared
      ensures Valid() && old(trace) <= trace
      ensures
        var k := Key(index, begin);
        if old(k in outstanding && outstanding[k].addr == addr) && index < picker.numPieces
        then Grew(old(outstanding) - {k}, old(endgame), outstanding, endgame, trace[|old(trace)|..], addr, now)
        else trace == old(trace) && outstanding == old(outstanding) && endgame == old(endgame)
      ensures Inflight(addr) == Pred(old(Inflight(addr))) + |trace| - |old(trace)|
      ensures forall a :: a != addr ==> Inflight(a) == old(Inflight(a))
      ensures old(MustAsk(w, addr) && Key(index, begin) in outstanding && outstanding[Key(index, begin)].addr == addr) ==>
                index < picker.numPieces ==> old(trace) < trace
      ensures forall a :: old(Absent(a)) ==> Absent(a)
    {
      hide Conserved;
      hide Balanced;
      hide ListsOk;
      hide Grew;
      hide NoEntries;
      hide Ready;
      Decrement(addr);
      var k := Key(index, begin);
      var owned := k in outstanding && outstanding[k].addr == addr;
      if owned && index < picker.numPieces {
        Forget(k);
        ghost var why := MaybeRequestBlocks(addr, w, now);
      }
    }

    /** A block frees its sender's slot, and is handed on exactly when it was asked for from that sender, once,
        before anything new is asked. Its sender is dropped if the block is invalid or completes a piece with
        the wrong hash; otherwise the pump goes on. */
    method OnBlock(addr: Addr, index: u32, begin: u32, outcome: BlockOutcome, banned: bool, w: World, now: int)
      requires Valid()
      modifies this, picker
      ensures Valid() && old(trace) <= trace && paused == old(paused)
      ensures forall a :: a != addr ==> Inflight(a) == old(Inflight(a))
      ensures
        var k := Key(index, begin);
        var taken := old(trace) + [Passed(addr, k)];
        if !old(Solicited(outstanding, endgame, addr, k)) then
          && Grew(old(outstanding), old(endgame), outstanding, endgame, trace[|old(trace)|..], addr, now)
          && Inflight(addr) == Pred(old(Inflight(addr))) + |trace| - |old(trace)|
          && choking == old(choking)
        else if outcome == Invalid || outcome == Mismatch then
          && trace == taken && addr !in inflight && addr !in choking
          && Released(old(outstanding) - {k}, outstanding, addr)
          && PeerStruck(if outcome == Invalid then old(endgame) else old(endgame) - {k}, endgame, addr)
        else
          && taken <= trace && choking == old(choking)
          && Grew(old(outstanding) - {k}, old(endgame) - {k}, outstanding, endgame, trace[|taken|..], addr, now)
          && Inflight(addr) == Pred(old(Inflight(addr))) + |trace| - |taken|
          && (outcome == TaskLost || banned ==> trace == taken)
          && (outcome == Taken && !banned && old(MustAsk(w, addr)) ==> taken < trace)
      ensures !old(Solicited(outstanding, endgame, addr, Key(index, begin))) && old(MustAsk(w, addr)) ==> old(trace) < trace
      ensures forall a :: old(Absent(a)) ==> Absent(a)
    {
      hide Ready;
      hide Conserved;
      hide Balanced;
      hide ListsOk;
      hide Grew;
      hide NoEntries;
      hide Released;
      hide PeerStruck;
      Decrement(addr);
      var k := Key(index, begin);
      var inEndgame := k in endgame && addr in endgame[k];
      var inNormal := k in outstanding && outstanding[k].addr == addr;
      if !inNormal && !inEndgame {
        ghost var why := MaybeRequestBlocks(addr, w, now);
        return;
      }
      AcceptBlock(addr, index, begin, outcome, banned, w, now);
    }

    /** The solicited branch of the Block handler. */
    method AcceptBlock(addr: Addr, index: u32, begin: u32, outcome: BlockOutcome, banned: bool, w: World, now: int)
      requires Valid() && Solicited(outstanding, endgame, addr, Key(index, begin)) && Inflight(addr) < PIPELINE_DEPTH
      modifies this`inflight, this`outstanding, this`endgame, this`choking, this`trace, picker
      ensures Valid()
      ensures forall a :: a != addr ==> Inflight(a) == old(Inflight(a))
      ensures
        var k := Key(index, begin);
        var taken := old(trace) + [Passed(addr, k)];
        if outcome == Invalid || outcome == Mismatch then
          && trace == taken && addr !in inflight && addr !in choking
          && Released(old(outstanding) - {k}, outstanding, addr)
          && PeerStruck(if outcome == Invalid then old(endgame) else old(endgame) - {k}, endgame, addr)
        else
          && taken <= trace && choking == old(choking)
          && Grew(old(outstanding) - {k}, old(endgame) - {k}, outstanding, endgame, trace[|taken|..], addr, now)
          && Inflight(addr) == old(Inflight(addr)) + |trace| - |taken|
          && (outcome == TaskLost || banned ==> trace == taken)
          && (outcome == Taken && !banned && old(MustAsk(w, addr)) ==> taken < trace)
      ensures forall a :: old(Absent(a)) ==> Absent(a)
    {
      hide Ready;
      hide Conserved;
      hide Balanced;
      hide ListsOk;
      hide Grew;
      hide NoEntries;
      hide Released;
      hide PeerStruck;
      var k := Key(index, begin);
      if outcome == Invalid {
        TakeAndBan(addr, k);
        return;
      }
      Take(addr, k);
      if outcome == TaskLost {
        NoGrowth(outstanding, endgame, trace, addr, now);
        return;
      }
      if outcome == Mismatch {
        DropSender(addr, index, banned, w, now);
        return;
      }
      NoGrowth(outstanding, endgame, trace, addr, now);
      if !banned {
        ghost var why := MaybeRequestBlocks(addr, w, now);
      }
    }

    /** The piece's hash was wrong: the last sender goes, and its pump, should it still run, stays silent. */
    method DropSender(addr: Addr, index: u32, banned: bool, w: World, now: int)
      requires Valid()
      modifies this`inflight, this`outstanding, this`endgame, this`choking, this`trace, picker
      ensures Valid() && trace == old(trace)
      ensures Released(old(outstanding), outstanding, addr) && PeerStruck(old(endgame), endgame, addr)
      ensures addr !in inflight && addr !in choking
      ensures forall a :: a != addr ==> Inflight(a) == old(Inflight(a))
      ensures forall a :: old(Absent(a)) ==> Absent(a)
    {
      hide Conserved;
      hide Balanced;
      hide ListsOk;
      hide Grew;
      hide NoEntries;
      hide Released;
      hide PeerStruck;
      Unpick(addr, index);
      CleanupDisconnectedPeer(addr);
      if !banned {
        ghost var why := MaybeRequestBlocks(addr, w, now);
      }
    }

    /** The block is in: both tables forget the key. */
    method Take(addr: Addr, k: Key)
      requires Valid() && Solicited(outstanding, endgame, addr, k)
      modifies this`outstanding, this`endgame, this`trace
      ensures Valid() && trace == old(trace) + [Passed(addr, k)]
      ensures outstanding == old(outstanding) - {k} && endgame == old(endgame) - {k}
      ensures forall a :: old(Absent(a)) ==> Absent(a)
    {
      hide Conserved;
      hide Balanced;
      outstanding := outstanding - {k};
      endgame := endgame - {k};
      PassConserves(old(outstanding), old(endgame), outstanding, endgame, trace, k, addr);
      FewerEntries(old(outstanding), old(endgame), outstanding, endgame);
      BalancedSnoc(outstanding, endgame, trace, Passed(addr, k));
      trace := trace + [Passed(addr, k)];
    }

    /** The piece manager refused the block: its sender goes. */
    method TakeAndBan(addr: Addr, k: Key)
      requires Valid() && Solicited(outstanding, endgame, addr, k)
      modifies this`inflight, this`outstanding, this`endgame, this`choking, this`trace, picker
      ensures Valid() && trace == old(trace) + [Passed(addr, k)]
      ensures Released(old(outstanding) - {k}, outstanding, addr) && PeerStruck(old(endgame), endgame, addr)
      ensures inflight == old(inflight) - {addr} && choking == old(choking) - {addr}
      ensures forall a :: old(Absent(a)) ==> Absent(a)
    {
      hide Conserved;
      hide Balanced;
      hide ListsOk;
      Forget(k);
      ghost var out1 := outstanding;
      CleanupDisconnectedPeer(addr);
      GoneFewer(old(outstanding), old(endgame), k, outstanding, endgame, addr);
      PassConserves(old(outstanding), old(endgame), outstanding, endgame, trace, k, addr);
      FewerEntries(old(outstanding), old(endgame), outstanding, endgame);
      BalancedSnoc(outstanding, endgame, trace, Passed(addr, k));
      trace := trace + [Passed(addr, k)];
    }

    /** One stale request: released, its slot freed, its peer's pump kicked. */
    method ReapOne(k: Key, addr: Addr, w: World, now: int)
      requires Valid()
      modifies this`inflight, this`outstanding, this`endgame, this`trace, picker`assignment, picker`shared
      ensures Valid() && old(trace) <= trace
      ensures Grew(old(outstanding) - {k}, old(endgame), outstanding, endgame, trace[|old(trace)|..], addr, now)
      ensures Inflight(addr) == Pred(old(Inflight(addr))) + |trace| - |old(trace)|
      ensures forall a :: a != addr ==> Inflight(a) == old(Inflight(a))
      ensures old(MustAsk(w, addr)) ==> old(trace) < trace
      ensures forall j :: j in outstanding && now - outstanding[j].sentAt > REQUEST_TIMEOUT ==>
                j != k && j in old(outstanding) && outstanding[j] == old(outstanding)[j]
      ensures forall j :: j in old(outstanding) && j != k ==> j in outstanding
      ensures OnlyRequestsTo(trace[|old(trace)|..], addr)
      ensures forall a :: old(Absent(a)) ==> Absent(a)
    {
      hide Conserved;
      hide Balanced;
      hide ListsOk;
      hide Ready;
      hide Grew;
      hide NoEntries;
      Forget(k);
      Decrement(addr);
      ghost var why := MaybeRequestBlocks(addr, w, now);
      GrewFresh(old(outstanding) - {k}, old(endgame), outstanding, endgame, trace[|old(trace)|..], addr, now);
    }

    /** After a sweep no request older than the timeout is left, every younger one still is, and each peer's
        count has gone down by its stale requests and up by its new ones (or more, where it ran into zero). */
    method ReapStale(ws: nat -> World, now: int)
      requires Valid()
      modifies this`inflight, this`outstanding, this`endgame, this`trace, picker`assignment, picker`shared
      ensures Valid() && old(trace) <= trace && OnlyRequests(trace[|old(trace)|..])
      ensures forall k :: k in outstanding ==> now - outstanding[k].sentAt <= REQUEST_TIMEOUT
      ensures forall k :: k in old(outstanding) && now - old(outstanding)[k].sentAt <= REQUEST_TIMEOUT ==> k in outstanding
      ensures forall a :: Settled(|StaleOf(old(outstanding), now, a)|, old(Inflight(a)), Inflight(a), |SentTo(trace[|old(trace)|..], a)|)
      ensures forall a :: old(Absent(a)) ==> Absent(a)
    {
      hide Valid;
      hide Grew;
      hide NoEntries;
      hide AllTallied;
      var stale := map k | k in outstanding && now - outstanding[k].sentAt > REQUEST_TIMEOUT :: outstanding[k].addr;
      var keys := stale.Keys;
      var n := 0;
      ghost var was := inflight;
      TallyStart(stale, was, trace);
      while keys != {}
        invariant Valid() && keys <= stale.Keys
        invariant old(trace) <= trace && OnlyRequests(trace[|old(trace)|..])
        invariant forall k :: k in outstanding && now - outstanding[k].sentAt > REQUEST_TIMEOUT ==> k in keys
        invariant forall k :: k in old(outstanding) && k !in stale ==> k in outstanding
        invariant AllTallied(stale, keys, was, inflight, trace[|old(trace)|..])
        invariant forall a :: old(Absent(a)) ==> Absent(a)
        decreases |keys|
      {
        var k :| k in keys;
        ghost var trace1, count1 := trace, inflight;
        ReapOne(k, stale[k], ws(n), now);
        forall a | a != stale[k] ensures CountOf(inflight, a) == CountOf(count1, a) {
          assert Inflight(a) == CountOf(inflight, a);
        }
        TallyStep(stale, keys, k, was, count1, inflight, trace1[|old(trace)|..], trace[|trace1|..]);
        NewPart(old(trace), trace1, trace);
        keys := keys - {k};
        n := n + 1;
      }
      TallyEnd(stale, old(outstanding), now, was, inflight, trace[|old(trace)|..]);
    }

    /** The piece is on disk: only lists of other pieces are left, except for what is asked again now. */
    method OnWritten(index: u32, connected: seq<Addr>, ws: nat -> World, now: int) returns (ghost ends: seq<PumpEnd>)
      requires Valid()
      modifies this`inflight, this`outstanding, this`endgame, this`trace, picker`assignment, picker`shared
      ensures Valid() && old(trace) <= trace && OnlyRequests(trace[|old(trace)|..])
      ensures forall i :: |old(trace)| <= i < |trace| ==> trace[i].addr in connected && MayAsk(trace[i].addr)
      ensures AskedAnew(old(endgame), endgame, index, trace[|old(trace)|..])
      ensures forall a :: a !in connected ==> Inflight(a) == old(Inflight(a))
      ensures AllPumped(connected, ends)
      ensures forall a :: old(Absent(a)) ==> Absent(a)
    {
      hide Valid;
      hide Ready;
      hide Grew;
      hide NoEntries;
      hide AskedAnew;
      ForgetPiece(index);
      ends := [];
      NothingAnew(old(endgame), endgame, index, trace);
      for i := 0 to |connected|
        invariant Valid() && old(trace) <= trace && OnlyRequests(trace[|old(trace)|..])
        invariant forall j :: |old(trace)| <= j < |trace| ==> trace[j].addr in connected && MayAsk(trace[j].addr)
        invariant AskedAnew(old(endgame), endgame, index, trace[|old(trace)|..])
        invariant forall a :: a !in connected ==> Inflight(a) == old(Inflight(a))
        invariant forall a :: old(Absent(a)) ==> Absent(a)
        invariant AllPumped(connected[..i], ends)
      {
        ghost var before, out, eg := trace, outstanding, endgame;
        Unpick(connected[i], index);
        ghost var why := MaybeRequestBlocks(connected[i], ws(i), now);
        NewPart(old(trace), before, trace);
        GrewFresh(out, eg, outstanding, endgame, trace[|before|..], connected[i], now);
        AnewGrows(old(endgame), out, eg, outstanding, endgame, index, before[|old(trace)|..], trace[|before|..], connected[i], now);
        ends := ends + [why];
        assert connected[..i + 1] == connected[..i] + [connected[i]];
      }
      assert connected[..|connected|] == connected;
    }

    method SetPaused(on: bool)
      requires Valid()
      modifies this`paused
      ensures Valid() && paused == on
      ensures forall a :: old(Absent(a)) ==> Absent(a)
    {
      paused := on;
    }

    /** Kicks every connected peer's pump back into motion; peers that choke us get nothing. */
    method OnResume(connected: seq<Addr>, ws: nat -> World, now: int) returns (ghost ends: seq<PumpEnd>)
      requires Valid()
      modifies this`paused, this`inflight, this`outstanding, this`endgame, this`trace, picker`assignment, picker`shared
      ensures Valid() && !paused && old(trace) <= trace && OnlyRequests(trace[|old(trace)|..])
      ensures forall i :: |old(trace)| <= i < |trace| ==> trace[i].addr in connected && MayAsk(trace[i].addr)
      ensures AllPumped(connected, ends)
      ensures forall a :: a !in connected ==> Inflight(a) == old(Inflight(a))
      ensures forall a :: old(Absent(a)) ==> Absent(a)
    {
      hide Valid;
      hide Ready;
      hide Grew;
      hide NoEntries;
      SetPaused(false);
      ends := [];
      for i := 0 to |connected|
        invariant Valid() && !paused && old(trace) <= trace && OnlyRequests(trace[|old(trace)|..])
        invariant forall j :: |old(trace)| <= j < |trace| ==> trace[j].addr in connected && MayAsk(trace[j].addr)
        invariant forall a :: old(Absent(a)) ==> Absent(a)
        invariant AllPumped(connected[..i], ends)
        invariant forall a :: a !in connected ==> Inflight(a) == old(Inflight(a))
      {
        ghost var before, out, eg := trace, outstanding, endgame;
        ghost var why := MaybeRequestBlocks(connected[i], ws(i), now);
        NewPart(old(trace), before, trace);
        GrewFresh(out, eg, outstanding, endgame, trace[|before|..], connected[i], now);
        ends := ends + [why];
        assert connected[..i + 1] == connected[..i] + [connected[i]];
      }
      assert connected[..|connected|] == connected;
    }

    method ForgetPiece(index: u32)
      requires Valid()
      modifies this`endgame
      ensures Valid() && PieceForgotten(old(endgame), endgame, index)
      ensures forall a :: old(Absent(a)) ==> Absent(a)
    {
      hide Conserved;
      hide Balanced;
      ForgetConserves(outstanding, endgame, outstanding, WithoutPiece(endgame, index), trace);
      FewerEntries(outstanding, endgame, outstanding, WithoutPiece(endgame, index));
      endgame := WithoutPiece(endgame, index);
    }

    /** One event. */
    method Handle(ev: PeerEvent, ws: nat -> World, now: int)
      requires Valid()
      modifies this, picker
      ensures Valid() && old(trace) <= trace
      ensures ev.Connected? ==> inflight == old(inflight)[ev.addr := 0] && choking == old(choking)[ev.addr := true]
      ensures ev.Disconnected? ==>
          && Released(old(outstanding), outstanding, ev.addr) && PeerStruck(old(endgame), endgame, ev.addr)
          && inflight == old(inflight) - {ev.addr} && choking == old(choking) - {ev.addr}
      ensures ev.Connected? || ev.Disconnected? || ev.HaveAll? || ev.Choke? || ev.StorageError? || ev.Pause? ==> trace == old(trace)
      ensures ev.HaveAll? ==> picker.peers == old(picker.peers)[ev.addr := seq(picker.numPieces, _ => true)]
      ensures ev.Bitfield? ==> picker.peers == old(picker.peers)[ev.addr := ev.bits]
      ensures ev.Have? ==> forall i: nat, a :: a in P.Holders(picker.peers, i) <==>
                a in P.Holders(old(picker.peers), i) || (a == ev.addr && i == ev.index && i < picker.numPieces)
      ensures ev.RejectRequest? ==> Inflight(ev.addr) == Pred(old(Inflight(ev.addr))) + |trace| - |old(trace)|
      ensures ev.Choke? ==>
          && Released(old(outstanding), outstanding, ev.addr) && endgame == old(endgame)
          && inflight == old(inflight)[ev.addr := 0] && choking == old(choking)[ev.addr := true]
      ensures ev.Unchoke? ==> choking == old(choking)[ev.addr := false]
      ensures ev.Block? && old(Solicited(outstanding, endgame, ev.addr, Key(ev.index, ev.begin))) ==>
                old(trace) + [Passed(ev.addr, Key(ev.index, ev.begin))] <= trace
      ensures ev.Block? && !old(Solicited(outstanding, endgame, ev.addr, Key(ev.index, ev.begin))) ==>
                Grew(old(outstanding), old(endgame), outstanding, endgame, trace[|old(trace)|..], ev.addr, now)
      ensures ev.Written? ==> AskedAnew(old(endgame), endgame, ev.index, trace[|old(trace)|..])
      ensures ev.StorageError? ==>
          if ev.failed.Some? then PieceForgotten(old(endgame), endgame, ev.failed.value) else endgame == old(endgame)
      ensures ev.ReaperTick? ==> forall k :: k in outstanding ==> now - outstanding[k].sentAt <= REQUEST_TIMEOUT
      ensures forall a :: old(Absent(a)) && !Revives(ev, a) ==> Absent(a)
      ensures ev.Disconnected? ==> Absent(ev.addr)
      ensures paused == if ev.Pause? then true else if ev.Resume? then false else old(paused)
    {
      RevivesIs(ev);
      hide *;
      match ev
      case Connected(addr) => OnConnected(addr);
      case Disconnected(addr) => CleanupDisconnectedPeer(addr);
      case HaveAll(addr) => OnHaveAll(addr);
      case RejectRequest(addr, index, begin) => OnRejectRequest(addr, index, begin, ws(0), now);
      case Bitfield(addr, bits) => OnBitfield(addr, bits, ws(0), now);
      case Have(addr, index) => OnHave(addr, index, ws(0), now);
      case Choke(addr) => OnChoke(addr);
      case Unchoke(addr) => ghost var why := OnUnchoke(addr, ws(0), now);
      case Block(addr, index, begin, outcome, banned) => OnBlock(addr, index, begin, outcome, banned, ws(0), now);
      case Written(index, connected) => ghost var ends := OnWritten(index, connected, ws, now);
      case StorageError(failed) =>
        if failed.Some? { ForgetPiece(failed.value); }
      case ReaperTick => ReapStale(ws, now);
      case Pause => SetPaused(true);
      case Resume(connected) => ghost var ends := OnResume(connected, ws, now);
    }

    method OnHaveAll(addr: Addr)
      requires Valid()
      modifies picker
      ensures Valid() && picker.peers == old(picker.peers)[addr := seq(picker.numPieces, _ => true)]
      ensures picker.assignment == old(picker.assignment)
    {
      hide Conserved;
      hide Balanced;
      hide ListsOk;
      picker.SetPeerBitfield(addr, seq(picker.numPieces, _ => true));
    }

    /** Any run of events. Per peer, blocks taken plus both kinds of open entries never exceed the Requests
        sent, every block taken answers an earlier Request to its sender, no pipeline is overfull, every
        endgame list is non-empty without repeats, and nothing of a disconnected peer is left, or comes back,
        until it connects or (un)chokes again. */
    method RunEvents(events: seq<PeerEvent>, answers: nat -> nat -> World, times: seq<int>)
      requires Valid() && |times| == |events|
      modifies this, picker
      ensures Valid() && old(trace) <= trace
      ensures forall p :: |PassedFrom(trace, p)| + |OutKeys(outstanding, p)| + |EndgameKeys(endgame, p)| <= |SentTo(trace, p)|
      ensures forall j :: 0 <= j < |trace| && trace[j].Passed? ==> RequestedBefore(trace, j)
      ensures forall a :: Inflight(a) <= PIPELINE_DEPTH
      ensures forall k :: k in endgame ==> endgame[k] != [] && NoRepeats(endgame[k])
      ensures forall i: nat, a :: LeftAt(events, i, a) ==> Absent(a)
      ensures paused == PausedAfter(old(paused), events)
    {
      hide Conserved;
      hide Balanced;
      hide NoEntries;
      hide Grew;
      hide Released;
      hide PeerStruck;
      hide PieceForgotten;
      for n := 0 to |events|
        invariant Valid() && old(trace) <= trace
        invariant forall i: nat, a :: LeftAt(events[..n], i, a) ==> Absent(a)
        invariant paused == PausedAfter(old(paused), events[..n])
      {
        label before:
        Handle(events[n], answers(n), times[n]);
        ghost var seen := events[..n + 1];
        assert seen[..n] == events[..n];
        forall i: nat, a | LeftAt(seen, i, a) ensures Absent(a) {
          LeftBefore(events, n, i, a);
          assert i < n ==> old@before(Absent(a));
        }
      }
      assert events[..|events|] == events;
      forall p ensures |PassedFrom(trace, p)| + |OutKeys(outstanding, p)| + |EndgameKeys(endgame, p)| <= |SentTo(trace, p)| {
        CountsConserved(outstanding, endgame, trace, p);
      }
      forall j | 0 <= j < |trace| && trace[j].Passed? ensures RequestedBefore(trace, j) {
        PassedWasRequested(trace, j);
      }
    }
  }

  lemma NothingLeft(out: Outstanding, out': Outstanding, eg: Endgame, eg': Endgame, addr: Addr)
    requires Released(out, out', addr) && PeerStruck(eg, eg', addr)
    ensures NoEntries(out', eg', addr)
  {
  }

  lemma StruckFewer(out: Outstanding, eg: Endgame, eg': Endgame, addr: Addr)
    requires ListsOk(eg') && PeerStruck(eg, eg', addr)
    ensures Fewer(out, eg', out, eg)
  {
    forall k | k in eg' ensures k in eg {
      assert eg'[k][0] in eg'[k];
    }
  }

  /** A departed peer has nothing left, and nobody has more than before. */
  lemma GoneFewer(out: Outstanding, eg: Endgame, k: Key, out': Outstanding, eg': Endgame, addr: Addr)
    requires Released(out - {k}, out', addr) && PeerStruck(eg, eg', addr) && ListsOk(eg')
    ensures Fewer(out', eg', out, eg) && !Solicited(out', eg', addr, k)
  {
    StruckFewer(out, eg, eg', addr);
  }

  // ---- counting the sweep ----

  /** The requests of one peer that are older than the timeout. */
  ghost function StaleOf(out: Outstanding, now: int, a: Addr): set<Key>
  {
    set k | k in out && now - out[k].sentAt > REQUEST_TIMEOUT && out[k].addr == a
  }

  /** Those of the peer's stale requests that are not left to do. */
  ghost function DoneOf(stale: map<Key, Addr>, left: set<Key>, a: Addr): set<Key>
  {
    set k | k in stale && k !in left && stale[k] == a
  }

  /** A count that was freed `freed` times and raised `sent` times, in any order, stopping at zero. */
  ghost predicate Settled(freed: nat, was: nat, count: nat, sent: nat)
  {
    count + freed >= was + sent && (freed <= was ==> count + freed == was + sent)
  }

  ghost predicate AllTallied(stale: map<Key, Addr>, left: set<Key>, was: map<Addr, nat>, counts: map<Addr, nat>, new': Trace)
  {
    forall a :: Settled(|DoneOf(stale, left, a)|, CountOf(was, a), CountOf(counts, a), |SentTo(new', a)|)
  }

  lemma TallyStart(stale: map<Key, Addr>, was: map<Addr, nat>, trace: Trace)
    ensures AllTallied(stale, stale.Keys, was, was, trace[|trace|..])
  {
    assert trace[|trace|..] == [];
    forall a ensures DoneOf(stale, stale.Keys, a) == {} {
    }
  }

  lemma TallyStep(stale: map<Key, Addr>, left: set<Key>, k: Key, was: map<Addr, nat>, counts: map<Addr, nat>,
                  counts': map<Addr, nat>, new1: Trace, new2: Trace)
    requires left <= stale.Keys && k in left && OnlyRequestsTo(new2, stale[k])
    requires AllTallied(stale, left, was, counts, new1)
    requires CountOf(counts', stale[k]) == Pred(CountOf(counts, stale[k])) + |new2|
    requires forall a :: a != stale[k] ==> CountOf(counts', a) == CountOf(counts, a)
    ensures AllTallied(stale, left - {k}, was, counts', new1 + new2)
  {
    hide SentTo;
    forall a ensures Settled(|DoneOf(stale, left - {k}, a)|, CountOf(was, a), CountOf(counts', a), |SentTo(new1 + new2, a)|) {
      SentJoin(new1, new2, a);
      SentOnly(new2, stale[k], a);
      var d, d' := DoneOf(stale, left, a), DoneOf(stale, left - {k}, a);
      if a == stale[k] {
        assert d' == d + {k};
      } else {
        assert d' == d;
      }
    }
  }

  lemma TallyEnd(stale: map<Key, Addr>, out: Outstanding, now: int, was: map<Addr, nat>, counts: map<Addr, nat>, new': Trace)
    requires stale == map k | k in out && now - out[k].sentAt > REQUEST_TIMEOUT :: out[k].addr
    requires AllTallied(stale, {}, was, counts, new')
    ensures forall a :: Settled(|StaleOf(out, now, a)|, CountOf(was, a), CountOf(counts, a), |SentTo(new', a)|)
  {
    forall a ensures DoneOf(stale, {}, a) == StaleOf(out, now, a) {
    }
  }

  lemma {:induction false} SentJoin(s: Trace, t: Trace, a: Addr)
    ensures SentTo(s + t, a) == SentTo(s, a) + SentTo(t, a)
  {
    if t == [] {
      assert s + t == s;
    } else {
      var n := |t| - 1;
      assert (s + t)[..|s + t| - 1] == s + t[..n];
      SentJoin(s, t[..n], a);
    }
  }

  lemma {:induction false} SentOnly(t: Trace, addr: Addr, a: Addr)
    requires OnlyRequestsTo(t, addr)
    ensures |SentTo(t, a)| == if a == addr then |t| else 0
  {
    if t != [] {
      SentOnly(t[..|t| - 1], addr, a);
    }
  }

  /** What the last pump added is what the suffix added. */
  lemma NewPart(start: Trace, before: Trace, after: Trace)
    requires start <= before <= after
    ensures after[|start|..] == before[|start|..] + after[|before|..]
    ensures forall e :: e in after[|start|..] <==> e in before[|start|..] || e in after[|before|..]
  {
    assert after[|start|..] == before[|start|..] + after[|before|..];
  }

  ghost predicate RequestedBefore(trace: Trace, j: nat)
    requires j < |trace|
  {
    exists i :: 0 <= i < j && trace[i] == Sent(trace[j].addr, trace[j].key)
  }

  function Pred(n: nat): nat { if n == 0 then 0 else n - 1 }

  lemma {:induction false} BelowCount(s: set<nat>, n: nat)
    requires forall i :: i in s ==> i < n
    ensures |s| <= n
  {
    if n == 0 {
      assert s == {};
    } else if n - 1 in s {
      BelowCount(s - {n - 1}, n - 1);
    } else {
      BelowCount(s, n - 1);
    }
  }
}
