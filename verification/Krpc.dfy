/** KRPC messages and their bencoded form (`dht/krpc.rs`). */
module Krpc {
  import opened Bytes
  import opened Numerals
  import opened Bencode
  import opened BencodeTheorems
  import opened BencodeLoops
  import opened NodeId
  import opened Net
  import opened Compact

  // "a", "e", "id", "implied_port", ...
  const A: bytes := [97]
  const E: bytes := [101]
  const Q: bytes := [113]
  const R: bytes := [114]
  const T: bytes := [116]
  const Y: bytes := [121]
  const ID: bytes := [105, 100]
  const IMPLIED_PORT: bytes := [105, 109, 112, 108, 105, 101, 100, 95, 112, 111, 114, 116]
  const INFO_HASH: bytes := [105, 110, 102, 111, 95, 104, 97, 115, 104]
  const NODES: bytes := [110, 111, 100, 101, 115]
  const PORT: bytes := [112, 111, 114, 116]
  const TARGET: bytes := [116, 97, 114, 103, 101, 116]
  const TOKEN: bytes := [116, 111, 107, 101, 110]
  const VALUES: bytes := [118, 97, 108, 117, 101, 115]
  const PING: bytes := [112, 105, 110, 103]
  const FIND_NODE: bytes := [102, 105, 110, 100, 95, 110, 111, 100, 101]
  const GET_PEERS: bytes := [103, 101, 116, 95, 112, 101, 101, 114, 115]
  const ANNOUNCE_PEER: bytes := [97, 110, 110, 111, 117, 110, 99, 101, 95, 112, 101, 101, 114]

  datatype Query =
    | Ping(id: NodeId)
    | FindNode(id: NodeId, target: NodeId)
    | GetPeers(id: NodeId, infoHash: NodeId)
    | AnnouncePeer(id: NodeId, infoHash: NodeId, port: u16, token: bytes, impliedPort: bool)

  datatype Response =
    | IdOnly(id: NodeId)
    | Nodes(id: NodeId, nodes: seq<Contact>)
    | Peers(id: NodeId, token: bytes, values: seq<Addr>)
    | PeersNodes(id: NodeId, token: bytes, nodes: seq<Contact>)

  datatype Message =
    | QueryMsg(txid: bytes, query: Query)
    | ResponseMsg(txid: bytes, response: Response)
    | ErrorMsg(txid: bytes, code: i64, text: bytes)

  // ---- the encoder of this module ----

  /** `encode_into`: appends exactly what the metainfo printer would write. Keys go through the encoder
      as byte-string values. */
  method EncodeInto(v: Value, out: bytes) returns (r: bytes)
    ensures r == out + Print(v)
    decreases Height(v), 1
  {
    hide PrintItems;
    hide PrintEntries;
    hide Decimal;
    hide SignedDecimal;
    match v
    case Int(i) =>
      r := out + [105];
      r := r + SignedDecimal(i);
      r := r + [101];
    case Str(b) =>
      r := out + Decimal(|b|);
      r := r + [58];
      r := r + b;
    case List(items) =>
      r := EncodeItems(items, out + [108]);
      r := r + [101];
    case Dict(es) =>
      r := EncodeEntries(es, out + [100]);
      r := r + [101];
  }

  method EncodeItems(items: seq<Value>, out: bytes) returns (r: bytes)
    ensures r == out + PrintItems(items)
    decreases ItemsHeight(items), 0
  {
    r := out;
    for n := 0 to |items|
      invariant r + PrintItems(items[n..]) == out + PrintItems(items)
    {
      ItemLower(items, n);
      PrintItemsStep(items, n, r);
      r := EncodeInto(items[n], r);
    }
  }

  method EncodeEntries(es: seq<Entry>, out: bytes) returns (r: bytes)
    ensures r == out + PrintEntries(es)
    decreases EntriesHeight(es), 0
  {
    assert PrintEntries([]) == [];
    hide Print;
    hide PrintEntries;
    r := out;
    assert es[0..] == es;
    for n := 0 to |es|
      invariant r + PrintEntries(es[n..]) == out + PrintEntries(es)
    {
      EntryLower(es, n);
      KeyAsValue(es, n, r);
      r := EncodeInto(Str(es[n].key), r);
      r := EncodeInto(es[n].val, r);
    }
  }

  lemma KeyAsValue(es: seq<Entry>, n: nat, r: bytes)
    requires n < |es|
    ensures r + PrintEntries(es[n..]) == r + Print(Str(es[n].key)) + Print(es[n].val) + PrintEntries(es[n + 1..])
  {
    hide Decimal;
    assert es[n..][1..] == es[n + 1..];
    assert PrintEntries(es[n..]) == PrintEntry(es[n]) + PrintEntries(es[n + 1..]);
    assert Print(Str(es[n].key)) == PrintStr(es[n].key);
  }

  // ---- dictionaries from pairs ----

  function FromPairs(ps: seq<Entry>): seq<Entry>
  {
    if ps == [] then [] else Put(FromPairs(ps[..|ps| - 1]), ps[|ps| - 1].key, ps[|ps| - 1].val)
  }

  function BuildDict(ps: seq<Entry>): Value
  {
    Dict(FromPairs(ps))
  }

  method BuildDictLoop(ps: seq<Entry>) returns (v: Value)
    ensures v == BuildDict(ps)
  {
    var d: seq<Entry> := [];
    for i := 0 to |ps|
      invariant d == FromPairs(ps[..i])
    {
      assert ps[..i + 1][..i] == ps[..i];
      d := Put(d, ps[i].key, ps[i].val);
    }
    assert ps[..|ps|] == ps;
    v := Dict(d);
  }

  ghost predicate DistinctNames(ps: seq<Entry>)
  {
    forall i, j :: 0 <= i < j < |ps| ==> ps[i].key != ps[j].key
  }

  lemma {:induction false} FromPairsSorted(ps: seq<Entry>)
    ensures SortedKeys(FromPairs(ps))
    ensures forall e :: e in FromPairs(ps) ==> e in ps
  {
    if ps != [] {
      FromPairsSorted(ps[..|ps| - 1]);
      PutSorted(FromPairs(ps[..|ps| - 1]), ps[|ps| - 1].key, ps[|ps| - 1].val);
    }
  }

  /** Each name finds its own value, in whatever order the pairs were given. */
  lemma {:induction false} FromPairsGet(ps: seq<Entry>, i: nat)
    requires DistinctNames(ps) && i < |ps|
    ensures Get(FromPairs(ps), ps[i].key) == Some(ps[i].val)
  {
    var front, last := ps[..|ps| - 1], ps[|ps| - 1];
    FromPairsSorted(front);
    GetPut(FromPairs(front), last.key, last.val, ps[i].key);
    if i < |front| {
      assert front[i] == ps[i];
      FromPairsGet(front, i);
    }
  }

  lemma FromPairsMissing(ps: seq<Entry>, k: bytes)
    requires forall i :: 0 <= i < |ps| ==> ps[i].key != k
    ensures Get(FromPairs(ps), k) == None
  {
    FromPairsSorted(ps);
  }

  lemma BuildDictFits(ps: seq<Entry>, h: nat)
    requires forall i :: 0 <= i < |ps| ==> |ps[i].key| < USIZE_LIMIT && Fits(ps[i].val, h)
    ensures Fits(BuildDict(ps), h + 1)
  {
    FromPairsSorted(ps);
    FitsHeight(FromPairs(ps), h);
  }

  // ---- compact nodes and values ----

  predicate Reachable(a: Addr) { a.V4? && a.port != 0 }

  function NonZero(cs: seq<Contact>): (r: seq<Contact>)
  {
    if cs == [] then []
    else
      var front, last := cs[..|cs| - 1], cs[|cs| - 1];
      if last.addr.port == 0 then NonZero(front) else NonZero(front) + [last]
  }

  function ParseNodes(buf: bytes, now: int): Result<seq<Contact>>
  {
    if |buf| % COMPACT_LEN != 0 then Err(Malformed) else Ok(NonZero(UnpackAll(buf, now)))
  }

  /** `parse_nodes_bytes`, chunk by chunk. */
  method ParseNodesLoop(buf: bytes, now: int) returns (r: Result<seq<Contact>>)
    ensures r == ParseNodes(buf, now)
  {
    if |buf| % COMPACT_LEN != 0 { return Err(Malformed); }
    var out: seq<Contact> := [];
    var at := 0;
    while at < |buf|
      invariant at <= |buf| && at % COMPACT_LEN == 0
      invariant out == NonZero(UnpackAll(buf[..at], now))
    {
      var chunk := buf[at..at + COMPACT_LEN];
      UnpackSnoc(buf, at, now);
      var c := Unpack(chunk, now);
      if c.addr.port != 0 {
        out := out + [c];
      }
      at := at + COMPACT_LEN;
    }
    assert buf[..at] == buf;
    r := Ok(out);
  }

  lemma UnpackSnoc(buf: bytes, at: nat, now: int)
    requires at + COMPACT_LEN <= |buf| && at % COMPACT_LEN == 0
    ensures (at + COMPACT_LEN) % COMPACT_LEN == 0
    ensures
      var c := Unpack(buf[at..at + COMPACT_LEN], now);
      NonZero(UnpackAll(buf[..at + COMPACT_LEN], now)) ==
      NonZero(UnpackAll(buf[..at], now)) + (if c.addr.port != 0 then [c] else [])
  {
    var p := buf[..at + COMPACT_LEN];
    assert p[..at] == buf[..at] && p[at..] == buf[at..at + COMPACT_LEN];
    var u := UnpackAll(p, now);
    assert u[..|u| - 1] == UnpackAll(buf[..at], now);
  }

  function PackAddr(a: Addr): (s: bytes)
    requires a.V4?
    ensures |s| == 6
  {
    a.ip + Be16(a.port)
  }

  function UnpackAddr(s: bytes): Addr
    requires |s| == 6
  {
    V4(s[..4], ReadBe16(s[4..]))
  }

  function ValuesToList(values: seq<Addr>): (r: seq<Value>)
    ensures |r| <= |values| && forall v :: v in r ==> v.Str? && |v.b| == 6
  {
    if values == [] then []
    else
      var front, last := values[..|values| - 1], values[|values| - 1];
      ValuesToList(front) + if last.V4? then [Str(PackAddr(last))] else []
  }

  /** An item that is not a byte string fails the list; one of another length or with port 0 is skipped. */
  function ParseValues(items: seq<Value>): Result<seq<Addr>>
  {
    if items == [] then Ok([])
    else
      var front, last := ParseValues(items[..|items| - 1]), items[|items| - 1];
      if front.Err? then front
      else if !last.Str? then Err(WrongType)
      else if |last.b| != 6 || UnpackAddr(last.b).port == 0 then front
      else Ok(front.value + [UnpackAddr(last.b)])
  }

  method ParseValuesLoop(items: seq<Value>) returns (r: Result<seq<Addr>>)
    ensures r == ParseValues(items)
  {
    var out: seq<Addr> := [];
    for i := 0 to |items|
      invariant ParseValues(items[..i]) == Ok(out)
    {
      assert items[..i + 1][..i] == items[..i];
      var item := items[i];
      if !item.Str? {
        FailsLater(items, i + 1);
        return Err(WrongType);
      }
      if |item.b| == 6 {
        var a := V4(item.b[..4], ReadBe16(item.b[4..]));
        if a.port != 0 {
          out := out + [a];
        }
      }
    }
    assert items[..|items|] == items;
    r := Ok(out);
  }

  lemma {:induction false} FailsLater(items: seq<Value>, i: nat)
    requires i <= |items| && ParseValues(items[..i]).Err?
    ensures ParseValues(items) == ParseValues(items[..i])
    decreases |items|
  {
    if i < |items| {
      var front := items[..|items| - 1];
      assert front[..i] == items[..i];
      FailsLater(front, i);
    } else {
      assert items[..i] == items;
    }
  }

  function ReachableOnly(values: seq<Addr>): seq<Addr>
  {
    if values == [] then []
    else
      var front, last := values[..|values| - 1], values[|values| - 1];
      ReachableOnly(front) + if Reachable(last) then [last] else []
  }

  /** Peer lists come back without the IPv6 and port-0 addresses, in order. */
  lemma {:induction false} ValuesRoundTrip(values: seq<Addr>)
    ensures ParseValues(ValuesToList(values)) == Ok(ReachableOnly(values))
  {
    if values != [] {
      var front, last := values[..|values| - 1], values[|values| - 1];
      ValuesRoundTrip(front);
      var l := ValuesToList(values);
      if last.V4? {
        assert l[..|l| - 1] == ValuesToList(front);
        var s := PackAddr(last);
        assert s[..4] == last.ip && s[4..] == Be16(last.port);
        ReadBe16OfBe16(last.port);
        assert UnpackAddr(s) == last;
        assert last.port == 0 ==> ReachableOnly(values) == ReachableOnly(front);
      } else {
        assert ReachableOnly(values) == ReachableOnly(front);
        assert l == ValuesToList(front);
      }
    }
  }

  // ---- encoding ----

  function QueryArgs(q: Query): seq<Entry>
  {
    match q
    case Ping(id) => [Entry(ID, Str(id))]
    case FindNode(id, target) => [Entry(ID, Str(id)), Entry(TARGET, Str(target))]
    case GetPeers(id, h) => [Entry(ID, Str(id)), Entry(INFO_HASH, Str(h))]
    case AnnouncePeer(id, h, port, token, implied) =>
      [Entry(ID, Str(id)), Entry(IMPLIED_PORT, Int(if implied then 1 else 0)), Entry(INFO_HASH, Str(h)),
       Entry(PORT, Int(port)), Entry(TOKEN, Str(token))]
  }

  function QueryName(q: Query): bytes
  {
    match q
    case Ping(_) => PING
    case FindNode(_, _) => FIND_NODE
    case GetPeers(_, _) => GET_PEERS
    case AnnouncePeer(_, _, _, _, _) => ANNOUNCE_PEER
  }

  function ResponseArgs(r: Response): seq<Entry>
  {
    match r
    case IdOnly(id) => [Entry(ID, Str(id))]
    case Nodes(id, nodes) => [Entry(ID, Str(id)), Entry(NODES, Str(PackAll(V4Only(nodes))))]
    case Peers(id, token, values) =>
      [Entry(ID, Str(id)), Entry(TOKEN, Str(token)), Entry(VALUES, List(ValuesToList(values)))]
    case PeersNodes(id, token, nodes) =>
      [Entry(ID, Str(id)), Entry(NODES, Str(PackAll(V4Only(nodes)))), Entry(TOKEN, Str(token))]
  }

  function TopEntries(m: Message): seq<Entry>
  {
    match m
    case QueryMsg(t, q) =>
      [Entry(A, BuildDict(QueryArgs(q))), Entry(Q, Str(QueryName(q))), Entry(T, Str(t)), Entry(Y, Str(Q))]
    case ResponseMsg(t, r) =>
      [Entry(R, BuildDict(ResponseArgs(r))), Entry(T, Str(t)), Entry(Y, Str(R))]
    case ErrorMsg(t, code, text) =>
      [Entry(E, List([Int(code), Str(text)])), Entry(T, Str(t)), Entry(Y, Str(E))]
  }

  function Encode(m: Message): bytes
  {
    Print(BuildDict(TopEntries(m)))
  }

  // ---- decoding ----

  function GetBytes(d: seq<Entry>, key: bytes): Result<bytes>
  {
    match Get(d, key)
    case None => Err(MissingKey)
    case Some(v) => if v.Str? then Ok(v.b) else Err(WrongType)
  }

  function GetId(d: seq<Entry>, key: bytes): Result<NodeId>
  {
    var b := GetBytes(d, key);
    if b.Err? then Err(b.error) else if |b.value| != ID_LEN then Err(Malformed) else Ok(b.value)
  }

  function GetInt(d: seq<Entry>, key: bytes): i64
  {
    match Get(d, key)
    case None => 0
    case Some(v) => if v.Int? then v.i else 0
  }

  function DecodeQuery(name: bytes, args: seq<Entry>): Result<Query>
  {
    var id := GetId(args, ID);
    if id.Err? then Err(id.error)
    else if name == PING then Ok(Ping(id.value))
    else if name == FIND_NODE then
      var target := GetId(args, TARGET);
      if target.Err? then Err(target.error) else Ok(FindNode(id.value, target.value))
    else if name == GET_PEERS then
      var h := GetId(args, INFO_HASH);
      if h.Err? then Err(h.error) else Ok(GetPeers(id.value, h.value))
    else if name == ANNOUNCE_PEER then
      var h := GetId(args, INFO_HASH);
      var token := GetBytes(args, TOKEN);
      if h.Err? then Err(h.error)
      else if token.Err? then Err(token.error)
      else
        var port := GetInt(args, PORT);
        Ok(AnnouncePeer(id.value, h.value, if 0 <= port < 0x1_0000 then port else 0, token.value,
                        GetInt(args, IMPLIED_PORT) != 0))
    else Err(Malformed)
  }

  function OptBytes(d: seq<Entry>, key: bytes): Option<bytes>
  {
    var b := GetBytes(d, key);
    if b.Ok? then Some(b.value) else None
  }

  function OptNodes(d: seq<Entry>, now: int): Result<Option<seq<Contact>>>
  {
    match OptBytes(d, NODES)
    case None => Ok(None)
    case Some(b) =>
      var r := ParseNodes(b, now);
      if r.Err? then Err(r.error) else Ok(Some(r.value))
  }

  function OptValues(d: seq<Entry>): Result<Option<seq<Addr>>>
  {
    match Get(d, VALUES)
    case None => Ok(None)
    case Some(v) =>
      if !v.List? then Err(WrongType)
      else
        var r := ParseValues(v.items);
        if r.Err? then Err(r.error) else Ok(Some(r.value))
  }

  /** Values win over nodes; values without a token, or a token alone, leave only the id. */
  function DecodeResponse(r: seq<Entry>, now: int): Result<Response>
  {
    var id := GetId(r, ID);
    if id.Err? then Err(id.error)
    else
      var nodes := OptNodes(r, now);
      if nodes.Err? then Err(nodes.error)
      else
        var values := OptValues(r);
        if values.Err? then Err(values.error)
        else
          var token := OptBytes(r, TOKEN);
          Ok(if values.value.Some? then
               (if token.Some? then Peers(id.value, token.value, values.value.value) else IdOnly(id.value))
             else if nodes.value.Some? then
               (if token.Some? then PeersNodes(id.value, token.value, nodes.value.value)
                else Nodes(id.value, nodes.value.value))
             else IdOnly(id.value))
  }

  function DecodeError(txid: bytes, v: Value, utf8: bytes -> bool): Result<Message>
  {
    if !v.List? then Err(WrongType)
    else if |v.items| < 2 then Err(Malformed)
    else if !v.items[0].Int? then Err(WrongType)
    else
      var text := v.items[1];
      Ok(ErrorMsg(txid, v.items[0].i, if text.Str? && utf8(text.b) then text.b else []))
  }

  function GetDict(d: seq<Entry>, key: bytes): Result<seq<Entry>>
  {
    match Get(d, key)
    case None => Err(MissingKey)
    case Some(v) => if v.Dict? then Ok(v.entries) else Err(WrongType)
  }

  function DecodeTyped(d: seq<Entry>, txid: bytes, ty: bytes, now: int, utf8: bytes -> bool): Result<Message>
  {
    if ty == Q then
      var name, args := GetBytes(d, Q), GetDict(d, A);
      if name.Err? then Err(name.error)
      else if args.Err? then Err(args.error)
      else
        var q := DecodeQuery(name.value, args.value);
        if q.Err? then Err(q.error) else Ok(QueryMsg(txid, q.value))
    else if ty == R then
      var args := GetDict(d, R);
      if args.Err? then Err(args.error)
      else
        var r := DecodeResponse(args.value, now);
        if r.Err? then Err(r.error) else Ok(ResponseMsg(txid, r.value))
    else if ty == E then
      match Get(d, E)
      case None => Err(MissingKey)
      case Some(v) => DecodeError(txid, v, utf8)
    else Err(Malformed)
  }

  function DecodeValue(v: Value, now: int, utf8: bytes -> bool): Result<Message>
  {
    if !v.Dict? then Err(WrongType)
    else
      var txid, ty := GetBytes(v.entries, T), GetBytes(v.entries, Y);
      if txid.Err? then Err(txid.error)
      else if ty.Err? then Err(ty.error)
      else DecodeTyped(v.entries, txid.value, ty.value, now, utf8)
  }

  function Decode(buf: bytes, now: int, utf8: bytes -> bool): Result<Message>
  {
    var v := ParseAll(buf);
    if v.Err? then Err(v.error) else DecodeValue(v.value, now, utf8)
  }

  // ---- the round trip ----

  /** What survives encoding: IPv4 addresses with a port, seen at the time of decoding. */
  function Normal(m: Message, now: int): Message
  {
    match m
    case QueryMsg(_, _) => m
    case ErrorMsg(_, _, _) => m
    case ResponseMsg(t, r) =>
      ResponseMsg(t,
        match r
        case IdOnly(_) => r
        case Nodes(id, nodes) => Nodes(id, NonZero(SeenAt(V4Only(nodes), now)))
        case Peers(id, token, values) => Peers(id, token, ReachableOnly(values))
        case PeersNodes(id, token, nodes) => PeersNodes(id, token, NonZero(SeenAt(V4Only(nodes), now))))
  }

  /** Sizes that fit in memory, and text that is text. */
  ghost predicate Representable(m: Message, utf8: bytes -> bool)
  {
    && |m.txid| < USIZE_LIMIT
    && match m
       case QueryMsg(_, q) => q.AnnouncePeer? ==> |q.token| < USIZE_LIMIT
       case ErrorMsg(_, _, text) => |text| < USIZE_LIMIT && utf8(text)
       case ResponseMsg(_, r) =>
         && (r.Nodes? || r.PeersNodes? ==> COMPACT_LEN * |r.nodes| < USIZE_LIMIT)
         && (r.Peers? || r.PeersNodes? ==> |r.token| < USIZE_LIMIT)
  }

  lemma NodesRoundTrip(nodes: seq<Contact>, now: int)
    ensures ParseNodes(PackAll(V4Only(nodes)), now) == Ok(NonZero(SeenAt(V4Only(nodes), now)))
  {
    UnpackPackAll(V4Only(nodes), now);
  }

  lemma QueryRoundTrip(q: Query)
    ensures DecodeQuery(QueryName(q), FromPairs(QueryArgs(q))) == Ok(q)
  {
    hide FromPairs;
    hide Get;
    var ps := QueryArgs(q);
    assert DistinctNames(ps);
    forall i | 0 <= i < |ps| ensures Get(FromPairs(ps), ps[i].key) == Some(ps[i].val) {
      FromPairsGet(ps, i);
    }
    assert Get(FromPairs(ps), ps[0].key) == Some(ps[0].val);
    if !q.Ping? {
      assert Get(FromPairs(ps), ps[1].key) == Some(ps[1].val);
    }
    if q.AnnouncePeer? {
      assert Get(FromPairs(ps), ps[2].key) == Some(ps[2].val);
      assert Get(FromPairs(ps), ps[3].key) == Some(ps[3].val);
      assert Get(FromPairs(ps), ps[4].key) == Some(ps[4].val);
    }
  }

  lemma ResponseRoundTrip(t: bytes, r: Response, now: int)
    ensures DecodeResponse(FromPairs(ResponseArgs(r)), now) == Ok(Normal(ResponseMsg(t, r), now).response)
  {
    hide FromPairs;
    hide Get;
    hide ParseNodes;
    hide ParseValues;
    hide ValuesToList;
    hide NonZero;
    hide SeenAt;
    hide V4Only;
    hide PackAll;
    hide ReachableOnly;
    var ps := ResponseArgs(r);
    var d := FromPairs(ps);
    assert DistinctNames(ps);
    forall i | 0 <= i < |ps| ensures Get(d, ps[i].key) == Some(ps[i].val) {
      FromPairsGet(ps, i);
    }
    assert Get(d, ps[0].key) == Some(ps[0].val);
    if !r.IdOnly? {
      assert Get(d, ps[1].key) == Some(ps[1].val);
    }
    if r.Peers? || r.PeersNodes? {
      assert Get(d, ps[2].key) == Some(ps[2].val);
    } else {
      FromPairsMissing(ps, TOKEN);
    }
    if r.Nodes? || r.PeersNodes? {
      NodesRoundTrip(r.nodes, now);
    } else {
      FromPairsMissing(ps, NODES);
    }
    if r.Peers? {
      ValuesRoundTrip(r.values);
    } else {
      FromPairsMissing(ps, VALUES);
    }
  }

  lemma ArgsFit(m: Message, utf8: bytes -> bool)
    requires Representable(m, utf8)
    ensures forall i :: 0 <= i < |TopEntries(m)| ==> |TopEntries(m)[i].key| < USIZE_LIMIT && Fits(TopEntries(m)[i].val, 2)
  {
    hide FromPairs;
    match m
    case QueryMsg(_, q) =>
      BuildDictFits(QueryArgs(q), 0);
    case ResponseMsg(_, r) =>
      if r.Peers? { FitsList(ValuesToList(r.values), 0); }
      BuildDictFits(ResponseArgs(r), 1);
    case ErrorMsg(_, code, text) =>
      FitsList([Int(code), Str(text)], 0);
  }

  lemma ValueRoundTrip(m: Message, now: int, utf8: bytes -> bool)
    requires Representable(m, utf8)
    ensures DecodeValue(BuildDict(TopEntries(m)), now, utf8) == Ok(Normal(m, now))
  {
    hide FromPairs;
    hide Get;
    hide DecodeQuery;
    hide DecodeResponse;
    hide QueryArgs;
    hide ResponseArgs;
    var ps := TopEntries(m);
    var d := FromPairs(ps);
    assert DistinctNames(ps);
    forall i | 0 <= i < |ps| ensures Get(d, ps[i].key) == Some(ps[i].val) {
      FromPairsGet(ps, i);
    }
    assert Get(d, ps[0].key) == Some(ps[0].val);
    assert Get(d, ps[1].key) == Some(ps[1].val);
    assert Get(d, ps[2].key) == Some(ps[2].val);
    match m
    case QueryMsg(_, q) =>
      assert Get(d, ps[3].key) == Some(ps[3].val);
      QueryRoundTrip(q);
    case ResponseMsg(t, r) =>
      ResponseRoundTrip(t, r, now);
    case ErrorMsg(_, _, _) =>
  }

  /** Every message decodes from its own encoding, its contacts and values reduced to IPv4 addresses with a
      non-zero port. */
  lemma MessageRoundTrip(m: Message, now: int, utf8: bytes -> bool)
    ensures Representable(m, utf8) ==> Decode(Encode(m), now, utf8) == Ok(Normal(m, now))
  {
    hide Print;
    hide ParseAll;
    hide DecodeValue;
    if Representable(m, utf8) {
      var v := BuildDict(TopEntries(m));
      ArgsFit(m, utf8);
      BuildDictFits(TopEntries(m), 2);
      PrintParseAll(v);
      ValueRoundTrip(m, now, utf8);
    }
  }

  /** `Message::encode` through the two loops. */
  method EncodeMessage(m: Message) returns (out: bytes)
    ensures out == Encode(m)
  {
    var v := BuildDictLoop(TopEntries(m));
    out := EncodeInto(v, []);
  }

  // ---- decoding is stable ----

  ghost predicate Heard(c: Contact, now: int)
  {
    Reachable(c.addr) && c.lastSeen == now
  }

  lemma {:induction false} ParsedNodesHeard(s: bytes, now: int)
    requires |s| % COMPACT_LEN == 0
    ensures forall c :: c in NonZero(UnpackAll(s, now)) ==> Heard(c, now)
    ensures |NonZero(UnpackAll(s, now))| <= |UnpackAll(s, now)|
    decreases |s|
  {
    if s != [] {
      var n := |s| - COMPACT_LEN;
      ParsedNodesHeard(s[..n], now);
      var u := UnpackAll(s, now);
      assert u[..|u| - 1] == UnpackAll(s[..n], now);
    }
  }

  lemma {:induction false} HeardStays(cs: seq<Contact>, now: int)
    requires forall c :: c in cs ==> Heard(c, now)
    ensures V4Only(cs) == cs && SeenAt(cs, now) == cs && NonZero(cs) == cs
  {
    if cs != [] {
      var front, last := cs[..|cs| - 1], cs[|cs| - 1];
      HeardStays(front, now);
      assert cs == front + [last] && last in cs;
      assert last.(lastSeen := now) == last;
    }
  }

  lemma {:induction false} ParsedValuesReachable(items: seq<Value>)
    ensures var r := ParseValues(items); r.Ok? ==> forall a :: a in r.value ==> Reachable(a)
  {
    if items != [] {
      ParsedValuesReachable(items[..|items| - 1]);
    }
  }

  lemma {:induction false} ReachableStays(values: seq<Addr>)
    requires forall a :: a in values ==> Reachable(a)
    ensures ReachableOnly(values) == values
  {
    if values != [] {
      var front, last := values[..|values| - 1], values[|values| - 1];
      ReachableStays(front);
      assert values == front + [last] && last in values;
    }
  }

  lemma ResponseStable(d: seq<Entry>, now: int)
    requires WellFormed(Dict(d))
    ensures
      var r := DecodeResponse(d, now);
      r.Ok? ==>
        && Normal(ResponseMsg([], r.value), now) == ResponseMsg([], r.value)
        && (r.value.Nodes? || r.value.PeersNodes? ==> COMPACT_LEN * |r.value.nodes| < USIZE_LIMIT)
        && (r.value.Peers? || r.value.PeersNodes? ==> |r.value.token| < USIZE_LIMIT)
  {
    hide NonZero;
    hide SeenAt;
    hide V4Only;
    hide UnpackAll;
    hide ReachableOnly;
    var r := DecodeResponse(d, now);
    if r.Ok? {
      if r.value.Nodes? || r.value.PeersNodes? {
        var b := OptBytes(d, NODES).value;
        ParsedNodesHeard(b, now);
        HeardStays(r.value.nodes, now);
      }
      if r.value.Peers? {
        ParsedValuesReachable(Get(d, VALUES).value.items);
        ReachableStays(r.value.values);
      }
    }
  }

  lemma FieldsFit(d: seq<Entry>, key: bytes)
    requires WellFormed(Dict(d))
    ensures GetBytes(d, key).Ok? ==> |GetBytes(d, key).value| < USIZE_LIMIT
    ensures GetDict(d, key).Ok? ==> WellFormed(Dict(GetDict(d, key).value))
    ensures Get(d, key).Some? ==> WellFormed(Get(d, key).value)
  {
  }

  lemma QueryFits(name: bytes, d: seq<Entry>)
    requires WellFormed(Dict(d))
    ensures var q := DecodeQuery(name, d); q.Ok? && q.value.AnnouncePeer? ==> |q.value.token| < USIZE_LIMIT
  {
    hide Get;
    hide WellFormed;
    FieldsFit(d, TOKEN);
  }

  lemma ErrorFits(txid: bytes, v: Value, utf8: bytes -> bool)
    requires WellFormed(v) && utf8([])
    ensures
      var m := DecodeError(txid, v, utf8);
      m.Ok? ==> m.value.ErrorMsg? && m.value.txid == txid && |m.value.text| < USIZE_LIMIT && utf8(m.value.text)
  {
    if v.List? && |v.items| >= 2 {
      assert v.items[1] in v.items;
    }
  }

  lemma DecodedIsNormal(v: Value, now: int, utf8: bytes -> bool)
    requires WellFormed(v) && utf8([])
    ensures
      var m := DecodeValue(v, now, utf8);
      m.Ok? ==> Representable(m.value, utf8) && Normal(m.value, now) == m.value
  {
    hide DecodeResponse;
    hide DecodeQuery;
    hide DecodeError;
    hide WellFormed;
    hide Get;
    hide NonZero;
    hide ReachableOnly;
    hide SeenAt;
    var m := DecodeValue(v, now, utf8);
    if m.Ok? {
      var d := v.entries;
      FieldsFit(d, T);
      FieldsFit(d, A);
      FieldsFit(d, R);
      FieldsFit(d, E);
      var ty := GetBytes(d, Y).value;
      if ty == Q {
        QueryFits(GetBytes(d, Q).value, GetDict(d, A).value);
      } else if ty == R {
        ResponseStable(GetDict(d, R).value, now);
      } else {
        ErrorFits(GetBytes(d, T).value, Get(d, E).value, utf8);
      }
    }
  }

  /** Whatever bytes were accepted as a message, encoding that message and decoding again gives it back. */
  lemma DecodeStable(buf: bytes, now: int, utf8: bytes -> bool)
    ensures utf8([]) ==>
        var m := Decode(buf, now, utf8);
        m.Ok? ==> Decode(Encode(m.value), now, utf8) == m
  {
    hide Encode;
    hide DecodeValue;
    hide Normal;
    hide Representable;
    var m := Decode(buf, now, utf8);
    if utf8([]) && m.Ok? {
      ValueSound(buf, 0);
      DecodedIsNormal(ParseAll(buf).value, now, utf8);
      MessageRoundTrip(m.value, now, utf8);
    }
  }
}
