/** The bytes of every KRPC message, kind by kind (BEP 5). */
module KrpcLayout {
  import opened Bytes
  import opened Numerals
  import opened Bencode
  import opened BencodeLoops
  import opened NodeId
  import opened Net
  import opened Compact
  import opened Krpc

  // ---- pairs given in order are the dictionary ----

  lemma {:induction false} InOrder(ps: seq<Entry>)
    requires SortedKeys(ps)
    ensures FromPairs(ps) == ps
  {
    if ps != [] {
      var front, last := ps[..|ps| - 1], ps[|ps| - 1];
      InOrder(front);
      PutLast(front, last.key, last.val);
    }
  }

  lemma PrintOne(a: Entry)
    ensures PrintEntries([a]) == PrintStr(a.key) + Print(a.val)
  {
    assert [a][1..] == [];
  }

  lemma PrintMore(a: Entry, es: seq<Entry>)
    ensures PrintEntries([a] + es) == PrintStr(a.key) + Print(a.val) + PrintEntries(es)
  {
    assert ([a] + es)[1..] == es;
  }

  // ---- keys ----

  /** A key or name of at most nine plain characters, with its length. */
  lemma ShortName(b: bytes)
    requires |b| < 10
    ensures PrintStr(b) == [48 + |b|, 58] + b
  {
  }

  lemma LongName(b: bytes)
    requires 10 <= |b| < 20
    ensures PrintStr(b) == [49, 38 + |b|, 58] + b
  {
    assert Decimal(|b|) == [49, 38 + |b|];
  }

  lemma IdText(id: NodeId)
    ensures Print(Str(id)) == Ascii("20:") + id
  {
    assert Decimal(20) == [50, 48];
  }

  lemma KeyTexts()
    ensures PrintStr(A) == Ascii("1:a") && PrintStr(E) == Ascii("1:e") && PrintStr(Q) == Ascii("1:q")
    ensures PrintStr(R) == Ascii("1:r") && PrintStr(T) == Ascii("1:t") && PrintStr(Y) == Ascii("1:y")
    ensures PrintStr(ID) == Ascii("2:id") && PrintStr(NODES) == Ascii("5:nodes") && PrintStr(PORT) == Ascii("4:port")
    ensures PrintStr(TARGET) == Ascii("6:target") && PrintStr(TOKEN) == Ascii("5:token") && PrintStr(VALUES) == Ascii("6:values")
  {
    hide PrintStr;
    ShortName(A); ShortName(E); ShortName(Q); ShortName(R); ShortName(T); ShortName(Y);
    ShortName(ID); ShortName(NODES); ShortName(PORT); ShortName(TARGET); ShortName(TOKEN); ShortName(VALUES);
  }

  lemma NameTexts()
    ensures PrintStr(IMPLIED_PORT) == Ascii("12:implied_port") && PrintStr(INFO_HASH) == Ascii("9:info_hash")
    ensures PrintStr(PING) == Ascii("4:ping") && PrintStr(FIND_NODE) == Ascii("9:find_node")
    ensures PrintStr(GET_PEERS) == Ascii("9:get_peers") && PrintStr(ANNOUNCE_PEER) == Ascii("13:announce_peer")
  {
    hide PrintStr;
    LongName(IMPLIED_PORT);
    LongName(ANNOUNCE_PEER);
    ShortName(INFO_HASH);
    ShortName(PING);
    ShortName(FIND_NODE);
    ShortName(GET_PEERS);
  }

  // ---- the arguments ----

  /** `d2:id20:<id>` then the other fields, then `e`. */
  ghost function ArgsText(id: NodeId, more: bytes): bytes
  {
    Ascii("d2:id20:") + id + more + Ascii("e")
  }

  ghost function QueryMore(q: Query): bytes
  {
    match q
    case Ping(_) => []
    case FindNode(_, target) => Ascii("6:target20:") + target
    case GetPeers(_, h) => Ascii("9:info_hash20:") + h
    case AnnouncePeer(_, h, port, token, implied) =>
      Ascii("12:implied_port") + (if implied then Ascii("i1e") else Ascii("i0e")) + Ascii("9:info_hash20:") + h +
      Ascii("4:porti") + Decimal(port) + Ascii("e5:token") + PrintStr(token)
  }

  lemma ArgsPrint(id: NodeId, rest: seq<Entry>, more: bytes)
    requires PrintEntries(rest) == more
    requires SortedKeys([Entry(ID, Str(id))] + rest)
    ensures Print(BuildDict([Entry(ID, Str(id))] + rest)) == ArgsText(id, more)
  {
    var ps := [Entry(ID, Str(id))] + rest;
    InOrder(ps);
    PrintMore(Entry(ID, Str(id)), rest);
    KeyTexts();
    IdText(id);
    hide PrintStr;
    hide PrintEntries;
    hide FromPairs;
    var head := Ascii("2:id") + (Ascii("20:") + id);
    assert PrintEntries(ps) == head + more;
    assert [100] + head == Ascii("d2:id20:") + id;
  }

  lemma OneFieldArgs(id: NodeId, a: Entry)
    requires Less(ID, a.key)
    ensures Print(BuildDict([Entry(ID, Str(id)), a])) == ArgsText(id, PrintStr(a.key) + Print(a.val))
  {
    PrintOne(a);
    hide PrintEntries;
    hide ArgsText;
    hide FromPairs;
    assert [Entry(ID, Str(id))] + [a] == [Entry(ID, Str(id)), a];
    ArgsPrint(id, [a], PrintStr(a.key) + Print(a.val));
  }

  lemma TwoFieldArgs(id: NodeId, a: Entry, b: Entry)
    requires Less(ID, a.key) && Less(a.key, b.key) && Less(ID, b.key)
    ensures Print(BuildDict([Entry(ID, Str(id)), a, b])) ==
            ArgsText(id, PrintStr(a.key) + Print(a.val) + (PrintStr(b.key) + Print(b.val)))
  {
    PrintOne(b);
    PrintMore(a, [b]);
    hide PrintEntries;
    hide ArgsText;
    hide FromPairs;
    assert [a] + [b] == [a, b];
    assert [Entry(ID, Str(id))] + [a, b] == [Entry(ID, Str(id)), a, b];
    ArgsPrint(id, [a, b], PrintStr(a.key) + Print(a.val) + (PrintStr(b.key) + Print(b.val)));
  }

  lemma AsciiJoin(a: string, b: string)
    ensures Ascii(a) + Ascii(b) == Ascii(a + b)
  {
  }

  lemma IdField(key: bytes, name: string, full: string, id: NodeId)
    requires PrintStr(key) == Ascii(name) && full == name + "20:"
    ensures PrintStr(key) + Print(Str(id)) == Ascii(full) + id
  {
    IdText(id);
    AsciiJoin(name, "20:");
    assert Ascii(name) + (Ascii("20:") + id) == Ascii(name) + Ascii("20:") + id;
  }

  lemma AnnounceArgs(q: Query)
    requires q.AnnouncePeer?
    ensures Print(BuildDict(QueryArgs(q))) == ArgsText(q.id, QueryMore(q))
  {
    var implied, hash := Entry(IMPLIED_PORT, Int(if q.impliedPort then 1 else 0)), Entry(INFO_HASH, Str(q.infoHash));
    var port, token := Entry(PORT, Int(q.port)), Entry(TOKEN, Str(q.token));
    PrintOne(token);
    PrintMore(port, [token]);
    PrintMore(hash, [port] + [token]);
    PrintMore(implied, [hash] + ([port] + [token]));
    var rest := [implied] + ([hash] + ([port] + [token]));
    assert QueryArgs(q) == [Entry(ID, Str(q.id))] + rest;
    AnnounceMore(q, PrintEntries(rest));
    ArgsPrint(q.id, rest, QueryMore(q));
  }

  lemma AnnounceMore(q: Query, text: bytes)
    requires q.AnnouncePeer?
    requires text == PrintStr(IMPLIED_PORT) + Print(Int(if q.impliedPort then 1 else 0)) +
                     (PrintStr(INFO_HASH) + Print(Str(q.infoHash)) +
                      (PrintStr(PORT) + Print(Int(q.port)) + (PrintStr(TOKEN) + Print(Str(q.token)))))
    ensures text == QueryMore(q)
  {
    KeyTexts();
    NameTexts();
    IdField(INFO_HASH, "9:info_hash", "9:info_hash20:", q.infoHash);
    ImpliedText(q.impliedPort);
    PortText(q.port, q.token);
    hide *;
    FlagThenRest(Ascii("12:implied_port"), if q.impliedPort then Ascii("i1e") else Ascii("i0e"),
                 Ascii("9:info_hash20:"), q.infoHash, Ascii("4:porti"), Decimal(q.port), Ascii("e5:token"), PrintStr(q.token));
    AnnounceMoreIs(q);
  }

  lemma AnnounceMoreIs(q: Query)
    requires q.AnnouncePeer?
    ensures QueryMore(q) ==
            Ascii("12:implied_port") + (if q.impliedPort then Ascii("i1e") else Ascii("i0e")) + Ascii("9:info_hash20:") + q.infoHash +
            Ascii("4:porti") + Decimal(q.port) + Ascii("e5:token") + PrintStr(q.token)
  {
  }

  lemma ImpliedText(implied: bool)
    ensures Print(Int(if implied then 1 else 0)) == if implied then Ascii("i1e") else Ascii("i0e")
  {
  }

  lemma FlagThenRest(a: bytes, b: bytes, c: bytes, d: bytes, e: bytes, f: bytes, g: bytes, h: bytes)
    ensures a + b + ((c + d) + (e + f + g + h)) == a + b + c + d + e + f + g + h
  {
  }

  lemma PortText(port: u16, token: bytes)
    ensures PrintStr(PORT) + Print(Int(port)) + (PrintStr(TOKEN) + Print(Str(token))) ==
            Ascii("4:porti") + Decimal(port) + Ascii("e5:token") + PrintStr(token)
  {
    KeyTexts();
    hide PrintStr;
    hide Decimal;
    AsciiJoin("4:port", "i");
    AsciiJoin("e", "5:token");
    assert Print(Int(port)) == Ascii("i") + Decimal(port) + Ascii("e");
    var d, t := Decimal(port), PrintStr(token);
    hide *;
    MiddleJoin(Ascii("4:port"), Ascii("i"), d, Ascii("e"), Ascii("5:token"), t);
  }

  lemma MiddleJoin(a: bytes, b: bytes, c: bytes, d: bytes, e: bytes, f: bytes)
    ensures a + (b + c + d) + (e + f) == (a + b) + c + (d + e) + f
  {
  }

  lemma QueryArgsText(q: Query)
    ensures Print(BuildDict(QueryArgs(q))) == ArgsText(q.id, QueryMore(q))
  {
    KeyTexts();
    NameTexts();
    hide PrintStr;
    hide PrintEntries;
    hide ArgsText;
    hide FromPairs;
    hide Print;
    match q
    case Ping(id) =>
      NoFieldArgs(id);
    case FindNode(id, target) =>
      OneFieldArgs(id, Entry(TARGET, Str(target)));
      IdField(TARGET, "6:target", "6:target20:", target);
    case GetPeers(id, h) =>
      OneFieldArgs(id, Entry(INFO_HASH, Str(h)));
      IdField(INFO_HASH, "9:info_hash", "9:info_hash20:", h);
    case AnnouncePeer(_, _, _, _, _) =>
      AnnounceArgs(q);
  }

  lemma NoFieldArgs(id: NodeId)
    ensures Print(BuildDict([Entry(ID, Str(id))])) == ArgsText(id, [])
  {
    assert PrintEntries([]) == [];
    assert [Entry(ID, Str(id))] + [] == [Entry(ID, Str(id))];
    ArgsPrint(id, [], []);
  }

  ghost function ResponseMore(r: Response): bytes
  {
    match r
    case IdOnly(_) => []
    case Nodes(_, nodes) => Ascii("5:nodes") + PrintStr(PackAll(V4Only(nodes)))
    case Peers(_, token, values) =>
      Ascii("5:token") + PrintStr(token) + (Ascii("6:values") + Print(List(ValuesToList(values))))
    case PeersNodes(_, token, nodes) =>
      Ascii("5:nodes") + PrintStr(PackAll(V4Only(nodes))) + (Ascii("5:token") + PrintStr(token))
  }

  lemma ResponseArgsText(r: Response)
    ensures Print(BuildDict(ResponseArgs(r))) == ArgsText(r.id, ResponseMore(r))
  {
    KeyTexts();
    hide PrintEntries;
    hide ArgsText;
    hide FromPairs;
    hide PackAll;
    hide V4Only;
    hide ValuesToList;
    match r
    case IdOnly(id) =>
      NoFieldArgs(id);
    case Nodes(id, nodes) =>
      OneFieldArgs(id, Entry(NODES, Str(PackAll(V4Only(nodes)))));
    case Peers(id, token, values) =>
      TwoFieldArgs(id, Entry(TOKEN, Str(token)), Entry(VALUES, List(ValuesToList(values))));
    case PeersNodes(id, token, nodes) =>
      TwoFieldArgs(id, Entry(NODES, Str(PackAll(V4Only(nodes)))), Entry(TOKEN, Str(token)));
  }

  // ---- the messages ----

  ghost function NameText(q: Query): bytes
  {
    match q
    case Ping(_) => Ascii("4:ping")
    case FindNode(_, _) => Ascii("9:find_node")
    case GetPeers(_, _) => Ascii("9:get_peers")
    case AnnouncePeer(_, _, _, _, _) => Ascii("13:announce_peer")
  }

  /** `1:t<txid>1:y1:<type>e`, the end of every message. */
  ghost function Ending(txid: bytes, kind: string): bytes
  {
    Ascii("1:t") + PrintStr(txid) + Ascii("1:y1:" + kind + "e")
  }

  lemma EndingPrint(txid: bytes, kind: string, ty: bytes)
    requires PrintStr(ty) == Ascii("1:" + kind)
    ensures PrintEntries([Entry(T, Str(txid)), Entry(Y, Str(ty))]) + [101] == Ending(txid, kind)
  {
    KeyTexts();
    PrintOne(Entry(Y, Str(ty)));
    PrintMore(Entry(T, Str(txid)), [Entry(Y, Str(ty))]);
    assert [Entry(T, Str(txid))] + [Entry(Y, Str(ty))] == [Entry(T, Str(txid)), Entry(Y, Str(ty))];
    hide PrintEntries;
    hide PrintStr;
    AsciiJoin("1:y", "1:" + kind);
    AsciiJoin("1:y" + ("1:" + kind), "e");
    assert "1:y" + ("1:" + kind) + "e" == "1:y1:" + kind + "e";
    assert Ascii("1:t") + PrintStr(txid) + (Ascii("1:y") + Ascii("1:" + kind)) + Ascii("e") == Ending(txid, kind);
  }

  /** Every message, byte for byte: one dictionary with its keys in order, the arguments with theirs. */
  lemma MessageBytes(m: Message)
    ensures Encode(m) ==
      match m
      case QueryMsg(t, q) => Ascii("d1:a") + ArgsText(q.id, QueryMore(q)) + Ascii("1:q") + NameText(q) + Ending(t, "q")
      case ResponseMsg(t, r) => Ascii("d1:r") + ArgsText(r.id, ResponseMore(r)) + Ending(t, "r")
      case ErrorMsg(t, code, text) => Ascii("d1:eli") + SignedDecimal(code) + Ascii("e") + PrintStr(text) + Ascii("e") + Ending(t, "e")
  {
    KeyTexts();
    NameTexts();
    hide *;
    match m
    case QueryMsg(t, q) => QueryBytes(t, q);
    case ResponseMsg(t, r) => ResponseBytes(t, r);
    case ErrorMsg(t, code, text) => ErrorBytes(t, code, text);
  }

  lemma TopPrint(a: Entry, rest: seq<Entry>)
    requires SortedKeys([a] + rest)
    ensures Print(BuildDict([a] + rest)) == [100] + PrintStr(a.key) + Print(a.val) + (PrintEntries(rest) + [101])
  {
    InOrder([a] + rest);
    PrintMore(a, rest);
    hide PrintEntries;
    hide FromPairs;
    hide PrintStr;
  }

  lemma QueryBytes(t: bytes, q: Query)
    ensures Encode(QueryMsg(t, q)) ==
            Ascii("d1:a") + ArgsText(q.id, QueryMore(q)) + Ascii("1:q") + NameText(q) + Ending(t, "q")
  {
    var a, name := Entry(A, BuildDict(QueryArgs(q))), Entry(Q, Str(QueryName(q)));
    var tail := [Entry(T, Str(t)), Entry(Y, Str(Q))];
    QueryTop(t, q);
    hide *;
    KeyTexts();
    QueryArgsText(q);
    EndingPrint(t, "q", Q);
    PrintMore(name, tail);
    TopPrint(a, [name] + tail);
    AsciiJoin("d", "1:a");
    QueryJoin(Ascii("d"), Ascii("1:a"), ArgsText(q.id, QueryMore(q)), Ascii("1:q"), NameText(q), PrintEntries(tail), [101]);
  }

  lemma QueryTop(t: bytes, q: Query)
    ensures
      var a, name := Entry(A, BuildDict(QueryArgs(q))), Entry(Q, Str(QueryName(q)));
      var all := [a] + ([name] + [Entry(T, Str(t)), Entry(Y, Str(Q))]);
      && Encode(QueryMsg(t, q)) == Print(BuildDict(all)) && SortedKeys(all)
      && Print(Str(QueryName(q))) == NameText(q)
    ensures "1:" + "q" == "1:q" && "d" + "1:a" == "d1:a" && Ascii("d") == [100]
  {
    hide FromPairs;
    hide QueryArgs;
    NameTexts();
    assert TopEntries(QueryMsg(t, q)) ==
           [Entry(A, BuildDict(QueryArgs(q)))] + ([Entry(Q, Str(QueryName(q)))] + [Entry(T, Str(t)), Entry(Y, Str(Q))]);
  }

  lemma QueryJoin(a: bytes, b: bytes, c: bytes, d: bytes, e: bytes, f: bytes, g: bytes)
    ensures a + b + c + (d + e + f + g) == (a + b) + c + d + e + (f + g)
  {
  }

  lemma ResponseBytes(t: bytes, r: Response)
    ensures Encode(ResponseMsg(t, r)) == Ascii("d1:r") + ArgsText(r.id, ResponseMore(r)) + Ending(t, "r")
  {
    var a := Entry(R, BuildDict(ResponseArgs(r)));
    var tail := [Entry(T, Str(t)), Entry(Y, Str(R))];
    assert TopEntries(ResponseMsg(t, r)) == [a] + tail;
    KeyTexts();
    ResponseArgsText(r);
    EndingPrint(t, "r", R);
    TopPrint(a, tail);
    hide PrintEntries;
    hide FromPairs;
    hide PrintStr;
    hide ArgsText;
    hide ResponseMore;
    hide Ending;
    assert [100] + Ascii("1:r") == Ascii("d1:r");
  }

  lemma ErrorBytes(t: bytes, code: i64, text: bytes)
    ensures Encode(ErrorMsg(t, code, text)) ==
            Ascii("d1:eli") + SignedDecimal(code) + Ascii("e") + PrintStr(text) + Ascii("e") + Ending(t, "e")
  {
    var a := Entry(E, List([Int(code), Str(text)]));
    var tail := [Entry(T, Str(t)), Entry(Y, Str(E))];
    ErrorTop(t, code, text);
    PairText(code, text);
    hide *;
    KeyTexts();
    EndingPrint(t, "e", E);
    TopPrint(a, tail);
    AsciiJoin("d", "1:e");
    AsciiJoin("d1:e", "li");
    ErrorJoin(Ascii("d"), Ascii("1:e"), Ascii("li"), SignedDecimal(code), Ascii("e"), PrintStr(text), Ending(t, "e"));
  }

  lemma ErrorTop(t: bytes, code: i64, text: bytes)
    ensures
      var all := [Entry(E, List([Int(code), Str(text)]))] + [Entry(T, Str(t)), Entry(Y, Str(E))];
      Encode(ErrorMsg(t, code, text)) == Print(BuildDict(all)) && SortedKeys(all)
    ensures "1:" + "e" == "1:e" && "d" + "1:e" == "d1:e" && "d1:e" + "li" == "d1:eli" && Ascii("d") == [100]
  {
    hide FromPairs;
    assert TopEntries(ErrorMsg(t, code, text)) ==
           [Entry(E, List([Int(code), Str(text)]))] + [Entry(T, Str(t)), Entry(Y, Str(E))];
  }

  lemma ErrorJoin(a: bytes, b: bytes, c: bytes, d: bytes, e: bytes, f: bytes, g: bytes)
    ensures a + b + (c + d + e + f + e) + g == (a + b + c) + d + e + f + e + g
  {
  }

  lemma PairText(code: i64, text: bytes)
    ensures Print(List([Int(code), Str(text)])) == Ascii("li") + SignedDecimal(code) + Ascii("e") + PrintStr(text) + Ascii("e")
  {
    hide PrintStr;
    hide SignedDecimal;
    var items := [Int(code), Str(text)];
    assert items[1..] == [Str(text)] && items[1..][1..] == [];
    assert PrintItems(items[1..]) == Print(Str(text)) + PrintItems(items[1..][1..]);
    assert PrintItems(items) == Print(Int(code)) + PrintItems(items[1..]);
  }
}
