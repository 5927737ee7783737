/** What the KRPC decoder answers, dictionary by dictionary: which fault wins, and what an accepted message holds.
    Keys and names are spelt out; nothing here is defined through the decoder's own helpers. */
module KrpcTables {
  import opened Bytes
  import opened Bencode
  import opened BencodeLoops
  import opened NodeId
  import opened Net
  import opened Compact
  import opened Krpc

  /** The names as BEP 5 spells them. */
  lemma Names()
    ensures A == Ascii("a") && E == Ascii("e") && Q == Ascii("q") && R == Ascii("r") && T == Ascii("t") && Y == Ascii("y")
    ensures ID == Ascii("id") && IMPLIED_PORT == Ascii("implied_port") && INFO_HASH == Ascii("info_hash")
    ensures NODES == Ascii("nodes") && PORT == Ascii("port") && TARGET == Ascii("target")
    ensures TOKEN == Ascii("token") && VALUES == Ascii("values")
    ensures PING == Ascii("ping") && FIND_NODE == Ascii("find_node")
    ensures GET_PEERS == Ascii("get_peers") && ANNOUNCE_PEER == Ascii("announce_peer")
  {
  }

  // ---- what can be wrong with a field ----

  ghost function StrFault(v: Option<Value>): Option<Error>
  {
    if v.None? then Some(MissingKey) else if !v.value.Str? then Some(WrongType) else None
  }

  ghost function IdFault(v: Option<Value>): Option<Error>
  {
    if v.Some? && v.value.Str? && |v.value.b| != 20 then Some(Malformed) else StrFault(v)
  }

  ghost function DictFault(v: Option<Value>): Option<Error>
  {
    if v.None? then Some(MissingKey) else if !v.value.Dict? then Some(WrongType) else None
  }

  /** Only a byte string that is no whole number of 26-byte contacts is at fault; anything else is as if absent. */
  ghost function NodesFault(v: Option<Value>): Option<Error>
  {
    if v.Some? && v.value.Str? && |v.value.b| % 26 != 0 then Some(Malformed) else None
  }

  ghost function ValuesFault(v: Option<Value>): Option<Error>
  {
    if v.None? then None
    else if v.value.List? && forall i :: 0 <= i < |v.value.items| ==> v.value.items[i].Str? then None
    else Some(WrongType)
  }

  /** The first fault wins. */
  ghost function Then(a: Option<Error>, b: Option<Error>): Option<Error>
  {
    if a.Some? then a else b
  }

  // ---- what a field holds ----

  ghost predicate HasPort(s: bytes, at: nat)
  {
    at + 2 <= |s| && (s[at] != 0 || s[at + 1] != 0)
  }

  ghost predicate Ascending(ps: seq<nat>)
  {
    forall i, j :: 0 <= i < j < |ps| ==> ps[i] < ps[j]
  }

  /** The contact at position `i`: 20 bytes of id, four of address, two of port. */
  ghost predicate NodeAt(s: bytes, i: nat, now: int, c: Contact)
  {
    var at := 26 * i;
    && at + 26 <= |s|
    && c == Contact(s[at..at + 20], V4(s[at + 20..at + 24], 256 * s[at + 24] as int + s[at + 25] as int), now)
  }

  /** `out` is the contacts in `s` that have a port, in their order. */
  ghost predicate NodesRead(s: bytes, now: int, out: seq<Contact>, ps: seq<nat>)
  {
    && Ascending(ps)
    && (forall i :: i in ps <==> 0 <= i < |s| / 26 && HasPort(s, 26 * i + 24))
    && |out| == |ps|
    && (forall k :: 0 <= k < |ps| ==> NodeAt(s, ps[k], now, out[k]))
  }

  ghost predicate ValueAt(v: Value, a: Addr)
  {
    v.Str? && |v.b| == 6 && a == V4(v.b[..4], 256 * v.b[4] as int + v.b[5] as int)
  }

  /** `out` is the six-byte items that have a port, in their order. */
  ghost predicate ValuesRead(items: seq<Value>, out: seq<Addr>, ps: seq<nat>)
  {
    && Ascending(ps)
    && (forall i :: i in ps <==> 0 <= i < |items| && items[i].Str? && |items[i].b| == 6 && HasPort(items[i].b, 4))
    && |out| == |ps|
    && (forall k :: 0 <= k < |ps| ==> ps[k] < |items| && ValueAt(items[ps[k]], out[k]))
  }

  lemma {:induction false} ReadNodes(s: bytes, now: int) returns (ps: seq<nat>)
    requires |s| % 26 == 0
    ensures NodesRead(s, now, NonZero(UnpackAll(s, now)), ps)
    decreases |s|
  {
    if s == [] {
      ps := [];
    } else {
      var n := |s| - 26;
      var fs := ReadNodes(s[..n], now);
      var u := UnpackAll(s, now);
      assert u[..|u| - 1] == UnpackAll(s[..n], now);
      ps := fs + if HasPort(s, n + 24) then [n / 26] else [];
      NodesSnoc(s, now, NonZero(UnpackAll(s[..n], now)), fs);
    }
  }

  lemma NodesSnoc(s: bytes, now: int, out: seq<Contact>, fs: seq<nat>)
    requires |s| % 26 == 0 && |s| >= 26 && NodesRead(s[..|s| - 26], now, out, fs)
    ensures
      var n, c := |s| - 26, Unpack(s[|s| - 26..], now);
      && (HasPort(s, n + 24) <==> c.addr.port != 0)
      && NodesRead(s, now, out + (if HasPort(s, n + 24) then [c] else []), fs + if HasPort(s, n + 24) then [n / 26] else [])
  {
    var n := |s| - 26;
    var m := n / 26;
    var ps := fs + if HasPort(s, n + 24) then [m] else [];
    assert 26 * m == n && |s| / 26 == m + 1 && |s[..n]| / 26 == m;
    forall i ensures i in ps <==> 0 <= i < m + 1 && HasPort(s, 26 * i + 24) {
      if 0 <= i < m { assert HasPort(s[..n], 26 * i + 24) <==> HasPort(s, 26 * i + 24); }
    }
    forall k | 0 <= k < |fs| ensures NodeAt(s, fs[k], now, out[k]) {
      assert NodeAt(s[..n], fs[k], now, out[k]);
      var at := 26 * fs[k];
      assert s[..n][at..at + 20] == s[at..at + 20] && s[..n][at + 20..at + 24] == s[at + 20..at + 24];
    }
    var t := s[n..];
    assert t[..20] == s[n..n + 20] && t[20..24] == s[n + 20..n + 24];
    assert NodeAt(s, m, now, Unpack(t, now));
  }

  ghost predicate AllStr(items: seq<Value>)
  {
    forall i :: 0 <= i < |items| ==> items[i].Str?
  }

  lemma {:induction false} ReadValues(items: seq<Value>) returns (ps: seq<nat>)
    ensures
      var r := ParseValues(items);
      if AllStr(items) then r.Ok? && ValuesRead(items, r.value, ps) else r == Err(WrongType)
  {
    if items == [] {
      ps := [];
    } else {
      var n := |items| - 1;
      var front, last := items[..n], items[n];
      var fs := ReadValues(front);
      assert items == front + [last];
      assert AllStr(items) <==> AllStr(front) && last.Str?;
      ps := fs + if last.Str? && |last.b| == 6 && HasPort(last.b, 4) then [n] else [];
      if AllStr(items) {
        ValuesSnoc(front, last, ParseValues(front).value, fs);
        hide ValuesRead;
        assert fs + [] == fs;
      }
    }
  }

  lemma ValuesSnoc(front: seq<Value>, last: Value, out: seq<Addr>, fs: seq<nat>)
    requires ValuesRead(front, out, fs) && last.Str?
    ensures
      var yes := |last.b| == 6 && HasPort(last.b, 4);
      && (yes <==> |last.b| == 6 && UnpackAddr(last.b).port != 0)
      && (yes ==> ValuesRead(front + [last], out + [UnpackAddr(last.b)], fs + [|front|]))
      && (!yes ==> ValuesRead(front + [last], out, fs))
  {
    var items := front + [last];
    forall k | 0 <= k < |fs| ensures fs[k] < |front| && ValueAt(items[fs[k]], out[k]) {
      assert items[fs[k]] == front[fs[k]];
    }
    if |last.b| == 6 {
      assert last.b[4..][0] == last.b[4] && last.b[4..][1] == last.b[5];
    }
  }

  // ---- the tables ----

  /** Every response dictionary: the id is judged first, then nodes, then values. Values with a token are a peer
      list, whether or not nodes came too; values without one leave only the id; otherwise nodes with or without
      a token; otherwise only the id. */
  lemma ResponseTable(d: seq<Entry>, now: int)
    ensures
      var id, nodes := Get(d, Ascii("id")), Get(d, Ascii("nodes"));
      var values, token := Get(d, Ascii("values")), Get(d, Ascii("token"));
      var fault := Then(IdFault(id), Then(NodesFault(nodes), ValuesFault(values)));
      var hasNodes, hasToken := nodes.Some? && nodes.value.Str?, token.Some? && token.value.Str?;
      var r := DecodeResponse(d, now);
      && (r.Err? <==> fault.Some?) && (r.Err? ==> r.error == fault.value)
      && (r.Ok? ==>
            && r.value.id == id.value.b
            && (r.value.Peers? <==> values.Some? && hasToken)
            && (r.value.PeersNodes? <==> values.None? && hasNodes && hasToken)
            && (r.value.Nodes? <==> values.None? && hasNodes && !hasToken)
            && (r.value.Peers? || r.value.PeersNodes? ==> r.value.token == token.value.b)
            && (r.value.Peers? ==> exists ps :: ValuesRead(values.value.items, r.value.values, ps))
            && (r.value.Nodes? || r.value.PeersNodes? ==> exists ps :: NodesRead(nodes.value.b, now, r.value.nodes, ps)))
  {
    Names();
    hide Get;
    hide NodesRead;
    hide ValuesRead;
    hide NonZero;
    hide UnpackAll;
    hide Ascii;
    var nodes, values := Get(d, NODES), Get(d, VALUES);
    if nodes.Some? && nodes.value.Str? && |nodes.value.b| % 26 == 0 {
      var ps := ReadNodes(nodes.value.b, now);
    }
    if values.Some? && values.value.List? {
      var ps := ReadValues(values.value.items);
    }
    hide ParseValues;
  }

  /** What is wrong with the arguments of a query, in the order they are read. */
  ghost function QueryFault(name: bytes, args: seq<Entry>): Option<Error>
  {
    var id, hash := IdFault(Get(args, Ascii("id"))), IdFault(Get(args, Ascii("info_hash")));
    if name == Ascii("ping") then id
    else if name == Ascii("find_node") then Then(id, IdFault(Get(args, Ascii("target"))))
    else if name == Ascii("get_peers") then Then(id, hash)
    else if name == Ascii("announce_peer") then Then(id, Then(hash, StrFault(Get(args, Ascii("token")))))
    else Then(id, Some(Malformed))
  }

  /** Every query dictionary. A port that is missing, no number or out of range counts as 0; the implied port
      is set by any number but 0. */
  lemma QueryTable(name: bytes, args: seq<Entry>)
    ensures
      var fault, r := QueryFault(name, args), DecodeQuery(name, args);
      && (r.Err? <==> fault.Some?) && (r.Err? ==> r.error == fault.value)
      && (r.Ok? ==>
            && r.value.id == Get(args, Ascii("id")).value.b
            && (r.value.Ping? <==> name == Ascii("ping"))
            && (r.value.FindNode? <==> name == Ascii("find_node"))
            && (r.value.GetPeers? <==> name == Ascii("get_peers"))
            && (r.value.FindNode? ==> r.value.target == Get(args, Ascii("target")).value.b)
            && (r.value.GetPeers? || r.value.AnnouncePeer? ==> r.value.infoHash == Get(args, Ascii("info_hash")).value.b))
      && (r.Ok? && r.value.AnnouncePeer? ==>
            var port, implied := Get(args, Ascii("port")), Get(args, Ascii("implied_port"));
            && r.value.token == Get(args, Ascii("token")).value.b
            && (if port.Some? && port.value.Int? && 0 <= port.value.i < 65536 then r.value.port == port.value.i else r.value.port == 0)
            && (r.value.impliedPort <==> implied.Some? && implied.value.Int? && implied.value.i != 0))
  {
    Names();
    hide Ascii;
    hide Get;
    NamesDiffer();
  }

  lemma NamesDiffer()
    ensures PING != FIND_NODE && PING != GET_PEERS && PING != ANNOUNCE_PEER
    ensures FIND_NODE != GET_PEERS && FIND_NODE != ANNOUNCE_PEER && GET_PEERS != ANNOUNCE_PEER
  {
    assert |PING| == 4 && |FIND_NODE| == 9 && |GET_PEERS| == 9 && |ANNOUNCE_PEER| == 13;
    assert FIND_NODE[0] != GET_PEERS[0];
  }

  /** An error needs a list of two: a number, and a text that counts as empty if it is none. */
  lemma ErrorTable(txid: bytes, v: Value, utf8: bytes -> bool)
    ensures
      var r := DecodeError(txid, v, utf8);
      && (!v.List? ==> r == Err(WrongType))
      && (v.List? && |v.items| < 2 ==> r == Err(Malformed))
      && (v.List? && |v.items| >= 2 && !v.items[0].Int? ==> r == Err(WrongType))
      && (r.Ok? <==> v.List? && |v.items| >= 2 && v.items[0].Int?)
      && (r.Ok? ==>
            && r.value.ErrorMsg? && r.value.txid == txid && r.value.code == v.items[0].i
            && r.value.text == if v.items[1].Str? && utf8(v.items[1].b) then v.items[1].b else [])
  {
  }

  /** Every datagram value: the transaction id and the type are judged first, then the body of that type. */
  lemma MessageTable(v: Value, now: int, utf8: bytes -> bool)
    ensures
      var r := DecodeValue(v, now, utf8);
      && (!v.Dict? ==> r == Err(WrongType))
      && (v.Dict? ==>
            var t, y := Get(v.entries, Ascii("t")), Get(v.entries, Ascii("y"));
            var fault := Then(StrFault(t), StrFault(y));
            && (fault.Some? ==> r == Err(fault.value))
            && (fault.None? ==>
                  && (r.Ok? ==> r.value.txid == t.value.b)
                  && (y.value.b == Ascii("q") ==>
                        var q, a := Get(v.entries, Ascii("q")), Get(v.entries, Ascii("a"));
                        var missing := Then(StrFault(q), DictFault(a));
                        && (missing.Some? ==> r == Err(missing.value))
                        && (missing.None? ==>
                              var query := DecodeQuery(q.value.b, a.value.entries);
                              && (query.Ok? ==> r.Ok? && r.value.QueryMsg? && r.value.query == query.value)
                              && (query.Err? ==> r == Err(query.error))))
                  && (y.value.b == Ascii("r") ==>
                        var body := Get(v.entries, Ascii("r"));
                        && (DictFault(body).Some? ==> r == Err(DictFault(body).value))
                        && (DictFault(body).None? ==>
                              var resp := DecodeResponse(body.value.entries, now);
                              && (resp.Ok? ==> r.Ok? && r.value.ResponseMsg? && r.value.response == resp.value)
                              && (resp.Err? ==> r == Err(resp.error))))
                  && (y.value.b == Ascii("e") ==>
                        var body := Get(v.entries, Ascii("e"));
                        r == if body.None? then Err(MissingKey) else DecodeError(t.value.b, body.value, utf8))
                  && (y.value.b !in {Ascii("q"), Ascii("r"), Ascii("e")} ==> r == Err(Malformed))))
  {
    Names();
    hide Ascii;
    hide Get;
    hide DecodeQuery;
    hide DecodeResponse;
    if v.Dict? {
      assert Q[0] != R[0] && Q[0] != E[0] && R[0] != E[0];
      if Get(v.entries, E).Some? && StrFault(Get(v.entries, T)).None? {
        ErrorTable(Get(v.entries, T).value.b, Get(v.entries, E).value, utf8);
      }
    }
  }
}
