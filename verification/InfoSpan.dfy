/** Finding the raw bytes of the `info` dictionary, and splicing them back verbatim. */
module InfoSpan {
  import opened Bytes
  import opened Numerals
  import opened Bencode
  import opened BencodeTheorems
  import opened BencodeLoops

  const INFO: bytes := [105, 110, 102, 111]
  const ANNOUNCE: bytes := [97, 110, 110, 111, 117, 110, 99, 101]
  const ANNOUNCE_LIST: bytes := [97, 110, 110, 111, 117, 110, 99, 101, 45, 108, 105, 115, 116]

  /** `parse_bytes_inline`: the whole slice must be one byte string. */
  function ParseKey(s: bytes): (r: Result<bytes>)
  {
    match ParseValue(s, 0)
    case Fail(e) => Err(e)
    case Done(v, rest) =>
      if rest != [] then Err(TrailingBytes) else if v.Str? then Ok(v.b) else Err(WrongType)
  }

  /** The walk over the top-level entries, from just inside the root dictionary. */
  function FindInfoIn(rest: bytes): (r: Result<bytes>)
    decreases |rest|
  {
    if rest == [] then Err(Malformed)
    else if rest[0] == 101 then Err(NoInfo)
    else
      var k := SkipValue(rest);
      if k.Err? then Err(k.error)
      else
        var key := ParseKey(rest[..k.value]);
        if key.Err? then Err(key.error)
        else
          var after := rest[k.value..];
          var v := SkipValue(after);
          if v.Err? then Err(v.error)
          else if key.value == INFO then Ok(after[..v.value])
          else FindInfoIn(after[v.value..])
  }

  function FindInfoSlice(input: bytes): (r: Result<bytes>)
  {
    if input == [] || input[0] != 100 then Err(NotADict) else FindInfoIn(input[1..])
  }

  /** `find_info_slice` as the cursor loop. */
  method FindInfoSliceLoop(input: bytes) returns (r: Result<bytes>)
    ensures r == FindInfoSlice(input)
  {
    hide SkipValue;
    hide ParseKey;
    if input == [] || input[0] != 100 { return Err(NotADict); }
    var cursor := 1;
    while cursor < |input|
      invariant 1 <= cursor <= |input|
      invariant FindInfoIn(input[cursor..]) == FindInfoSlice(input)
      decreases |input| - cursor
    {
      if input[cursor] == 101 { return Err(NoInfo); }
      ghost var rest := input[cursor..];
      var keyStart := cursor;
      var k := SkipValue(input[cursor..]);
      if k.Err? { return Err(k.error); }
      cursor := cursor + k.value;
      var key := ParseKey(input[keyStart..keyStart + k.value]);
      assert input[keyStart..keyStart + k.value] == rest[..k.value];
      if key.Err? { return Err(key.error); }
      var valueStart := cursor;
      assert rest[k.value..] == input[cursor..];
      var v := SkipValue(input[cursor..]);
      if v.Err? { return Err(v.error); }
      cursor := cursor + v.value;
      if key.value == INFO {
        assert input[valueStart..][..v.value] == input[valueStart..valueStart + v.value];
        return Ok(input[valueStart..valueStart + v.value]);
      }
      assert input[valueStart..][v.value..] == input[cursor..];
    }
    r := Err(Malformed);
  }

  // ---- one entry, as the parser and as the walk see it ----

  lemma StrHead(rest: bytes)
    requires ParseStr(rest).Done?
    ensures rest[0] == 43 || IsDigit(rest[0])
  {
    assert rest[..IndexOf(rest, 58)][0] == rest[0];
  }

  /** Over an entry the parser accepts whose key starts with a digit, the walk stays in step. */
  lemma WalkEntry(rest: bytes, prev: Option<bytes>)
    requires ParseEntry(rest, prev, 0).Done?
    requires IsDigit(rest[0])
    ensures var x := ParseEntry(rest, prev, 0);
      var k := SkipValue(rest);
      && k.Ok? && ParseKey(rest[..k.value]) == Ok(x.value.key)
      && var after := rest[k.value..];
         var v := SkipValue(after);
         && v.Ok?
         && after[v.value..] == x.rest
         && ParseAll(after[..v.value]) == Ok(x.value.val)
  {
    var x := ParseEntry(rest, prev, 0);
    var s := ParseStr(rest);
    var k := SkipValue(rest).value;
    SkipExact(rest);
    var after := s.rest;
    assert rest[k..] == after;
    ValueSound(after, 1);
    ValueSuffix(after, 1);
    var c := after[..|after| - |x.rest|];
    assert after == c + x.rest;
    ValueLocal(c, x.rest, x.rest, 1, 0);
    SkipExact(after);
  }

  /** A key written with a leading `+`, which only the whole-file parser accepts, stops the walk. */
  lemma WalkStopsAtPlus(rest: bytes)
    requires rest != [] && rest[0] == 43
    ensures FindInfoIn(rest) == Err(UnexpectedByte)
  {
  }

  lemma GetCons(e: Entry, es: seq<Entry>, key: bytes)
    ensures Get([e] + es, key) == if e.key == key then Some(e.val) else Get(es, key)
  {
    assert ([e] + es)[1..] == es;
  }

  lemma {:induction false} FindInfoInExact(rest: bytes, prev: Option<bytes>)
    requires ParseEntries(rest, prev, 0).Done? && FindInfoIn(rest).Ok?
    ensures var info := Get(ParseEntries(rest, prev, 0).value, INFO);
      info.Some? && ParseAll(FindInfoIn(rest).value) == Ok(info.value)
    decreases |rest|
  {
    var x := ParseEntry(rest, prev, 0);
    ParseEntriesCons(rest, prev, 0);
    StrHead(rest);
    if rest[0] == 43 { WalkStopsAtPlus(rest); }
    WalkEntry(rest, prev);
    GetCons(x.value, ParseEntries(x.rest, Some(x.value.key), 0).value, INFO);
    if x.value.key != INFO {
      FindInfoInExact(x.rest, Some(x.value.key));
    }
  }

  /**
   * Whenever the whole-file parse and the span search both succeed, the span on its own
   * parses to exactly the root dictionary's `info` value.
   */
  lemma InfoSpanExact(input: bytes)
    ensures ParseAll(input).Ok? && FindInfoSlice(input).Ok? ==>
        var root := ParseAll(input).value;
        && root.Dict?
        && Get(root.entries, INFO).Some?
        && ParseAll(FindInfoSlice(input).value) == Ok(Get(root.entries, INFO).value)
  {
    if ParseAll(input).Ok? && FindInfoSlice(input).Ok? {
      FindInfoInExact(input[1..], None);
    }
  }

  /** No top-level key, up to `info` and including it, is written with a leading `+`. */
  predicate PlainKeysToInfo(rest: bytes, prev: Option<bytes>)
    decreases |rest|
  {
    && rest != [] && rest[0] != 101
    && IsDigit(rest[0])
    && ParseEntry(rest, prev, 0).Done?
    && var x := ParseEntry(rest, prev, 0);
       x.value.key == INFO || PlainKeysToInfo(x.rest, Some(x.value.key))
  }

  lemma {:induction false} FindInfoInSucceeds(rest: bytes, prev: Option<bytes>)
    requires ParseEntries(rest, prev, 0).Done?
    ensures FindInfoIn(rest).Ok? <==> PlainKeysToInfo(rest, prev)
    decreases |rest|
  {
    if rest[0] != 101 {
      var x := ParseEntry(rest, prev, 0);
      ParseEntriesCons(rest, prev, 0);
      StrHead(rest);
      if rest[0] == 43 {
        WalkStopsAtPlus(rest);
      } else {
        WalkEntry(rest, prev);
        if x.value.key != INFO { FindInfoInSucceeds(x.rest, Some(x.value.key)); }
      }
    }
  }

  /** On a file the whole-file parser accepts, exactly when the span search succeeds. */
  lemma InfoSpanFound(input: bytes)
    requires ParseAll(input).Ok?
    ensures FindInfoSlice(input).Ok? <==> input[0] == 100 && PlainKeysToInfo(input[1..], None)
  {
    if input[0] == 100 { FindInfoInSucceeds(input[1..], None); }
  }

  /** The two do disagree: this file has an `info` the search cannot reach. */
  lemma PlusKeyDefeatsSearch(info: bytes)
    requires ParseAll(info).Ok? && Height(ParseAll(info).value) < MAX_DEPTH
    ensures var input: bytes := [100] + ([43, 52, 58] + INFO) + info + [101];
      && ParseAll(input) == Ok(Dict([Entry(INFO, ParseAll(info).value)]))
      && FindInfoSlice(input) == Err(UnexpectedByte)
  {
    var input: bytes := [100] + ([43, 52, 58] + INFO) + info + [101];
    var after := info + [101];
    var r := [43, 52, 58] + INFO + after;
    assert input[1..] == r;
    WalkStopsAtPlus(r);
    PlusKey(after);
    LastEntryParses(r, INFO, info, None);
  }

  lemma PlusKey(after: bytes)
    ensures ParseStr([43, 52, 58] + INFO + after) == Done(INFO, after)
  {
    var r := [43, 52, 58] + INFO + after;
    var tail := INFO + after;
    assert r == [43, 52] + [58] + tail;
    IndexOfPrefix([43, 52], 58, tail);
    assert r[..2] == [43, 52] && r[3..] == tail;
    assert [43, 52][1..] == [52] && [52][..0] == [];
    assert tail[..4] == INFO && tail[4..] == after;
  }

  /** A last entry whose value is spliced in: it is now one level deeper. */
  lemma LastEntryParses(input: bytes, key: bytes, info: bytes, prev: Option<bytes>)
    requires ParseAll(info).Ok?
    requires ParseStr(input) == Done(key, info + [101]) && input[0] != 101
    requires prev.Some? ==> Less(prev.value, key)
    ensures var v := ParseAll(info).value;
      ParseEntries(input, prev, 0) ==
      if Height(v) < MAX_DEPTH then Done([Entry(key, v)], []) else Fail(TooDeep)
  {
    var v := ParseAll(info).value;
    assert info + [] == info;
    ValueLocal(info, [], [101], 0, 1);
    EntryJoin(input, prev, 0, Done(key, info + [101]), AtDepth(v, [101], 1));
    ParseEntriesCons(input, prev, 0);
    assert [101][1..] == [];
    assert ParseEntries([101], Some(key), 0) == Done([], []);
    assert [Entry(key, v)] + [] == [Entry(key, v)];
  }

  // ---- files the program itself writes ----

  lemma SkipPrinted(v: Value, tail: bytes)
    requires Fits(v, MAX_DEPTH)
    ensures SkipValue(Print(v) + tail) == Ok(|Print(v)|)
    ensures (Print(v) + tail)[..|Print(v)|] == Print(v) && (Print(v) + tail)[|Print(v)|..] == tail
  {
    RoundTripAt(v, tail, 0);
  }

  /** One step of the walk over bytes that start with a printed key. */
  lemma WalkPrintedKey(key: bytes, after: bytes)
    requires |key| < USIZE_LIMIT
    requires SkipValue(after).Ok?
    ensures var m := SkipValue(after).value;
            FindInfoIn(PrintStr(key) + after) == if key == INFO then Ok(after[..m]) else FindInfoIn(after[m..])
  {
    var rest := PrintStr(key) + after;
    assert Print(Str(key)) == PrintStr(key);
    SkipPrinted(Str(key), after);
    PrintHead(Str(key));
    assert rest[0] == PrintStr(key)[0];
    PrintParseAll(Str(key));
    assert ParseKey(PrintStr(key)) == Ok(key);
  }

  /** In a canonically printed file the search always decides: the printed `info`, or none. */
  lemma {:induction false} FindInfoPrinted(es: seq<Entry>)
    requires EntriesFit(es, MAX_DEPTH)
    ensures FindInfoSlice(Print(Dict(es))) ==
            if Get(es, INFO).Some? then Ok(Print(Get(es, INFO).value)) else Err(NoInfo)
  {
    assert Print(Dict(es))[1..] == PrintEntries(es) + [101];
    FindInfoInPrinted(es);
  }

  lemma {:induction false} FindInfoInPrinted(es: seq<Entry>)
    requires EntriesFit(es, MAX_DEPTH)
    ensures FindInfoIn(PrintEntries(es) + [101]) ==
            if Get(es, INFO).Some? then Ok(Print(Get(es, INFO).value)) else Err(NoInfo)
  {
    hide SkipValue;
    if es == [] {
      assert PrintEntries(es) + [101] == [101];
    } else {
      var e, rest := es[0], PrintEntries(es[1..]) + [101];
      assert PrintEntries(es) + [101] == PrintStr(e.key) + (Print(e.val) + rest);
      SkipPrinted(e.val, rest);
      WalkPrintedKey(e.key, Print(e.val) + rest);
      if e.key != INFO { FindInfoInPrinted(es[1..]); }
    }
  }

  // ---- assemble_torrent_bytes ----

  function Tier(t: bytes): Value { List([Str(t)]) }

  function Tiers(trackers: seq<bytes>): (vs: seq<Value>)
    ensures |vs| == |trackers| && forall i :: 0 <= i < |vs| ==> vs[i] == Tier(trackers[i])
  {
    if trackers == [] then [] else [Tier(trackers[0])] + Tiers(trackers[1..])
  }

  function AnnounceEntry(trackers: seq<bytes>): Entry
    requires trackers != []
  {
    Entry(ANNOUNCE, Str(trackers[0]))
  }

  function AnnounceListEntry(trackers: seq<bytes>): Entry
  {
    Entry(ANNOUNCE_LIST, List(Tiers(trackers)))
  }

  /** The entries before `info`, in canonical order. */
  function HeadEntries(trackers: seq<bytes>): (es: seq<Entry>)
  {
    if trackers == [] then [] else [AnnounceEntry(trackers), AnnounceListEntry(trackers)]
  }

  function Assembled(info: bytes, trackers: seq<bytes>): bytes
  {
    [100] + PrintEntries(HeadEntries(trackers)) + PrintStr(INFO) + info + [101]
  }

  lemma PrintTier(t: bytes)
    ensures Print(Tier(t)) == [108] + PrintStr(t) + [101]
  {
    assert PrintItems([Str(t)]) == Print(Str(t)) + PrintItems([Str(t)][1..]);
    assert PrintItems([Str(t)]) == PrintStr(t);
  }

  /** The buffer the program builds is the canonical head, then `info` byte for byte. */
  method AssembleTorrentBytes(info: bytes, trackers: seq<bytes>) returns (out: bytes)
    ensures out == Assembled(info, trackers)
  {
    out := [100];
    if |trackers| > 0 {
      out := out + PrintStr(ANNOUNCE) + PrintStr(trackers[0]);
    }
    if trackers != [] {
      out := out + PrintStr(ANNOUNCE_LIST);
      out := out + [108];
      out := PushTiers(out, trackers);
      out := out + [101];
      HeadPrinted(trackers);
    }
    assert out == [100] + PrintEntries(HeadEntries(trackers));
    out := out + PrintStr(INFO);
    out := out + info;
    out := out + [101];
  }

  method PushTiers(buf: bytes, trackers: seq<bytes>) returns (out: bytes)
    ensures out == buf + PrintItems(Tiers(trackers))
  {
    out := buf;
    for n := 0 to |trackers|
      invariant out + PrintItems(Tiers(trackers[n..])) == buf + PrintItems(Tiers(trackers))
    {
      TierStep(out, trackers, n);
      out := out + [108];
      out := out + PrintStr(trackers[n]);
      out := out + [101];
    }
    assert PrintItems(Tiers(trackers[|trackers|..])) == [];
  }

  lemma TierStep(o: bytes, trackers: seq<bytes>, n: nat)
    requires n < |trackers|
    ensures o + PrintItems(Tiers(trackers[n..]))
         == o + [108] + PrintStr(trackers[n]) + [101] + PrintItems(Tiers(trackers[n + 1..]))
  {
    assert trackers[n..][1..] == trackers[n + 1..];
    var ts := Tiers(trackers[n..]);
    assert ts[1..] == Tiers(trackers[n + 1..]);
    PrintTier(trackers[n]);
  }

  lemma PrintTwo(e: Entry, f: Entry)
    ensures PrintEntries([e, f]) == PrintEntry(e) + PrintEntry(f)
  {
    assert [e, f][1..] == [f] && [f][1..] == [];
    assert PrintEntries([f]) == PrintEntry(f) + PrintEntries([]);
  }

  lemma HeadPrinted(trackers: seq<bytes>)
    requires trackers != []
    ensures PrintEntries(HeadEntries(trackers)) ==
            PrintStr(ANNOUNCE) + PrintStr(trackers[0])
            + PrintStr(ANNOUNCE_LIST) + [108] + PrintItems(Tiers(trackers)) + [101]
  {
    PrintTwo(AnnounceEntry(trackers), AnnounceListEntry(trackers));
  }

  predicate Representable(trackers: seq<bytes>)
  {
    forall t :: t in trackers ==> |t| < USIZE_LIMIT
  }

  lemma {:induction false} TiersHeight(trackers: seq<bytes>)
    ensures ItemsHeight(Tiers(trackers)) <= 2
  {
    if trackers != [] {
      var ts := Tiers(trackers);
      assert [Str(trackers[0])][1..] == [];
      assert Height(Tier(trackers[0])) == ItemsHeight([Str(trackers[0])]) == 1;
      assert ts[1..] == Tiers(trackers[1..]);
      TiersHeight(trackers[1..]);
    }
  }

  lemma TiersWellFormed(trackers: seq<bytes>)
    requires Representable(trackers)
    ensures WellFormed(List(Tiers(trackers)))
  {
    var ts := Tiers(trackers);
    forall x | x in ts ensures WellFormed(x) {
      var i :| 0 <= i < |ts| && ts[i] == x;
      assert trackers[i] in trackers;
      assert WellFormed(Str(trackers[i]));
    }
  }

  lemma KeyOrder()
    ensures Less(ANNOUNCE, ANNOUNCE_LIST) && Less(ANNOUNCE_LIST, INFO) && Less(ANNOUNCE, INFO)
  {
    assert Less(ANNOUNCE[7..], ANNOUNCE_LIST[7..]);
    LessCons(ANNOUNCE[..7], ANNOUNCE[7..], ANNOUNCE_LIST[7..]);
    assert ANNOUNCE == ANNOUNCE[..7] + ANNOUNCE[7..];
    assert ANNOUNCE_LIST == ANNOUNCE[..7] + ANNOUNCE_LIST[7..];
  }

  lemma {:induction false} LessCons(p: bytes, a: bytes, b: bytes)
    requires Less(a, b)
    ensures Less(p + a, p + b)
  {
    if p == [] {
      assert p + a == a && p + b == b;
    } else {
      assert (p + a)[1..] == p[1..] + a && (p + b)[1..] == p[1..] + b;
      LessCons(p[1..], a, b);
    }
  }

  /** The head entries print, and are shallow. */
  lemma HeadFits(trackers: seq<bytes>)
    requires Representable(trackers) && trackers != []
    ensures var l := AnnounceListEntry(trackers).val;
      WellFormed(l) && Height(l) <= 2 && WellFormed(AnnounceEntry(trackers).val)
  {
    TiersHeight(trackers);
    TiersWellFormed(trackers);
    assert trackers[0] in trackers;
  }

  /** Walking over one printed entry other than `info`. */
  lemma WalkPrintedEntry(e: Entry, tail: bytes)
    requires |e.key| < USIZE_LIMIT && e.key != INFO
    requires Fits(e.val, MAX_DEPTH)
    ensures FindInfoIn(PrintEntry(e) + tail) == FindInfoIn(tail)
  {
    assert PrintEntry(e) + tail == PrintStr(e.key) + (Print(e.val) + tail);
    SkipPrinted(e.val, tail);
    WalkPrintedKey(e.key, Print(e.val) + tail);
  }

  /**
   * For every info encoding that parses on its own, the span found in the assembled file is
   * those very bytes, so its hash is the one the metadata was verified against.
   */
  lemma AssembledSpan(info: bytes, trackers: seq<bytes>)
    requires Representable(trackers)
    requires ParseAll(info).Ok?
    ensures FindInfoSlice(Assembled(info, trackers)) == Ok(info)
  {
    var tail := PrintStr(INFO) + (info + [101]);
    SplicedSpan(info);
    AssembledSplit(info, trackers);
    if trackers != [] {
      var h, l := AnnounceEntry(trackers), AnnounceListEntry(trackers);
      HeadFits(trackers);
      WalkPrintedEntry(h, PrintEntry(l) + tail);
      WalkPrintedEntry(l, tail);
    }
  }

  lemma SplicedSpan(info: bytes)
    requires ParseAll(info).Ok?
    ensures FindInfoIn(PrintStr(INFO) + (info + [101])) == Ok(info)
  {
    var after := info + [101];
    ValueSound(info, 0);
    assert info + [] == info;
    ValueLocal(info, [], [101], 0, 0);
    WalkPrintedKey(INFO, after);
    assert after[..|info|] == info;
  }

  lemma AssembledSplit(info: bytes, trackers: seq<bytes>)
    ensures var tail := PrintStr(INFO) + (info + [101]);
      var input := Assembled(info, trackers);
      && input[0] == 100
      && input[1..] == if trackers == [] then tail
                       else PrintEntry(AnnounceEntry(trackers)) + (PrintEntry(AnnounceListEntry(trackers)) + tail)
  {
    var tail := PrintStr(INFO) + (info + [101]);
    assert Assembled(info, trackers)[1..] == PrintEntries(HeadEntries(trackers)) + tail;
    if trackers == [] {
      assert [] + tail == tail;
    } else {
      PrintTwo(AnnounceEntry(trackers), AnnounceListEntry(trackers));
    }
  }

  /** Parsing over one printed entry. */
  lemma ParsePrintedEntry(e: Entry, prev: Option<bytes>, tail: bytes)
    requires |e.key| < USIZE_LIMIT && WellFormed(e.val) && Height(e.val) < MAX_DEPTH
    requires prev.Some? ==> Less(prev.value, e.key)
    ensures ParseEntries(PrintEntry(e) + tail, prev, 0)
         == PrependEntry(e, ParseEntries(tail, Some(e.key), 0))
  {
    var input := PrintEntry(e) + tail;
    assert input[0] == Decimal(|e.key|)[0];
    RoundTripEntry(e, prev, tail, 0);
    ParseEntriesCons(input, prev, 0);
  }

  /**
   * Splicing puts the info value one level deeper. So the assembled file can be loaded again
   * exactly when the nesting height of the info value is below the limit, not at it.
   */
  lemma AssembledParses(info: bytes, trackers: seq<bytes>)
    requires Representable(trackers)
    requires ParseAll(info).Ok?
    ensures var v := ParseAll(info).value;
      ParseAll(Assembled(info, trackers)) ==
      if Height(v) < MAX_DEPTH then Ok(Dict(HeadEntries(trackers) + [Entry(INFO, v)])) else Err(TooDeep)
  {
    var v := ParseAll(info).value;
    AssembledSplit(info, trackers);
    AssembledEntries(info, trackers);
  }

  lemma AssembledEntries(info: bytes, trackers: seq<bytes>)
    requires Representable(trackers)
    requires ParseAll(info).Ok?
    ensures var v := ParseAll(info).value;
      ParseEntries(Assembled(info, trackers)[1..], None, 0) ==
      if Height(v) < MAX_DEPTH then Done(HeadEntries(trackers) + [Entry(INFO, v)], []) else Fail(TooDeep)
  {
    var v := ParseAll(info).value;
    var tail := PrintStr(INFO) + (info + [101]);
    AssembledSplit(info, trackers);
    if trackers == [] {
      SplicedEntryParses(info, None);
      assert HeadEntries(trackers) + [Entry(INFO, v)] == [Entry(INFO, v)];
    } else {
      HeadAndInfoParse(info, trackers);
    }
  }

  lemma HeadAndInfoParse(info: bytes, trackers: seq<bytes>)
    requires Representable(trackers) && trackers != []
    requires ParseAll(info).Ok?
    ensures var v := ParseAll(info).value;
      var tail := PrintStr(INFO) + (info + [101]);
      ParseEntries(PrintEntry(AnnounceEntry(trackers)) + (PrintEntry(AnnounceListEntry(trackers)) + tail), None, 0) ==
      if Height(v) < MAX_DEPTH then Done(HeadEntries(trackers) + [Entry(INFO, v)], []) else Fail(TooDeep)
  {
    KeyOrder();
    SplicedEntryParses(info, Some(ANNOUNCE_LIST));
    HeadParses(trackers, PrintStr(INFO) + (info + [101]));
    PrependTwo(AnnounceEntry(trackers), AnnounceListEntry(trackers), Entry(INFO, ParseAll(info).value));
  }

  lemma PrependTwo(h: Entry, l: Entry, e: Entry)
    ensures PrependEntry(h, PrependEntry(l, Done([e], []))) == Done([h, l] + [e], [])
  {
    assert [h] + ([l] + [e]) == [h, l] + [e];
  }

  lemma SplicedEntryParses(info: bytes, prev: Option<bytes>)
    requires ParseAll(info).Ok?
    requires prev.Some? ==> Less(prev.value, INFO)
    ensures var v := ParseAll(info).value;
      ParseEntries(PrintStr(INFO) + (info + [101]), prev, 0) ==
      if Height(v) < MAX_DEPTH then Done([Entry(INFO, v)], []) else Fail(TooDeep)
  {
    ParseStrOfPrint(INFO, info + [101]);
    LastEntryParses(PrintStr(INFO) + (info + [101]), INFO, info, prev);
  }

  lemma HeadParses(trackers: seq<bytes>, tail: bytes)
    requires Representable(trackers) && trackers != []
    ensures var h, l := AnnounceEntry(trackers), AnnounceListEntry(trackers);
      ParseEntries(PrintEntry(h) + (PrintEntry(l) + tail), None, 0)
      == PrependEntry(h, PrependEntry(l, ParseEntries(tail, Some(ANNOUNCE_LIST), 0)))
  {
    KeyOrder();
    HeadFits(trackers);
    ParsePrintedEntry(AnnounceEntry(trackers), None, PrintEntry(AnnounceListEntry(trackers)) + tail);
    ParsePrintedEntry(AnnounceListEntry(trackers), Some(ANNOUNCE), tail);
  }
}
