/** The ordered map of a dictionary, and the parser and printer as the loops that run. */
module BencodeLoops {
  import opened Bytes
  import opened Numerals
  import opened Bencode

  // ---- BTreeMap ----

  function Get(es: seq<Entry>, key: bytes): (r: Option<Value>)
    ensures r.Some? ==> Entry(key, r.value) in es
    ensures r.None? ==> forall e :: e in es ==> e.key != key
  {
    if es == [] then None
    else if es[0].key == key then Some(es[0].val)
    else Get(es[1..], key)
  }

  function Put(es: seq<Entry>, key: bytes, val: Value): (r: seq<Entry>)
    ensures forall e :: e in r ==> e == Entry(key, val) || e in es
  {
    if es == [] then [Entry(key, val)]
    else if es[0].key == key then [Entry(key, val)] + es[1..]
    else if Less(key, es[0].key) then [Entry(key, val)] + es
    else [es[0]] + Put(es[1..], key, val)
  }

  /** Inserting keeps the keys ordered and unique. */
  lemma {:induction false} PutSorted(es: seq<Entry>, key: bytes, val: Value)
    requires SortedKeys(es)
    ensures SortedKeys(Put(es, key, val))
  {
    if es != [] {
      if Less(key, es[0].key) {
        forall i | 0 < i < |es| ensures Less(key, es[i].key) {
          LessTransitive(key, es[0].key, es[i].key);
        }
      } else if es[0].key != key {
        LessTotal(key, es[0].key);
        PutSorted(es[1..], key, val);
        var r := Put(es[1..], key, val);
        forall j | 0 <= j < |r| ensures Less(es[0].key, r[j].key) {
          assert r[j] in r;
        }
      }
    }
  }

  /** Looking up after an insert: the inserted key has the new value, every other key its old one. */
  lemma {:induction false} GetPut(es: seq<Entry>, key: bytes, val: Value, k: bytes)
    requires SortedKeys(es)
    ensures Get(Put(es, key, val), k) == if k == key then Some(val) else Get(es, k)
  {
    var r := Put(es, key, val);
    if es == [] {
      assert r[1..] == [];
    } else if es[0].key == key || Less(key, es[0].key) {
      LessIrreflexive(key);
      assert r[1..] == if es[0].key == key then es[1..] else es;
    } else {
      assert r[1..] == Put(es[1..], key, val);
      GetPut(es[1..], key, val, k);
    }
  }

  /** A key above all others goes to the end: what the dictionary loop relies on. */
  lemma {:induction false} PutLast(es: seq<Entry>, key: bytes, val: Value)
    requires forall e :: e in es ==> Less(e.key, key)
    ensures Put(es, key, val) == es + [Entry(key, val)]
  {
    if es != [] {
      var h := es[0];
      if Less(key, h.key) { LessTransitive(key, h.key, key); }
      LessIrreflexive(key);
      PutLast(es[1..], key, val);
      assert es == [h] + es[1..];
    }
  }

  /** Every key so far is at most the previous one. */
  predicate UpTo(es: seq<Entry>, prev: Option<bytes>)
  {
    if prev.None? then es == [] else forall e :: e in es ==> e.key == prev.value || Less(e.key, prev.value)
  }

  lemma PutNext(es: seq<Entry>, prev: Option<bytes>, key: bytes, val: Value)
    requires UpTo(es, prev)
    requires prev.Some? ==> Less(prev.value, key)
    ensures Put(es, key, val) == es + [Entry(key, val)]
    ensures UpTo(Put(es, key, val), Some(key))
  {
    forall e | e in es ensures Less(e.key, key) {
      if e.key != prev.value { LessTransitive(e.key, prev.value, key); }
    }
    PutLast(es, key, val);
  }

  // ---- the loops ----

  method ParseValueLoop(input: bytes, depth: nat) returns (r: Parsed<Value>)
    ensures r == ParseValue(input, depth)
    decreases |input|, 0
  {
    if depth > MAX_DEPTH { return Fail(TooDeep); }
    if input == [] { return Fail(Eof); }
    if input[0] == 105 {
      r := ParseInt(input);
    } else if input[0] == 108 {
      r := ParseListLoop(input, depth);
      ghost var q := ParseItems(input[1..], depth);
      assert q.Done? ==> [] + q.value == q.value;
    } else if input[0] == 100 {
      r := ParseDictLoop(input, depth);
      ghost var q := ParseEntries(input[1..], None, depth);
      assert q.Done? ==> [] + q.value == q.value;
    } else if IsDigit(input[0]) {
      var s := ParseStr(input);
      r := if s.Done? then Done(Str(s.value), s.rest) else Fail(s.error);
    } else {
      r := Fail(UnexpectedByte);
    }
  }

  /** What the list loop returns when it holds `items` and the rest parses as `p`. */
  function WithItems(items: seq<Value>, p: Parsed<seq<Value>>): Parsed<Value>
  {
    if p.Done? then Done(List(items + p.value), p.rest) else Fail(p.error)
  }

  lemma WithItemsPush(items: seq<Value>, v: Value, p: Parsed<seq<Value>>)
    ensures WithItems(items, PrependItem(v, p)) == WithItems(items + [v], p)
  {
    assert p.Done? ==> items + ([v] + p.value) == items + [v] + p.value;
  }

  method ParseListLoop(input: bytes, depth: nat) returns (r: Parsed<Value>)
    requires depth <= MAX_DEPTH && |input| > 0
    ensures r == WithItems([], ParseItems(input[1..], depth))
    decreases |input|, 0, 1
  {
    var rest := input[1..];
    var items: seq<Value> := [];
    while true
      invariant |rest| < |input|
      invariant WithItems(items, ParseItems(rest, depth)) == WithItems([], ParseItems(input[1..], depth))
      decreases |rest|
    {
      if rest == [] { return Fail(UnterminatedList); }
      if rest[0] == 101 {
        assert items + [] == items;
        return Done(List(items), rest[1..]);
      }
      ParseItemsCons(rest, depth);
      var x := ParseValueLoop(rest, depth + 1);
      if x.Fail? { return Fail(x.error); }
      WithItemsPush(items, x.value, ParseItems(x.rest, depth));
      items, rest := items + [x.value], x.rest;
    }
  }

  /** What the dictionary loop returns when it holds `es` and the rest parses as `p`. */
  function WithEntries(es: seq<Entry>, p: Parsed<seq<Entry>>): Parsed<Value>
  {
    if p.Done? then Done(Dict(es + p.value), p.rest) else Fail(p.error)
  }

  lemma WithEntriesPush(es: seq<Entry>, e: Entry, p: Parsed<seq<Entry>>)
    ensures WithEntries(es, PrependEntry(e, p)) == WithEntries(es + [e], p)
  {
    assert p.Done? ==> es + ([e] + p.value) == es + [e] + p.value;
  }

  method ParseDictLoop(input: bytes, depth: nat) returns (r: Parsed<Value>)
    requires depth <= MAX_DEPTH && |input| > 0
    ensures r == WithEntries([], ParseEntries(input[1..], None, depth))
    decreases |input|, 0, 1
  {
    var rest := input[1..];
    var map': seq<Entry> := [];
    var prevKey: Option<bytes> := None;
    while true
      invariant |rest| < |input|
      invariant UpTo(map', prevKey)
      invariant WithEntries(map', ParseEntries(rest, prevKey, depth))
             == WithEntries([], ParseEntries(input[1..], None, depth))
      decreases |rest|
    {
      if rest == [] { return Fail(UnterminatedDict); }
      if rest[0] == 101 {
        assert map' + [] == map';
        return Done(Dict(map'), rest[1..]);
      }
      ParseEntriesCons(rest, prevKey, depth);
      var x := ParseEntryLoop(rest, prevKey, depth);
      if x.Fail? { return Fail(x.error); }
      assert prevKey.Some? ==> Less(prevKey.value, x.value.key);
      PutNext(map', prevKey, x.value.key, x.value.val);
      WithEntriesPush(map', x.value, ParseEntries(x.rest, Some(x.value.key), depth));
      prevKey, map', rest := Some(x.value.key), Put(map', x.value.key, x.value.val), x.rest;
    }
  }

  method ParseEntryLoop(rest: bytes, prevKey: Option<bytes>, depth: nat) returns (r: Parsed<Entry>)
    requires depth <= MAX_DEPTH
    ensures r == ParseEntry(rest, prevKey, depth)
    decreases |rest|, 1
  {
    var k := ParseStr(rest);
    if k.Fail? { return Fail(k.error); }
    if prevKey.Some? && !Less(prevKey.value, k.value) { return Fail(UnsortedKeys); }
    var x := ParseValueLoop(k.rest, depth + 1);
    if x.Fail? { return Fail(x.error); }
    r := Done(Entry(k.value, x.value), x.rest);
  }

  /** `write_into` appends the encoding to whatever the buffer already holds. */
  method WriteInto(v: Value, out: bytes) returns (r: bytes)
    ensures r == out + Print(v)
    decreases v
  {
    match v
    case Int(i) =>
      r := out + [105] + SignedDecimal(i) + [101];
    case Str(b) =>
      r := out + Decimal(|b|) + [58] + b;
    case List(items) =>
      r := WriteItems(items, out + [108]);
      r := r + [101];
    case Dict(es) =>
      r := WriteEntries(es, out + [100]);
      r := r + [101];
  }

  lemma PrintItemsStep(items: seq<Value>, n: nat, r: bytes)
    requires n < |items|
    ensures r + PrintItems(items[n..]) == r + Print(items[n]) + PrintItems(items[n + 1..])
  {
    assert items[n..][1..] == items[n + 1..];
  }

  lemma PrintEntriesStep(es: seq<Entry>, n: nat, r: bytes)
    requires n < |es|
    ensures r + PrintEntries(es[n..])
         == r + Decimal(|es[n].key|) + [58] + es[n].key + Print(es[n].val) + PrintEntries(es[n + 1..])
  {
    assert es[n..][1..] == es[n + 1..];
  }

  method WriteItems(items: seq<Value>, out: bytes) returns (r: bytes)
    ensures r == out + PrintItems(items)
    decreases items, 0
  {
    r := out;
    for n := 0 to |items|
      invariant r + PrintItems(items[n..]) == out + PrintItems(items)
    {
      ghost var before := r;
      r := WriteInto(items[n], r);
      PrintItemsStep(items, n, before);
    }
  }

  method WriteEntries(es: seq<Entry>, out: bytes) returns (r: bytes)
    ensures r == out + PrintEntries(es)
    decreases es, 0
  {
    r := out;
    for n := 0 to |es|
      invariant r + PrintEntries(es[n..]) == out + PrintEntries(es)
    {
      ghost var before := r;
      r := r + Decimal(|es[n].key|) + [58] + es[n].key;
      r := WriteInto(es[n].val, r);
      PrintEntriesStep(es, n, before);
    }
  }
}
