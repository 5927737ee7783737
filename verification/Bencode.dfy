/** Bencoding (BEP 3): values, the printer and the depth-limited recursive parser. */
module Bencode {
  import opened Arith
  import opened Bytes
  import opened Numerals

  const MAX_DEPTH: nat := 100

  /** A dictionary is kept, like a `BTreeMap`, as entries in strictly ascending key order. */
  datatype Entry = Entry(key: bytes, val: Value)
  datatype Value =
    | Int(i: i64)
    | Str(b: bytes)
    | List(items: seq<Value>)
    | Dict(entries: seq<Entry>)

  datatype Error =
    | TooDeep | Eof | UnexpectedByte
    | UnterminatedInt | EmptyInt | NegativeZero | LeadingZero | BadInt
    | MissingColon | BadLength | ShortString
    | UnterminatedList | UnterminatedDict | UnsortedKeys
    | TrailingBytes | WrongType | NotADict | NoInfo | Malformed
    | MissingKey | BadUtf8 | UnsafeComponent | Negative | ImplausiblePieceLength
    | RaggedPieces | LengthOverflow | ZeroLength | PieceCountMismatch

  datatype Result<+T> = Ok(value: T) | Err(error: Error)
  datatype Parsed<+T> = Done(value: T, rest: bytes) | Fail(error: Error)

  predicate SortedKeys(es: seq<Entry>)
  {
    forall i, j :: 0 <= i < j < |es| ==> Less(es[i].key, es[j].key)
  }

  /** What the in-memory value types guarantee: lengths that fit `usize`, ordered unique keys. */
  predicate WellFormed(v: Value)
  {
    match v
    case Int(_) => true
    case Str(b) => |b| < USIZE_LIMIT
    case List(items) => forall x :: x in items ==> WellFormed(x)
    case Dict(es) => SortedKeys(es) && forall e :: e in es ==> |e.key| < USIZE_LIMIT && WellFormed(e.val)
  }

  /** How many containers enclose the most deeply nested value. */
  function Height(v: Value): nat
  {
    match v
    case Int(_) => 0
    case Str(_) => 0
    case List(items) => ItemsHeight(items)
    case Dict(es) => EntriesHeight(es)
  }

  function ItemsHeight(vs: seq<Value>): nat
  {
    if vs == [] then 0 else Max(1 + Height(vs[0]), ItemsHeight(vs[1..]))
  }

  function EntriesHeight(es: seq<Entry>): nat
  {
    if es == [] then 0 else Max(1 + Height(es[0].val), EntriesHeight(es[1..]))
  }

  lemma {:induction false} ItemLower(items: seq<Value>, i: nat)
    requires i < |items|
    ensures Height(items[i]) < ItemsHeight(items)
  {
    if i > 0 {
      ItemLower(items[1..], i - 1);
    }
  }

  lemma {:induction false} EntryLower(es: seq<Entry>, i: nat)
    requires i < |es|
    ensures Height(es[i].val) < EntriesHeight(es)
  {
    if i > 0 {
      EntryLower(es[1..], i - 1);
    }
  }

  /** Well formed, and nested at most `h` deep. */
  predicate Fits(v: Value, h: nat) { WellFormed(v) && Height(v) <= h }

  predicate EntriesFit(es: seq<Entry>, h: nat)
  {
    forall e :: e in es ==> |e.key| < USIZE_LIMIT && Fits(e.val, h)
  }

  predicate DictFits(es: seq<Entry>, h: nat) { SortedKeys(es) && EntriesFit(es, h) }

  lemma {:induction false} FitsHeight(es: seq<Entry>, h: nat)
    requires EntriesFit(es, h)
    ensures EntriesHeight(es) <= h + 1
  {
    if es != [] {
      assert es[0] in es;
      FitsHeight(es[1..], h);
    }
  }

  lemma FitsDict(es: seq<Entry>, h: nat)
    requires DictFits(es, h)
    ensures Fits(Dict(es), h + 1)
  {
    FitsHeight(es, h);
  }

  lemma {:induction false} FitsList(vs: seq<Value>, h: nat)
    requires forall v :: v in vs ==> Fits(v, h)
    ensures Fits(List(vs), h + 1)
  {
    if vs != [] {
      assert vs[0] in vs;
      FitsList(vs[1..], h);
      assert ItemsHeight(vs[1..]) == Height(List(vs[1..]));
    }
  }

  // ---- printing ----

  function PrintStr(b: bytes): (s: bytes) { Decimal(|b|) + [58] + b }

  function Print(v: Value): (s: bytes)
    ensures |s| > 0
  {
    match v
    case Int(i) => [105] + SignedDecimal(i) + [101]
    case Str(b) => PrintStr(b)
    case List(items) => [108] + PrintItems(items) + [101]
    case Dict(es) => [100] + PrintEntries(es) + [101]
  }

  function PrintItems(vs: seq<Value>): bytes
  {
    if vs == [] then [] else Print(vs[0]) + PrintItems(vs[1..])
  }

  function PrintEntry(e: Entry): bytes
  {
    PrintStr(e.key) + Print(e.val)
  }

  function PrintEntries(es: seq<Entry>): bytes
  {
    if es == [] then [] else PrintEntry(es[0]) + PrintEntries(es[1..])
  }

  // ---- parsing ----

  function ParseValue(input: bytes, depth: nat): (r: Parsed<Value>)
    ensures r.Done? ==> |r.rest| < |input|
    decreases |input|, 0
  {
    if depth > MAX_DEPTH then Fail(TooDeep)
    else if input == [] then Fail(Eof)
    else if input[0] == 105 then ParseInt(input)
    else if input[0] == 108 then
      match ParseItems(input[1..], depth)
      case Fail(e) => Fail(e)
      case Done(vs, rest) => Done(List(vs), rest)
    else if input[0] == 100 then
      match ParseEntries(input[1..], None, depth)
      case Fail(e) => Fail(e)
      case Done(es, rest) => Done(Dict(es), rest)
    else if IsDigit(input[0]) then
      match ParseStr(input)
      case Fail(e) => Fail(e)
      case Done(b, rest) => Done(Str(b), rest)
    else Fail(UnexpectedByte)
  }

  function ParseInt(input: bytes): (r: Parsed<Value>)
    requires |input| > 0
    ensures r.Done? ==> |r.rest| < |input|
  {
    var body := input[1..];
    var end := IndexOf(body, 101);
    var s := body[..end];
    if end == |body| then Fail(UnterminatedInt)
    else if s == [] then Fail(EmptyInt)
    else if s == [45, 48] then Fail(NegativeZero)
    else if |s| > 1 && (s[0] == 48 || (s[0] == 45 && s[1] == 48)) then Fail(LeadingZero)
    else
      match ParseI64(s)
      case None => Fail(BadInt)
      case Some(n) => Done(Int(n), body[end + 1..])
  }

  /** A byte string. The caller of the value parser has seen a digit; a dictionary key has not. */
  function ParseStr(input: bytes): (r: Parsed<bytes>)
    ensures r.Done? ==> |r.rest| < |input|
  {
    var colon := IndexOf(input, 58);
    if colon == |input| then Fail(MissingColon)
    else
      match ParseUsize(input[..colon])
      case None => Fail(BadLength)
      case Some(len) =>
        var rest := input[colon + 1..];
        if |rest| < len then Fail(ShortString) else Done(rest[..len], rest[len..])
  }

  function ParseItems(rest: bytes, depth: nat): (r: Parsed<seq<Value>>)
    ensures r.Done? ==> |r.rest| < |rest|
    decreases |rest|, 1
  {
    if rest == [] then Fail(UnterminatedList)
    else if rest[0] == 101 then Done([], rest[1..])
    else
      match ParseValue(rest, depth + 1)
      case Fail(e) => Fail(e)
      case Done(v, r) =>
        match ParseItems(r, depth)
        case Fail(e) => Fail(e)
        case Done(vs, r') => Done([v] + vs, r')
  }

  /** One key, which must follow `prev`, and its value. */
  function ParseEntry(rest: bytes, prev: Option<bytes>, depth: nat): (r: Parsed<Entry>)
    ensures r.Done? ==> |r.rest| < |rest|
    decreases |rest|, 1
  {
    match ParseStr(rest)
    case Fail(e) => Fail(e)
    case Done(key, r) =>
      if prev.Some? && !Less(prev.value, key) then Fail(UnsortedKeys)
      else
        match ParseValue(r, depth + 1)
        case Fail(e) => Fail(e)
        case Done(v, r') => Done(Entry(key, v), r')
  }

  function ParseEntries(rest: bytes, prev: Option<bytes>, depth: nat): (r: Parsed<seq<Entry>>)
    ensures r.Done? ==> |r.rest| < |rest|
    decreases |rest|, 2
  {
    if rest == [] then Fail(UnterminatedDict)
    else if rest[0] == 101 then Done([], rest[1..])
    else
      match ParseEntry(rest, prev, depth)
      case Fail(e) => Fail(e)
      case Done(x, r) =>
        match ParseEntries(r, Some(x.key), depth)
        case Fail(e) => Fail(e)
        case Done(es, r') => Done([x] + es, r')
  }

  /** `parse_all`: one value and nothing after it. */
  function ParseAll(input: bytes): (r: Result<Value>)
  {
    match ParseValue(input, 0)
    case Fail(e) => Err(e)
    case Done(v, rest) => if rest == [] then Ok(v) else Err(TrailingBytes)
  }

  /** `skip_value`: how many bytes the first value occupies. */
  function SkipValue(input: bytes): (r: Result<nat>)
    ensures r.Ok? ==> 0 < r.value <= |input|
  {
    match ParseValue(input, 0)
    case Fail(e) => Err(e)
    case Done(v, rest) => Ok(|input| - |rest|)
  }

  /** One turn of the list loop. */
  lemma ParseItemsCons(rest: bytes, depth: nat)
    requires rest != [] && rest[0] != 101
    ensures
      var x := ParseValue(rest, depth + 1);
      ParseItems(rest, depth) ==
      if x.Fail? then Fail(x.error) else PrependItem(x.value, ParseItems(x.rest, depth))
  {
  }

  /** One turn of the dictionary loop. */
  lemma ParseEntriesCons(rest: bytes, prev: Option<bytes>, depth: nat)
    requires rest != [] && rest[0] != 101
    ensures
      var x := ParseEntry(rest, prev, depth);
      ParseEntries(rest, prev, depth) ==
      if x.Fail? then Fail(x.error)
      else PrependEntry(x.value, ParseEntries(x.rest, Some(x.value.key), depth))
  {
  }

  function PrependItem(v: Value, p: Parsed<seq<Value>>): Parsed<seq<Value>>
  {
    match p
    case Fail(e) => Fail(e)
    case Done(vs, r) => Done([v] + vs, r)
  }

  function PrependEntry(x: Entry, p: Parsed<seq<Entry>>): Parsed<seq<Entry>>
  {
    match p
    case Fail(e) => Fail(e)
    case Done(es, r) => Done([x] + es, r)
  }

  // ---- printing then parsing ----

  lemma ParseStrOfPrint(b: bytes, tail: bytes)
    requires |b| < USIZE_LIMIT
    ensures ParseStr(PrintStr(b) + tail) == Done(b, tail)
    ensures IsDigit((PrintStr(b) + tail)[0])
  {
    var d := Decimal(|b|);
    var input := PrintStr(b) + tail;
    assert input == d + [58] + (b + tail);
    IndexOfPrefix(d, 58, b + tail);
    assert input[..|d|] == d;
    ParseUsizeOfDecimal(|b|);
    assert input[|d| + 1..] == b + tail;
  }

  lemma ParseIntOfPrint(i: i64, tail: bytes)
    ensures ParseInt(Print(Int(i)) + tail) == Done(Int(i), tail)
  {
    var s := SignedDecimal(i);
    var input := Print(Int(i)) + tail;
    assert input[1..] == s + [101] + tail;
    IndexOfPrefix(s, 101, tail);
    assert input[1..][..|s|] == s;
    assert input[1..][|s| + 1..] == tail;
    ParseI64OfDecimal(i);
    DecimalNoLeadingZero(if i < 0 then -(i as int) else i);
  }

  /** The first byte of a printed value is never the `e` that ends a container. */
  lemma PrintHead(v: Value)
    ensures Print(v)[0] != 101
    ensures v.Str? ==> IsDigit(Print(v)[0])
  {
  }

  /**
   * Printing then parsing, with anything after it: the value and the tail come back when
   * the value fits under the depth limit, and the depth error comes back when it does not.
   */
  lemma {:induction false} RoundTripAt(v: Value, tail: bytes, depth: nat)
    requires WellFormed(v)
    ensures ParseValue(Print(v) + tail, depth)
         == if depth + Height(v) <= MAX_DEPTH then Done(v, tail) else Fail(TooDeep)
    decreases v, 1
  {
    var input := Print(v) + tail;
    if depth <= MAX_DEPTH {
      match v
      case Int(i) =>
        ParseIntOfPrint(i, tail);
      case Str(b) =>
        ParseStrOfPrint(b, tail);
      case List(items) =>
        assert input[1..] == PrintItems(items) + [101] + tail;
        RoundTripItems(items, tail, depth);
      case Dict(es) =>
        assert input[1..] == PrintEntries(es) + [101] + tail;
        RoundTripEntries(es, None, tail, depth);
    }
  }

  lemma {:induction false} RoundTripItems(vs: seq<Value>, tail: bytes, depth: nat)
    requires depth <= MAX_DEPTH
    requires forall x :: x in vs ==> WellFormed(x)
    ensures ParseItems(PrintItems(vs) + [101] + tail, depth)
         == if depth + ItemsHeight(vs) <= MAX_DEPTH then Done(vs, tail) else Fail(TooDeep)
    decreases vs, 0
  {
    var input := PrintItems(vs) + [101] + tail;
    if vs == [] {
      assert input == [101] + tail;
    } else {
      var v, rest := vs[0], PrintItems(vs[1..]) + [101] + tail;
      assert input == Print(v) + rest;
      PrintHead(v);
      RoundTripAt(v, rest, depth + 1);
      RoundTripItems(vs[1..], tail, depth);
      assert vs == [v] + vs[1..];
      ParseItemsCons(input, depth);
    }
  }

  lemma {:induction false} RoundTripEntry(e: Entry, prev: Option<bytes>, tail: bytes, depth: nat)
    requires |e.key| < USIZE_LIMIT && WellFormed(e.val)
    requires prev.Some? ==> Less(prev.value, e.key)
    ensures ParseEntry(PrintEntry(e) + tail, prev, depth)
         == if depth + 1 + Height(e.val) <= MAX_DEPTH then Done(e, tail) else Fail(TooDeep)
    decreases e, 2
  {
    assert PrintEntry(e) + tail == PrintStr(e.key) + (Print(e.val) + tail);
    ParseStrOfPrint(e.key, Print(e.val) + tail);
    RoundTripAt(e.val, tail, depth + 1);
  }

  lemma {:induction false} RoundTripEntries(es: seq<Entry>, prev: Option<bytes>, tail: bytes, depth: nat)
    requires depth <= MAX_DEPTH
    requires SortedKeys(es) && forall e :: e in es ==> |e.key| < USIZE_LIMIT && WellFormed(e.val)
    requires prev.Some? && es != [] ==> Less(prev.value, es[0].key)
    ensures ParseEntries(PrintEntries(es) + [101] + tail, prev, depth)
         == if depth + EntriesHeight(es) <= MAX_DEPTH then Done(es, tail) else Fail(TooDeep)
    decreases es, 0
  {
    var input := PrintEntries(es) + [101] + tail;
    if es == [] {
      assert input == [101] + tail;
    } else {
      var e, rest := es[0], PrintEntries(es[1..]) + [101] + tail;
      assert input == PrintEntry(e) + rest;
      assert IsDigit(Decimal(|e.key|)[0]) && input[0] == Decimal(|e.key|)[0];
      RoundTripEntry(e, prev, rest, depth);
      RoundTripEntries(es[1..], Some(e.key), tail, depth);
      assert es == [e] + es[1..];
      ParseEntriesCons(input, prev, depth);
    }
  }
}
