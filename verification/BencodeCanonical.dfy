/** Which accepted inputs the printer reproduces byte for byte, and that its output decodes uniquely. */
module BencodeCanonical {
  import opened Bytes
  import opened Numerals
  import opened Bencode
  import opened BencodeTheorems

  // ---- numerals ----

  lemma {:induction false} ZeroStartsWithZero(s: bytes)
    requires |s| >= 1 && AllDigits(s)
    ensures DigitsValue(s) == 0 ==> s[0] == 48
  {
    if |s| > 1 { ZeroStartsWithZero(s[..|s| - 1]); }
  }

  /** A digit string is the canonical one of its number exactly when it has no needless leading zero. */
  lemma {:induction false} DecimalOfDigits(s: bytes)
    requires |s| >= 1 && AllDigits(s)
    ensures Decimal(DigitsValue(s)) == s <==> |s| == 1 || s[0] != 48
  {
    var front, n := s[..|s| - 1], DigitsValue(s);
    if |s| == 1 {
      assert s == [s[0]] && DigitsValue(front) == 0;
    } else {
      assert s == front + [s[|s| - 1]] && n / 10 == DigitsValue(front) && n % 10 == s[|s| - 1] as int - 48;
      DecimalOfDigits(front);
      if n < 10 {
        ZeroStartsWithZero(front);
      } else {
        DecimalNoLeadingZero(n / 10);
      }
    }
  }

  // ---- plain spelling ----

  /** A length without a plus and without a needless leading zero. */
  predicate PlainStr(input: bytes)
  {
    input != [] && input[0] != 43 && !(input[0] == 48 && |input| > 1 && input[1] != 58)
  }

  /** The bytes of a value in which no integer and no length is spelled with a plus, and no length with a
      needless leading zero. */
  predicate PlainValue(input: bytes, depth: nat)
    decreases |input|, 0
  {
    && input != []
    && if input[0] == 105 then |input| > 1 && input[1] != 43
       else if input[0] == 108 then PlainItems(input[1..], depth)
       else if input[0] == 100 then PlainEntries(input[1..], None, depth)
       else PlainStr(input)
  }

  predicate PlainItems(rest: bytes, depth: nat)
    decreases |rest|, 1
  {
    && rest != []
    && (rest[0] != 101 ==>
          && PlainValue(rest, depth + 1)
          && ParseValue(rest, depth + 1).Done?
          && PlainItems(ParseValue(rest, depth + 1).rest, depth))
  }

  predicate PlainEntry(rest: bytes, depth: nat)
    decreases |rest|, 1
  {
    PlainStr(rest) && ParseStr(rest).Done? && PlainValue(ParseStr(rest).rest, depth + 1)
  }

  predicate PlainEntries(rest: bytes, prev: Option<bytes>, depth: nat)
    decreases |rest|, 2
  {
    && rest != []
    && (rest[0] != 101 ==>
          && PlainEntry(rest, depth)
          && ParseEntry(rest, prev, depth).Done?
          && var x := ParseEntry(rest, prev, depth);
             PlainEntries(x.rest, Some(x.value.key), depth))
  }

  // ---- reproduced exactly when plain ----

  /** Two printed parts spell the input exactly when each spells its own stretch of it. */
  lemma JoinExact(a: bytes, b: bytes, mid: bytes, input: bytes)
    requires IsSuffix(mid, input) && |a| + |mid| <= |input| && |b| <= |mid|
    ensures a + b == input <==> a + mid == input && b == mid
  {
    if a + b == input {
      assert mid == input[|a|..] == b;
    }
  }

  lemma CancelTail(a: bytes, b: bytes, tail: bytes)
    ensures a + tail == b + tail <==> a == b
  {
    if a + tail == b + tail {
      assert |a| == |b|;
      assert a == (a + tail)[..|a|] && b == (b + tail)[..|b|];
    }
  }

  lemma StrExact(input: bytes)
    requires ParseStr(input).Done?
    ensures PrintStr(ParseStr(input).value) + ParseStr(input).rest == input <==> PlainStr(input)
  {
    var d, tail := StrPieces(input);
    var len := |ParseStr(input).value|;
    hide *;
    CancelTail(Decimal(len), d, tail);
    LengthExact(d, len);
  }

  /** The length as written, and everything from the colon on. */
  lemma StrPieces(input: bytes) returns (d: bytes, tail: bytes)
    requires ParseStr(input).Done?
    ensures
      var p := ParseStr(input);
      && ParseUsize(d) == Some(|p.value|) && d != [] && input == d + tail
      && PrintStr(p.value) + p.rest == Decimal(|p.value|) + tail
      && (PlainStr(input) <==> d[0] != 43 && (|d| > 1 ==> d[0] != 48))
  {
    hide PlainStr;
    hide Decimal;
    var colon := IndexOf(input, 58);
    var p := ParseStr(input);
    d, tail := input[..colon], input[colon..];
    assert tail == [58] + (p.value + p.rest);
    hide ParseStr;
    hide IndexOf;
    assert PrintStr(p.value) + p.rest == Decimal(|p.value|) + ([58] + (p.value + p.rest));
    hide PrintStr;
    PlainSpelling(d, tail);
    assert input == d + tail;
  }

  lemma PlainSpelling(d: bytes, tail: bytes)
    requires d != [] && 58 !in d && tail != [] && tail[0] == 58
    ensures PlainStr(d + tail) <==> d[0] != 43 && (|d| > 1 ==> d[0] != 48)
  {
    var s := d + tail;
    assert s[0] == d[0] && s[1] == if |d| > 1 then d[1] else tail[0];
    assert |d| > 1 ==> d[1] in d;
  }

  lemma LengthExact(d: bytes, len: nat)
    requires ParseUsize(d) == Some(len)
    ensures Decimal(len) == d <==> d[0] != 43 && (|d| > 1 ==> d[0] != 48)
  {
    if d[0] == 43 {
      assert Decimal(len)[0] != 43;
    } else {
      DecimalOfDigits(d);
    }
  }

  lemma IntExact(input: bytes)
    requires |input| > 0 && input[0] == 105 && ParseInt(input).Done?
    ensures Print(ParseInt(input).value) + ParseInt(input).rest == input <==> |input| > 1 && input[1] != 43
  {
    var s, tail := IntPieces(input);
    var n := ParseInt(input).value.i;
    hide *;
    CancelTail([105] + SignedDecimal(n), [105] + s, tail);
    SignedExact(s, n);
    assert ([105] + s)[1..] == s && ([105] + SignedDecimal(n))[1..] == SignedDecimal(n);
  }

  lemma IntPieces(input: bytes) returns (s: bytes, tail: bytes)
    requires |input| > 0 && input[0] == 105 && ParseInt(input).Done?
    ensures
      var p := ParseInt(input);
      && p.value.Int? && ParseI64(s) == Some(p.value.i) && s != [] && s != [45, 48]
      && !(|s| > 1 && (s[0] == 48 || (s[0] == 45 && s[1] == 48)))
      && input == [105] + s + tail && |input| > 1 && input[1] == s[0]
      && Print(p.value) + p.rest == [105] + SignedDecimal(p.value.i) + tail
  {
    hide SignedDecimal;
    hide ParseI64;
    var body := input[1..];
    var end := IndexOf(body, 101);
    s, tail := body[..end], body[end..];
    assert tail == [101] + ParseInt(input).rest;
  }

  lemma SignedExact(s: bytes, n: i64)
    requires ParseI64(s) == Some(n) && s != [45, 48]
    requires !(|s| > 1 && (s[0] == 48 || (s[0] == 45 && s[1] == 48)))
    ensures SignedDecimal(n) == s <==> s[0] != 43
  {
    if s[0] == 43 {
      DecimalNoLeadingZero(if n < 0 then -(n as int) else n);
    } else if s[0] == 45 {
      DecimalOfDigits(s[1..]);
      assert s == [45] + s[1..];
      ZeroStartsWithZero(s[1..]);
    } else {
      DecimalOfDigits(s);
    }
  }

  lemma {:induction false} ValueExact(input: bytes, depth: nat)
    requires ParseValue(input, depth).Done?
    ensures var p := ParseValue(input, depth);
      Print(p.value) + p.rest == input <==> PlainValue(input, depth)
    decreases |input|, 0
  {
    hide PlainItems;
    hide PlainEntries;
    hide PlainStr;
    hide ParseInt;
    hide ParseStr;
    hide ParseItems;
    hide ParseEntries;
    hide PrintItems;
    hide PrintEntries;
    hide PrintStr;
    hide SignedDecimal;
    var p := ParseValue(input, depth);
    if input[0] == 105 {
      IntExact(input);
    } else if input[0] == 108 {
      ItemsExact(input[1..], depth);
      BehindHead(108, PrintItems(p.value.items) + [101], p.rest, input);
    } else if input[0] == 100 {
      EntriesExact(input[1..], None, depth);
      BehindHead(100, PrintEntries(p.value.entries) + [101], p.rest, input);
    } else {
      StrExact(input);
    }
  }

  lemma BehindHead(h: byte, a: bytes, rest: bytes, input: bytes)
    requires input != [] && input[0] == h
    ensures [h] + a + rest == input <==> a + rest == input[1..]
    ensures [h] + (a + rest) == [h] + a + rest
  {
    assert input == [h] + input[1..];
    assert ([h] + a + rest)[1..] == a + rest;
  }

  lemma {:induction false} ItemsExact(rest: bytes, depth: nat)
    requires depth <= MAX_DEPTH && ParseItems(rest, depth).Done?
    ensures var p := ParseItems(rest, depth);
      PrintItems(p.value) + [101] + p.rest == rest <==> PlainItems(rest, depth)
    decreases |rest|, 1
  {
    if rest[0] == 101 {
      assert rest == [101] + rest[1..];
    } else {
      var x := ParseValue(rest, depth + 1);
      ParseItemsCons(rest, depth);
      var q := ParseItems(x.rest, depth);
      ItemsStep(rest, depth, x.value, q.value, q.rest);
      assert x.Done? && q.Done? && ParseItems(rest, depth) == Done([x.value] + q.value, q.rest);
      hide *;
      ValueExact(rest, depth + 1);
      ItemsExact(x.rest, depth);
      ValueSound(rest, depth + 1);
      ItemsSound(x.rest, depth);
      ValueSuffix(rest, depth + 1);
      JoinExact(Print(x.value), PrintItems(q.value) + [101] + q.rest, x.rest, rest);
    }
  }

  lemma ItemsStep(rest: bytes, depth: nat, v: Value, vs: seq<Value>, r: bytes)
    requires rest != [] && rest[0] != 101 && ParseValue(rest, depth + 1).Done?
    ensures PrintItems([v] + vs) + [101] + r == Print(v) + (PrintItems(vs) + [101] + r)
    ensures PlainItems(rest, depth) <==> PlainValue(rest, depth + 1) && PlainItems(ParseValue(rest, depth + 1).rest, depth)
  {
    assert ([v] + vs)[1..] == vs;
  }

  lemma {:induction false} EntryExact(rest: bytes, prev: Option<bytes>, depth: nat)
    requires ParseEntry(rest, prev, depth).Done?
    ensures var p := ParseEntry(rest, prev, depth);
      PrintEntry(p.value) + p.rest == rest <==> PlainEntry(rest, depth)
    decreases |rest|, 1
  {
    hide ParseStr;
    hide ParseValue;
    hide PlainStr;
    hide PlainValue;
    hide Print;
    hide PrintStr;
    var p, k := ParseEntry(rest, prev, depth), ParseStr(rest);
    StrExact(rest);
    ValueExact(k.rest, depth + 1);
    StrShort(rest);
    StrSuffix(rest);
    ValueSound(k.rest, depth + 1);
    var b := Print(p.value.val) + p.rest;
    assert PrintEntry(p.value) + p.rest == PrintStr(k.value) + b;
    JoinExact(PrintStr(k.value), b, k.rest, rest);
  }

  lemma {:induction false} EntriesExact(rest: bytes, prev: Option<bytes>, depth: nat)
    requires depth <= MAX_DEPTH && ParseEntries(rest, prev, depth).Done?
    ensures var p := ParseEntries(rest, prev, depth);
      PrintEntries(p.value) + [101] + p.rest == rest <==> PlainEntries(rest, prev, depth)
    decreases |rest|, 2
  {
    if rest[0] == 101 {
      assert rest == [101] + rest[1..];
    } else {
      var x := ParseEntry(rest, prev, depth);
      ParseEntriesCons(rest, prev, depth);
      var q := ParseEntries(x.rest, Some(x.value.key), depth);
      EntriesStep(rest, prev, depth, q.value, q.rest);
      assert x.Done? && q.Done? && ParseEntries(rest, prev, depth) == Done([x.value] + q.value, q.rest);
      hide *;
      EntryExact(rest, prev, depth);
      EntriesExact(x.rest, Some(x.value.key), depth);
      EntrySound(rest, prev, depth);
      EntriesSound(x.rest, Some(x.value.key), depth);
      EntrySuffix(rest, prev, depth);
      JoinExact(PrintEntry(x.value), PrintEntries(q.value) + [101] + q.rest, x.rest, rest);
    }
  }

  lemma EntriesStep(rest: bytes, prev: Option<bytes>, depth: nat, es: seq<Entry>, r: bytes)
    requires rest != [] && rest[0] != 101 && ParseEntry(rest, prev, depth).Done?
    ensures
      var x := ParseEntry(rest, prev, depth);
      && PrintEntries([x.value] + es) + [101] + r == PrintEntry(x.value) + (PrintEntries(es) + [101] + r)
      && (PlainEntries(rest, prev, depth) <==> PlainEntry(rest, depth) && PlainEntries(x.rest, Some(x.value.key), depth))
  {
    hide ParseEntry;
    hide PrintEntry;
    hide PlainEntry;
    var e := ParseEntry(rest, prev, depth).value;
    assert ([e] + es)[1..] == es;
  }

  /**
   * Printing an accepted value gives back exactly the bytes it was read from if and only if those bytes
   * are plain: no plus before any integer, length or key length, and no needless zero before a length.
   */
  lemma ReprintExact(input: bytes)
    ensures
      var p := ParseValue(input, 0);
      p.Done? ==>
        |p.rest| <= |input| && (Print(p.value) == input[..|input| - |p.rest|] <==> PlainValue(input, 0))
  {
    hide PlainValue;
    var p := ParseValue(input, 0);
    if p.Done? {
      hide ParseValue;
      hide Print;
      ValueExact(input, 0);
      ValueSuffix(input, 0);
      var c := input[..|input| - |p.rest|];
      assert input == c + p.rest;
      if Print(p.value) + p.rest == input {
        assert (Print(p.value) + p.rest)[..|c|] == Print(p.value);
      }
    }
  }

  /** An integer spelled with a plus is accepted and printed without it. */
  lemma PlusInteger()
    ensures ParseValue([105, 43, 53, 101], 0) == Done(Int(5), [])
    ensures Print(Int(5)) == [105, 53, 101] && !PlainValue([105, 43, 53, 101], 0)
  {
    var input: bytes := [105, 43, 53, 101];
    var body := input[1..];
    assert body == [43, 53] + [101] + [];
    IndexOfPrefix([43, 53], 101, []);
    assert body[..2] == [43, 53] && body[3..] == [] && [43, 53][1..] == [53];
    assert DigitsValue([53]) == 5 by { assert [53][..0] == []; }
  }

  /** A length spelled with a leading zero is accepted and printed without it. */
  lemma PaddedLength()
    ensures ParseValue([48, 49, 58, 120], 0) == Done(Str([120]), [])
    ensures Print(Str([120])) == [49, 58, 120] && !PlainValue([48, 49, 58, 120], 0)
  {
    hide PlainItems;
    hide PlainEntries;
    hide ParseItems;
    hide ParseEntries;
    var input: bytes := [48, 49, 58, 120];
    assert input == [48, 49] + [58] + [120];
    assert DigitsValue([48, 49]) == 1 by { assert [48, 49][..1] == [48] && [48][..0] == []; }
    StrAt([48, 49], [120]);
    assert [120][..1] == [120] && [120][1..] == [];
  }

  // ---- unique decoding, whatever the nesting ----

  /** Two values printed before anything: if the bytes agree, so do the values and what follows. */
  lemma {:induction false} PrefixFree(v: Value, w: Value, s: bytes, t: bytes)
    requires WellFormed(v) && WellFormed(w) && Print(v) + s == Print(w) + t
    ensures v == w && s == t
    decreases v, 1
  {
    hide PrintItems;
    hide PrintEntries;
    hide SignedDecimal;
    hide ParseInt;
    hide ParseStr;
    var input := Print(v) + s;
    Heads(v, s);
    Heads(w, t);
    match v
    case Int(i) =>
      ParseIntOfPrint(i, s);
      ParseIntOfPrint(w.i, t);
    case Str(b) =>
      ParseStrOfPrint(b, s);
      ParseStrOfPrint(w.b, t);
    case List(items) =>
      assert input[1..] == PrintItems(items) + [101] + s && (Print(w) + t)[1..] == PrintItems(w.items) + [101] + t;
      ItemsPrefixFree(items, w.items, s, t);
    case Dict(es) =>
      assert input[1..] == PrintEntries(es) + [101] + s && (Print(w) + t)[1..] == PrintEntries(w.entries) + [101] + t;
      EntriesPrefixFree(es, w.entries, s, t);
  }

  /** The first byte tells the kind of value. */
  lemma Heads(v: Value, s: bytes)
    ensures
      var h := (Print(v) + s)[0];
      && (v.Int? <==> h == 105) && (v.List? <==> h == 108) && (v.Dict? <==> h == 100) && (v.Str? <==> IsDigit(h))
      && h != 101
  {
  }

  lemma {:induction false} ItemsPrefixFree(vs: seq<Value>, ws: seq<Value>, s: bytes, t: bytes)
    requires forall x :: x in vs ==> WellFormed(x)
    requires forall x :: x in ws ==> WellFormed(x)
    requires PrintItems(vs) + [101] + s == PrintItems(ws) + [101] + t
    ensures vs == ws && s == t
    decreases vs, 0
  {
    var a, b := PrintItems(vs) + [101] + s, PrintItems(ws) + [101] + t;
    ItemHead(vs, s);
    ItemHead(ws, t);
    hide PrintItems;
    hide Print;
    if vs == [] || ws == [] {
      assert a == [101] + s && b == [101] + t;
      assert a[1..] == s && b[1..] == t;
    } else {
      PrefixFree(vs[0], ws[0], PrintItems(vs[1..]) + [101] + s, PrintItems(ws[1..]) + [101] + t);
      ItemsPrefixFree(vs[1..], ws[1..], s, t);
      assert vs == [vs[0]] + vs[1..] && ws == [ws[0]] + ws[1..];
    }
  }

  lemma ItemHead(vs: seq<Value>, s: bytes)
    ensures
      var input := PrintItems(vs) + [101] + s;
      && (vs == [] <==> input[0] == 101)
      && (vs == [] ==> input == [101] + s)
      && (vs != [] ==> input == Print(vs[0]) + (PrintItems(vs[1..]) + [101] + s))
  {
    hide Print;
    hide PrintItems;
    PrintedParts(vs, []);
    if vs != [] {
      Regroup(Print(vs[0]), PrintItems(vs[1..]), s);
      Heads(vs[0], PrintItems(vs[1..]) + [101] + s);
    }
  }

  lemma PrintedParts(vs: seq<Value>, es: seq<Entry>)
    ensures PrintItems(vs) == if vs == [] then [] else Print(vs[0]) + PrintItems(vs[1..])
    ensures PrintEntries(es) == if es == [] then [] else PrintStr(es[0].key) + Print(es[0].val) + PrintEntries(es[1..])
  {
    hide Print;
    hide PrintStr;
  }

  lemma Regroup(a: bytes, b: bytes, s: bytes)
    ensures a + b + [101] + s == a + (b + [101] + s)
  {
  }

  lemma {:induction false} EntriesPrefixFree(es: seq<Entry>, fs: seq<Entry>, s: bytes, t: bytes)
    requires forall e :: e in es ==> |e.key| < USIZE_LIMIT && WellFormed(e.val)
    requires forall e :: e in fs ==> |e.key| < USIZE_LIMIT && WellFormed(e.val)
    requires PrintEntries(es) + [101] + s == PrintEntries(fs) + [101] + t
    ensures es == fs && s == t
    decreases es, 0
  {
    var a, b := PrintEntries(es) + [101] + s, PrintEntries(fs) + [101] + t;
    EntryHead(es, s);
    EntryHead(fs, t);
    hide PrintEntries;
    hide Print;
    hide PrintStr;
    if es == [] || fs == [] {
      assert a == [101] + s && b == [101] + t;
      assert a[1..] == s && b[1..] == t;
    } else {
      var e, f := es[0], fs[0];
      var s', t' := PrintEntries(es[1..]) + [101] + s, PrintEntries(fs[1..]) + [101] + t;
      ParseStrOfPrint(e.key, Print(e.val) + s');
      ParseStrOfPrint(f.key, Print(f.val) + t');
      PrefixFree(e.val, f.val, s', t');
      EntriesPrefixFree(es[1..], fs[1..], s, t);
      assert es == [e] + es[1..] && fs == [f] + fs[1..];
    }
  }

  lemma EntryHead(es: seq<Entry>, s: bytes)
    ensures
      var input := PrintEntries(es) + [101] + s;
      && (es == [] <==> input[0] == 101)
      && (es == [] ==> input == [101] + s)
      && (es != [] ==> input == PrintStr(es[0].key) + (Print(es[0].val) + (PrintEntries(es[1..]) + [101] + s)))
  {
    hide Print;
    hide PrintStr;
    hide PrintEntries;
    PrintedParts([], es);
    if es != [] {
      var e, rest := es[0], PrintEntries(es[1..]) + [101] + s;
      Regroup(PrintStr(e.key) + Print(e.val), PrintEntries(es[1..]), s);
      Heads(Str(e.key), Print(e.val) + rest);
      StrPrint(e.key);
    }
  }

  lemma StrPrint(b: bytes)
    ensures Print(Str(b)) == PrintStr(b)
  {
  }

  /** No two values share an encoding, however deeply they are nested. */
  lemma PrintInjective(v: Value, w: Value)
    ensures WellFormed(v) && WellFormed(w) ==> (Print(v) == Print(w) <==> v == w)
  {
    if WellFormed(v) && WellFormed(w) && Print(v) == Print(w) {
      assert Print(v) + [] == Print(w) + [];
      PrefixFree(v, w, [], []);
    }
  }
}
