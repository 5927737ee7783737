/** What the bencode parser promises about every input it accepts. */
module BencodeTheorems {
  import opened Bytes
  import opened Numerals
  import opened Bencode

  // ---- the unread part is a suffix of the input ----

  predicate IsSuffix(rest: bytes, input: bytes)
  {
    |rest| <= |input| && rest == input[|input| - |rest|..]
  }

  lemma SuffixTransitive(a: bytes, b: bytes, c: bytes)
    requires IsSuffix(a, b) && IsSuffix(b, c)
    ensures IsSuffix(a, c)
  {
  }

  lemma StrSuffix(input: bytes)
    requires ParseStr(input).Done?
    ensures IsSuffix(ParseStr(input).rest, input)
  {
  }

  lemma {:induction false} ValueSuffix(input: bytes, depth: nat)
    requires ParseValue(input, depth).Done?
    ensures IsSuffix(ParseValue(input, depth).rest, input)
    decreases |input|, 0
  {
    if input[0] == 108 {
      ItemsSuffix(input[1..], depth);
    } else if input[0] == 100 {
      EntriesSuffix(input[1..], None, depth);
    }
  }

  lemma {:induction false} ItemsSuffix(rest: bytes, depth: nat)
    requires ParseItems(rest, depth).Done?
    ensures IsSuffix(ParseItems(rest, depth).rest, rest)
    decreases |rest|, 1
  {
    if rest[0] != 101 {
      var x := ParseValue(rest, depth + 1);
      ParseItemsCons(rest, depth);
      ValueSuffix(rest, depth + 1);
      ItemsSuffix(x.rest, depth);
      SuffixTransitive(ParseItems(rest, depth).rest, x.rest, rest);
    }
  }

  lemma {:induction false} EntrySuffix(rest: bytes, prev: Option<bytes>, depth: nat)
    requires ParseEntry(rest, prev, depth).Done?
    ensures IsSuffix(ParseEntry(rest, prev, depth).rest, rest)
    decreases |rest|, 1
  {
    hide ParseValue;
    hide ParseStr;
    var k := ParseStr(rest);
    StrSuffix(rest);
    ValueSuffix(k.rest, depth + 1);
    SuffixTransitive(ParseEntry(rest, prev, depth).rest, k.rest, rest);
  }

  lemma {:induction false} EntriesSuffix(rest: bytes, prev: Option<bytes>, depth: nat)
    requires ParseEntries(rest, prev, depth).Done?
    ensures IsSuffix(ParseEntries(rest, prev, depth).rest, rest)
    decreases |rest|, 2
  {
    if rest[0] != 101 {
      var x := ParseEntry(rest, prev, depth);
      ParseEntriesCons(rest, prev, depth);
      EntrySuffix(rest, prev, depth);
      EntriesSuffix(x.rest, Some(x.value.key), depth);
      SuffixTransitive(ParseEntries(rest, prev, depth).rest, x.rest, rest);
    }
  }

  // ---- an accepted value is well formed, within the limit, and prints no longer ----

  lemma IntShort(input: bytes)
    requires |input| > 0 && ParseInt(input).Done?
    ensures |Print(ParseInt(input).value)| + |ParseInt(input).rest| <= |input|
  {
    var body := input[1..];
    ParseI64Shortest(body[..IndexOf(body, 101)]);
  }

  lemma StrShort(input: bytes)
    requires ParseStr(input).Done?
    ensures |ParseStr(input).value| < USIZE_LIMIT
    ensures |PrintStr(ParseStr(input).value)| + |ParseStr(input).rest| <= |input|
  {
    ParseUsizeShortest(input[..IndexOf(input, 58)]);
  }

  lemma {:induction false} ValueSound(input: bytes, depth: nat)
    requires ParseValue(input, depth).Done?
    ensures var p := ParseValue(input, depth);
      && WellFormed(p.value)
      && depth + Height(p.value) <= MAX_DEPTH
      && |Print(p.value)| + |p.rest| <= |input|
    decreases |input|, 0
  {
    if input[0] == 105 {
      IntShort(input);
    } else if input[0] == 108 {
      ItemsSound(input[1..], depth);
    } else if input[0] == 100 {
      EntriesSound(input[1..], None, depth);
    } else {
      StrShort(input);
    }
  }

  lemma {:induction false} ItemsSound(rest: bytes, depth: nat)
    requires depth <= MAX_DEPTH && ParseItems(rest, depth).Done?
    ensures var p := ParseItems(rest, depth);
      && (forall x :: x in p.value ==> WellFormed(x))
      && depth + ItemsHeight(p.value) <= MAX_DEPTH
      && |PrintItems(p.value)| + 1 + |p.rest| <= |rest|
    decreases |rest|, 1
  {
    if rest[0] != 101 {
      var x := ParseValue(rest, depth + 1);
      ParseItemsCons(rest, depth);
      ValueSound(rest, depth + 1);
      ItemsSound(x.rest, depth);
      var vs := ParseItems(x.rest, depth).value;
      assert ([x.value] + vs)[1..] == vs;
    }
  }

  predicate SoundEntries(es: seq<Entry>, prev: Option<bytes>)
  {
    && SortedKeys(es)
    && (forall e :: e in es ==> |e.key| < USIZE_LIMIT && WellFormed(e.val))
    && (prev.Some? ==> forall e :: e in es ==> Less(prev.value, e.key))
  }

  lemma SoundEntriesCons(e: Entry, es: seq<Entry>, prev: Option<bytes>)
    requires SoundEntries(es, Some(e.key))
    requires |e.key| < USIZE_LIMIT && WellFormed(e.val)
    requires prev.Some? ==> Less(prev.value, e.key)
    ensures SoundEntries([e] + es, prev)
  {
    if prev.Some? {
      forall x | x in es ensures Less(prev.value, x.key) {
        LessTransitive(prev.value, e.key, x.key);
      }
    }
  }

  lemma {:induction false} EntrySound(rest: bytes, prev: Option<bytes>, depth: nat)
    requires ParseEntry(rest, prev, depth).Done?
    ensures var p := ParseEntry(rest, prev, depth);
      && |p.value.key| < USIZE_LIMIT && WellFormed(p.value.val)
      && (prev.Some? ==> Less(prev.value, p.value.key))
      && depth + 1 + Height(p.value.val) <= MAX_DEPTH
      && |PrintEntry(p.value)| + |p.rest| <= |rest|
    decreases |rest|, 1
  {
    StrShort(rest);
    ValueSound(ParseStr(rest).rest, depth + 1);
  }

  lemma {:induction false} EntriesSound(rest: bytes, prev: Option<bytes>, depth: nat)
    requires depth <= MAX_DEPTH && ParseEntries(rest, prev, depth).Done?
    ensures var p := ParseEntries(rest, prev, depth);
      && SoundEntries(p.value, prev)
      && depth + EntriesHeight(p.value) <= MAX_DEPTH
      && |PrintEntries(p.value)| + 1 + |p.rest| <= |rest|
    decreases |rest|, 2
  {
    if rest[0] != 101 {
      var x := ParseEntry(rest, prev, depth);
      ParseEntriesCons(rest, prev, depth);
      EntrySound(rest, prev, depth);
      EntriesSound(x.rest, Some(x.value.key), depth);
      var es := ParseEntries(x.rest, Some(x.value.key), depth).value;
      SoundEntriesCons(x.value, es, prev);
      assert ([x.value] + es)[1..] == es;
    }
  }

  // ---- parsing looks only at the bytes it consumes, and never minds less depth ----

  lemma StrLocal(c: bytes, rest: bytes, tail: bytes)
    requires ParseStr(c + rest).Done? && ParseStr(c + rest).rest == rest
    ensures ParseStr(c + tail) == Done(ParseStr(c + rest).value, tail)
  {
    var colon := IndexOf(c + rest, 58);
    var d, x := c[..colon], c[colon + 1..];
    assert c + rest == d + [58] + (x + rest) && c + tail == d + [58] + (x + tail);
    assert 58 !in d by {
      assert (c + rest)[..colon] == d;
    }
    hide ParseStr;
    StrAt(d, x + rest);
    StrAt(d, x + tail);
    var len := ParseUsize(d).value;
    assert (x + rest)[len..] == rest;
    assert |x| == len && (x + tail)[len..] == tail;
  }

  lemma StrAt(d: bytes, body: bytes)
    requires 58 !in d
    ensures ParseStr(d + [58] + body) ==
            match ParseUsize(d)
            case None => Fail(BadLength)
            case Some(len) => if |body| < len then Fail(ShortString) else Done(body[..len], body[len..])
  {
    var s := d + [58] + body;
    IndexOfPrefix(d, 58, body);
    assert s[..|d|] == d && s[|d| + 1..] == body;
  }

  lemma IntLocal(c: bytes, rest: bytes, tail: bytes)
    requires |c| > 0 && ParseInt(c + rest).Done? && ParseInt(c + rest).rest == rest
    ensures ParseInt(c + tail) == Done(ParseInt(c + rest).value, tail)
  {
    var body := c[1..];
    assert (c + rest)[1..] == body + rest && (c + tail)[1..] == body + tail;
    var end := IndexOf(body + rest, 101);
    assert end < |body|;
    var d := body[..end];
    assert (body + rest)[..end] == d == (body + tail)[..end];
    assert body + tail == d + [101] + (body[end + 1..] + tail);
    IndexOfPrefix(d, 101, body[end + 1..] + tail);
    assert (body + rest)[end + 1..] == body[end + 1..] + rest;
    assert (body + tail)[end + 1..] == body[end + 1..] + tail;
  }

  /** Splits the consumed bytes `c` where an inner parse of `c + rest` stopped, at `mid`. */
  lemma SplitConsumed(c: bytes, rest: bytes, mid: bytes, tail: bytes) returns (a: bytes, b: bytes)
    requires IsSuffix(mid, c + rest) && IsSuffix(rest, mid)
    ensures c == a + b && |a| == |c| + |rest| - |mid|
    ensures mid == b + rest
    ensures c + rest == a + mid
    ensures c + tail == a + (b + tail)
  {
    var k := |c| + |rest| - |mid|;
    a, b := c[..k], c[k..];
  }

  /**
   * The outcome over the bytes an accepted value occupies is the same whatever follows
   * them, and at another depth it changes only by the depth limit.
   */
  lemma {:induction false} ValueLocal(c: bytes, rest: bytes, tail: bytes, depth: nat, depth': nat)
    requires ParseValue(c + rest, depth).Done? && ParseValue(c + rest, depth).rest == rest
    ensures ParseValue(c + tail, depth') == AtDepth(ParseValue(c + rest, depth).value, tail, depth')
    decreases |c|, 0
  {
    assert |c| > 0;
    assert (c + rest)[0] == c[0] == (c + tail)[0];
    assert (c + rest)[1..] == c[1..] + rest && (c + tail)[1..] == c[1..] + tail;
    if depth' <= MAX_DEPTH {
      if c[0] == 105 {
        IntLocal(c, rest, tail);
      } else if c[0] == 108 {
        ItemsLocal(c[1..], rest, tail, depth, depth');
      } else if c[0] == 100 {
        EntriesLocal(c[1..], None, rest, tail, depth, depth');
      } else {
        StrLocal(c, rest, tail);
      }
    }
  }

  function AtDepth(v: Value, tail: bytes, depth: nat): Parsed<Value>
  {
    if depth + Height(v) <= MAX_DEPTH then Done(v, tail) else Fail(TooDeep)
  }

  lemma {:induction false} ItemsLocal(c: bytes, rest: bytes, tail: bytes, depth: nat, depth': nat)
    requires ParseItems(c + rest, depth).Done? && ParseItems(c + rest, depth).rest == rest
    requires depth' <= MAX_DEPTH
    ensures var vs := ParseItems(c + rest, depth).value;
            ParseItems(c + tail, depth') == if depth' + ItemsHeight(vs) <= MAX_DEPTH then Done(vs, tail) else Fail(TooDeep)
    decreases |c|, 1
  {
    assert |c| > 0;
    var input, input' := c + rest, c + tail;
    assert input[0] == c[0] == input'[0];
    if c[0] == 101 {
      assert input[1..] == c[1..] + rest;
      assert c == [101];
      assert input'[1..] == tail;
    } else {
      var x := ParseValue(input, depth + 1);
      ParseItemsCons(input, depth);
      ValueSuffix(input, depth + 1);
      ItemsSuffix(x.rest, depth);
      var a, b := SplitConsumed(c, rest, x.rest, tail);
      ValueLocal(a, x.rest, b + tail, depth + 1, depth' + 1);
      ItemsLocal(b, rest, tail, depth, depth');
      ParseItemsCons(input', depth');
      var vs := ParseItems(input, depth).value;
      assert vs[1..] == ParseItems(x.rest, depth).value;
    }
  }

  /** Splits the bytes of an accepted entry into those of its key and those of its value. */
  lemma EntrySplit(c: bytes, prev: Option<bytes>, rest: bytes, tail: bytes, depth: nat)
    returns (a: bytes, b: bytes)
    requires ParseEntry(c + rest, prev, depth).Done? && ParseEntry(c + rest, prev, depth).rest == rest
    ensures c + rest == a + (b + rest) && c + tail == a + (b + tail) && |b| < |c|
    ensures ParseStr(a + (b + rest)) == Done(ParseEntry(c + rest, prev, depth).value.key, b + rest)
    ensures ParseValue(b + rest, depth + 1) == Done(ParseEntry(c + rest, prev, depth).value.val, rest)
    ensures prev.Some? ==> Less(prev.value, ParseEntry(c + rest, prev, depth).value.key)
  {
    var k := ParseStr(c + rest);
    StrSuffix(c + rest);
    ValueSuffix(k.rest, depth + 1);
    a, b := SplitConsumed(c, rest, k.rest, tail);
  }

  lemma EntryJoin(input: bytes, prev: Option<bytes>, depth: nat, k: Parsed<bytes>, x: Parsed<Value>)
    requires ParseStr(input) == k && k.Done?
    requires prev.Some? ==> Less(prev.value, k.value)
    requires ParseValue(k.rest, depth + 1) == x
    ensures ParseEntry(input, prev, depth)
         == if x.Done? then Done(Entry(k.value, x.value), x.rest) else Fail(x.error)
  {
  }

  lemma {:induction false} EntryLocal(c: bytes, prev: Option<bytes>, rest: bytes, tail: bytes,
                                      depth: nat, depth': nat)
    requires ParseEntry(c + rest, prev, depth).Done? && ParseEntry(c + rest, prev, depth).rest == rest
    ensures var e := ParseEntry(c + rest, prev, depth).value;
            ParseEntry(c + tail, prev, depth') == if depth' + 1 + Height(e.val) <= MAX_DEPTH then Done(e, tail) else Fail(TooDeep)
    decreases |c|, 1
  {
    var e := ParseEntry(c + rest, prev, depth).value;
    var a, b := EntrySplit(c, prev, rest, tail, depth);
    StrLocal(a, b + rest, b + tail);
    ValueLocal(b, rest, tail, depth + 1, depth' + 1);
    EntryJoin(a + (b + tail), prev, depth', Done(e.key, b + tail), AtDepth(e.val, tail, depth' + 1));
  }

  lemma {:induction false} EntriesLocal(c: bytes, prev: Option<bytes>, rest: bytes, tail: bytes,
                                        depth: nat, depth': nat)
    requires ParseEntries(c + rest, prev, depth).Done? && ParseEntries(c + rest, prev, depth).rest == rest
    requires depth' <= MAX_DEPTH
    ensures var es := ParseEntries(c + rest, prev, depth).value;
            ParseEntries(c + tail, prev, depth') == if depth' + EntriesHeight(es) <= MAX_DEPTH then Done(es, tail) else Fail(TooDeep)
    decreases |c|, 2
  {
    assert |c| > 0;
    var input, input' := c + rest, c + tail;
    assert input[0] == c[0] == input'[0];
    if c[0] == 101 {
      assert input[1..] == c[1..] + rest;
      assert c == [101];
      assert input'[1..] == tail;
    } else {
      var x := ParseEntry(input, prev, depth);
      ParseEntriesCons(input, prev, depth);
      EntrySuffix(input, prev, depth);
      EntriesSuffix(x.rest, Some(x.value.key), depth);
      var a, b := SplitConsumed(c, rest, x.rest, tail);
      EntryLocal(a, prev, x.rest, b + tail, depth, depth');
      EntriesLocal(b, Some(x.value.key), rest, tail, depth, depth');
      ParseEntriesCons(input', prev, depth');
      var es := ParseEntries(input, prev, depth).value;
      assert es[1..] == ParseEntries(x.rest, Some(x.value.key), depth).value;
    }
  }

  // ---- main results ----

  /**
   * For every value and every tail, parsing the printed value returns the value and the
   * tail if and only if its nesting height is at most MAX_DEPTH.
   */
  lemma RoundTrip(v: Value, tail: bytes)
    requires WellFormed(v)
    ensures ParseValue(Print(v) + tail, 0) == Done(v, tail) <==> Height(v) <= MAX_DEPTH
    ensures Height(v) > MAX_DEPTH ==> ParseValue(Print(v) + tail, 0) == Fail(TooDeep)
  {
    RoundTripAt(v, tail, 0);
  }

  /** The whole-input parser inverts the printer on exactly the values within the depth limit. */
  lemma PrintParseAll(v: Value)
    requires WellFormed(v)
    ensures ParseAll(Print(v)) == if Height(v) <= MAX_DEPTH then Ok(v) else Err(TooDeep)
  {
    RoundTripAt(v, [], 0);
    assert Print(v) + [] == Print(v);
  }

  /**
   * For every accepted input, printing and parsing again agrees with the first parse, and
   * the re-print is never longer than the bytes consumed.
   */
  lemma Reparse(input: bytes)
    requires ParseValue(input, 0).Done?
    ensures var p := ParseValue(input, 0);
      && ParseValue(Print(p.value) + p.rest, 0) == p
      && |Print(p.value)| <= |input| - |p.rest|
      && input[|input| - |p.rest|..] == p.rest
  {
    var p := ParseValue(input, 0);
    ValueSound(input, 0);
    ValueSuffix(input, 0);
    RoundTripAt(p.value, p.rest, 0);
  }

  /** The bytes `SkipValue` measures parse alone to the same value. */
  lemma SkipExact(input: bytes)
    requires SkipValue(input).Ok?
    ensures var n := SkipValue(input).value;
      && ParseAll(input[..n]) == Ok(ParseValue(input, 0).value)
      && input[n..] == ParseValue(input, 0).rest
  {
    var p := ParseValue(input, 0);
    var n := SkipValue(input).value;
    ValueSuffix(input, 0);
    assert input == input[..n] + p.rest;
    ValueSound(input, 0);
    ValueLocal(input[..n], p.rest, [], 0, 0);
    assert input[..n] + [] == input[..n];
  }
}
