/** Decimal numerals: what `to_string` writes and what `str::parse` accepts. */
module Numerals {
  import opened Bytes

  predicate IsDigit(b: byte) { 48 <= b <= 57 }

  predicate AllDigits(s: bytes) { forall i :: 0 <= i < |s| ==> IsDigit(s[i]) }

  /** The number a digit string denotes, leading zeros allowed. */
  function DigitsValue(s: bytes): (n: nat)
    requires AllDigits(s)
  {
    if s == [] then 0 else 10 * DigitsValue(s[..|s| - 1]) + (s[|s| - 1] - 48)
  }

  /** Canonical decimal text of a natural number. */
  function Decimal(n: nat): (s: bytes)
    ensures |s| >= 1 && AllDigits(s)
  {
    if n < 10 then [48 + n] else Decimal(n / 10) + [48 + n % 10]
  }

  /** `i64::to_string`. */
  function SignedDecimal(n: int): (s: bytes)
  {
    if n < 0 then [45] + Decimal(-n) else Decimal(n)
  }

  lemma {:induction false} DecimalValue(n: nat)
    ensures DigitsValue(Decimal(n)) == n
  {
    if n >= 10 {
      DecimalValue(n / 10);
      assert Decimal(n)[..|Decimal(n)| - 1] == Decimal(n / 10);
    }
  }

  lemma {:induction false} DecimalNoLeadingZero(n: nat)
    ensures Decimal(n)[0] == 48 <==> n == 0
    ensures n == 0 ==> Decimal(n) == [48]
  {
    if n >= 10 { DecimalNoLeadingZero(n / 10); }
  }

  /** No digit string for a number is shorter than its canonical one. */
  lemma {:induction false} DecimalShortest(s: bytes)
    requires |s| >= 1 && AllDigits(s)
    ensures |Decimal(DigitsValue(s))| <= |s|
  {
    var n := DigitsValue(s);
    var front := s[..|s| - 1];
    if n >= 10 {
      assert n / 10 == DigitsValue(front);
      assert front != [];
      DecimalShortest(front);
    }
  }

  /** `str::parse::<usize>`: an optional `+`, then one or more digits, below 2^64. */
  function ParseUsize(s: bytes): (r: Option<nat>)
    ensures r.Some? ==> r.value < USIZE_LIMIT
  {
    var ds := if |s| > 0 && s[0] == 43 then s[1..] else s;
    if |ds| > 0 && AllDigits(ds) && DigitsValue(ds) < USIZE_LIMIT then Some(DigitsValue(ds)) else None
  }

  /** `str::parse::<i64>`: an optional sign, then one or more digits, within range. */
  function ParseI64(s: bytes): (r: Option<i64>)
  {
    var negative := |s| > 0 && s[0] == 45;
    var ds := if |s| > 0 && (s[0] == 43 || s[0] == 45) then s[1..] else s;
    if |ds| == 0 || !AllDigits(ds) then None
    else
      var n: int := if negative then -(DigitsValue(ds) as int) else DigitsValue(ds);
      if -I64_LIMIT <= n < I64_LIMIT then Some(n) else None
  }

  lemma ParseUsizeOfDecimal(n: nat)
    requires n < USIZE_LIMIT
    ensures ParseUsize(Decimal(n)) == Some(n)
  {
    DecimalValue(n);
  }

  lemma ParseI64OfDecimal(n: i64)
    ensures ParseI64(SignedDecimal(n)) == Some(n)
  {
    if n < 0 {
      DecimalValue(-(n as int));
      assert SignedDecimal(n)[1..] == Decimal(-(n as int));
    } else {
      DecimalValue(n);
    }
  }

  /** Re-printing an accepted number never needs more bytes than were read. */
  lemma ParseUsizeShortest(s: bytes)
    requires ParseUsize(s).Some?
    ensures |Decimal(ParseUsize(s).value)| <= |s|
  {
    DecimalShortest(if s[0] == 43 then s[1..] else s);
  }

  lemma ParseI64Shortest(s: bytes)
    requires ParseI64(s).Some?
    requires s != [45, 48]
    requires !(|s| > 1 && s[0] == 45 && s[1] == 48)
    ensures |SignedDecimal(ParseI64(s).value)| <= |s|
  {
    DecimalShortest(if s[0] == 43 || s[0] == 45 then s[1..] else s);
  }
}
