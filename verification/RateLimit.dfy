/** The lazily refilled token bucket (`ratelimit.rs`), over exact reals. */
module RateLimit {
  const BLOCK_SIZE: nat := 16384

  datatype Bucket = Bucket(capacity: real, rate: real, tokens: real, lastRefill: real)

  function Min(a: real, b: real): real { if a < b then a else b }

  /** Tokens that arrive in `span` seconds. */
  function Flow(rate: real, span: real): real { span * rate }

  function Full(capacity: real, rate: real, now: real): Bucket
  {
    Bucket(capacity, rate, capacity, now)
  }

  function Refill(b: Bucket, now: real): Bucket
  {
    var elapsed := now - b.lastRefill;
    if elapsed > 0.0
    then b.(tokens := Min(b.tokens + Flow(b.rate, elapsed), b.capacity), lastRefill := now)
    else b
  }

  /** The tokens a caller would find at time `now`. */
  function Level(b: Bucket, now: real): real
  {
    Refill(b, now).tokens
  }

  datatype Op = Consume(now: real, n: real) | Available(now: real)

  function Granted(b: Bucket, op: Op): real
  {
    if op.Consume? && Level(b, op.now) >= op.n then op.n else 0.0
  }

  function Apply(b: Bucket, op: Op): Bucket
  {
    var r := Refill(b, op.now);
    r.(tokens := r.tokens - Granted(b, op))
  }

  function Run(b: Bucket, ops: seq<Op>): Bucket
  {
    if ops == [] then b else Apply(Run(b, ops[..|ops| - 1]), ops[|ops| - 1])
  }

  /** What the `i`-th operation was granted. */
  function Grant(b: Bucket, ops: seq<Op>, i: nat): real
    requires i < |ops|
  {
    Granted(Run(b, ops[..i]), ops[i])
  }

  /** Tokens granted by the operations from `i` up to `j`. */
  function Sum(b: Bucket, ops: seq<Op>, i: nat, j: nat): real
    requires i <= j <= |ops|
  {
    if i == j then 0.0 else Sum(b, ops, i, j - 1) + Grant(b, ops, j - 1)
  }

  // ---- the setting: sane parameters, a clock that does not run backwards, no negative requests ----

  ghost predicate Sane(b: Bucket)
  {
    0.0 <= b.rate && 0.0 <= b.tokens <= b.capacity
  }

  ghost predicate Timed(start: real, ops: seq<Op>)
  {
    && (forall i :: 0 <= i < |ops| ==> start <= ops[i].now && (ops[i].Consume? ==> ops[i].n >= 0.0))
    && (forall i, j :: 0 <= i <= j < |ops| ==> ops[i].now <= ops[j].now)
  }

  lemma TimedPrefix(start: real, ops: seq<Op>, n: nat)
    requires Timed(start, ops) && n <= |ops|
    ensures Timed(start, ops[..n])
  {
  }

  function Clock(start: real, ops: seq<Op>): real
  {
    if ops == [] then start else ops[|ops| - 1].now
  }

  lemma Nonneg(rate: real, span: real)
    requires rate >= 0.0 && span >= 0.0
    ensures Flow(rate, span) >= 0.0
  {
  }

  lemma Telescope(rate: real, s: real, u: real, t: real)
    ensures Flow(rate, u - s) + Flow(rate, t - u) == Flow(rate, t - s)
  {
  }

  lemma ApplySane(b: Bucket, op: Op)
    requires Sane(b) && b.lastRefill <= op.now && (op.Consume? ==> op.n >= 0.0)
    ensures Sane(Apply(b, op)) && Apply(b, op).lastRefill == op.now
    ensures Apply(b, op).capacity == b.capacity && Apply(b, op).rate == b.rate
  {
    hide Flow;
    Nonneg(b.rate, op.now - b.lastRefill);
  }

  lemma ClockStep(start: real, ops: seq<Op>)
    requires Timed(start, ops) && ops != []
    ensures Timed(start, ops[..|ops| - 1]) && Clock(start, ops[..|ops| - 1]) <= ops[|ops| - 1].now
  {
    var front := ops[..|ops| - 1];
    if front != [] {
      assert front[|front| - 1] == ops[|ops| - 2];
    }
  }

  lemma {:induction false} RunSane(b: Bucket, ops: seq<Op>)
    requires Sane(b) && Timed(b.lastRefill, ops)
    ensures Sane(Run(b, ops)) && Run(b, ops).lastRefill == Clock(b.lastRefill, ops)
    ensures Run(b, ops).capacity == b.capacity && Run(b, ops).rate == b.rate
  {
    hide Apply;
    if ops != [] {
      ClockStep(b.lastRefill, ops);
      RunSane(b, ops[..|ops| - 1]);
      ApplySane(Run(b, ops[..|ops| - 1]), ops[|ops| - 1]);
    }
  }

  // ---- the exact law ----

  /** The window that opens with operation `k` leaves this much room at time `now`. */
  function Room(b: Bucket, ops: seq<Op>, k: nat, now: real): real
    requires k < |ops|
  {
    b.capacity + Flow(b.rate, now - ops[k].now) - Sum(b, ops, k, |ops|)
  }

  lemma {:induction false} SumPrefix(b: Bucket, ops: seq<Op>, n: nat, i: nat, j: nat)
    requires i <= j <= n <= |ops|
    ensures Sum(b, ops[..n], i, j) == Sum(b, ops, i, j)
    decreases j
  {
    if i < j {
      SumPrefix(b, ops, n, i, j - 1);
      assert ops[..n][..j - 1] == ops[..j - 1];
    }
  }

  lemma RoomStep(b: Bucket, ops: seq<Op>, k: nat, now: real)
    requires k + 1 < |ops|
    ensures
      var front, op := ops[..|ops| - 1], ops[|ops| - 1];
      Room(b, ops, k, now) == Room(b, front, k, op.now) + Flow(b.rate, now - op.now) - Granted(Run(b, front), op)
  {
    hide Flow;
    hide Run;
    hide Granted;
    var front, op := ops[..|ops| - 1], ops[|ops| - 1];
    SumPrefix(b, ops, |front|, k, |front|);
    Telescope(b.rate, ops[k].now, op.now, now);
  }

  /** A bucket that started full holds, at any time, the least room any window leaves: at most the
      room of every window, and exactly the capacity or the room of one of them. */
  lemma {:induction false} LevelIsLeastRoom(capacity: real, rate: real, start: real, ops: seq<Op>, now: real)
    requires capacity >= 0.0 && rate >= 0.0 && Timed(start, ops) && Clock(start, ops) <= now
    ensures
      var b := Full(capacity, rate, start);
      var level := Level(Run(b, ops), now);
      && 0.0 <= level <= capacity
      && (forall k :: 0 <= k < |ops| ==> level <= Room(b, ops, k, now))
      && (level == capacity || exists k :: 0 <= k < |ops| && level == Room(b, ops, k, now))
  {
    hide Room;
    hide Flow;
    hide Refill;
    hide Granted;
    hide Apply;
    hide Run;
    var b := Full(capacity, rate, start);
    RunSane(b, ops);
    LevelRange(Run(b, ops), now);
    if ops == [] {
      FullStays(capacity, rate, start, now);
    } else {
      var front, op := ops[..|ops| - 1], ops[|ops| - 1];
      ClockStep(start, ops);
      RunSane(b, front);
      LevelIsLeastRoom(capacity, rate, start, front, op.now);
      var before, g := Level(Run(b, front), op.now), Granted(Run(b, front), op);
      var level := Level(Run(b, ops), now);
      LastStep(Run(b, front), op, now);
      RunSnoc(b, ops);
      assert level == Min(capacity, before - g + Flow(rate, now - op.now));
      LastRoom(b, ops, now);
      forall k | 0 <= k < |ops| - 1
        ensures Room(b, ops, k, now) == Room(b, front, k, op.now) + Flow(rate, now - op.now) - g
      {
        RoomStep(b, ops, k, now);
      }
      if level != capacity {
        if before == capacity {
          assert level == Room(b, ops, |ops| - 1, now);
        } else {
          var k :| 0 <= k < |front| && before == Room(b, front, k, op.now);
          assert level == Room(b, ops, k, now);
        }
      }
    }
  }

  lemma LevelRange(b: Bucket, now: real)
    requires Sane(b) && b.lastRefill <= now
    ensures 0.0 <= Level(b, now) <= b.capacity
  {
    hide Flow;
    Nonneg(b.rate, now - b.lastRefill);
  }

  lemma FullStays(capacity: real, rate: real, start: real, now: real)
    requires capacity >= 0.0 && rate >= 0.0 && start <= now
    ensures Level(Run(Full(capacity, rate, start), []), now) == capacity
  {
    hide Flow;
    Nonneg(rate, now - start);
  }

  lemma RunSnoc(b: Bucket, ops: seq<Op>)
    requires ops != []
    ensures Run(b, ops) == Apply(Run(b, ops[..|ops| - 1]), ops[|ops| - 1])
  {
  }

  lemma LastStep(b: Bucket, op: Op, now: real)
    requires Sane(b) && b.lastRefill <= op.now <= now && (op.Consume? ==> op.n >= 0.0)
    ensures Level(Apply(b, op), now) == Min(b.capacity, Level(b, op.now) - Granted(b, op) + Flow(b.rate, now - op.now))
  {
    assert Flow(b.rate, 0.0) == 0.0;
    hide Flow;
    Nonneg(b.rate, op.now - b.lastRefill);
    Nonneg(b.rate, now - op.now);
  }

  lemma LastRoom(b: Bucket, ops: seq<Op>, now: real)
    requires ops != []
    ensures Room(b, ops, |ops| - 1, now) ==
            b.capacity + Flow(b.rate, now - ops[|ops| - 1].now) - Granted(Run(b, ops[..|ops| - 1]), ops[|ops| - 1])
  {
    var k := |ops| - 1;
    assert Sum(b, ops, k, |ops|) == Sum(b, ops, k, k) + Grant(b, ops, k);
  }

  /** A request is granted exactly when no window ending with it would exceed capacity plus rate
      times its length. */
  ghost predicate FitsEveryWindow(b: Bucket, ops: seq<Op>, now: real, n: real)
  {
    n <= b.capacity && forall k :: 0 <= k < |ops| ==> n <= Room(b, ops, k, now)
  }

  lemma GrantedIffFits(capacity: real, rate: real, start: real, ops: seq<Op>, now: real, n: real)
    ensures capacity >= 0.0 && rate >= 0.0 && Timed(start, ops) && Clock(start, ops) <= now ==>
              (Level(Run(Full(capacity, rate, start), ops), now) >= n <==>
               FitsEveryWindow(Full(capacity, rate, start), ops, now, n))
  {
    if capacity >= 0.0 && rate >= 0.0 && Timed(start, ops) && Clock(start, ops) <= now {
      LevelIsLeastRoom(capacity, rate, start, ops, now);
    }
  }

  /** Tokens granted within the closed interval from `s` to `t`. */
  function GrantedWithin(b: Bucket, ops: seq<Op>, s: real, t: real): real
  {
    if ops == [] then 0.0
    else
      var front, op := ops[..|ops| - 1], ops[|ops| - 1];
      GrantedWithin(b, front, s, t) + (if s <= op.now <= t then Granted(Run(b, front), op) else 0.0)
  }

  lemma {:induction false} WithinFrom(b: Bucket, ops: seq<Op>, s: real, t: real) returns (k: nat)
    requires Timed(b.lastRefill, ops) && forall i :: 0 <= i < |ops| ==> ops[i].now <= t
    ensures k <= |ops| && GrantedWithin(b, ops, s, t) == Sum(b, ops, k, |ops|)
    ensures forall i :: k <= i < |ops| ==> s <= ops[i].now
    ensures forall i :: 0 <= i < k ==> ops[i].now < s
  {
    if ops == [] {
      k := 0;
    } else {
      var n := |ops| - 1;
      TimedPrefix(b.lastRefill, ops, n);
      k := WithinFrom(b, ops[..n], s, t);
      SumPrefix(b, ops, n, k, n);
      assert forall i :: 0 <= i < n ==> ops[..n][i] == ops[i];
      if ops[n].now < s {
        if k < n {
          assert false;
        }
        k := |ops|;
      }
    }
  }

  /** In any interval at most the capacity plus the rate times its length is granted. */
  lemma {:induction false} WindowBound(capacity: real, rate: real, start: real, ops: seq<Op>, s: real, t: real)
    ensures capacity >= 0.0 && rate >= 0.0 && Timed(start, ops) && s <= t ==>
              GrantedWithin(Full(capacity, rate, start), ops, s, t) <= capacity + Flow(rate, t - s)
    decreases |ops|
  {
    if capacity >= 0.0 && rate >= 0.0 && Timed(start, ops) && s <= t {
      hide Flow;
      hide Run;
      var b := Full(capacity, rate, start);
      Nonneg(rate, t - s);
      if ops != [] {
        var last := ops[|ops| - 1].now;
        if last > t {
          TimedPrefix(start, ops, |ops| - 1);
          WindowBound(capacity, rate, start, ops[..|ops| - 1], s, t);
        } else {
          var k := WithinFrom(b, ops, s, t);
          if k < |ops| {
            LevelIsLeastRoom(capacity, rate, start, ops, last);
            assert Room(b, ops, k, last) >= 0.0;
            Wider(rate, ops[k].now, last, s, t);
          }
        }
      }
    }
  }

  lemma Wider(rate: real, u: real, v: real, s: real, t: real)
    requires rate >= 0.0 && s <= u && v <= t
    ensures Flow(rate, v - u) <= Flow(rate, t - s)
  {
    hide Flow;
    Nonneg(rate, u - s);
    Nonneg(rate, t - v);
    Telescope(rate, s, u, t);
    Telescope(rate, u, v, t);
  }

  // ---- lazy refill ----

  /** Refilling in between changes nothing later. */
  lemma RefillTwice(b: Bucket, u: real, v: real)
    requires Sane(b) && b.lastRefill <= u <= v
    ensures Refill(Refill(b, u), v) == Refill(b, v)
  {
    assert Flow(b.rate, 0.0) == 0.0;
    hide Flow;
    Nonneg(b.rate, u - b.lastRefill);
    Nonneg(b.rate, v - u);
    Telescope(b.rate, b.lastRefill, u, v);
  }

  function Consumes(ops: seq<Op>): seq<Op>
  {
    if ops == [] then []
    else Consumes(ops[..|ops| - 1]) + (if ops[|ops| - 1].Consume? then [ops[|ops| - 1]] else [])
  }

  lemma {:induction false} ConsumesTimed(start: real, ops: seq<Op>)
    requires Timed(start, ops)
    ensures Timed(start, Consumes(ops)) && Clock(start, Consumes(ops)) <= Clock(start, ops)
  {
    if ops != [] {
      ClockStep(start, ops);
      ConsumesTimed(start, ops[..|ops| - 1]);
      var c, op := Consumes(ops[..|ops| - 1]), ops[|ops| - 1];
      if op.Consume? {
        Extend(start, c, op);
      } else {
        assert c + [] == c;
      }
    }
  }

  /** However often the bucket is refilled between requests, even continuously, every later request
      finds the same tokens as in the run that refills only when asked. */
  lemma {:induction false} LazyIsEager(b: Bucket, ops: seq<Op>, now: real)
    requires Sane(b) && Timed(b.lastRefill, ops) && Clock(b.lastRefill, ops) <= now
    ensures Refill(Run(b, ops), now) == Refill(Run(b, Consumes(ops)), now)
  {
    hide Refill;
    hide Apply;
    hide Granted;
    hide Run;
    if ops != [] {
      var front, op := ops[..|ops| - 1], ops[|ops| - 1];
      var c := Consumes(front);
      ClockStep(b.lastRefill, ops);
      ConsumesTimed(b.lastRefill, front);
      RunSane(b, c);
      LazyIsEager(b, front, op.now);
      RunSnoc(b, ops);
      if op.Available? {
        assert Consumes(ops) == c;
        ApplyAvailable(Run(b, front), op.now);
        RefillTwice(Run(b, c), op.now, now);
      } else {
        assert (c + [op])[..|c|] == c;
        RunSnoc(b, c + [op]);
        SameAfter(Run(b, front), Run(b, c), op);
      }
    }
  }

  lemma ApplyAvailable(b: Bucket, now: real)
    ensures Apply(b, Available(now)) == Refill(b, now)
  {
  }

  lemma SameAfter(b: Bucket, c: Bucket, op: Op)
    requires Refill(b, op.now) == Refill(c, op.now)
    ensures Apply(b, op) == Apply(c, op)
  {
  }

  // ---- progress ----

  /** A time at or after the last refill at which `n` tokens are there. */
  ghost predicate FoundAt(b: Bucket, n: real, now: real)
  {
    now >= b.lastRefill && Level(b, now) >= n
  }

  ghost predicate EventuallyFound(b: Bucket, n: real)
  {
    exists now :: FoundAt(b, n, now)
  }

  /** With nobody else consuming, a request is eventually granted exactly when it fits the capacity. */
  lemma GrantedAfterWait(b: Bucket, n: real)
    ensures Sane(b) && b.rate > 0.0 ==> (EventuallyFound(b, n) <==> n <= b.capacity)
  {
    if Sane(b) && b.rate > 0.0 {
      if n <= b.tokens {
        assert FoundAt(b, n, b.lastRefill);
      } else if n <= b.capacity {
        var wait := (n - b.tokens) / b.rate;
        Quotient(n - b.tokens, b.rate);
        hide Flow;
        assert FoundAt(b, n, b.lastRefill + wait);
      } else {
        forall now | now >= b.lastRefill ensures !FoundAt(b, n, now) {
          LevelRange(b, now);
        }
      }
    }
  }

  lemma Quotient(x: real, rate: real)
    requires x > 0.0 && rate > 0.0
    ensures x / rate > 0.0 && Flow(rate, x / rate) == x
  {
  }

  /** `throttle_bucket`: two seconds of burst, but never less than one block. */
  function ThrottleBucket(rateBps: nat, now: real): Bucket
  {
    var rate := rateBps as real;
    Full(if rate * 2.0 > BLOCK_SIZE as real then rate * 2.0 else BLOCK_SIZE as real, rate, now)
  }

  /** A throttle lets at most two seconds' worth through at once, or one block if that is more, and no more than
      its rate after that; and a fresh one lets exactly that much through. */
  lemma ThrottleBound(rateBps: nat, start: real, ops: seq<Op>, s: real, t: real)
    ensures
      var rate := rateBps as real;
      var burst := if rate * 2.0 > 16384.0 then rate * 2.0 else 16384.0;
      && Level(ThrottleBucket(rateBps, start), start) == burst
      && (Timed(start, ops) && s <= t ==> GrantedWithin(ThrottleBucket(rateBps, start), ops, s, t) <= burst + (t - s) * rate)
  {
    var b := ThrottleBucket(rateBps, start);
    ThrottleIs(rateBps, start);
    FlowIs(b.rate, t - s);
    hide *;
    WindowBound(b.capacity, b.rate, start, ops, s, t);
  }

  lemma FlowIs(rate: real, span: real)
    ensures Flow(rate, span) == span * rate
  {
  }

  lemma ThrottleIs(rateBps: nat, start: real)
    ensures
      var rate, b := rateBps as real, ThrottleBucket(rateBps, start);
      && b == Full(b.capacity, b.rate, start) && b.rate == rate >= 0.0 && Level(b, start) == b.capacity
      && b.capacity == (if rate * 2.0 > 16384.0 then rate * 2.0 else 16384.0)
  {
  }

  /** A throttle of any positive rate, after any use, still lets every block through after a wait. */
  lemma ThrottleNeverStalls(rateBps: nat, start: real, ops: seq<Op>, block: nat)
    ensures rateBps > 0 && Timed(start, ops) && block <= BLOCK_SIZE ==>
        EventuallyFound(Run(ThrottleBucket(rateBps, start), ops), block as real)
  {
    if rateBps > 0 && Timed(start, ops) && block <= BLOCK_SIZE {
      RunSane(ThrottleBucket(rateBps, start), ops);
      GrantedAfterWait(Run(ThrottleBucket(rateBps, start), ops), block as real);
    }
  }

  /** The limiter as the object updated in place; `ops` is its ghost history. */
  class TokenBucket {
    const capacity: real
    const rate: real
    var tokens: real
    var lastRefill: real
    ghost const start: real
    ghost var ops: seq<Op>

    ghost function View(): Bucket
      reads this
    {
      Bucket(capacity, rate, tokens, lastRefill)
    }

    ghost predicate Valid()
      reads this
    {
      && capacity >= 0.0 && rate >= 0.0 && Timed(start, ops)
      && View() == Run(Full(capacity, rate, start), ops)
    }

    constructor (capacity: real, rate: real, now: real)
      requires capacity >= 0.0 && rate >= 0.0
      ensures Valid() && ops == [] && start == now
      ensures this.capacity == capacity && this.rate == rate && tokens == capacity
    {
      this.capacity, this.rate := capacity, rate;
      tokens, lastRefill := capacity, now;
      start, ops := now, [];
    }

    method DoRefill(now: real)
      modifies this`tokens, this`lastRefill
      ensures View() == Refill(old(View()), now)
    {
      var elapsed := now - lastRefill;
      if elapsed > 0.0 {
        tokens := Min(tokens + Flow(rate, elapsed), capacity);
        lastRefill := now;
      }
    }

    method TryConsume(n: real, now: real) returns (ok: bool)
      requires Valid() && n >= 0.0 && Clock(start, ops) <= now
      modifies this
      ensures Valid() && ops == old(ops) + [Consume(now, n)]
      ensures ok <==> FitsEveryWindow(Full(capacity, rate, start), old(ops), now, n)
      ensures tokens == Level(old(View()), now) - (if ok then n else 0.0)
    {
      GrantedIffFits(capacity, rate, start, ops, now, n);
      Extend(start, ops, Consume(now, n));
      DoRefill(now);
      if tokens >= n {
        tokens := tokens - n;
        ok := true;
      } else {
        ok := false;
      }
      assert (ops + [Consume(now, n)])[..|ops|] == ops;
      ops := ops + [Consume(now, n)];
    }

    method TokensAvailable(now: real) returns (r: real)
      requires Valid() && Clock(start, ops) <= now
      modifies this
      ensures Valid() && ops == old(ops) + [Available(now)]
      ensures r == tokens == Level(old(View()), now)
    {
      hide Flow;
      Extend(start, ops, Available(now));
      ApplyAvailable(View(), now);
      hide Refill;
      DoRefill(now);
      r := tokens;
      assert (ops + [Available(now)])[..|ops|] == ops;
      ops := ops + [Available(now)];
    }
  }

  lemma Extend(start: real, ops: seq<Op>, op: Op)
    requires Timed(start, ops) && Clock(start, ops) <= op.now && (op.Consume? ==> op.n >= 0.0)
    ensures Timed(start, ops + [op])
  {
    forall i | 0 <= i < |ops| ensures ops[i].now <= op.now {
      assert ops[i].now <= ops[|ops| - 1].now;
    }
  }
}
