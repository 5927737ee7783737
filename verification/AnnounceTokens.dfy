/** Announce tokens and their rotating salts (`issue_token`, `verify_token` in `dht/server.rs`). */
module AnnounceTokens {
  import opened Bytes
  import opened Net

  const TOKEN_TTL: int := 10 * 60 * 1_000_000_000

  /** The hash of IP address and salt, not looked into. */
  type Mint = (bytes, bytes) -> bytes

  /** The port plays no part. */
  function IpOf(a: Addr): bytes
  {
    if a.V4? then a.ip else a.ip6
  }

  ghost predicate SameIp(a: Addr, b: Addr)
  {
    (a.V4? && b.V4? && a.ip == b.ip) || (a.V6? && b.V6? && a.ip6 == b.ip6)
  }

  /** Different addresses are minted from different bytes; the port makes no difference. */
  lemma IpDecides(a: Addr, b: Addr)
    ensures IpOf(a) == IpOf(b) <==> SameIp(a, b)
  {
  }

  datatype Salts = Salts(current: bytes, previous: bytes, lastRotated: int)

  /** A request for a token; `salt` is the random salt used if this call rotates. */
  datatype Ask = Ask(addr: Addr, now: int, salt: bytes)

  function Rotate(s: Salts, a: Ask): Salts
  {
    if a.now - s.lastRotated >= TOKEN_TTL then Salts(a.salt, s.current, a.now) else s
  }

  predicate Accepts(s: Salts, mint: Mint, addr: Addr, token: bytes)
  {
    token == mint(IpOf(addr), s.current) || token == mint(IpOf(addr), s.previous)
  }

  function Run(s: Salts, asks: seq<Ask>): Salts
  {
    if asks == [] then s else Rotate(Run(s, asks[..|asks| - 1]), asks[|asks| - 1])
  }

  /** What the `i`-th caller was handed. */
  function Issued(s: Salts, mint: Mint, asks: seq<Ask>, i: nat): bytes
    requires i < |asks|
  {
    mint(IpOf(asks[i].addr), Run(s, asks[..i + 1]).current)
  }

  ghost predicate Timed(s: Salts, asks: seq<Ask>)
  {
    && (forall i :: 0 <= i < |asks| ==> s.lastRotated <= asks[i].now)
    && (forall i, j :: 0 <= i <= j < |asks| ==> asks[i].now <= asks[j].now)
  }

  // ---- rotations in a run ----

  /** Whether ask `m` drew a new salt. */
  ghost predicate Rotating(s: Salts, asks: seq<Ask>, m: nat)
    requires m < |asks|
  {
    asks[m].now - Run(s, asks[..m]).lastRotated >= TOKEN_TTL
  }

  /** How many asks after `i` and before `j` rotated. */
  ghost function Rotations(s: Salts, asks: seq<Ask>, i: nat, j: nat): nat
    requires j <= |asks|
  {
    if j <= i + 1 then 0 else Rotations(s, asks, i, j - 1) + if Rotating(s, asks, j - 1) then 1 else 0
  }

  /** The last ask after `i` and before `j` that rotated. */
  ghost function LastRotation(s: Salts, asks: seq<Ask>, i: nat, j: nat): (m: nat)
    requires j <= |asks| && Rotations(s, asks, i, j) > 0
    ensures i < m < j && Rotating(s, asks, m) && Rotations(s, asks, i, m) == Rotations(s, asks, i, j) - 1
  {
    if Rotating(s, asks, j - 1) then j - 1 else LastRotation(s, asks, i, j - 1)
  }

  lemma RunStep(s: Salts, asks: seq<Ask>, m: nat)
    requires m < |asks|
    ensures Run(s, asks[..m + 1]) == Rotate(Run(s, asks[..m]), asks[m])
  {
    assert asks[..m + 1][..m] == asks[..m];
  }

  /** The two salts in use: by how many rotations have happened since ask `i`. */
  lemma {:induction false} SaltsAfter(s: Salts, asks: seq<Ask>, i: nat, j: nat)
    requires i < j <= |asks|
    ensures
      var salt, later, n := Run(s, asks[..i + 1]).current, Run(s, asks[..j]), Rotations(s, asks, i, j);
      && (n == 0 ==> later == Run(s, asks[..i + 1]))
      && (n > 0 ==> var m := LastRotation(s, asks, i, j);
            && later.current == asks[m].salt && later.lastRotated == asks[m].now
            && later.previous == if n == 1 then salt else asks[LastRotation(s, asks, i, m)].salt)
    decreases j
  {
    hide Run;
    if j > i + 1 {
      SaltsAfter(s, asks, i, j - 1);
      RunStep(s, asks, j - 1);
    }
  }

  // ---- lifetime ----

  lemma {:induction false} RotatedInPast(s: Salts, asks: seq<Ask>)
    requires Timed(s, asks)
    ensures Run(s, asks).lastRotated <= if asks == [] then s.lastRotated else asks[|asks| - 1].now
    ensures asks != [] ==> asks[|asks| - 1].now - Run(s, asks).lastRotated < TOKEN_TTL
  {
    if asks != [] {
      var front := asks[..|asks| - 1];
      RotatedInPast(s, front);
      if front != [] {
        assert front[|front| - 1] == asks[|asks| - 2];
      }
    }
  }

  /** Rotations are spaced: a second one after ask `i` comes later than a whole lifetime. */
  lemma SecondRotationIsLate(s: Salts, asks: seq<Ask>, i: nat, j: nat)
    requires Timed(s, asks) && i < j <= |asks| && Rotations(s, asks, i, j) >= 2
    ensures asks[LastRotation(s, asks, i, j)].now > asks[i].now + TOKEN_TTL
  {
    var m := LastRotation(s, asks, i, j);
    SaltsAfter(s, asks, i, m);
    var k := LastRotation(s, asks, i, m);
    FirstRotationIsLater(s, asks, i, k);
  }

  lemma FirstRotationIsLater(s: Salts, asks: seq<Ask>, i: nat, k: nat)
    requires Timed(s, asks) && i < k < |asks| && Rotating(s, asks, k)
    ensures asks[k].now > asks[i].now
  {
    SaltsAfter(s, asks, i, k);
    RotatedInPast(s, asks[..i + 1]);
    if Rotations(s, asks, i, k) > 0 {
      var m := LastRotation(s, asks, i, k);
      assert asks[i].now <= asks[m].now;
    }
  }

  /** The token handed to ask `i` equals the hash of a salt drawn by one of the last two rotations. */
  ghost predicate Recurs(s: Salts, mint: Mint, asks: seq<Ask>, i: nat, j: nat)
    requires i < j <= |asks| && Rotations(s, asks, i, j) >= 2
  {
    var token, m := Issued(s, mint, asks, i), LastRotation(s, asks, i, j);
    || token == mint(IpOf(asks[i].addr), asks[m].salt)
    || token == mint(IpOf(asks[i].addr), asks[LastRotation(s, asks, i, m)].salt)
  }

  /**
   * The exact lifetime of a token, over every run: from any port of its address it is accepted until
   * the second rotation after it was issued, and afterwards only if its hash recurs. Only an ask
   * rotates, so on a server nobody asks it never expires.
   */
  lemma ExactLifetime(s: Salts, mint: Mint, asks: seq<Ask>, i: nat, j: nat, from: Addr)
    ensures i < j <= |asks| && SameIp(from, asks[i].addr) ==>
              (Accepts(Run(s, asks[..j]), mint, from, Issued(s, mint, asks, i)) <==>
               Rotations(s, asks, i, j) <= 1 || Recurs(s, mint, asks, i, j))
  {
    if i < j <= |asks| {
      SaltsAfter(s, asks, i, j);
    }
  }

  /** Whatever else is asked in between, a token is accepted for its whole lifetime from any port of the
      IP address it was issued to. */
  lemma TokenLives(s: Salts, mint: Mint, asks: seq<Ask>, i: nat, j: nat, from: Addr)
    ensures
      && Timed(s, asks) && i < j <= |asks| && asks[j - 1].now <= asks[i].now + TOKEN_TTL
      && SameIp(from, asks[i].addr)
      ==> Accepts(Run(s, asks[..j]), mint, from, Issued(s, mint, asks, i))
  {
    if Timed(s, asks) && i < j <= |asks| && asks[j - 1].now <= asks[i].now + TOKEN_TTL {
      ExactLifetime(s, mint, asks, i, j, from);
      if Rotations(s, asks, i, j) >= 2 {
        SecondRotationIsLate(s, asks, i, j);
        assert false;
      }
    }
  }

  /** One more ask: the salts rotate if due, and its token is hashed with the current one. */
  lemma NextAsk(s: Salts, mint: Mint, asks: seq<Ask>, a: Ask)
    requires Timed(s, asks) && s.lastRotated <= a.now && forall x :: x in asks ==> x.now <= a.now
    ensures
      var next := asks + [a];
      && Timed(s, next) && Run(s, next) == Rotate(Run(s, asks), a)
      && Issued(s, mint, next, |asks|) == mint(IpOf(a.addr), Run(s, next).current)
  {
    var next := asks + [a];
    RunStep(s, next, |asks|);
    assert next[..|asks|] == asks && next[..|asks| + 1] == next;
    forall i | 0 <= i < |asks| ensures asks[i].now <= a.now {
      assert asks[i] in asks;
    }
  }

  /** A salt the server started with or drew in the run. */
  ghost predicate Drawn(s: Salts, asks: seq<Ask>, salt: bytes)
  {
    salt == s.current || salt == s.previous || exists m :: 0 <= m < |asks| && asks[m].salt == salt
  }

  lemma {:induction false} SaltsDrawn(s: Salts, asks: seq<Ask>)
    ensures Drawn(s, asks, Run(s, asks).current) && Drawn(s, asks, Run(s, asks).previous)
  {
    if asks != [] {
      var front := asks[..|asks| - 1];
      SaltsDrawn(s, front);
      forall salt | Drawn(s, front, salt) ensures Drawn(s, asks, salt) {
        if exists m :: 0 <= m < |front| && front[m].salt == salt {
          var m :| 0 <= m < |front| && front[m].salt == salt;
          assert asks[m].salt == salt;
        }
      }
      assert asks[|asks| - 1].salt == asks[|asks| - 1].salt;
    }
  }

  /** The salts as the state behind the lock; `asks` is its ghost history. */
  class TokenState {
    const mint: Mint
    var current: bytes
    var previous: bytes
    var lastRotated: int
    ghost const start: Salts
    ghost var asks: seq<Ask>

    ghost predicate Valid()
      reads this
    {
      Salts(current, previous, lastRotated) == Run(start, asks) && Timed(start, asks)
    }

    constructor (current: bytes, previous: bytes, now: int, mint: Mint)
      ensures Valid() && asks == [] && start == Salts(current, previous, now) && this.mint == mint
    {
      this.current, this.previous, this.lastRotated, this.mint := current, previous, now, mint;
      this.start, this.asks := Salts(current, previous, now), [];
    }

    /** The token belongs to the new last ask of the history. */
    method IssueToken(addr: Addr, now: int, salt: bytes) returns (token: bytes)
      requires Valid() && start.lastRotated <= now && forall a :: a in asks ==> a.now <= now
      modifies this
      ensures Valid() && asks == old(asks) + [Ask(addr, now, salt)]
      ensures token == Issued(start, mint, asks, |asks| - 1)
    {
      hide Run;
      hide Timed;
      hide Issued;
      NextAsk(start, mint, asks, Ask(addr, now, salt));
      asks := asks + [Ask(addr, now, salt)];
      if now - lastRotated >= TOKEN_TTL {
        previous := current;
        current := salt;
        lastRotated := now;
      }
      token := mint(IpOf(addr), current);
    }

    /** An issued token is accepted from its IP address exactly until the second rotation after it, or on a
        hash recurrence, and in any case while the last ask is within its lifetime; whatever is accepted is
        the hash of that address and a salt of this server. */
    method VerifyToken(addr: Addr, token: bytes) returns (ok: bool)
      requires Valid()
      ensures forall i :: 0 <= i < |asks| && SameIp(addr, asks[i].addr) && token == Issued(start, mint, asks, i) ==>
                (ok <==> Rotations(start, asks, i, |asks|) <= 1 || Recurs(start, mint, asks, i, |asks|))
      ensures forall i :: 0 <= i < |asks| && SameIp(addr, asks[i].addr) && token == Issued(start, mint, asks, i) ==>
                asks[|asks| - 1].now <= asks[i].now + TOKEN_TTL ==> ok
      ensures ok ==> exists salt :: Drawn(start, asks, salt) && token == mint(IpOf(addr), salt)
    {
      var tNow := mint(IpOf(addr), current);
      var tPrev := mint(IpOf(addr), previous);
      ok := token == tNow || token == tPrev;
      assert ok == Accepts(Run(start, asks), mint, addr, token);
      assert asks[..|asks|] == asks;
      SaltsDrawn(start, asks);
      forall i | 0 <= i < |asks| && SameIp(addr, asks[i].addr) && token == Issued(start, mint, asks, i)
        ensures ok <==> Rotations(start, asks, i, |asks|) <= 1 || Recurs(start, mint, asks, i, |asks|)
        ensures asks[|asks| - 1].now <= asks[i].now + TOKEN_TTL ==> ok
      {
        ExactLifetime(start, mint, asks, i, |asks|, addr);
        TokenLives(start, mint, asks, i, |asks|, addr);
      }
    }
  }
}
