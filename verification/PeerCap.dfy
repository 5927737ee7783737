/** The lock-free process-wide peer cap (`GlobalPeerCap` in `peer/manager.rs`), as interleaved steps
    of any number of sessions on one atomic counter. */
module PeerCap {
  /** Where a session is in `try_acquire`: not in it, or about to test and exchange `cur`. */
  datatype Session = Idle | Trying(cur: nat)

  /** `history` holds the counter after every step so far; its last value is the current one. A relaxed
      load may return any of them, a successful exchange acts on the last. */
  datatype State = State(max: nat, history: seq<nat>, sessions: map<nat, Session>, guards: set<nat>, nextGuard: nat)

  datatype Action =
    | Load(session: nat, seen: nat)
    | Attempt(session: nat, spurious: bool, seen: nat)
    | Drop(guard: nat)

  function Init(max: nat): State
  {
    State(max, [0], map[], {}, 0)
  }

  function Count(s: State): nat
    requires s.history != []
  {
    s.history[|s.history| - 1]
  }

  function At(s: State, session: nat): Session
  {
    if session in s.sessions then s.sessions[session] else Idle
  }

  predicate Refuses(s: State, a: Action)
  {
    a.Attempt? && At(s, a.session).Trying? && At(s, a.session).cur >= s.max
  }

  predicate Succeeds(s: State, a: Action)
    requires s.history != []
  {
    && a.Attempt? && At(s, a.session).Trying? && At(s, a.session).cur < s.max
    && !a.spurious && At(s, a.session).cur == Count(s)
  }

  /** The counter after one step. The decrement wraps around at zero like the machine's. */
  function NextCount(s: State, a: Action): nat
    requires s.history != []
  {
    if Succeeds(s, a) then At(s, a.session).cur + 1
    else if a.Drop? && a.guard in s.guards then
      if Count(s) == 0 then 0xffff_ffff_ffff_ffff else Count(s) - 1
    else Count(s)
  }

  function NextSession(s: State, a: Action, observed: nat): Session
    requires s.history != [] && !a.Drop?
  {
    match a
    case Load(t, _) => if At(s, t).Idle? then Trying(observed) else At(s, t)
    case Attempt(t, _, _) =>
      if At(s, t).Idle? || Refuses(s, a) || Succeeds(s, a) then Idle else Trying(observed)
  }

  /** One atomic step; a step that is not possible in this state changes nothing. */
  function Step(s: State, a: Action): (r: State)
    requires s.history != []
    ensures r.history != []
  {
    var observed := if !a.Drop? && a.seen < |s.history| then s.history[a.seen] else Count(s);
    State(
      s.max,
      s.history + [NextCount(s, a)],
      if a.Drop? then s.sessions else s.sessions[a.session := NextSession(s, a, observed)],
      if Succeeds(s, a) then s.guards + {s.nextGuard} else if a.Drop? then s.guards - {a.guard} else s.guards,
      if Succeeds(s, a) then s.nextGuard + 1 else s.nextGuard)
  }

  function Run(max: nat, actions: seq<Action>): (s: State)
    ensures s.history != [] && s.max == max
  {
    if actions == [] then Init(max) else Step(Run(max, actions[..|actions| - 1]), actions[|actions| - 1])
  }

  ghost predicate Inv(s: State)
  {
    && s.history != []
    && Count(s) == |s.guards| <= s.max
    && (forall g :: g in s.guards ==> g < s.nextGuard)
    && (forall t :: t in s.sessions && s.sessions[t].Trying? ==> s.sessions[t].cur in s.history)
  }

  lemma StepKeepsCount(s: State, a: Action)
    requires Inv(s)
    ensures var r := Step(s, a); Count(r) == |r.guards| <= r.max && forall g :: g in r.guards ==> g < r.nextGuard
  {
    if a.Drop? && a.guard in s.guards {
      assert s.guards == (s.guards - {a.guard}) + {a.guard};
    } else if a.Drop? {
      assert s.guards - {a.guard} == s.guards;
    }
  }

  lemma StepKeepsSeen(s: State, a: Action)
    requires Inv(s)
    ensures var r := Step(s, a); forall t :: t in r.sessions && r.sessions[t].Trying? ==> r.sessions[t].cur in r.history
  {
    hide NextCount;
    var r := Step(s, a);
    assert forall v :: v in s.history ==> v in r.history;
    assert Count(s) in s.history;
  }

  lemma StepKeepsInv(s: State, a: Action)
    requires Inv(s)
    ensures Inv(Step(s, a))
  {
    StepKeepsCount(s, a);
    StepKeepsSeen(s, a);
    hide Step;
  }

  /** Under every interleaving the counter is the number of live guards, never above the cap, and the
      decrement never wraps. */
  lemma {:induction false} CapHolds(max: nat, actions: seq<Action>)
    ensures
      var s := Run(max, actions);
      && Inv(s)
      && Count(s) == |s.guards|
      && |s.guards| <= max
      && forall a: Action :: a.Drop? && a.guard in s.guards ==> NextCount(s, a) == Count(s) - 1
  {
    if actions != [] {
      CapHolds(max, actions[..|actions| - 1]);
      StepKeepsInv(Run(max, actions[..|actions| - 1]), actions[|actions| - 1]);
    }
    var s := Run(max, actions);
    forall a: Action | a.Drop? && a.guard in s.guards ensures NextCount(s, a) == Count(s) - 1 {
      assert s.guards != {};
    }
  }

  /** The recorded counter values are the numbers of guards that were live after each step. */
  lemma {:induction false} HistoryIsGuards(max: nat, actions: seq<Action>, m: nat)
    requires m <= |actions|
    ensures |Run(max, actions).history| == |actions| + 1
    ensures Run(max, actions).history[m] == |Run(max, actions[..m]).guards|
    decreases |actions|
  {
    CapHolds(max, actions);
    if actions == [] {
      assert actions[..m] == [];
    } else {
      var front := actions[..|actions| - 1];
      if m < |actions| {
        HistoryIsGuards(max, front, m);
        assert front[..m] == actions[..m];
      } else {
        HistoryIsGuards(max, front, 0);
        assert actions[..m] == actions;
      }
    }
  }

  /** A refusal is honest: at some earlier point of the run every slot really was taken. */
  lemma RefusedOnlyWhenFull(max: nat, actions: seq<Action>, a: Action)
    ensures Refuses(Run(max, actions), a) ==>
              exists m :: 0 <= m <= |actions| && |Run(max, actions[..m]).guards| == max
  {
    var s := Run(max, actions);
    if Refuses(s, a) {
      CapHolds(max, actions);
      HistoryIsGuards(max, actions, 0);
      var m :| 0 <= m < |s.history| && s.history[m] == At(s, a.session).cur;
      HistoryIsGuards(max, actions, m);
      CapHolds(max, actions[..m]);
      assert |Run(max, actions[..m]).guards| == max;
    }
  }

  /** A session that reads the current value and is not interfered with acquires a slot exactly when
      one is free. */
  lemma AloneItSucceeds(max: nat, actions: seq<Action>, t: nat)
    ensures
      var s := Run(max, actions);
      var loaded := Step(s, Load(t, |s.history| - 1));
      var tried := Attempt(t, false, 0);
      At(s, t).Idle? ==>
        && (Succeeds(loaded, tried) <==> |s.guards| < max)
        && (Refuses(loaded, tried) <==> |s.guards| == max)
        && (|s.guards| < max ==> Step(loaded, tried).guards == s.guards + {s.nextGuard})
  {
    CapHolds(max, actions);
    hide Run;
    if At(Run(max, actions), t).Idle? { LoadThenTry(Run(max, actions), t); }
  }

  lemma LoadThenTry(s: State, t: nat)
    requires Inv(s) && At(s, t).Idle?
    ensures
      var loaded := Step(s, Load(t, |s.history| - 1));
      var tried := Attempt(t, false, 0);
      && (Succeeds(loaded, tried) <==> |s.guards| < s.max)
      && (Refuses(loaded, tried) <==> |s.guards| == s.max)
      && (|s.guards| < s.max ==> Step(loaded, tried).guards == s.guards + {s.nextGuard})
  {
  }

  /** A call that has returned, with a guard or without, takes nothing more until the next load: one call
      yields at most one guard. */
  lemma OneGuardPerCall(max: nat, actions: seq<Action>, a: Action, b: Action)
    ensures
      var s := Run(max, actions);
      (Succeeds(s, a) || Refuses(s, a)) && b.Attempt? && b.session == a.session ==>
        && !Succeeds(Step(s, a), b) && !Refuses(Step(s, a), b)
        && Step(Step(s, a), b).guards == Step(s, a).guards
  {
  }

  /** An exchange that fails, spuriously or because the counter has moved, takes nothing; if it hands back the
      current value the next one, undisturbed, succeeds exactly when a slot is free. */
  lemma RetrySucceeds(max: nat, actions: seq<Action>, t: nat, spurious: bool)
    ensures
      var s := Run(max, actions);
      var failed := Attempt(t, spurious, |s.history| - 1);
      var r := Step(s, failed);
      var again := Attempt(t, false, 0);
      At(s, t).Trying? && At(s, t).cur < max && (spurious || At(s, t).cur != Count(s)) ==>
        && r.guards == s.guards && Count(r) == Count(s)
        && (Succeeds(r, again) <==> |s.guards| < max)
        && (Refuses(r, again) <==> |s.guards| == max)
        && (|s.guards| < max ==> Step(r, again).guards == s.guards + {s.nextGuard})
  {
    CapHolds(max, actions);
  }

  /** Every guard is released once: after its drop the slot is free again and the guard is gone for good. */
  lemma {:induction false} DroppedForGood(max: nat, actions: seq<Action>, g: nat, more: seq<Action>)
    requires g in Run(max, actions).guards
    ensures g !in Run(max, actions + [Drop(g)] + more).guards
    ensures g < Run(max, actions + [Drop(g)] + more).nextGuard
    decreases |more|
  {
    var all := actions + [Drop(g)] + more;
    if more == [] {
      assert all[..|all| - 1] == actions && all[|all| - 1] == Drop(g);
      CapHolds(max, actions);
    } else {
      DroppedForGood(max, actions, g, more[..|more| - 1]);
      assert all[..|all| - 1] == actions + [Drop(g)] + more[..|more| - 1];
    }
  }
}
