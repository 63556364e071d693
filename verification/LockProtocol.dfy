/**
  Any number of lock managers on one key (src/lib/lockManager.ts), one command or one timer at a time, over a clock.
  DEL is unconditional, so mutual exclusion rests on the timers: `Timely` is the assumption, and
  `SafeIffServedBeforeExpiry` says for which delays it is enough.
 */
module LockProtocol {
  import opened Prelude
  import opened RedisLease

  /**
    Where one instance is in executeWithLock.  `until` is the expiry its last SET or renewal gave the key, `due` the
    time its interval fires next.
   */
  datatype Phase =
    | Idle
    | Checking                             // SET NX failed, the GET comes next
    | Skipped
    | Acquired(until: nat)                 // owns the key, the first renewal comes next
    | Working(until: nat, due: nat)        // inside the callback, interval running
    | Lost                                 // inside the callback after a failed renewal
    | Releasing(until: nat)                // callback over, interval cleared, the DEL comes next
    | Restarting(until: nat)               // callback over with holdLock, the renewal comes next
    | Holding(until: nat, due: nat)        // holdLock: no callback, interval running
    | Done
    | Stopped                              // closed by a signal or an error, key left to expire

  datatype Action =
    | Tick(delta: nat)
    | TrySet(i: nat)
    | CheckGet(i: nat)
    | FirstRenew(i: nat)
    | Renew(i: nat, nextDue: nat)
    | Finish(i: nat, holdLock: bool)
    | DelKey(i: nat)
    | Stop(i: nat)

  datatype System = System(redis: Redis, phases: seq<Phase>)

  predicate Owner(p: Phase) {
    p.Acquired? || p.Working? || p.Releasing? || p.Restarting? || p.Holding?
  }

  predicate InCallback(p: Phase) {
    p.Working? || p.Lost?
  }

  function Move(s: System, i: nat, redis: Redis, p: Phase): System
    requires i < |s.phases|
  {
    System(redis, s.phases[i := p])
  }

  /** The interval fires at or after `due`; the next one is counted from the nominal or from the actual time. */
  predicate MayFire(now: nat, ttl: nat, due: nat, nextDue: nat) {
    due <= now && due + ttl / 2 <= nextDue <= now + ttl / 2
  }

  /** One action; an action that is not enabled changes nothing. */
  function Step(ttl: nat, s: System, a: Action): System {
    if a.Tick? then s.(redis := s.redis.(now := s.redis.now + a.delta))
    else if a.i >= |s.phases| then s
    else
      var r, p, now := s.redis, s.phases[a.i], s.redis.now;
      match a
      case TrySet(i) =>
        if !p.Idle? then s
        else if Visible(r).None? then Move(s, i, SetNx(r, i, ttl), Acquired(now + ttl))
        else Move(s, i, r, Checking)
      case CheckGet(i) =>
        if !p.Checking? then s
        else if HeldBy(r, i) then Move(s, i, r, Acquired(Visible(r).value.expiresAt))
        else Move(s, i, r, Skipped)
      case FirstRenew(i) =>
        if !p.Acquired? && !p.Restarting? then s
        else if !HeldBy(r, i) then Move(s, i, Renewed(r, i, ttl), if p.Acquired? then Lost else Done)
        else Move(s, i, Renewed(r, i, ttl),
                  if p.Acquired? then Working(now + ttl, now + ttl / 2) else Holding(now + ttl, now + ttl / 2))
      case Renew(i, nextDue) =>
        if !(p.Working? || p.Holding?) || !MayFire(now, ttl, p.due, nextDue) then s
        else if !HeldBy(r, i) then Move(s, i, Renewed(r, i, ttl), if p.Working? then Lost else Done)
        else Move(s, i, Renewed(r, i, ttl), p.(until := now + ttl, due := nextDue))
      case Finish(i, holdLock) =>
        if p.Lost? then Move(s, i, r, Done)
        else if !p.Working? then s
        else Move(s, i, r, if holdLock then Restarting(p.until) else Releasing(p.until))
      case DelKey(i) =>
        if !p.Releasing? then s else Move(s, i, Del(r), Done)
      case Stop(i) => Move(s, i, r, Stopped)
  }

  function Run(ttl: nat, s: System, actions: seq<Action>): System {
    if actions == [] then s
    else Step(ttl, Run(ttl, s, actions[..|actions| - 1]), actions[|actions| - 1])
  }

  /** All instances before their first command; the key is free or somebody else's. */
  predicate Initial(s: System) {
    (forall i :: 0 <= i < |s.phases| ==> s.phases[i].Idle?) &&
    (s.redis.lease.Some? ==> !(0 <= s.redis.lease.value.value < |s.phases|))
  }

  /**
    The timing assumption on one state: an interval is served at most `delay` after it is due; the first renewal, the
    renewal that starts a hold, and the final DEL reach the server before the key expires.
   */
  predicate TimelyPhase(now: nat, delay: nat, p: Phase) {
    match p
    case Acquired(until) => now < until
    case Restarting(until) => now < until
    case Releasing(until) => now < until
    case Working(_, due) => now <= due + delay
    case Holding(_, due) => now <= due + delay
    case _ => true
  }

  ghost predicate Timely(delay: nat, s: System) {
    forall i :: 0 <= i < |s.phases| ==> TimelyPhase(s.redis.now, delay, s.phases[i])
  }

  ghost predicate TimelyRun(ttl: nat, delay: nat, s: System, actions: seq<Action>) {
    forall n :: 0 <= n <= |actions| ==> Timely(delay, Run(ttl, s, actions[..n]))
  }

  // ---------- the invariant ----------

  predicate Early(p: Phase) {
    p.Idle? || p.Checking? || p.Skipped?
  }

  /** An owner's lease is the key's; its next renewal is due early enough to be served before the key expires. */
  predicate Backed(ttl: nat, delay: nat, s: System, i: nat)
    requires i < |s.phases|
  {
    var p := s.phases[i];
    Owner(p) ==>
      s.redis.lease == Some(Lease(i, p.until)) && (p.Working? || p.Holding? ==> p.due + delay < p.until)
  }

  ghost predicate Inv(ttl: nat, delay: nat, s: System) {
    && Timely(delay, s)
    && (forall i: nat :: i < |s.phases| ==> Backed(ttl, delay, s, i) && !s.phases[i].Lost?)
    && NotEarly(s)
  }

  /** An instance whose value the key carries has acquired it at some time. */
  predicate NotEarly(s: System) {
    s.redis.lease.Some? && 0 <= s.redis.lease.value.value < |s.phases| ==> !Early(s.phases[s.redis.lease.value.value])
  }

  /** While an instance owns the lock the key carries its value and has not expired. */
  ghost predicate Safe(s: System) {
    && (forall i: nat :: i < |s.phases| && Owner(s.phases[i]) ==> HeldBy(s.redis, i))
    && (forall i: nat :: i < |s.phases| ==> !s.phases[i].Lost?)
    && (forall i: nat, j: nat :: i < j < |s.phases| ==> !(InCallback(s.phases[i]) && InCallback(s.phases[j])))
  }

  /** What one action does to the lease and phase of any one instance. */
  lemma StepBacked(ttl: nat, delay: nat, s: System, a: Action, j: nat)
    requires Inv(ttl, delay, s) && ttl / 2 + delay < ttl && j < |s.phases|
    ensures var s' := Step(ttl, s, a);
            |s'.phases| == |s.phases| && Backed(ttl, delay, s', j) && !s'.phases[j].Lost?
  {
    assert Backed(ttl, delay, s, j);
    if !a.Tick? && a.i < |s.phases| {
      assert Backed(ttl, delay, s, a.i);
      assert Owner(s.phases[a.i]) ==> HeldBy(s.redis, a.i);
    }
  }

  lemma StepInv(ttl: nat, delay: nat, s: System, a: Action)
    requires Inv(ttl, delay, s) && ttl / 2 + delay < ttl && Timely(delay, Step(ttl, s, a))
    ensures Inv(ttl, delay, Step(ttl, s, a))
  {
    var s' := Step(ttl, s, a);
    forall j: nat | j < |s.phases|
      ensures |s'.phases| == |s.phases| && Backed(ttl, delay, s', j) && !s'.phases[j].Lost?
    {
      StepBacked(ttl, delay, s, a, j);
    }
  }

  lemma {:induction false} RunInv(ttl: nat, delay: nat, s: System, actions: seq<Action>)
    requires Initial(s) && ttl / 2 + delay < ttl && TimelyRun(ttl, delay, s, actions)
    ensures Inv(ttl, delay, Run(ttl, s, actions))
  {
    assert actions[..|actions|] == actions;
    if actions != [] {
      var n := |actions| - 1;
      assert forall m :: 0 <= m <= n ==> actions[..n][..m] == actions[..m];
      RunInv(ttl, delay, s, actions[..n]);
      StepInv(ttl, delay, Run(ttl, s, actions[..n]), actions[n]);
    }
  }

  /**
    Mutual exclusion: if every interval is served within `delay` of its due time, with floor(ttl/2) + delay < ttl,
    then in every interleaving of any number of instances no renewal fails, the key never expires while held, it
    carries the holder's value, and at most one instance is inside its callback.
   */
  lemma SafeInEveryTimelyRun(ttl: nat, delay: nat, s: System, actions: seq<Action>)
    requires Initial(s) && ttl / 2 + delay < ttl && TimelyRun(ttl, delay, s, actions)
    ensures forall n :: 0 <= n <= |actions| ==> Safe(Run(ttl, s, actions[..n]))
  {
    forall n | 0 <= n <= |actions| ensures Safe(Run(ttl, s, actions[..n])) {
      assert forall m :: 0 <= m <= n ==> actions[..n][..m] == actions[..m];
      RunInv(ttl, delay, s, actions[..n]);
    }
  }

  /** The final DEL removes the releasing instance's own key, and leaves the key free. */
  lemma {:induction false} ReleaseRemovesOwnKey(ttl: nat, delay: nat, s: System, actions: seq<Action>, i: nat)
    requires Initial(s) && ttl / 2 + delay < ttl && TimelyRun(ttl, delay, s, actions)
    requires i < |s.phases| && i < |Run(ttl, s, actions).phases| && Run(ttl, s, actions).phases[i].Releasing?
    ensures HeldBy(Run(ttl, s, actions).redis, i)
    ensures Visible(Step(ttl, Run(ttl, s, actions), DelKey(i)).redis).None?
    ensures forall j: nat :: j < |s.phases| && j < |Run(ttl, s, actions).phases| && j != i ==>
              !Owner(Run(ttl, s, actions).phases[j])
  {
    RunInv(ttl, delay, s, actions);
  }

  // ---------- the actions are what the lock manager does ----------

  /** Undisturbed, an instance's first actions do to the key what `Enter` does, and start the callback iff it does. */
  lemma EnterIsSteps(ttl: nat, s: System, i: nat)
    requires i < |s.phases| && s.phases[i].Idle?
    ensures var e := Step(ttl, Step(ttl, Step(ttl, s, TrySet(i)), CheckGet(i)), FirstRenew(i));
            e.redis == Entered(s.redis, i, ttl) && |e.phases| == |s.phases| &&
            (InCallback(e.phases[i]) <==> MayEnter(s.redis, i))
  {
  }

  /** Undisturbed, the actions after the callback do to the key what `Leave` does. */
  lemma LeaveIsSteps(ttl: nat, s: System, i: nat, holdLock: bool)
    requires i < |s.phases| && s.phases[i].Working?
    ensures var e := Step(ttl, Step(ttl, s, Finish(i, holdLock)), if holdLock then FirstRenew(i) else DelKey(i));
            e.redis == (if holdLock then Renewed(s.redis, i, ttl) else Del(s.redis)) && |e.phases| == |s.phases| &&
            !InCallback(e.phases[i])
  {
  }

  /** When an interval fires, the key becomes what `FireInterval` makes of it, and the callback goes on either way. */
  lemma RenewIsInterval(ttl: nat, s: System, i: nat, nextDue: nat)
    requires i < |s.phases| && (s.phases[i].Working? || s.phases[i].Holding?)
    requires MayFire(s.redis.now, ttl, s.phases[i].due, nextDue)
    ensures var e := Step(ttl, s, Renew(i, nextDue));
            e.redis == Renewed(s.redis, i, ttl) && |e.phases| == |s.phases| &&
            (InCallback(e.phases[i]) <==> InCallback(s.phases[i])) && (Owner(e.phases[i]) <==> HeldBy(s.redis, i))
  {
  }

  // ---------- the bound is exact ----------

  lemma RunSnoc(ttl: nat, s: System, actions: seq<Action>, a: Action)
    ensures Run(ttl, s, actions + [a]) == Step(ttl, Run(ttl, s, actions), a)
  {
    assert (actions + [a])[..|actions|] == actions;
  }

  lemma TimelySnoc(ttl: nat, delay: nat, s: System, actions: seq<Action>, a: Action)
    requires TimelyRun(ttl, delay, s, actions) && Timely(delay, Step(ttl, Run(ttl, s, actions), a))
    ensures TimelyRun(ttl, delay, s, actions + [a])
  {
    var longer := actions + [a];
    RunSnoc(ttl, s, actions, a);
    forall n | 0 <= n <= |longer| ensures Timely(delay, Run(ttl, s, longer[..n])) {
      if n <= |actions| {
        assert longer[..n] == actions[..n];
      } else {
        assert longer[..n] == longer;
      }
    }
  }

  const THREE := System(Redis(0, None), [Idle, Idle, Idle])

  /** A first holder sleeps past the expiry, a second enters, and the first one's failed renewal lets a third in. */
  function LateAction(ttl: nat, n: nat): Action {
    match n
    case 0 => TrySet(0)
    case 1 => FirstRenew(0)
    case 2 => Tick(ttl)
    case 3 => TrySet(1)
    case 4 => FirstRenew(1)
    case 5 => Renew(0, ttl / 2 + ttl / 2)
    case 6 => TrySet(2)
    case _ => FirstRenew(2)
  }

  function LateActions(ttl: nat, n: nat): seq<Action> {
    if n == 0 then [] else LateActions(ttl, n - 1) + [LateAction(ttl, n - 1)]
  }

  function LateStage(ttl: nat, n: nat): System {
    var first, second, third := Lease(0, ttl), Lease(1, ttl + ttl), Lease(2, ttl + ttl);
    var early, late := Working(ttl, ttl / 2), Working(ttl + ttl, ttl + ttl / 2);
    match n
    case 0 => THREE
    case 1 => System(Redis(0, Some(first)), [Acquired(ttl), Idle, Idle])
    case 2 => System(Redis(0, Some(first)), [early, Idle, Idle])
    case 3 => System(Redis(ttl, Some(first)), [early, Idle, Idle])
    case 4 => System(Redis(ttl, Some(second)), [early, Acquired(ttl + ttl), Idle])
    case 5 => System(Redis(ttl, Some(second)), [early, late, Idle])
    case 6 => System(Redis(ttl, None), [Lost, late, Idle])
    case 7 => System(Redis(ttl, Some(third)), [Lost, late, Acquired(ttl + ttl)])
    case _ => System(Redis(ttl, Some(third)), [Lost, late, late])
  }

  lemma LateStep(ttl: nat, n: nat)
    requires ttl > 0 && n < 8
    ensures Step(ttl, LateStage(ttl, n), LateAction(ttl, n)) == LateStage(ttl, n + 1)
  {
  }

  lemma {:induction false} LateReaches(ttl: nat, n: nat)
    requires ttl > 0 && n <= 8
    ensures Run(ttl, THREE, LateActions(ttl, n)) == LateStage(ttl, n)
  {
    if n > 0 {
      LateReaches(ttl, n - 1);
      LateStep(ttl, n - 1);
      RunSnoc(ttl, THREE, LateActions(ttl, n - 1), LateAction(ttl, n - 1));
    }
  }

  /** Up to the overlap this takes no more than a service delay that lets the interval miss the expiry. */
  lemma {:induction false} OverlapIsTimely(ttl: nat, delay: nat, n: nat)
    requires ttl > 0 && ttl / 2 + delay >= ttl && n <= 5
    ensures TimelyRun(ttl, delay, THREE, LateActions(ttl, n))
  {
    if n > 0 {
      OverlapIsTimely(ttl, delay, n - 1);
      LateReaches(ttl, n - 1);
      LateStep(ttl, n - 1);
      TimelySnoc(ttl, delay, THREE, LateActions(ttl, n - 1), LateAction(ttl, n - 1));
    }
  }

  /**
    Mutual exclusion holds in every timely run, of any number of instances from any initial state, if and only if an
    interval served as late as allowed still comes before the expiry.
   */
  lemma {:induction false} SafeIffServedBeforeExpiry(ttl: nat, delay: nat)
    requires ttl > 0
    ensures ttl / 2 + delay < ttl <==>
            forall s, actions :: Initial(s) && TimelyRun(ttl, delay, s, actions) ==> Safe(Run(ttl, s, actions))
  {
    if ttl / 2 + delay < ttl {
      forall s, actions | Initial(s) && TimelyRun(ttl, delay, s, actions) ensures Safe(Run(ttl, s, actions)) {
        RunInv(ttl, delay, s, actions);
      }
    } else {
      OverlapIsTimely(ttl, delay, 5);
      LateReaches(ttl, 5);
      assert InCallback(LateStage(ttl, 5).phases[0]) && InCallback(LateStage(ttl, 5).phases[1]);
      assert !Safe(Run(ttl, THREE, LateActions(ttl, 5)));
    }
  }

  /** The overlap goes on: the failed renewal deletes the second holder's key, and all three are inside. */
  lemma UntimelyRunBreaks(ttl: nat)
    requires ttl > 0
    ensures Initial(THREE)
    ensures var e := Run(ttl, THREE, LateActions(ttl, 8));
            |e.phases| == 3 && forall i :: 0 <= i < 3 ==> InCallback(e.phases[i])
  {
    LateReaches(ttl, 8);
  }
}
