/** Threads that hold at most one guard do not deadlock, none of them is shut out for good, and
    Close lets every waiting thread out. */
module PoolLiveness {
  import opened Bytes
  import opened PostgrePoolModel
  import opened PoolProtocol
  import opened PoolSafety
  import opened PoolWakeups

  // --- Runs with one guard per thread ----------------------------------------------------------------

  /** A thread calls Acquire only while it holds no connection, as every service call does. */
  ghost predicate OneGuard(s: Sys, e: Event) {
    e.Acquire? ==> forall g :: g in Holders(s) && g in s.owner ==> s.owner[g] != e.t
  }

  /** A run in which every call of Init passes its test and no thread acquires a second connection. */
  ghost predicate Run(s: Sys, es: seq<Event>, end: Sys)
    decreases |es|
  {
    if es == [] then end == s
    else
      Enabled(s, es[0]) && InitDiscipline(s, es[0]) && OneGuard(s, es[0]) && Run(Next(s, es[0]), es[1..], end)
  }

  lemma {:induction false} RunIsPath(s: Sys, es: seq<Event>, end: Sys)
    requires Run(s, es, end)
    ensures Path(s, es, end)
    decreases |es|
  {
    if es != [] {
      RunIsPath(Next(s, es[0]), es[1..], end);
    }
  }

  /** A waiting thread holds no connection. */
  ghost predicate WaitersHoldNothing(s: Sys) {
    forall g :: g in Holders(s) && g in s.owner ==> !Waiting(s, s.owner[g])
  }

  lemma WaitersRelease(s: Sys, g: GuardId, env: Env)
    requires WaitersHoldNothing(s) && g in s.guards && WakeFits(s, env)
    ensures WaitersHoldNothing(NextRelease(s, g, env))
    ensures forall h :: Usable(s, h) ==> Usable(NextRelease(s, g, env), h)
  {
    var s1 := NextRelease(s, g, env);
    assert forall t :: Waiting(s1, t) ==> Waiting(s, t);
    assert forall h :: h in Holders(s1) ==> h in Holders(s) || (h == g && s.guards[g].conn.Some?);
  }

  lemma WaitersMove(s: Sys, g: GuardId, src: GuardId, env: Env)
    requires WaitersHoldNothing(s) && Enabled(s, MoveAssign(g, src, env))
    ensures WaitersHoldNothing(Next(s, MoveAssign(g, src, env)))
  {
    if g != src {
      WaitersRelease(s, g, env);
      var s1, s2 := NextRelease(s, g, env), Next(s, MoveAssign(g, src, env));
      assert forall h :: h in Holders(s2) ==> h in Holders(s1) || h == g;
    }
  }

  lemma WaitersDestroy(s: Sys, g: GuardId, env: Env)
    requires WaitersHoldNothing(s) && Enabled(s, Destroy(g, env))
    ensures WaitersHoldNothing(Next(s, Destroy(g, env)))
  {
    WaitersRelease(s, g, env);
    var s1, s2 := NextRelease(s, g, env), Next(s, Destroy(g, env));
    assert forall h :: h in Holders(s2) ==> h in Holders(s1);
  }

  lemma WaitersKept(s: Sys, e: Event)
    requires WaitersHoldNothing(s) && s.asleep !! s.woken && Enabled(s, e) && OneGuard(s, e)
    ensures WaitersHoldNothing(Next(s, e))
  {
    match e
    case MoveAssign(g, src, env) => WaitersMove(s, g, src, env);
    case Destroy(g, env) => WaitersDestroy(s, g, env);
    case _ =>
      var s1 := Next(s, e);
      assert forall h ::
          (h in Holders(s1) && h in Holders(s) && h in s.owner && h in s1.owner && s1.owner[h] == s.owner[h])
          ==> !Waiting(s, s.owner[h]);
  }

  lemma {:induction false} Along(s: Sys, es: seq<Event>, end: Sys)
    requires Run(s, es, end) && Wakeful(s) && WaitersHoldNothing(s)
    ensures Wakeful(end) && WaitersHoldNothing(end)
    decreases |es|
  {
    if es != [] {
      WaitersKept(s, es[0]);
      WakefulKept(s, es[0]);
      Along(Next(s, es[0]), es[1..], end);
    }
  }

  // --- Deadlock freedom --------------------------------------------------------------------------------

  /** Some connection is idle or held. */
  ghost predicate HasConnection(s: Sys) {
    s.pool.idle != [] || Holders(s) != {}
  }

  /** A thread that is not waiting can do something that lends a connection or brings one back. */
  ghost predicate CanProgress(s: Sys, g: GuardId) {
    || (exists u :: Enabled(s, WakeUp(u, g)) && Resume(s.pool).1.Granted?)
    || (exists h, env :: Enabled(s, Destroy(h, env)) && h in Holders(s)
                         && Next(s, Destroy(h, env)).pool.idle == s.pool.idle + [s.guards[h].conn.value])
  }

  /** Deadlock freedom: while a thread waits on an open pool, a woken thread can take a connection or
      a guard can be destroyed by a running thread, which gives its connection back to the pool, if
      and only if there is a connection at all; and there is one from a successful Init until Close
      or a failed Init. */
  lemma DeadlockFreedom(es: seq<Event>, s: Sys, t: Thread, g: GuardId)
    requires Run(NEW_SYS, es, s) && !s.aborted
    requires s.pool.initialized && Waiting(s, t) && g !in s.guards
    ensures CanProgress(s, g) <==> HasConnection(s)
    ensures s.steady ==> HasConnection(s)
  {
    RunIsSound(es, s);
    if HasConnection(s) {
      if h :| h in Holders(s) {
        var wake := AnySleeper(s);
        assert Enabled(s, Destroy(h, Env(true, true, wake)));
      } else {
        var u :| u in s.woken;
        assert Enabled(s, WakeUp(u, g));
      }
    }
    if s.steady && Holders(s) == {} {
      assert |s.pool.idle| > 0;
    }
  }

  /** Without a connection there is nothing to wait for: a failed Init on an open pool with nothing
      lent leaves it open and empty, and the next thread sleeps with nobody to wake it. */
  lemma FailedInitStarves() returns (es: seq<Event>, s: Sys)
    ensures Run(NEW_SYS, es, s) && !s.aborted && s.pool.initialized
    ensures s.asleep == {1} && s.woken == {} && !HasConnection(s)
  {
    var s1 := Next(NEW_SYS, Init(1, 1));
    var s2 := Next(s1, Init(1, 0));
    s := Next(s2, Acquire(1, 1));
    RunStep(s2, Acquire(1, 1), [], s);
    RunStep(s1, Init(1, 0), [Acquire(1, 1)] + [], s);
    RunStep(NEW_SYS, Init(1, 1), [Init(1, 0)] + ([Acquire(1, 1)] + []), s);
    es := [Init(1, 1)] + ([Init(1, 0)] + ([Acquire(1, 1)] + []));
  }

  lemma AnySleeper(s: Sys) returns (wake: Option<Thread>)
    ensures WakeFits(s, Env(true, true, wake))
  {
    if s.asleep == {} {
      wake := None;
    } else {
      var u :| u in s.asleep;
      wake := Some(u);
    }
  }

  // --- Nobody is shut out ------------------------------------------------------------------------------

  /** A state of such a run with an open pool. */
  ghost predicate Sound(s: Sys) {
    Safe(s) && Wakeful(s) && WaitersHoldNothing(s) && s.pool.initialized && !s.aborted
  }

  /** And one with a connection. */
  ghost predicate Live(s: Sys) {
    Sound(s) && HasConnection(s)
  }

  ghost predicate Served(s: Sys, t: Thread, g: GuardId) {
    g in Holders(s) && g in s.owner && s.owner[g] == t && !Waiting(s, t)
  }

  lemma SoundStep(s: Sys, e: Event)
    requires Sound(s) && Enabled(s, e) && InitDiscipline(s, e) && OneGuard(s, e)
    ensures Next(s, e).pool.initialized && !Next(s, e).aborted ==> Sound(Next(s, e))
  {
    SafeAlong(s, [e], Next(s, e));
    WakefulKept(s, e);
    WaitersKept(s, e);
  }

  lemma RunStep(s: Sys, e: Event, es: seq<Event>, end: Sys)
    requires Enabled(s, e) && InitDiscipline(s, e) && OneGuard(s, e) && Run(Next(s, e), es, end)
    ensures Run(s, [e] + es, end)
  {
    assert ([e] + es)[1..] == es;
  }

  /** A woken thread takes an idle connection. */
  lemma TakeIdle(s: Sys, t: Thread, g: GuardId)
    requires Live(s) && t in s.woken && g !in s.guards && s.pool.idle != []
    ensures Enabled(s, WakeUp(t, g)) && Served(Next(s, WakeUp(t, g)), t, g) && Live(Next(s, WakeUp(t, g)))
  {
    SoundStep(s, WakeUp(t, g));
  }

  /** A running thread lets go of a connection that is still open. */
  lemma LetGo(s: Sys, h: GuardId, wake: Option<Thread>)
    requires Live(s) && h in Holders(s) && WakeFits(s, Env(true, true, wake))
    ensures var e := Destroy(h, Env(true, true, wake));
            Enabled(s, e) && Live(Next(s, e)) && Next(s, e).pool.idle != []
            && Next(s, e).guards.Keys == s.guards.Keys - {h}
            && s.woken <= Next(s, e).woken && (wake.Some? ==> wake.value in Next(s, e).woken)
  {
    SoundStep(s, Destroy(h, Env(true, true, wake)));
  }

  lemma ServeWoken(s: Sys, t: Thread, g: GuardId) returns (es: seq<Event>, end: Sys)
    requires Live(s) && t in s.woken && g !in s.guards
    ensures |es| <= 2 && (forall e :: e in es ==> e.WakeUp? || e.Destroy?) && Run(s, es, end) && Served(end, t, g)
  {
    if s.pool.idle != [] {
      TakeIdle(s, t, g);
      end := Next(s, WakeUp(t, g));
      es := [WakeUp(t, g)];
      RunStep(s, WakeUp(t, g), [], end);
      assert es == [WakeUp(t, g)] + [];
    } else {
      var h :| h in Holders(s);
      var wake := AnySleeper(s);
      var e := Destroy(h, Env(true, true, wake));
      LetGo(s, h, wake);
      es, end := TakeNext(s, e, t, g);
    }
  }

  /** Once a connection has come back, the woken thread takes it. */
  lemma TakeNext(s: Sys, e: Event, t: Thread, g: GuardId) returns (es: seq<Event>, end: Sys)
    requires Enabled(s, e) && e.Destroy? && Live(Next(s, e)) && Next(s, e).pool.idle != []
    requires t in Next(s, e).woken && g !in Next(s, e).guards
    ensures es == [e, WakeUp(t, g)] && Run(s, es, end) && Served(end, t, g)
  {
    TakeIdle(Next(s, e), t, g);
    end := Next(Next(s, e), WakeUp(t, g));
    RunStep(Next(s, e), WakeUp(t, g), [], end);
    assert [WakeUp(t, g)] == [WakeUp(t, g)] + [];
    RunStep(s, e, [WakeUp(t, g)], end);
    es := [e, WakeUp(t, g)];
    assert es == [e] + [WakeUp(t, g)];
  }

  lemma ServeAsleep(s: Sys, t: Thread, g: GuardId) returns (es: seq<Event>, end: Sys)
    requires Live(s) && t in s.asleep && g !in s.guards
    ensures |es| <= 3 && (forall e :: e in es ==> e.WakeUp? || e.Destroy?) && Run(s, es, end) && Served(end, t, g)
  {
    if h :| h in Holders(s) {
      LetGo(s, h, Some(t));
      es, end := TakeNext(s, Destroy(h, Env(true, true, Some(t))), t, g);
    } else {
      var u := SomeoneIsAwake(s);
      TakeIdle(s, u, g);
      var s1 := Next(s, WakeUp(u, g));
      var more;
      more, end := ServeAfterTaking(s1, t, g);
      RunStep(s, WakeUp(u, g), more, end);
      es := [WakeUp(u, g)] + more;
    }
  }

  lemma SomeoneIsAwake(s: Sys) returns (u: Thread)
    requires Live(s) && s.asleep != {} && Holders(s) == {}
    ensures u in s.woken && s.pool.idle != []
  {
    assert |Holders(s)| == 0;
    u :| u in s.woken;
  }

  /** The connection just taken is let go of and passed on. */
  lemma ServeAfterTaking(s: Sys, t: Thread, g: GuardId) returns (es: seq<Event>, end: Sys)
    requires Live(s) && t in s.asleep && g in Holders(s)
    ensures |es| == 2 && (forall e :: e in es ==> e.WakeUp? || e.Destroy?) && Run(s, es, end) && Served(end, t, g)
  {
    LetGo(s, g, Some(t));
    es, end := TakeNext(s, Destroy(g, Env(true, true, Some(t))), t, g);
  }

  lemma RunIsSound(es: seq<Event>, s: Sys)
    requires Run(NEW_SYS, es, s) && !s.aborted && s.pool.initialized
    ensures Sound(s)
  {
    RunIsPath(NEW_SYS, es, s);
    StartIsSafe();
    SafeAlong(NEW_SYS, es, s);
    assert Holders(NEW_SYS) == {};
    Along(NEW_SYS, es, s);
  }

  /** No waiting thread is shut out for good: in every state of every such run, each thread that waits
      on an open pool that has a connection can be served within three steps of others and itself,
      without any spurious wake-up: only releases, their notifications and woken threads taking the
      mutex. From a successful Init until Close or a failed Init the pool has a connection. */
  lemma EveryWaiterCanBeServed(es: seq<Event>, s: Sys, t: Thread, g: GuardId) returns (more: seq<Event>, end: Sys)
    requires Run(NEW_SYS, es, s) && !s.aborted && s.pool.initialized && Waiting(s, t) && g !in s.guards
    requires s.steady || HasConnection(s)
    ensures |more| <= 3 && (forall e :: e in more ==> e.WakeUp? || e.Destroy?)
    ensures Run(s, more, end) && Served(end, t, g)
  {
    RunIsSound(es, s);
    DeadlockFreedom(es, s, t, g);
    if t in s.woken {
      more, end := ServeWoken(s, t, g);
    } else {
      more, end := ServeAsleep(s, t, g);
    }
  }

  // --- Close drains ------------------------------------------------------------------------------------

  predicate Drained(s: Sys) {
    !s.pool.initialized && s.pool.closing && s.pool.idle == [] && s.asleep == {}
  }

  /** Close on a pool in use empties it and wakes everyone, in any state of any run. */
  lemma CloseDrains(s: Sys)
    requires Enabled(s, Close) && (s.pool.initialized || s.pool.closing)
    ensures Drained(Next(s, Close)) && Next(s, Close).woken == s.woken + s.asleep
  {}

  /** On a drained pool Acquire throws at once, a woken thread throws, and a return drops its connection. */
  lemma DrainedStep(s: Sys, e: Event)
    requires Drained(s) && Enabled(s, e) && !e.Init?
    ensures Drained(Next(s, e)) && !Next(s, e).aborted && Next(s, e).next == s.next
    ensures e.Acquire? ==> Enter(s.pool).1.NotInitialized? && Next(s, e) == s
    ensures e.WakeUp? ==> Resume(s.pool).1.Closing? && Next(s, e) == s.(woken := s.woken - {e.t})
    ensures !e.WakeUp? ==> Next(s, e).woken == s.woken
    ensures |Holders(Next(s, e))| <= |Holders(s)|
  {
    DrainedHolders(s, e);
  }

  lemma DrainedHolders(s: Sys, e: Event)
    requires Drained(s) && Enabled(s, e) && !e.Init?
    ensures |Holders(Next(s, e))| <= |Holders(s)|
  {
    var s1 := Next(s, e);
    match e
    case MoveConstruct(g, src, t) =>
      MovedCount(s, s1, g, src);
    case MoveAssign(g, src, env) =>
      if g != src {
        MovedCount(s, s1, g, src);
      }
    case _ =>
      Smaller(Holders(s1), Holders(s));
  }

  lemma MovedCount(s: Sys, s1: Sys, g: GuardId, src: GuardId)
    requires src in s.guards && g != src
    requires s1.guards == s.guards[g := s.guards[src]][src := EMPTY_GUARD]
    ensures |Holders(s1)| <= |Holders(s)|
  {
    if src in Holders(s) {
      assert Holders(s1) == Holders(s) - {src} + {g};
    } else {
      assert Holders(s1) == Holders(s) - {g};
    }
  }

  lemma {:induction false} Smaller(a: set<GuardId>, b: set<GuardId>)
    requires a <= b
    ensures |a| <= |b|
  {
    if a != {} {
      var x :| x in a;
      Smaller(a - {x}, b - {x});
    }
  }

  function WakeUps(es: seq<Event>): nat {
    if es == [] then 0 else (if es[0].WakeUp? then 1 else 0) + WakeUps(es[1..])
  }

  /** After Close and until a later Init: the pool stays empty, nobody goes to sleep, no connection is
      lent or opened, and each of the waiting threads leaves at its own next step: their number falls
      by one with each. */
  lemma {:induction false} ClosedPoolDrains(s: Sys, es: seq<Event>, end: Sys)
    requires Drained(s) && Path(s, es, end) && forall e :: e in es ==> !e.Init?
    ensures Drained(end) && end.woken <= s.woken && end.next == s.next && |Holders(end)| <= |Holders(s)|
    ensures |end.woken| + WakeUps(es) == |s.woken|
    decreases |es|
  {
    if es != [] {
      DrainedStep(s, es[0]);
      if es[0].WakeUp? {
        assert |s.woken - {es[0].t}| == |s.woken| - 1;
      }
      ClosedPoolDrains(Next(s, es[0]), es[1..], end);
    }
  }
}
