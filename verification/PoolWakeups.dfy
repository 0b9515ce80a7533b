/** Which calls of Init keep every wake-up, over whole runs. Init notifies nobody, so whether a
    sleeper can be forgotten depends on who is asleep and who is awake when it is called. */
module PoolWakeups {
  import opened PostgrePoolModel
  import opened PoolProtocol

  /** Nobody sleeps on a pool that is not open, and every idle connection has a woken thread on its way. */
  predicate NoLostWakeup(s: Sys) {
    s.asleep != {} ==> s.pool.initialized && |s.pool.idle| <= |s.woken|
  }

  /** The test before a call of Init that opens `count` of `size` connections. If the pool is open
      afterwards: nobody sleeps, or enough threads are awake for the new connections. If it is not:
      nobody sleeps, and there is a new connection for each woken thread. */
  predicate InitGuard(s: Sys, size: nat, count: nat) {
    size == 0
    || (if s.pool.initialized || count == size then s.asleep == {} || count <= |s.woken|
        else s.asleep == {} && |s.woken| <= count)
  }

  predicate InitDiscipline(s: Sys, e: Event) {
    e.Init? ==> InitGuard(s, e.size, e.count)
  }

  ghost predicate Disciplined(s: Sys, es: seq<Event>)
    decreases |es|
  {
    es != [] ==> Enabled(s, es[0]) && InitDiscipline(s, es[0]) && Disciplined(Next(s, es[0]), es[1..])
  }

  predicate InitFree(es: seq<Event>) {
    forall e :: e in es ==> !e.Init?
  }

  /** No wake-up is lost from here on, until Init is called again. */
  ghost predicate NeverLoses(s: Sys) {
    forall es: seq<Event>, end: Sys :: InitFree(es) && Path(s, es, end) ==> NoLostWakeup(end)
  }

  // --- The invariant -----------------------------------------------------------------------------

  /** What every run keeps, whatever its calls of Init. */
  predicate Consistent(s: Sys) {
    s.asleep !! s.woken && (s.pool.initialized ==> !s.pool.closing)
  }

  predicate Wakeful(s: Sys) {
    && Consistent(s)
    && NoLostWakeup(s)
    && (!s.pool.initialized ==> s.pool.closing || |s.woken| <= |s.pool.idle|)
  }

  lemma ConsistentKept(s: Sys, e: Event)
    requires Consistent(s) && Enabled(s, e)
    ensures Consistent(Next(s, e))
  {}

  lemma {:induction false} ConsistentAlong(s: Sys, es: seq<Event>, end: Sys)
    requires Consistent(s) && Path(s, es, end)
    ensures Consistent(end)
    decreases |es|
  {
    if es != [] {
      ConsistentKept(s, es[0]);
      ConsistentAlong(Next(s, es[0]), es[1..], end);
    }
  }

  lemma WakefulAcquire(s: Sys, t: Thread, g: GuardId)
    requires Wakeful(s) && Enabled(s, Acquire(t, g))
    ensures Wakeful(Next(s, Acquire(t, g)))
  {}

  lemma WakefulWakeUp(s: Sys, t: Thread, g: GuardId)
    requires Wakeful(s) && Enabled(s, WakeUp(t, g))
    ensures Wakeful(Next(s, WakeUp(t, g)))
  {
    assert |s.woken - {t}| == |s.woken| - 1;
  }

  lemma WakefulRelease(s: Sys, g: GuardId, env: Env)
    requires Wakeful(s) && g in s.guards && WakeFits(s, env)
    ensures Wakeful(NextRelease(s, g, env))
  {
    if env.wake.Some? {
      assert |s.woken + {env.wake.value}| == |s.woken| + 1;
    }
  }

  lemma WakefulKept(s: Sys, e: Event)
    requires Wakeful(s) && Enabled(s, e) && InitDiscipline(s, e)
    ensures Wakeful(Next(s, e))
  {
    match e
    case Acquire(t, g) => WakefulAcquire(s, t, g);
    case WakeUp(t, g) => WakefulWakeUp(s, t, g);
    case Spurious(t) => assert |s.woken + {t}| == |s.woken| + 1;
    case MoveAssign(g, src, env) =>
      if g != src {
        WakefulRelease(s, g, env);
      }
    case Destroy(g, env) => WakefulRelease(s, g, env);
    case _ =>
  }

  lemma {:induction false} WakefulAlong(s: Sys, es: seq<Event>, end: Sys)
    requires Wakeful(s) && Path(s, es, end) && Disciplined(s, es)
    ensures Wakeful(end)
    decreases |es|
  {
    if es != [] {
      WakefulKept(s, es[0]);
      WakefulAlong(Next(s, es[0]), es[1..], end);
    }
  }

  /** No lost wake-up in any disciplined run, despite spurious wake-ups and threads that overtake a
      woken one. */
  lemma NoWakeupIsLost(es: seq<Event>, s: Sys)
    requires Path(NEW_SYS, es, s) && Disciplined(NEW_SYS, es)
    ensures s.asleep != {} ==> s.pool.initialized && |s.pool.idle| <= |s.woken|
    ensures s.asleep !! s.woken
  {
    WakefulAlong(NEW_SYS, es, s);
  }

  /** The documented use, a successful Init on a pool that is not initialised, always passes the test. */
  lemma FirstInitPasses(es: seq<Event>, s: Sys, size: nat)
    requires Path(NEW_SYS, es, s) && Disciplined(NEW_SYS, es) && !s.pool.initialized
    ensures InitGuard(s, size, size)
  {
    WakefulAlong(NEW_SYS, es, s);
  }

  // --- The test is exact -------------------------------------------------------------------------

  lemma {:induction false} InitFreeIsDisciplined(s: Sys, es: seq<Event>, end: Sys)
    requires Path(s, es, end) && InitFree(es)
    ensures Disciplined(s, es)
    decreases |es|
  {
    if es != [] {
      InitFreeIsDisciplined(Next(s, es[0]), es[1..], end);
    }
  }

  lemma FreshGuard(taken: set<GuardId>) returns (g: GuardId)
    ensures g !in taken
  {
    g := 0;
    var below: set<GuardId> := {};
    while g in taken
      invariant below <= taken && forall h: GuardId :: h in below <==> h < g
      decreases |taken - below|
    {
      assert taken - (below + {g}) == (taken - below) - {g};
      below := below + {g};
      g := g + 1;
    }
  }

  lemma PathCons(s: Sys, e: Event, es: seq<Event>, end: Sys)
    requires Enabled(s, e) && Path(Next(s, e), es, end)
    ensures Path(s, [e] + es, end)
  {
    assert ([e] + es)[1..] == es;
  }

  /** A pool that is neither initialised nor closing, with more woken threads than connections: they
      take what there is, and the next one goes to sleep. */
  lemma {:induction false} OneGoesToSleep(s: Sys) returns (es: seq<Event>, end: Sys)
    requires Consistent(s) && !s.aborted && !s.pool.initialized && !s.pool.closing && |s.woken| > |s.pool.idle|
    ensures Path(s, es, end) && (forall e :: e in es ==> e.WakeUp?) && !NoLostWakeup(end)
    decreases |s.pool.idle|
  {
    var t :| t in s.woken;
    var g := FreshGuard(s.guards.Keys);
    var s1 := Next(s, WakeUp(t, g));
    var more: seq<Event> := [];
    if s.pool.idle == [] {
      end := s1;
    } else {
      assert |s.woken - {t}| == |s.woken| - 1;
      more, end := OneGoesToSleep(s1);
    }
    PathCons(s, WakeUp(t, g), more, end);
    es := [WakeUp(t, g)] + more;
  }

  /** The invariant is exactly what keeps the guarantee for the rest of the run. */
  lemma WakefulExactly(s: Sys)
    requires Consistent(s) && !s.aborted
    ensures Wakeful(s) <==> NeverLoses(s)
  {
    if Wakeful(s) {
      forall es: seq<Event>, end: Sys | InitFree(es) && Path(s, es, end) ensures NoLostWakeup(end) {
        InitFreeIsDisciplined(s, es, end);
        WakefulAlong(s, es, end);
      }
    } else {
      assert Path(s, [], s) && InitFree([]);
      if NoLostWakeup(s) {
        var es, end := OneGoesToSleep(s);
      }
    }
  }

  /** The exact condition, in every state of every run: after Init no wake-up is lost for as long as
      Init is not called again, if and only if the call passed the test. */
  lemma InitIsSafeExactly(es: seq<Event>, s: Sys, size: nat, count: nat)
    requires Path(NEW_SYS, es, s) && Enabled(s, Init(size, count)) && size > 0
    ensures InitGuard(s, size, count) <==> NeverLoses(Next(s, Init(size, count)))
  {
    ConsistentAlong(NEW_SYS, es, s);
    InitGuardIsWakeful(s, size, count);
  }

  lemma InitGuardIsWakeful(s: Sys, size: nat, count: nat)
    requires Consistent(s) && Enabled(s, Init(size, count)) && size > 0
    ensures InitGuard(s, size, count) <==> NeverLoses(Next(s, Init(size, count)))
    ensures InitGuard(s, size, count) <==> Wakeful(Next(s, Init(size, count)))
  {
    WakefulExactly(Next(s, Init(size, count)));
  }

  /** The same for whole runs: all calls of Init pass the test if and only if no beginning of the run
      can go on, without Init, to a lost wake-up. */
  lemma DisciplineExactly(es: seq<Event>, s: Sys)
    requires Path(NEW_SYS, es, s)
    ensures Disciplined(NEW_SYS, es) <==>
            forall k: nat, more: seq<Event>, end: Sys ::
              k <= |es| && InitFree(more) && Path(NEW_SYS, es[..k] + more, end) ==> NoLostWakeup(end)
  {
    if Disciplined(NEW_SYS, es) {
      forall k: nat, more: seq<Event>, end: Sys | k <= |es| && InitFree(more) && Path(NEW_SYS, es[..k] + more, end)
        ensures NoLostWakeup(end)
      {
        WakefulBranch(NEW_SYS, es, k, more, end);
      }
    } else {
      var k, more, end := FirstMistake(NEW_SYS, es, s);
    }
  }

  lemma {:induction false} WakefulBranch(s: Sys, es: seq<Event>, k: nat, more: seq<Event>, end: Sys)
    requires Wakeful(s) && Disciplined(s, es) && k <= |es| && InitFree(more) && Path(s, es[..k] + more, end)
    ensures Wakeful(end)
    decreases k
  {
    var branch := es[..k] + more;
    if k == 0 {
      assert branch == more;
      InitFreeIsDisciplined(s, more, end);
      WakefulAlong(s, more, end);
    } else {
      assert branch[0] == es[0] && branch[1..] == es[1..][..k - 1] + more;
      WakefulKept(s, es[0]);
      WakefulBranch(Next(s, es[0]), es[1..], k - 1, more, end);
    }
  }

  /** After the first call of Init that fails the test, a wake-up can be lost. */
  lemma {:induction false} FirstMistake(s: Sys, es: seq<Event>, last: Sys)
    returns (k: nat, more: seq<Event>, end: Sys)
    requires Wakeful(s) && Path(s, es, last) && !Disciplined(s, es)
    ensures k <= |es| && InitFree(more) && Path(s, es[..k] + more, end) && !NoLostWakeup(end)
    decreases |es|
  {
    var s1 := Next(s, es[0]);
    if InitDiscipline(s, es[0]) {
      WakefulKept(s, es[0]);
      k, more, end := FirstMistake(s1, es[1..], last);
      PathCons(s, es[0], es[1..][..k] + more, end);
      FirstThenBranch(es, k, more);
      k := k + 1;
    } else {
      more, end := AfterMistake(s, es[0].size, es[0].count);
      k := 1;
      assert es[..1] == [es[0]];
    }
  }

  lemma FirstThenBranch(es: seq<Event>, k: nat, more: seq<Event>)
    requires k < |es|
    ensures es[..k + 1] + more == [es[0]] + (es[1..][..k] + more)
  {}

  lemma AfterMistake(s: Sys, size: nat, count: nat) returns (more: seq<Event>, end: Sys)
    requires Wakeful(s) && Enabled(s, Init(size, count)) && !InitGuard(s, size, count)
    ensures InitFree(more) && Path(s, [Init(size, count)] + more, end) && !NoLostWakeup(end)
  {
    InitGuardIsWakeful(s, size, count);
    more, end :| InitFree(more) && Path(Next(s, Init(size, count)), more, end) && !NoLostWakeup(end);
    PathCons(s, Init(size, count), more, end);
  }

  // --- Runs that fail the test ---------------------------------------------------------------------

  /** Init on a pool in use: it leaves a sleeper behind with any number of idle connections and
      nobody woken. */
  lemma ReinitLosesWakeup(size: nat) returns (es: seq<Event>, s: Sys)
    requires size > 0
    ensures Path(NEW_SYS, es, s) && !s.aborted && s.pool.initialized
    ensures s.asleep == {2} && s.woken == {} && |s.pool.idle| == size
  {
    es, s := SleeperRun();
    es, s := Extend(es, s, Init(size, size));
  }

  /** A failed Init after Close: it takes the closing mark away, so a thread that Close has woken goes
      back to sleep on a pool that is not initialised, where Close does nothing any more. */
  lemma FailedInitStrandsSleeper() returns (es: seq<Event>, s: Sys)
    ensures Path(NEW_SYS, es, s) && !s.aborted && !s.pool.initialized && !s.pool.closing
    ensures s.asleep == {2} && s.woken == {} && Next(s, Close) == s
  {
    es, s := SleeperRun();
    es, s := Extend(es, s, Close);
    es, s := Extend(es, s, Init(1, 0));
    assert s.pool.idle == [];
    es, s := Extend(es, s, WakeUp(2, 3));
  }

  /** Such a sleeper stays asleep: neither Close nor a returned connection wakes it, only a spurious
      wake-up or a later Init and what follows it can. */
  lemma {:induction false} StrandedStaysAsleep(s: Sys, es: seq<Event>, end: Sys)
    requires Path(s, es, end) && !s.pool.initialized && !s.pool.closing
    requires forall e :: e in es ==> !e.Init? && !e.Spurious?
    ensures s.asleep <= end.asleep && !end.pool.initialized && !end.pool.closing
    decreases |es|
  {
    if es != [] {
      StrandedStaysAsleep(Next(s, es[0]), es[1..], end);
    }
  }

  /** A pool of one connection, lent to one thread, with another asleep. */
  lemma SleeperRun() returns (es: seq<Event>, s: Sys)
    ensures Path(NEW_SYS, es, s) && !s.aborted && s.pool.initialized && !s.pool.closing
    ensures s.guards.Keys == {1} && s.asleep == {2} && s.woken == {}
  {
    es, s := LentOutRun();
    es, s := Extend(es, s, Acquire(2, 2));
  }

  lemma LentOutRun() returns (es: seq<Event>, s: Sys)
    ensures Path(NEW_SYS, es, s) && !s.aborted && s.pool == Pool([], true, false, 1)
    ensures s.guards.Keys == {1} && s.asleep == {} && s.woken == {}
  {
    es, s := OpenRun();
    es, s := Extend(es, s, Acquire(1, 1));
    assert [0][1..] == [];
  }

  lemma OpenRun() returns (es: seq<Event>, s: Sys)
    ensures Path(NEW_SYS, es, s) && !s.aborted && s.pool == Pool([0], true, false, 1)
    ensures s.guards == map[] && s.asleep == {} && s.woken == {}
  {
    es, s := Extend([], NEW_SYS, Init(1, 1));
    assert NewConns(0, 1) == [0];
  }
}
