/** What holds in every reachable state of the pool, over all interleavings of all operations:
    exclusive ownership, first-in-first-out lending, and conservation of connections. */
module PoolSafety {
  import opened Bytes
  import opened PostgrePoolModel
  import opened PoolProtocol

  // --- Exclusive ownership -------------------------------------------------------------------------

  predicate Holds(guards: map<GuardId, Guard>, g: GuardId, c: Conn) {
    g in guards && guards[g].conn == Some(c)
  }

  /** No connection is queued twice, held by two guards, or both idle and held; identities from
      `next` on are unused; and a guard has a connection exactly when it knows its pool. */
  ghost predicate Owned(idle: seq<Conn>, guards: map<GuardId, Guard>, next: Conn) {
    && (forall i, j :: 0 <= i < j < |idle| ==> idle[i] != idle[j])
    && (forall i :: 0 <= i < |idle| ==> idle[i] < next)
    && (forall g: GuardId, c: Conn :: Holds(guards, g, c) ==> c < next && c !in idle)
    && (forall g1: GuardId, g2: GuardId, c: Conn :: Holds(guards, g1, c) && Holds(guards, g2, c) ==> g1 == g2)
    && (forall g :: g in guards ==> (guards[g].attached <==> guards[g].conn.Some?))
  }

  ghost predicate Exclusive(s: Sys) {
    Owned(s.pool.idle, s.guards, s.next) && s.guards.Keys == s.owner.Keys
  }

  lemma OwnedLent(idle: seq<Conn>, guards: map<GuardId, Guard>, next: Conn, g: GuardId)
    requires Owned(idle, guards, next) && idle != [] && g !in guards
    ensures Owned(idle[1..], guards[g := Guard(true, Some(idle[0]))], next)
  {
    var guards1 := guards[g := Guard(true, Some(idle[0]))];
    forall h: GuardId, c: Conn | Holds(guards1, h, c)
      ensures c < next && c !in idle[1..] && (h == g || Holds(guards, h, c))
    {
      assert h != g ==> Holds(guards, h, c);
    }
    assert idle[0] in idle;
  }

  lemma OwnedReturned(idle: seq<Conn>, guards: map<GuardId, Guard>, next: Conn, g: GuardId, c: Conn)
    requires Owned(idle, guards, next) && Holds(guards, g, c)
    ensures Owned(idle + [c], guards[g := EMPTY_GUARD], next)
  {
    var guards1 := guards[g := EMPTY_GUARD];
    forall h: GuardId, d: Conn | Holds(guards1, h, d) ensures Holds(guards, h, d) && h != g && d != c {
      assert Holds(guards, h, d);
    }
    assert forall i :: 0 <= i < |idle| ==> idle[i] in idle;
  }

  lemma OwnedReplaced(idle: seq<Conn>, guards: map<GuardId, Guard>, next: Conn, g: GuardId)
    requires Owned(idle, guards, next) && g in guards
    ensures Owned(idle + [next], guards[g := EMPTY_GUARD], next + 1)
  {
    OwnedDropped(idle, guards, next, g);
  }

  lemma OwnedDropped(idle: seq<Conn>, guards: map<GuardId, Guard>, next: Conn, g: GuardId)
    requires Owned(idle, guards, next)
    ensures Owned(idle, guards[g := EMPTY_GUARD], next) && Owned(idle, guards - {g}, next)
  {
    var emptied, removed := guards[g := EMPTY_GUARD], guards - {g};
    forall h: GuardId, d: Conn | Holds(emptied, h, d) ensures Holds(guards, h, d) {}
    forall h: GuardId, d: Conn | Holds(removed, h, d) ensures Holds(guards, h, d) {}
  }

  lemma OwnedMoved(idle: seq<Conn>, guards: map<GuardId, Guard>, next: Conn, g: GuardId, src: GuardId)
    requires Owned(idle, guards, next) && src in guards && g != src
    ensures Owned(idle, guards[g := guards[src]][src := EMPTY_GUARD], next)
  {
    var guards1 := guards[g := guards[src]][src := EMPTY_GUARD];
    forall h: GuardId, d: Conn | Holds(guards1, h, d) ensures Holds(guards, if h == g then src else h, d) && h != src {}
  }

  lemma ExclusiveAccess(s: Sys, t: Thread, g: GuardId, r: (Pool, Access))
    requires Exclusive(s) && g !in s.guards && (r == Enter(s.pool) || r == Resume(s.pool))
    ensures Exclusive(NextAccess(s, t, g, r))
  {
    if r.1.Granted? {
      OwnedLent(s.pool.idle, s.guards, s.next, g);
    }
  }

  lemma ExclusiveRelease(s: Sys, g: GuardId, env: Env)
    requires Exclusive(s) && g in s.guards
    ensures Exclusive(NextRelease(s, g, env))
    ensures NextRelease(s, g, env).guards[g] == EMPTY_GUARD
  {
    OwnedDropped(s.pool.idle, s.guards, s.next, g);
    if s.guards[g].conn.Some? {
      OwnedReturned(s.pool.idle, s.guards, s.next, g, s.guards[g].conn.value);
      OwnedReplaced(s.pool.idle, s.guards, s.next, g);
    }
  }

  lemma ExclusiveInit(s: Sys, size: nat, count: nat)
    requires Exclusive(s) && count <= size
    ensures Exclusive(NextInit(s, size, count))
  {}

  lemma ExclusiveKept(s: Sys, e: Event)
    requires Exclusive(s) && Enabled(s, e)
    ensures Exclusive(Next(s, e))
  {
    match e
    case Init(size, count) => ExclusiveInit(s, size, count);
    case Acquire(t, g) => ExclusiveAccess(s, t, g, Enter(s.pool));
    case WakeUp(t, g) => ExclusiveAccess(s.(woken := s.woken - {t}), t, g, Resume(s.pool));
    case Spurious(_) =>
    case DefaultGuard(g, t) => OwnedDropped(s.pool.idle, s.guards, s.next, g);
    case MoveConstruct(g, src, t) => ExclusiveMoveConstruct(s, g, src, t);
    case MoveAssign(g, src, env) => ExclusiveMoveAssign(s, g, src, env);
    case Destroy(g, env) => ExclusiveDestroy(s, g, env);
    case Close =>
  }

  lemma ExclusiveMoveConstruct(s: Sys, g: GuardId, src: GuardId, t: Thread)
    requires Exclusive(s) && Enabled(s, MoveConstruct(g, src, t))
    ensures Exclusive(Next(s, MoveConstruct(g, src, t)))
  {
    OwnedMoved(s.pool.idle, s.guards, s.next, g, src);
    assert s.guards[src := EMPTY_GUARD][g := s.guards[src]] == s.guards[g := s.guards[src]][src := EMPTY_GUARD];
  }

  lemma ExclusiveMoveAssign(s: Sys, g: GuardId, src: GuardId, env: Env)
    requires Exclusive(s) && Enabled(s, MoveAssign(g, src, env))
    ensures Exclusive(Next(s, MoveAssign(g, src, env)))
  {
    if g != src {
      var s1 := NextRelease(s, g, env);
      ExclusiveRelease(s, g, env);
      OwnedMoved(s1.pool.idle, s1.guards, s1.next, g, src);
    }
  }

  lemma ExclusiveDestroy(s: Sys, g: GuardId, env: Env)
    requires Exclusive(s) && Enabled(s, Destroy(g, env))
    ensures Exclusive(Next(s, Destroy(g, env)))
  {
    var s1 := NextRelease(s, g, env);
    ExclusiveRelease(s, g, env);
    OwnedDropped(s1.pool.idle, s1.guards, s1.next, g);
  }

  // --- First in, first out -------------------------------------------------------------------------

  /** Connections are lent in the order they became idle. */
  predicate Fifo(s: Sys) {
    s.queued == s.lent + s.pool.idle
  }

  lemma FifoAccess(s: Sys, t: Thread, g: GuardId, r: (Pool, Access))
    requires Fifo(s) && (r == Enter(s.pool) || r == Resume(s.pool))
    ensures Fifo(NextAccess(s, t, g, r))
  {
    if r.1.Granted? {
      assert s.pool.idle == [s.pool.idle[0]] + s.pool.idle[1..];
    }
  }

  lemma FifoRelease(s: Sys, g: GuardId, env: Env)
    requires Fifo(s) && g in s.guards
    ensures Fifo(NextRelease(s, g, env))
  {}

  lemma FifoKept(s: Sys, e: Event)
    requires Fifo(s) && Enabled(s, e)
    ensures Fifo(Next(s, e))
  {
    match e
    case Acquire(t, g) => FifoAccess(s, t, g, Enter(s.pool));
    case WakeUp(t, g) => FifoAccess(s.(woken := s.woken - {t}), t, g, Resume(s.pool));
    case MoveAssign(g, src, env) => FifoRelease(s, g, env);
    case Destroy(g, env) => FifoRelease(s, g, env);
    case _ =>
  }

  // --- Conservation --------------------------------------------------------------------------------

  /** Between a successful Init and the next Close or failed Init, idle and held connections add up
      to the pool size and the guards that were out when Init ran. */
  predicate Conserved(s: Sys) {
    && (s.steady ==> s.pool.initialized && !s.pool.closing && s.pool.poolSize > 0
                     && |s.pool.idle| + |Holders(s)| == s.pool.poolSize + s.base)
    && (s.inits <= 1 ==> s.base == 0)
    && (s.inits == 0 ==> !s.pool.initialized && Holders(s) == {} && s.asleep == {} && s.woken == {})
  }

  lemma HoldersPlaced(s: Sys, g: GuardId, guard: Guard, t: Thread)
    requires g !in s.guards
    ensures Holders(Place(s, g, guard, t)) == Holders(s) + (if guard.conn.Some? then {g} else {})
  {}

  lemma HoldersReleased(s: Sys, g: GuardId, env: Env)
    requires g in s.guards && s.guards[g].attached == s.guards[g].conn.Some?
    ensures Holders(NextRelease(s, g, env)) == Holders(s) - {g}
  {}

  lemma ConservedRelease(s: Sys, g: GuardId, env: Env)
    requires Conserved(s) && g in s.guards && s.guards[g].attached == s.guards[g].conn.Some?
    ensures NextRelease(s, g, env).aborted || Conserved(NextRelease(s, g, env))
  {
    HoldersReleased(s, g, env);
  }

  lemma ConservedAccess(s: Sys, t: Thread, g: GuardId, r: (Pool, Access))
    requires Conserved(s) && g !in s.guards && (r == Enter(s.pool) || (r == Resume(s.pool) && s.inits > 0))
    ensures Conserved(NextAccess(s, t, g, r))
  {
    if r.1.Granted? {
      HoldersPlaced(s, g, Guard(true, Some(r.1.conn)), t);
      assert Holders(NextAccess(s, t, g, r)) == Holders(Place(s, g, Guard(true, Some(r.1.conn)), t));
    }
  }

  lemma ConservedMove(s: Sys, g: GuardId, src: GuardId)
    requires Conserved(s) && src in s.guards && g != src && (g in s.guards ==> s.guards[g].conn.None?)
    ensures Conserved(s.(guards := s.guards[g := s.guards[src]][src := EMPTY_GUARD]))
  {
    var s1 := s.(guards := s.guards[g := s.guards[src]][src := EMPTY_GUARD]);
    if src in Holders(s) {
      assert Holders(s1) == Holders(s) - {src} + {g};
    } else {
      assert Holders(s1) == Holders(s);
    }
  }

  lemma ConservedKept(s: Sys, e: Event)
    requires Exclusive(s) && Conserved(s) && Enabled(s, e)
    ensures Next(s, e).aborted || Conserved(Next(s, e))
  {
    match e
    case Init(size, count) => assert Holders(NextInit(s, size, count)) == Holders(s);
    case Acquire(t, g) => ConservedAccess(s, t, g, Enter(s.pool));
    case WakeUp(t, g) =>
      assert Conserved(s.(woken := s.woken - {t}));
      ConservedAccess(s.(woken := s.woken - {t}), t, g, Resume(s.pool));
    case DefaultGuard(g, t) => HoldersPlaced(s, g, EMPTY_GUARD, t);
    case MoveConstruct(g, src, t) => ConservedMoveConstruct(s, g, src, t);
    case MoveAssign(g, src, env) => ConservedMoveAssign(s, g, src, env);
    case Destroy(g, env) => ConservedDestroy(s, g, env);
    case Spurious(_) => assert Holders(Next(s, e)) == Holders(s);
    case Close => assert Holders(NextClose(s)) == Holders(s);
  }

  lemma ConservedMoveConstruct(s: Sys, g: GuardId, src: GuardId, t: Thread)
    requires Conserved(s) && Enabled(s, MoveConstruct(g, src, t))
    ensures Conserved(Next(s, MoveConstruct(g, src, t)))
  {
    var moved := s.(guards := s.guards[g := s.guards[src]][src := EMPTY_GUARD]);
    ConservedMove(s, g, src);
    assert Holders(Next(s, MoveConstruct(g, src, t))) == Holders(moved);
  }

  lemma ConservedMoveAssign(s: Sys, g: GuardId, src: GuardId, env: Env)
    requires Exclusive(s) && Conserved(s) && Enabled(s, MoveAssign(g, src, env))
    ensures Next(s, MoveAssign(g, src, env)).aborted || Conserved(Next(s, MoveAssign(g, src, env)))
  {
    if g != src {
      ConservedRelease(s, g, env);
      ExclusiveRelease(s, g, env);
      if !NextRelease(s, g, env).aborted {
        ConservedMove(NextRelease(s, g, env), g, src);
      }
    }
  }

  lemma ConservedDestroy(s: Sys, g: GuardId, env: Env)
    requires Exclusive(s) && Conserved(s) && Enabled(s, Destroy(g, env))
    ensures Next(s, Destroy(g, env)).aborted || Conserved(Next(s, Destroy(g, env)))
  {
    ConservedRelease(s, g, env);
    ExclusiveRelease(s, g, env);
    assert Holders(Removed(NextRelease(s, g, env), g)) == Holders(NextRelease(s, g, env));
  }

  // --- Every reachable state ------------------------------------------------------------------------

  ghost predicate Safe(s: Sys) {
    Exclusive(s) && Fifo(s) && (s.aborted || Conserved(s))
  }

  lemma {:induction false} SafeAlong(s: Sys, es: seq<Event>, end: Sys)
    requires Safe(s) && Path(s, es, end)
    ensures Safe(end)
    decreases |es|
  {
    if es != [] {
      ExclusiveKept(s, es[0]);
      FifoKept(s, es[0]);
      ConservedKept(s, es[0]);
      SafeAlong(Next(s, es[0]), es[1..], end);
    }
  }

  /** Exclusive ownership, FIFO lending and conservation in every reachable state of every run. */
  lemma EveryRunIsSafe(es: seq<Event>, s: Sys)
    requires Path(NEW_SYS, es, s)
    ensures Exclusive(s)
    ensures s.queued == s.lent + s.pool.idle
    ensures s.steady && !s.aborted ==> |s.pool.idle| + |Holders(s)| == s.pool.poolSize + s.base
    ensures s.inits == 1 && s.steady && !s.aborted ==> |s.pool.idle| + |Holders(s)| == s.pool.poolSize
  {
    StartIsSafe();
    SafeAlong(NEW_SYS, es, s);
  }

  lemma StartIsSafe()
    ensures Safe(NEW_SYS)
  {
    assert Holders(NEW_SYS) == {};
  }

  // --- The pool is a counting semaphore ---------------------------------------------------------------

  datatype Semaphore = Semaphore(permits: nat, capacity: nat)

  function Abstract(s: Sys): Semaphore {
    Semaphore(|s.pool.idle|, s.pool.poolSize + s.base)
  }

  predicate Takes(a: Semaphore, b: Semaphore) {
    a.permits > 0 && b == a.(permits := a.permits - 1)
  }

  predicate Gives(a: Semaphore, b: Semaphore) {
    a.permits < a.capacity && b == a.(permits := a.permits + 1)
  }

  /** Refinement: until the next Init or Close, a thread at the pool takes a permit exactly when there
      is one, a guard that lets go of a connection gives one back, and nothing else touches them. */
  lemma RefinesSemaphore(s: Sys, e: Event)
    requires Safe(s) && s.steady && Enabled(s, e) && !e.Init? && !e.Close?
    ensures var s1 := Next(s, e);
            var a, b := Abstract(s), Abstract(s1);
            if e.Acquire? || e.WakeUp? then (if a.permits > 0 then Takes(a, b) else b == a)
            else if (e.Destroy? || (e.MoveAssign? && e.g != e.src)) && e.g in Holders(s)
            then s1.aborted || Gives(a, b)
            else b == a
  {
    if (e.Destroy? || e.MoveAssign?) && e.g in Holders(s) {
      assert |Holders(s)| > 0;
    }
  }
}
