/** Which connections are in the pool or with a thread, and when they come and go: in particular what
    becomes of one that is found closed when it is returned. */
module PoolReplacement {
  import opened PostgrePoolModel
  import opened PoolProtocol
  import opened PoolSafety

  predicate InUse(p: Pool) {
    p.initialized && !p.closing
  }

  /** The connection waits in the queue or is held by a guard. */
  ghost predicate Present(s: Sys, c: Conn) {
    c in s.pool.idle || exists g: GuardId :: Holds(s.guards, g, c)
  }

  /** The event makes a guard let go of this connection. */
  predicate LetsGo(s: Sys, e: Event, c: Conn) {
    (e.Destroy? || (e.MoveAssign? && e.g != e.src)) && Holds(s.guards, e.g, c)
  }

  /** The event opens a connection in place of the one it lets go of. */
  predicate Replaces(s: Sys, g: GuardId, env: Env) {
    g in s.guards && s.guards[g].conn.Some? && InUse(s.pool) && !env.open && env.reconnects
  }

  // --- What each step does to the connections -----------------------------------------------------

  lemma AfterAccess(s: Sys, t: Thread, g: GuardId, r: (Pool, Access), c: Conn)
    requires g !in s.guards && (r == Enter(s.pool) || r == Resume(s.pool))
    ensures Present(NextAccess(s, t, g, r), c) <==> Present(s, c)
  {
    var s1 := NextAccess(s, t, g, r);
    if r.1.Granted? {
      assert s.pool.idle == [r.1.conn] + s1.pool.idle;
      assert Holds(s1.guards, g, r.1.conn);
      assert forall h: GuardId, d: Conn :: h != g ==> (Holds(s1.guards, h, d) <==> Holds(s.guards, h, d));
    }
  }

  lemma AfterRelease(s: Sys, g: GuardId, env: Env, c: Conn)
    requires Exclusive(s) && g in s.guards
    ensures Present(NextRelease(s, g, env), c) <==>
            if Holds(s.guards, g, c) then InUse(s.pool) && env.open
            else Present(s, c) || (c == s.next && Replaces(s, g, env))
  {
    var s1 := NextRelease(s, g, env);
    assert forall h: GuardId, d: Conn :: Holds(s1.guards, h, d) <==> h != g && Holds(s.guards, h, d);
    if s.guards[g].conn.Some? {
      assert Holds(s.guards, g, s.guards[g].conn.value);
    }
  }

  /** Moving a guard's connection to one that has none changes nothing. */
  lemma AfterMove(s: Sys, s1: Sys, g: GuardId, src: GuardId, c: Conn)
    requires s1.pool == s.pool && src in s.guards && g != src && (g in s.guards ==> s.guards[g].conn.None?)
    requires s1.guards == s.guards[g := s.guards[src]][src := EMPTY_GUARD]
    ensures Present(s1, c) <==> Present(s, c)
  {
    assert Holds(s.guards, src, c) <==> Holds(s1.guards, g, c);
    assert forall h: GuardId :: h != g && h != src ==> (Holds(s1.guards, h, c) <==> Holds(s.guards, h, c));
  }

  lemma AfterRemoval(s: Sys, g: GuardId, c: Conn)
    requires g in s.guards && s.guards[g].conn.None?
    ensures Present(Removed(s, g), c) <==> Present(s, c)
  {
    assert forall h: GuardId :: Holds(Removed(s, g).guards, h, c) <==> Holds(s.guards, h, c);
  }

  lemma AfterDestroy(s: Sys, g: GuardId, env: Env, c: Conn)
    requires Exclusive(s) && Enabled(s, Destroy(g, env))
    ensures Present(Next(s, Destroy(g, env)), c) <==> Present(NextRelease(s, g, env), c)
  {
    ExclusiveRelease(s, g, env);
    AfterRemoval(NextRelease(s, g, env), g, c);
  }

  lemma AfterMoveAssign(s: Sys, g: GuardId, src: GuardId, env: Env, c: Conn)
    requires Exclusive(s) && Enabled(s, MoveAssign(g, src, env)) && g != src
    ensures Present(Next(s, MoveAssign(g, src, env)), c) <==> Present(NextRelease(s, g, env), c)
  {
    var s1 := NextRelease(s, g, env);
    ExclusiveRelease(s, g, env);
    if !s1.aborted {
      AfterMove(s1, Moved(s1, g, src), g, src, c);
    }
  }

  lemma AfterMoveConstruct(s: Sys, g: GuardId, src: GuardId, t: Thread, c: Conn)
    requires Enabled(s, MoveConstruct(g, src, t))
    ensures Present(Next(s, MoveConstruct(g, src, t)), c) <==> Present(s, c)
  {
    var s1 := Next(s, MoveConstruct(g, src, t));
    assert s1.guards == s.guards[g := s.guards[src]][src := EMPTY_GUARD];
    AfterMove(s, s1, g, src, c);
  }

  lemma AfterInit(s: Sys, size: nat, count: nat, c: Conn)
    requires Exclusive(s) && count <= size && size > 0
    ensures Present(NextInit(s, size, count), c) <==>
            (Present(s, c) && c !in s.pool.idle) || s.next <= c < s.next + count
  {
    var conns := NewConns(s.next, count);
    if s.next <= c < s.next + count {
      assert conns[c - s.next] == c;
    }
    SameGuards(s, NextInit(s, size, count), c);
  }

  lemma SameGuards(s: Sys, s1: Sys, c: Conn)
    requires forall h: GuardId :: Holds(s1.guards, h, c) <==> Holds(s.guards, h, c)
    ensures Present(s1, c) <==> c in s1.pool.idle || exists g: GuardId :: Holds(s.guards, g, c)
  {}

  // --- When connections come and go ------------------------------------------------------------------

  /** An idle connection that the step empties out of the queue, or one that it lets go of without
      putting it there. */
  predicate Leaves(s: Sys, e: Event, c: Conn) {
    || (c in s.pool.idle && e.Init? && e.size > 0)
    || (c in s.pool.idle && e.Close? && (s.pool.initialized || s.pool.closing))
    || (LetsGo(s, e, c) && !(InUse(s.pool) && e.env.open))
  }

  /** How many identities a step uses up. */
  function Opened(s: Sys, e: Event): nat {
    match e
    case Init(size, count) => if size > 0 then count else 0
    case Destroy(g, env) => if Replaces(s, g, env) then 1 else 0
    case MoveAssign(g, src, env) => if g != src && Replaces(s, g, env) then 1 else 0
    case _ => 0
  }

  lemma PresentAfterRelease(s: Sys, e: Event, g: GuardId, env: Env, c: Conn)
    requires Exclusive(s) && Enabled(s, e)
    requires e == Destroy(g, env) || (e.MoveAssign? && e.g == g && e.env == env && e.g != e.src)
    ensures Next(s, e).next == s.next + (if Replaces(s, g, env) then 1 else 0)
    ensures Present(Next(s, e), c) <==>
            if Holds(s.guards, g, c) then InUse(s.pool) && env.open
            else Present(s, c) || (c == s.next && Replaces(s, g, env))
  {
    if e.Destroy? {
      AfterDestroy(s, g, env, c);
    } else {
      AfterMoveAssign(s, g, e.src, env, c);
    }
    AfterRelease(s, g, env, c);
  }

  /** Exactly: in the system after a step is what was there before it and did not leave, and the
      identities it uses up, which are all new. */
  lemma PresentExactly(s: Sys, e: Event, c: Conn)
    requires Exclusive(s) && Enabled(s, e)
    ensures Next(s, e).next == s.next + Opened(s, e)
    ensures Present(Next(s, e), c) <==> (Present(s, c) && !Leaves(s, e, c)) || s.next <= c < s.next + Opened(s, e)
  {
    match e
    case Init(size, count) =>
      if size > 0 {
        AfterInit(s, size, count, c);
      }
    case Acquire(t, g) => AfterAccess(s, t, g, Enter(s.pool), c);
    case WakeUp(t, g) => AfterAccess(s.(woken := s.woken - {t}), t, g, Resume(s.pool), c);
    case Spurious(_) =>
    case DefaultGuard(g, t) => SameGuards(s, Next(s, e), c);
    case MoveConstruct(g, src, t) => AfterMoveConstruct(s, g, src, t, c);
    case MoveAssign(g, src, env) =>
      if g != src {
        PresentAfterRelease(s, e, g, env, c);
      }
    case Destroy(g, env) => PresentAfterRelease(s, e, g, env, c);
    case Close => SameGuards(s, Next(s, e), c);
  }

  /** What Init leaves behind, also when it fails after some connections: those, all new and in the
      order they were opened, and a pool that is not closing; it is initialised if it was or all were
      opened. For size zero nothing happens. */
  lemma InitExactly(s: Sys, size: nat, count: nat)
    requires Enabled(s, Init(size, count))
    ensures var p := Next(s, Init(size, count)).pool;
            if size == 0 then p == s.pool
            else |p.idle| == count && (forall i :: 0 <= i < count ==> p.idle[i] == s.next + i)
                 && !p.closing && p.poolSize == size && (p.initialized <==> s.pool.initialized || count == size)
  {}

  /** What the queue makes of a connection that a guard lets go of, in every state of every run. A pool
      not in use drops it. In a pool in use it goes to the back of the queue if it is still open; if not,
      a connection opened just now goes there instead; and the process ends if and only if that fails. */
  lemma ReturnExactly(es: seq<Event>, s: Sys, e: Event, c: Conn)
    requires Path(NEW_SYS, es, s) && Enabled(s, e) && LetsGo(s, e, c)
    ensures var s1 := Next(s, e);
            && (s1.aborted <==> InUse(s.pool) && !e.env.open && !e.env.reconnects)
            && s1.pool == (if !InUse(s.pool) || s1.aborted then s.pool
                           else s.pool.(idle := s.pool.idle + [if e.env.open then c else s.next]))
            && (Present(s1, c) <==> InUse(s.pool) && e.env.open)
  {
    EveryRunIsSafe(es, s);
    PresentExactly(s, e, c);
    assert Present(s, c);
  }

  // --- Over runs ---------------------------------------------------------------------------------------

  lemma {:induction false} GoneAlong(s: Sys, es: seq<Event>, end: Sys, c: Conn)
    requires Exclusive(s) && Path(s, es, end) && c < s.next && !Present(s, c)
    ensures !Present(end, c)
    decreases |es|
  {
    if es != [] {
      ExclusiveKept(s, es[0]);
      PresentExactly(s, es[0], c);
      GoneAlong(Next(s, es[0]), es[1..], end, c);
    }
  }

  /** A connection that has left never comes back: in no continuation of any run is it idle or held. In
      particular one found closed when a guard lets go of it is not lent to anyone again. */
  lemma LeftForGood(es: seq<Event>, s: Sys, e: Event, more: seq<Event>, end: Sys, c: Conn)
    requires Path(NEW_SYS, es, s) && Enabled(s, e) && Path(Next(s, e), more, end)
    requires (LetsGo(s, e, c) && !e.env.open) || (Present(s, c) && !Present(Next(s, e), c))
    ensures c !in end.pool.idle && forall g: GuardId :: !Holds(end.guards, g, c)
  {
    EveryRunIsSafe(es, s);
    PresentExactly(s, e, c);
    assert Present(s, c);
    ExclusiveKept(s, e);
    GoneAlong(Next(s, e), more, end, c);
  }

  lemma {:induction false} NextGrows(s: Sys, es: seq<Event>, end: Sys)
    requires Exclusive(s) && Path(s, es, end)
    ensures s.next <= end.next
    decreases |es|
  {
    if es != [] {
      ExclusiveKept(s, es[0]);
      PresentExactly(s, es[0], 0);
      NextGrows(Next(s, es[0]), es[1..], end);
    }
  }

  /** A connection that comes in was never idle or held before in the run. */
  lemma NewcomerIsNew(es: seq<Event>, mid: Sys, more: seq<Event>, s: Sys, e: Event, c: Conn)
    requires Path(NEW_SYS, es, mid) && Path(mid, more, s) && Enabled(s, e)
    requires Present(Next(s, e), c) && !Present(s, c)
    ensures !Present(mid, c)
  {
    StartIsSafe();
    SafeAlong(NEW_SYS, es, mid);
    SafeAlong(mid, more, s);
    NextGrows(mid, more, s);
    PresentExactly(s, e, c);
  }

  /** So what takes the place of a closed connection at the back of the queue is new to the whole run. */
  lemma ReplacementIsNew(es: seq<Event>, mid: Sys, more: seq<Event>, s: Sys, e: Event, c: Conn)
    requires Path(NEW_SYS, es, mid) && Path(mid, more, s) && Enabled(s, e) && LetsGo(s, e, c)
    requires InUse(s.pool) && !e.env.open && e.env.reconnects
    ensures var idle := Next(s, e).pool.idle;
            |idle| == |s.pool.idle| + 1 && idle[..|s.pool.idle|] == s.pool.idle && !Present(mid, idle[|s.pool.idle|])
  {
    StartIsSafe();
    SafeAlong(NEW_SYS, es, mid);
    SafeAlong(mid, more, s);
    PresentExactly(s, e, s.next);
    NewcomerIsNew(es, mid, more, s, e, s.next);
  }
}
