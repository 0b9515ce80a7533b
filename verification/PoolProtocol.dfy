/** The pool used by many threads: every region under the mutex is one step, threads sleep on the
    condition variable, wake up late, by a notification or for no reason, and may be overtaken. */
module PoolProtocol {
  import opened Bytes
  import opened PostgrePoolModel

  type Thread = nat
  type GuardId = nat

  /** Pool, guards with the thread each belongs to, threads asleep on the condition variable, and
      threads that have been woken and not yet taken the mutex again.
      History: `next` is the first connection identity not used yet; `queued` and `lent` are the
      connections that became idle and that were lent, in order, since the last Init or Close;
      `base` counts the guards that held a connection when the last successful Init ran, `inits`
      the successful Inits, and `steady` says that no Close or failed Init has followed. */
  datatype Sys = Sys(
    pool: Pool,
    guards: map<GuardId, Guard>,
    owner: map<GuardId, Thread>,
    asleep: set<Thread>,
    woken: set<Thread>,
    aborted: bool,
    next: Conn,
    queued: seq<Conn>,
    lent: seq<Conn>,
    base: nat,
    inits: nat,
    steady: bool)

  const NEW_SYS := Sys(NEW_POOL, map[], map[], {}, {}, false, 0, [], [], 0, 0, false)

  /** What a `Return` meets: whether the connection is still open, whether reconnecting works, and
      which sleeper `notify_one` picks. */
  datatype Env = Env(open: bool, reconnects: bool, wake: Option<Thread>)

  datatype Event =
    | Init(size: nat, count: nat)
    | Acquire(t: Thread, g: GuardId)
    | WakeUp(t: Thread, g: GuardId)
    | Spurious(t: Thread)
    | DefaultGuard(g: GuardId, t: Thread)
    | MoveConstruct(g: GuardId, src: GuardId, t: Thread)
    | MoveAssign(g: GuardId, src: GuardId, env: Env)
    | Destroy(g: GuardId, env: Env)
    | Close

  predicate Waiting(s: Sys, t: Thread) {
    t in s.asleep || t in s.woken
  }

  /** The guard exists and its thread is not blocked in `Acquire`. */
  predicate Usable(s: Sys, g: GuardId) {
    g in s.guards && g in s.owner && !Waiting(s, s.owner[g])
  }

  /** `notify_one` wakes a sleeper if there is one. */
  predicate WakeFits(s: Sys, env: Env) {
    if s.asleep == {} then env.wake.None? else env.wake.Some? && env.wake.value in s.asleep
  }

  predicate Enabled(s: Sys, e: Event) {
    !s.aborted
    && match e
       case Init(size, count) => count <= size
       case Acquire(t, g) => !Waiting(s, t) && g !in s.guards
       case WakeUp(t, g) => t in s.woken && g !in s.guards
       case Spurious(t) => t in s.asleep
       case DefaultGuard(g, t) => !Waiting(s, t) && g !in s.guards
       case MoveConstruct(g, src, t) => !Waiting(s, t) && g !in s.guards && Usable(s, src)
       case MoveAssign(g, src, env) => Usable(s, g) && Usable(s, src) && WakeFits(s, env)
       case Destroy(g, env) => Usable(s, g) && WakeFits(s, env)
       case Close => true
  }

  /** Connections `from`, `from + 1`, ...: all new. */
  function NewConns(from: Conn, count: nat): (conns: seq<Conn>)
    ensures |conns| == count && forall i :: 0 <= i < count ==> conns[i] == from + i
  {
    seq(count, i requires 0 <= i => from + i)
  }

  /** The guards that hold a connection. */
  function Holders(s: Sys): set<GuardId> {
    set g | g in s.guards && s.guards[g].conn.Some?
  }

  function Next(s: Sys, e: Event): Sys
    requires Enabled(s, e)
  {
    match e
    case Init(size, count) => NextInit(s, size, count)
    case Acquire(t, g) => NextAccess(s, t, g, PostgrePoolModel.Enter(s.pool))
    case WakeUp(t, g) => NextAccess(s.(woken := s.woken - {t}), t, g, Resume(s.pool))
    case Spurious(t) => s.(asleep := s.asleep - {t}, woken := s.woken + {t})
    case DefaultGuard(g, t) => Place(s, g, EMPTY_GUARD, t)
    case MoveConstruct(g, src, t) => Place(s.(guards := s.guards[src := EMPTY_GUARD]), g, s.guards[src], t)
    case MoveAssign(g, src, env) => if g == src then s else Moved(NextRelease(s, g, env), g, src)
    case Destroy(g, env) => Removed(NextRelease(s, g, env), g)
    case Close => NextClose(s)
  }

  function Place(s: Sys, g: GuardId, guard: Guard, t: Thread): Sys {
    s.(guards := s.guards[g := guard], owner := s.owner[g := t])
  }

  function Removed(s: Sys, g: GuardId): Sys {
    if s.aborted then s else s.(guards := s.guards - {g}, owner := s.owner - {g})
  }

  function Moved(s: Sys, g: GuardId, src: GuardId): Sys
    requires src in s.guards
  {
    if s.aborted then s else s.(guards := s.guards[g := s.guards[src]][src := EMPTY_GUARD])
  }

  function NextInit(s: Sys, size: nat, count: nat): Sys
    requires count <= size
  {
    var conns := NewConns(s.next, count);
    var (pool, r) := InitPool(s.pool, size, conns);
    match r
    case ZeroSize => s.(pool := pool)
    case OpenFailed => s.(pool := pool, next := s.next + count, queued := conns, lent := [], steady := false)
    case Ready => s.(pool := pool, next := s.next + count, queued := conns, lent := [],
                     base := |Holders(s)|, inits := s.inits + 1, steady := true)
  }

  /** The thread gets a guard, throws, or goes to sleep. */
  function NextAccess(s: Sys, t: Thread, g: GuardId, r: (Pool, Access)): Sys {
    match r.1
    case Granted(c) => Place(s, g, Guard(true, Some(c)), t).(pool := r.0, lent := s.lent + [c])
    case MustWait => s.(asleep := s.asleep + {t})
    case _ => s
  }

  /** `Release` on a guard, with the notification. A reconnection that throws ends the process. */
  function NextRelease(s: Sys, g: GuardId, env: Env): (s1: Sys)
    requires g in s.guards
    ensures s1.guards.Keys == s.guards.Keys && s1.owner == s.owner
  {
    var replacement := if env.reconnects then Some(s.next) else None;
    var (pool, guard, r) := ReleaseGuard(s.pool, s.guards[g], env.open, replacement);
    var s1 := s.(pool := pool, guards := s.guards[g := guard]);
    match r
    case Dropped => s1
    case ReconnectThrew => s1.(aborted := true)
    case Queued(c) =>
      s1.(queued := s.queued + [c],
          next := if env.open then s.next else s.next + 1,
          asleep := if env.wake.Some? then s.asleep - {env.wake.value} else s.asleep,
          woken := if env.wake.Some? then s.woken + {env.wake.value} else s.woken)
  }

  function NextClose(s: Sys): Sys {
    var (pool, notify) := ClosePool(s.pool);
    if !notify then s
    else
      s.(pool := pool, asleep := {}, woken := s.woken + s.asleep, queued := [], lent := [], steady := false)
  }

  ghost predicate Path(s: Sys, es: seq<Event>, end: Sys)
    decreases |es|
  {
    if es == [] then end == s else Enabled(s, es[0]) && Path(Next(s, es[0]), es[1..], end)
  }

  lemma {:induction false} PathSnoc(s: Sys, es: seq<Event>, mid: Sys, e: Event)
    requires Path(s, es, mid) && Enabled(mid, e)
    ensures Path(s, es + [e], Next(mid, e))
    decreases |es|
  {
    if es == [] {
      assert ([] + [e])[1..] == [];
    } else {
      assert (es + [e])[1..] == es[1..] + [e];
      PathSnoc(Next(s, es[0]), es[1..], mid, e);
    }
  }

  /** One more step of a run from the start. */
  lemma Extend(es: seq<Event>, s: Sys, e: Event) returns (es1: seq<Event>, s1: Sys)
    requires Path(NEW_SYS, es, s) && Enabled(s, e)
    ensures s1 == Next(s, e) && Path(NEW_SYS, es1, s1)
  {
    PathSnoc(NEW_SYS, es, s, e);
    es1, s1 := es + [e], Next(s, e);
  }
}
