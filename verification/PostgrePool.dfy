/** The connection pool and its move-only guard, src/database/postgre_pool.cpp. Each method is what
    one thread does while it holds the mutex; waiting on the condition variable is left to the
    protocol of `PoolProtocol`. */
module PostgrePoolModel {
  import opened Bytes

  // The identity of a connection: two `shared_ptr`s to different connections are different numbers.
  type Conn = nat

  /** The fields of the pool. */
  datatype Pool = Pool(idle: seq<Conn>, initialized: bool, closing: bool, poolSize: nat)

  const NEW_POOL := Pool([], false, false, 0)

  /** The fields of a guard; `attached` when its pool pointer is not null. */
  datatype Guard = Guard(attached: bool, conn: Option<Conn>)

  const EMPTY_GUARD := Guard(false, None)

  datatype InitResult = Ready | ZeroSize | OpenFailed

  /** `Init`, where `conns` are the connections opened before one failed or the pool was full. */
  function InitPool(p: Pool, size: nat, conns: seq<Conn>): (Pool, InitResult)
    requires |conns| <= size
  {
    if size == 0 then (p, ZeroSize)
    else if |conns| < size then (Pool(conns, p.initialized, false, size), OpenFailed)
    else (Pool(conns, true, false, size), Ready)
  }

  /** What a thread in `Acquire` finds under the mutex. `MustWait`: it goes to sleep. */
  datatype Access = Granted(conn: Conn) | NotInitialized | Closing | MustWait

  function Resume(p: Pool): (Pool, Access) {
    if p.closing then (p, Closing)
    else if p.idle == [] then (p, MustWait)
    else (p.(idle := p.idle[1..]), Granted(p.idle[0]))
  }

  function Enter(p: Pool): (Pool, Access) {
    if !p.initialized then (p, NotInitialized) else Resume(p)
  }

  datatype Returned = Dropped | Queued(conn: Conn) | ReconnectThrew

  /** `Return`: `open` is what `is_open` says, `replacement` what reconnecting gives, if it does not throw. */
  function ReturnTo(p: Pool, conn: Conn, open: bool, replacement: Option<Conn>): (Pool, Returned) {
    if !p.initialized || p.closing then (p, Dropped)
    else if open then (p.(idle := p.idle + [conn]), Queued(conn))
    else match replacement
         case Some(c) => (p.(idle := p.idle + [c]), Queued(c))
         case None => (p, ReconnectThrew)
  }

  /** `Close`, and whether it notifies all waiters. */
  function ClosePool(p: Pool): (Pool, bool) {
    if !p.initialized && !p.closing then (p, false) else (p.(idle := [], initialized := false, closing := true), true)
  }

  /** `ConnectionGuard::Release`. */
  function ReleaseGuard(p: Pool, g: Guard, open: bool, replacement: Option<Conn>): (Pool, Guard, Returned) {
    if g.attached && g.conn.Some? then
      var (p1, r) := ReturnTo(p, g.conn.value, open, replacement);
      (p1, EMPTY_GUARD, r)
    else (p, Guard(false, g.conn), Dropped)
  }

  class PostgrePool {
    var pool: seq<Conn>
    var initialized: bool
    var closing: bool
    var poolSize: nat

    function Value(): Pool
      reads this
    {
      Pool(pool, initialized, closing, poolSize)
    }

    constructor ()
      ensures Value() == NEW_POOL
    {
      pool, initialized, closing, poolSize := [], false, false, 0;
    }

    method Init(size: nat, conns: seq<Conn>) returns (r: InitResult)
      requires |conns| <= size
      modifies this
      ensures (Value(), r) == InitPool(old(Value()), size, conns)
    {
      if size == 0 {
        return ZeroSize;
      }
      while pool != []
        invariant Value() == old(Value()).(idle := pool)
        decreases |pool|
      {
        pool := pool[1..];
      }
      poolSize := size;
      closing := false;
      for index := 0 to poolSize
        invariant index <= |conns| && poolSize == size
        invariant Value() == Pool(conns[..index], old(initialized), false, size)
      {
        if index == |conns| {
          assert conns[..index] == conns;
          return OpenFailed;
        }
        pool := pool + [conns[index]];
      }
      assert conns[..size] == conns;
      initialized := true;
      return Ready;
    }

    /** `Acquire` from its start, or from a wake-up on. */
    method Acquire(resumed: bool) returns (access: Access)
      modifies this
      ensures (Value(), access) == if resumed then Resume(old(Value())) else Enter(old(Value()))
    {
      if !resumed && !initialized {
        return NotInitialized;
      }
      if !(closing || pool != []) {
        return MustWait;
      }
      if closing {
        return Closing;
      }
      var connection := pool[0];
      pool := pool[1..];
      return Granted(connection);
    }

    method Close() returns (notify: bool)
      modifies this
      ensures (Value(), notify) == ClosePool(old(Value()))
    {
      if !initialized && !closing {
        return false;
      }
      closing := true;
      initialized := false;
      while pool != []
        invariant Value() == old(Value()).(idle := pool, initialized := false, closing := true)
        decreases |pool|
      {
        pool := pool[1..];
      }
      return true;
    }

    method Return(conn: Conn, open: bool, replacement: Option<Conn>) returns (r: Returned)
      modifies this
      ensures (Value(), r) == ReturnTo(old(Value()), conn, open, replacement)
    {
      if !initialized || closing {
        return Dropped;
      }
      var connection := conn;
      if !open {
        if replacement.None? {
          return ReconnectThrew;
        }
        connection := replacement.value;
      }
      pool := pool + [connection];
      return Queued(connection);
    }
  }

  class ConnectionGuard {
    var pool: PostgrePool?
    var connection: Option<Conn>

    function Value(): Guard
      reads this
    {
      Guard(pool != null, connection)
    }

    constructor (pool: PostgrePool?, connection: Option<Conn>)
      ensures this.pool == pool && this.connection == connection
    {
      this.pool, this.connection := pool, connection;
    }

    /** The move constructor takes the other guard's connection and leaves it empty. */
    constructor Move(other: ConnectionGuard)
      modifies other
      ensures pool == old(other.pool) && Value() == old(other.Value())
      ensures other.Value() == EMPTY_GUARD
    {
      pool, connection := other.pool, other.connection;
      new;
      other.pool, other.connection := null, None;
    }

    method Release(open: bool, replacement: Option<Conn>) returns (r: Returned)
      modifies this, pool
      ensures pool == null
      ensures old(pool) != null ==>
        (old(pool).Value(), Value(), r) == ReleaseGuard(old(pool.Value()), old(Value()), open, replacement)
      ensures old(pool) == null ==> Value() == Guard(false, old(connection)) && r == Dropped
    {
      r := Dropped;
      if pool != null && connection.Some? {
        var moved := connection.value;
        connection := None;
        r := pool.Return(moved, open, replacement);
      }
      pool := null;
    }

    /** Move assignment: nothing on itself; otherwise releases its own connection first, and if that
        throws the process ends before anything is moved. */
    method MoveAssign(other: ConnectionGuard, open: bool, replacement: Option<Conn>) returns (r: Returned)
      modifies this, other, pool
      ensures this == other ==> r == Dropped && pool == old(pool) && Value() == old(Value())
                                && (pool != null ==> pool.Value() == old(pool.Value()))
      ensures this != other && old(pool) != null ==>
        var (p, g, returned) := ReleaseGuard(old(pool.Value()), old(Value()), open, replacement);
        old(pool).Value() == p && r == returned
      ensures this != other && !r.ReconnectThrew? ==>
        pool == old(other.pool) && Value() == old(other.Value()) && other.Value() == EMPTY_GUARD
    {
      if this == other {
        return Dropped;
      }
      r := Release(open, replacement);
      if r.ReconnectThrew? {
        return;
      }
      pool := other.pool;
      connection := other.connection;
      other.pool, other.connection := null, None;
    }
  }
}
