/** database/sql as its callers meet it: a pool of connections, result sets that hold one
    until drained or closed, and pinned connections. Asking an exhausted pool for a
    connection never returns, so every request has a free one as its precondition. Each query,
    row and scan is a call on the environment, which fixes beforehand how it goes. */
module ConnectionPool {
  import opened Text
  import opened Environment

  class Pool {
    const env: Env
    var free: nat

    constructor (env: Env, size: nat)
      ensures this.env == env && free == size
    {
      this.env, free := env, size;
    }

    /** QueryContext: an error, or a result set holding a connection. */
    method Query<T>(data: seq<T>) returns (rows: Rows?<T>)
      requires free > 0
      modifies this, env
      ensures env.asked == old(env.asked) + 1
      ensures rows != null <==> env.Granted(old(env.asked))
      ensures free == old(free) - if rows == null then 0 else 1
      ensures rows != null ==> fresh(rows) && rows.home == this && rows.holds && rows.Started(data)
    {
      var granted := env.Ask();
      if !granted { return null; }
      free := free - 1;
      rows := new Rows<T>(this, true, data);
    }

    /** QueryRowContext with Scan: the connection is returned before the call ends. None is an
        error; Some(None) is sql.ErrNoRows. */
    method QueryRow<T>(answer: Option<T>) returns (r: Option<Option<T>>)
      requires free > 0
      modifies env
      ensures env.asked == old(env.asked) + 1
      ensures r == if env.Granted(old(env.asked)) then Some(answer) else None
    {
      var granted := env.Ask();
      return if granted then Some(answer) else None;
    }

    /** db.Conn: an error, or a pinned connection. */
    method Acquire() returns (conn: Conn?)
      requires free > 0
      modifies this, env
      ensures env.asked == old(env.asked) + 1
      ensures conn != null <==> env.Granted(old(env.asked))
      ensures free == old(free) - if conn == null then 0 else 1
      ensures conn != null ==> fresh(conn) && conn.pool == this && conn.held
    {
      var granted := env.Ask();
      if !granted { return null; }
      free := free - 1;
      conn := new Conn(this);
    }
  }

  /** A pinned connection: its queries ask the pool for nothing. */
  class Conn {
    const pool: Pool
    var held: bool

    constructor (pool: Pool)
      ensures this.pool == pool && held
    {
      this.pool, held := pool, true;
    }

    method Query<T>(data: seq<T>) returns (rows: Rows?<T>)
      requires held
      modifies pool.env
      ensures pool.env.asked == old(pool.env.asked) + 1
      ensures rows != null <==> pool.env.Granted(old(pool.env.asked))
      ensures rows != null ==> fresh(rows) && rows.home == pool && !rows.holds && rows.Started(data)
    {
      var granted := pool.env.Ask();
      if !granted { return null; }
      rows := new Rows<T>(pool, false, data);
    }

    method QueryRow<T>(answer: T) returns (r: Option<T>)
      requires held
      modifies pool.env
      ensures pool.env.asked == old(pool.env.asked) + 1
      ensures r == if pool.env.Granted(old(pool.env.asked)) then Some(answer) else None
    {
      var granted := pool.env.Ask();
      return if granted then Some(answer) else None;
    }

    method Close()
      modifies this, pool`free
      ensures !held && pool.free == old(pool.free) + if old(held) then 1 else 0
    {
      if held { held := false; pool.free := pool.free + 1; }
    }
  }

  /** A result set of a pool, holding one of its connections or reading over a pinned one. Next
      closes it when it is drained or fails. */
  class Rows<T> {
    const home: Pool
    const holds: bool
    const data: seq<T>
    var read: nat
    var open: bool
    var failed: bool

    constructor (home: Pool, holds: bool, data: seq<T>)
      ensures this.home == home && this.holds == holds && Started(data)
    {
      this.home, this.holds, this.data, read, open, failed := home, holds, data, 0, true, false;
    }

    ghost predicate Started(d: seq<T>)
      reads this
    {
      data == d && read == 0 && open && !failed
    }

    function Held(): nat
      reads this
    {
      if open && holds then 1 else 0
    }

    /** The next row when there is one and the environment gives it; otherwise the set is closed,
        drained or failed. */
    method Next() returns (has: bool)
      requires read <= |data| && (open ==> !failed)
      modifies this, home`free, home.env
      ensures home.env.asked == old(home.env.asked) + if old(open) then 1 else 0
      ensures has <==> old(open) && home.env.Granted(old(home.env.asked)) && old(read) < |data|
      ensures open <==> has
      ensures read == old(read) + if has then 1 else 0
      ensures failed <==> old(failed) || (old(open) && !home.env.Granted(old(home.env.asked)))
      ensures home.free == old(home.free) + if has then 0 else old(Held())
    {
      if !open { return false; }
      var granted := home.env.Ask();
      if !granted { failed := true; }
      if !granted || read == |data| { Close(); return false; }
      read := read + 1;
      return true;
    }

    /** Scan of the current row: an error, or the row. */
    method Scan() returns (r: Option<T>)
      requires open && 0 < read <= |data|
      modifies home.env
      ensures home.env.asked == old(home.env.asked) + 1
      ensures r == if home.env.Granted(old(home.env.asked)) then Some(data[read - 1]) else None
    {
      var granted := home.env.Ask();
      return if granted then Some(data[read - 1]) else None;
    }

    /** One turn of a loop over the rows: Next and, when there is a row, its Scan. Every call since
        call number `from` has gone well, and will have unless the set fails or the Scan does. */
    method Fetch(ghost from: nat) returns (has: bool, row: Option<T>)
      requires open && !failed && read <= |data| && from <= home.env.asked && home.env.CalmSince(from)
      modifies this, home`free, home.env
      ensures Fetched(from, has, row) && read == old(read) + if has then 1 else 0
      ensures home.free == old(home.free) + if has then 0 else old(Held())
    {
      has := Next();
      row := None;
      if has { row := Scan(); }
    }

    /** Where a loop stands after Fetch answered: in the middle with a row or the error of its Scan,
        drained with every call since `from` gone well, or failed. */
    ghost predicate Fetched(from: nat, has: bool, row: Option<T>)
      reads this, home.env
    {
      && from < home.env.asked && read <= |data|
      && (has <==> open) && (has ==> 0 < read && !failed)
      && (row.Some? ==> has && row.value == data[read - 1])
      && (home.env.CalmSince(from) <==> !failed && (has ==> row.Some?))
      && (!has && !failed ==> read == |data|)
    }

    /** The rows a loop has dealt with before the one Fetch answered. */
    ghost function Dealt(): seq<T>
      requires read <= |data|
      reads this
    {
      data[..if open && read > 0 then read - 1 else read]
    }

    method Close()
      modifies this, home`free
      ensures !open && read == old(read) && failed == old(failed) && home.free == old(home.free) + old(Held())
    {
      if open {
        if holds { home.free := home.free + 1; }
        open := false;
      }
    }
  }

  /** Appends the rows of a set to a list. */
  method Drain<T>(rows: Rows<T>, ghost from: nat) returns (r: Option<seq<T>>)
    requires rows.Started(rows.data) && from <= rows.home.env.asked && rows.home.env.CalmSince(from)
    modifies rows, rows.home`free, rows.home.env
    ensures !rows.open && from < rows.home.env.asked
    ensures rows.home.free == old(rows.home.free) + old(rows.Held())
    ensures r.Some? <==> rows.home.env.CalmSince(from)
    ensures r.Some? ==> r.value == rows.data
  {
    var out: seq<T> := [];
    var has, row := rows.Fetch(from);
    while has
      invariant rows.Fetched(from, has, row) && out == rows.Dealt()
      invariant rows.home.free == old(rows.home.free) + if has then 0 else old(rows.Held())
      decreases |rows.data| - rows.read, has
    {
      if row.None? { rows.Close(); return None; }
      out := out + [row.value];
      has, row := rows.Fetch(from);
    }
    rows.Close();
    if rows.failed { return None; }
    return Some(out);
  }

  /** Drains a query of the pool into a list: the whole list exactly when every call went well,
      and the connection is back on every path. */
  method ReadAll<T>(pool: Pool, data: seq<T>) returns (r: Option<seq<T>>)
    requires pool.free > 0
    modifies pool, pool.env
    ensures pool.free == old(pool.free) && old(pool.env.asked) < pool.env.asked
    ensures r.Some? <==> pool.env.CalmSince(old(pool.env.asked))
    ensures r.Some? ==> r.value == data
  {
    ghost var from := pool.env.asked;
    var rows := pool.Query(data);
    if rows == null { return None; }
    r := Drain(rows, from);
  }
}
