/**
 * The connection pool and the prepared-statement cache (Statement.java).
 * The static state of the source (the idle-connection deque, the creation
 * budget and the registry of live statements) is the state of one `Pool`
 * object; each `Statement` keeps its own cache of prepared statements, one per
 * connection. Connections are opaque ids, the JDBC driver is an environment
 * of scripted attempts, and blocking waits become preconditions.
 */
module Statements {
  import opened Wrappers
  import opened SqlTypeMapper
  import opened Dialect

  /** An opaque connection handle, compared by identity. */
  type Connection = nat

  /** A prepared statement: the connection it was compiled on and how. */
  datatype Prepared = Prepared(connection: Connection, sql: string, returnGeneratedKeys: bool)

  /** Bound parameters: 1-based parameter index to the value bound there. */
  type Bound = map<int, SqlValue>

  // ---------------------------------------------------------------------------
  // Parameter binding

  /**
   * Binding one parameter: `null` goes through `setNull`; otherwise the mapper
   * registered for the value's exact class writes it. An unregistered class
   * (a null mapper) and a value its writer cannot take (a failing cast) throw.
   */
  function BindOne(mappers: map<JavaClass, Mapper>, o: JValue): Option<SqlValue>
  {
    if o == Null then Some(SqlNull)
    else if ClassOf(o) !in mappers then None
    else
      var m := mappers[ClassOf(o)];
      if Fits(m.codec, o) then Some(Write(m.codec, o)) else None
  }

  /** All parameters bound, parameter `i` at index `i + 1`; `None` as soon as one binding throws. */
  function Binding(mappers: map<JavaClass, Mapper>, objects: seq<JValue>): (r: Option<Bound>)
    ensures r.Some? <==> forall i :: 0 <= i < |objects| ==> BindOne(mappers, objects[i]).Some?
    ensures r.Some? ==> forall k :: k in r.value <==> 1 <= k <= |objects|
    ensures r.Some? ==> forall i :: 0 <= i < |objects| ==> r.value[i + 1] == BindOne(mappers, objects[i]).value
  {
    if objects == [] then Some(map[])
    else
      var n := |objects| - 1;
      match Binding(mappers, objects[..n])
      case None => None
      case Some(b) =>
        match BindOne(mappers, objects[n])
        case None => None
        case Some(v) => Some(b[n + 1 := v])
  }

  /** The binding loop of `tryWithConnection`. */
  method Bind(mappers: map<JavaClass, Mapper>, objects: seq<JValue>) returns (r: Option<Bound>)
    ensures r == Binding(mappers, objects)
  {
    var bound: Bound := map[];
    for i := 0 to |objects|
      invariant Binding(mappers, objects[..i]) == Some(bound)
    {
      assert objects[..i + 1][..i] == objects[..i];
      var o := objects[i];
      var v := BindOne(mappers, o);
      if v.None? {
        BindingStopsAtFailure(mappers, objects, i + 1);
        return None;
      }
      bound := bound[i + 1 := v.value];
    }
    assert objects[..|objects|] == objects;
    r := Some(bound);
  }

  /** Once a prefix of the parameters fails to bind, the whole binding fails. */
  lemma {:induction false} BindingStopsAtFailure(mappers: map<JavaClass, Mapper>, objects: seq<JValue>, k: nat)
    requires k <= |objects| && Binding(mappers, objects[..k]).None?
    ensures Binding(mappers, objects).None?
  {
    var i :| 0 <= i < k && BindOne(mappers, objects[..k][i]).None?;
    assert objects[..k][i] == objects[i];
  }

  /**
   * A well-formed value of a class with a registered mapper binds, and the
   * mapper's reader gives the value back from the bound cell.
   */
  lemma BindRoundTrip(mappers: map<JavaClass, Mapper>, o: JValue)
    requires TypeCorrect(mappers) && WellFormed(o) && o != Null && ClassOf(o) in mappers
    requires mappers[ClassOf(o)].codec.NameCodec? ==> Distinct(mappers[ClassOf(o)].codec.e.constants)
    ensures BindOne(mappers, o).Some?
    ensures Read(mappers[ClassOf(o)], BindOne(mappers, o).value) == Ok(o)
  {
    FitsByClass(mappers[ClassOf(o)].codec, o);
    WriteReadRoundTrip(mappers[ClassOf(o)], o);
  }

  /**
   * A stream parameter never binds through the built-in registry: the BLOB
   * mapper is registered for `InputStream` itself, and the lookup uses the
   * stream's concrete class.
   */
  lemma StreamParameterUnbound(bytes: seq<int>)
    ensures BindOne(BuiltIns(), Stream(bytes)).None?
  {
    BuiltInsTypeCorrect();
  }

  // ---------------------------------------------------------------------------
  // Statements and their caches

  class Statement {
    const sql: string
    const returnGeneratedKeys: bool
    /** At most one prepared statement per connection. */
    var cachedStatements: map<Connection, Prepared>

    /** Every cached entry was prepared on its own connection from this statement's text. */
    ghost predicate Valid()
      reads this
    {
      forall c :: c in cachedStatements ==> cachedStatements[c] == Prepared(c, sql, returnGeneratedKeys)
    }

    /** The constructor, without the registration (see `Pool.Register`). */
    constructor (sql: string, returnGeneratedKeys: bool)
      ensures this.sql == sql && this.returnGeneratedKeys == returnGeneratedKeys
      ensures cachedStatements == map[] && Valid()
    {
      this.sql := sql;
      this.returnGeneratedKeys := returnGeneratedKeys;
      cachedStatements := map[];
    }

    /** The cache lookup of `tryWithConnection`: prepares on first use of `c`, reuses afterwards. */
    method Prepare(c: Connection) returns (st: Prepared)
      requires Valid()
      modifies this
      ensures Valid()
      ensures st == Prepared(c, sql, returnGeneratedKeys)
      ensures c in old(cachedStatements) ==> cachedStatements == old(cachedStatements) && st == old(cachedStatements)[c]
      ensures c !in old(cachedStatements) ==> cachedStatements == old(cachedStatements)[c := st]
    {
      if c in cachedStatements {
        st := cachedStatements[c];
      } else {
        st := Prepared(c, sql, returnGeneratedKeys);
        cachedStatements := cachedStatements[c := st];
      }
    }

    /** `close(Connection)`: drops the entry for `c`, if any. */
    method Forget(c: Connection)
      requires Valid()
      modifies this
      ensures Valid()
      ensures cachedStatements == old(cachedStatements) - {c}
    {
      cachedStatements := cachedStatements - {c};
    }

    /** The cache part of `close()`. */
    method Clear()
      modifies this
      ensures Valid() && cachedStatements == map[]
    {
      cachedStatements := map[];
    }
  }

  /** `statements.remove(s)`: drops the first occurrence of `s`. */
  function Without(xs: seq<Statement>, s: Statement): (r: seq<Statement>)
    ensures multiset(r) == multiset(xs) - multiset{s}
    ensures s !in xs ==> r == xs
  {
    if xs == [] then []
    else
      assert xs == [xs[0]] + xs[1..];
      if xs[0] == s then xs[1..]
      else [xs[0]] + Without(xs[1..], s)
  }

  predicate Unique(xs: seq<Statement>)
  {
    forall i, j :: 0 <= i < j < |xs| ==> xs[i] != xs[j]
  }

  /** In a list without duplicates, removing `s` removes it entirely and keeps the others in order. */
  lemma {:induction false} WithoutUnique(xs: seq<Statement>, s: Statement)
    requires Unique(xs)
    ensures Unique(Without(xs, s))
    ensures s !in Without(xs, s)
    ensures forall t :: t in Without(xs, s) <==> t in xs && t != s
  {
    if xs != [] {
      var tail := xs[1..];
      assert Unique(tail) by {
        forall i, j | 0 <= i < j < |tail|
          ensures tail[i] != tail[j]
        {
          assert tail[i] == xs[i + 1] && tail[j] == xs[j + 1];
        }
      }
      assert xs[0] !in tail by {
        forall j | 0 <= j < |tail|
          ensures tail[j] != xs[0]
        {
          assert tail[j] == xs[j + 1];
        }
      }
      assert xs == [xs[0]] + tail;
      if xs[0] != s {
        WithoutUnique(tail, s);
        var rest := Without(tail, s);
        var r := Without(xs, s);
        assert r == [xs[0]] + rest;
        forall i, j | 0 <= i < j < |r|
          ensures r[i] != r[j]
        {
          assert r[j] == rest[j - 1];
          if i > 0 {
            assert r[i] == rest[i - 1];
          } else {
            assert rest[j - 1] in rest;
          }
        }
      }
    }
  }

  // ---------------------------------------------------------------------------
  // The environment of `withConnection`

  /**
   * One attempt to run a statement: the connection `conProvider` would create
   * if one is needed, what running the statement with the bound parameters
   * gives (`None` when it throws), and whether `connectionInvalid` then
   * reports the connection closed, not valid, or unprobeable.
   */
  datatype Attempt<R> = Attempt(created: Connection, execute: (Prepared, Bound) -> Option<R>, invalid: bool)

  /**
   * How `withConnection` ends: with the runnable's result, with the wrapped
   * "Failing sql statement" exception, or not within the attempts scripted
   * (the source retries without bound).
   */
  datatype Outcome<R> = Done(value: R) | Failed | Exhausted

  /** The outcome and the idle stack afterwards. */
  datatype Trace<R> = Trace(outcome: Outcome<R>, idle: seq<Connection>)

  /** One attempt on connection `c`: prepare, bind, run. */
  function Attempted<R>(sql: string, returnGeneratedKeys: bool, bound: Option<Bound>, c: Connection,
                        execute: (Prepared, Bound) -> Option<R>): Option<R>
  {
    if bound.None? then None else execute(Prepared(c, sql, returnGeneratedKeys), bound.value)
  }

  /**
   * What `withConnection` does, attempt by attempt: take the top idle
   * connection or a new one; on success or on a failure with a valid
   * connection push it back and stop; on a failure with an invalid connection
   * close it and start over.
   */
  function Run<R>(sql: string, returnGeneratedKeys: bool, bound: Option<Bound>,
                  idle: seq<Connection>, script: seq<Attempt<R>>): Trace<R>
    decreases |script|
  {
    if script == [] then Trace(Exhausted, idle)
    else
      var a := script[0];
      var c := if idle != [] then idle[0] else a.created;
      var rest := if idle != [] then idle[1..] else idle;
      var result := Attempted(sql, returnGeneratedKeys, bound, c, a.execute);
      if result.Some? then Trace(Done(result.value), [c] + rest)
      else if a.invalid then Run(sql, returnGeneratedKeys, bound, rest, script[1..])
      else Trace(Failed, [c] + rest)
  }

  /** The connection attempt `k` takes: the `k`-th idle one while they last, then the one it creates. */
  function TakenBy<R>(idle: seq<Connection>, script: seq<Attempt<R>>, k: nat): Connection
    requires k < |script|
  {
    if k < |idle| then idle[k] else script[k].created
  }

  /** The idle stack once `n` connections have been taken from it. */
  function IdleAfter(idle: seq<Connection>, n: nat): seq<Connection>
  {
    if n <= |idle| then idle[n..] else []
  }

  /** The result of attempt `k`, when every earlier attempt closed the connection it took. */
  function AttemptAt<R>(sql: string, returnGeneratedKeys: bool, bound: Option<Bound>,
                        idle: seq<Connection>, script: seq<Attempt<R>>, k: nat): Option<R>
    requires k < |script|
  {
    Attempted(sql, returnGeneratedKeys, bound, TakenBy(idle, script, k), script[k].execute)
  }

  /** Attempt `k` fails on an invalid connection: the loop closes it and starts over. */
  predicate Retried<R>(sql: string, returnGeneratedKeys: bool, bound: Option<Bound>,
                       idle: seq<Connection>, script: seq<Attempt<R>>, k: nat)
    requires k < |script|
  {
    AttemptAt(sql, returnGeneratedKeys, bound, idle, script, k).None? && script[k].invalid
  }

  /**
   * The run ends with attempt `k`: every earlier attempt was retried, attempt
   * `k` was not, its result is the outcome, and its connection is back on top
   * of what is left of the idle stack.
   */
  ghost predicate EndsWith<R>(sql: string, returnGeneratedKeys: bool, bound: Option<Bound>,
                        idle: seq<Connection>, script: seq<Attempt<R>>, k: nat, tr: Trace<R>)
    requires k < |script|
  {
    var result := AttemptAt(sql, returnGeneratedKeys, bound, idle, script, k);
    && (forall i :: 0 <= i < k ==> Retried(sql, returnGeneratedKeys, bound, idle, script, i))
    && !Retried(sql, returnGeneratedKeys, bound, idle, script, k)
    && tr.outcome == (if result.Some? then Done(result.value) else Failed)
    && tr.idle == [TakenBy(idle, script, k)] + IdleAfter(idle, k + 1)
  }

  /**
   * Every attempt pops the top idle connection or creates one, and either
   * closes it or pushes it back. A run that runs out of attempts retried every
   * one of them and took as many connections from the stack; a run that ends
   * does so with some attempt `k`, whose connection is then the top of the
   * stack, above the idle connections no attempt took.
   */
  lemma {:induction false} RunPushesBackOnce<R>(sql: string, returnGeneratedKeys: bool, bound: Option<Bound>,
                                               idle: seq<Connection>, script: seq<Attempt<R>>)
    ensures var tr := Run(sql, returnGeneratedKeys, bound, idle, script);
            if tr.outcome.Exhausted? then
              tr.idle == IdleAfter(idle, |script|)
              && forall i :: 0 <= i < |script| ==> Retried(sql, returnGeneratedKeys, bound, idle, script, i)
            else
              exists k :: 0 <= k < |script| && EndsWith(sql, returnGeneratedKeys, bound, idle, script, k, tr)
    decreases |script|
  {
    var tr := Run(sql, returnGeneratedKeys, bound, idle, script);
    if script == [] {
      assert idle[0..] == idle;
    } else {
      var rest := if idle != [] then idle[1..] else idle;
      assert IdleAfter(idle, 1) == rest;
      if Retried(sql, returnGeneratedKeys, bound, idle, script, 0) {
        RunPushesBackOnce(sql, returnGeneratedKeys, bound, rest, script[1..]);
        forall i | 0 <= i < |script| - 1
          ensures TakenBy(rest, script[1..], i) == TakenBy(idle, script, i + 1)
          ensures Retried(sql, returnGeneratedKeys, bound, rest, script[1..], i)
                  == Retried(sql, returnGeneratedKeys, bound, idle, script, i + 1)
          ensures IdleAfter(rest, i + 1) == IdleAfter(idle, i + 2)
        {
          assert script[1..][i] == script[i + 1];
        }
        if tr.outcome.Exhausted? {
          assert IdleAfter(rest, |script| - 1) == IdleAfter(idle, |script|);
          forall i | 0 <= i < |script|
            ensures Retried(sql, returnGeneratedKeys, bound, idle, script, i)
          {
            if i > 0 {
              assert Retried(sql, returnGeneratedKeys, bound, rest, script[1..], i - 1);
            }
          }
        } else {
          var k :| 0 <= k < |script| - 1 && EndsWith(sql, returnGeneratedKeys, bound, rest, script[1..], k, tr);
          forall i | 0 <= i < k + 1
            ensures Retried(sql, returnGeneratedKeys, bound, idle, script, i)
          {
            if i > 0 {
              assert Retried(sql, returnGeneratedKeys, bound, rest, script[1..], i - 1);
            }
          }
          assert EndsWith(sql, returnGeneratedKeys, bound, idle, script, k + 1, tr);
        }
      } else {
        assert EndsWith(sql, returnGeneratedKeys, bound, idle, script, 0, tr);
      }
    }
  }

  /**
   * A backend on which every attempt fails on an invalid connection never
   * yields a result: the retry goes on for as many attempts as there are, and
   * each one closes the connection it took.
   */
  lemma {:induction false} AlwaysInvalidNeverEnds<R>(sql: string, returnGeneratedKeys: bool, bound: Option<Bound>,
                                                    idle: seq<Connection>, script: seq<Attempt<R>>)
    requires forall i :: 0 <= i < |script| ==> script[i].invalid
    requires forall i, c, b :: 0 <= i < |script| ==> script[i].execute(c, b).None?
    ensures Run(sql, returnGeneratedKeys, bound, idle, script).outcome == Exhausted
    ensures |script| <= |idle| ==> Run(sql, returnGeneratedKeys, bound, idle, script).idle == idle[|script|..]
    ensures |script| >= |idle| ==> Run(sql, returnGeneratedKeys, bound, idle, script).idle == []
    decreases |script|
  {
    if script != [] {
      var rest := if idle != [] then idle[1..] else idle;
      AlwaysInvalidNeverEnds(sql, returnGeneratedKeys, bound, rest, script[1..]);
      if idle != [] && |script| <= |idle| {
        assert idle[1..][|script| - 1..] == idle[|script|..];
      }
    }
  }

  /** A failure on a valid connection is never retried, whatever the later attempts would do. */
  lemma FailureOnValidConnectionIsFinal<R>(sql: string, returnGeneratedKeys: bool, bound: Option<Bound>,
                                           idle: seq<Connection>, script: seq<Attempt<R>>)
    requires script != [] && !script[0].invalid
    requires Attempted(sql, returnGeneratedKeys, bound, if idle != [] then idle[0] else script[0].created,
                       script[0].execute).None?
    ensures Run(sql, returnGeneratedKeys, bound, idle, script) == Run(sql, returnGeneratedKeys, bound, idle, script[..1])
    ensures Run(sql, returnGeneratedKeys, bound, idle, script).outcome == Failed
  {
  }

  /** Parameters that do not bind fail every attempt: the statement never runs. */
  lemma UnboundNeverRuns<R>(sql: string, returnGeneratedKeys: bool, idle: seq<Connection>, script: seq<Attempt<R>>)
    ensures !Run(sql, returnGeneratedKeys, None, idle, script).outcome.Done?
    decreases |script|
  {
    if script != [] {
      var rest := if idle != [] then idle[1..] else idle;
      UnboundNeverRuns(sql, returnGeneratedKeys, rest, script[1..]);
    }
  }

  // ---------------------------------------------------------------------------
  // The pool

  class Pool {
    /** `MAX_CONNECTIONS` of the dialect. */
    const maxConnections: nat
    /** The idle connections; index 0 is the top of the deque (`push`/`pop`). */
    var connections: seq<Connection>
    /** Connections that may still be created. */
    var connectionBudget: int
    /** The registry of live statements. */
    var statements: seq<Statement>
    /** Connections currently handed out to a running statement. */
    ghost var checkedOut: multiset<Connection>

    /**
     * idle + checked out + budget == MAX_CONNECTIONS, the budget is never
     * negative, and every registered statement caches only connections in
     * circulation.
     */
    ghost predicate Valid()
      reads this, set s | s in statements
    {
      0 <= connectionBudget
      && |connections| + |checkedOut| + connectionBudget == maxConnections
      && Unique(statements)
      && (forall s :: s in statements ==> s.Valid())
      && (forall s, c :: s in statements && c in s.cachedStatements ==> c in connections || c in checkedOut)
    }

    /** The static initialiser: no connection yet, the full budget, no statement. */
    constructor (d: Dialect)
      ensures maxConnections == MaxConnections(d)
      ensures connections == [] && connectionBudget == maxConnections
      ensures statements == [] && checkedOut == multiset{}
      ensures Valid()
    {
      maxConnections := MaxConnections(d);
      connections := [];
      connectionBudget := MaxConnections(d);
      statements := [];
      checkedOut := multiset{};
    }

    /** The registration in `Statement`'s constructor. */
    method Register(s: Statement)
      requires Valid() && s !in statements && s.cachedStatements == map[]
      modifies this
      ensures Valid()
      ensures statements == old(statements) + [s]
      ensures connections == old(connections) && connectionBudget == old(connectionBudget)
      ensures checkedOut == old(checkedOut)
    {
      statements := statements + [s];
    }

    /**
     * `aquireConnection`: pops the most recently pushed idle connection, or
     * creates `created` and spends one unit of budget. The source waits until
     * one of the two is possible; here that is the precondition.
     */
    method Acquire(created: Connection) returns (c: Connection)
      requires Valid() && (connections != [] || connectionBudget > 0)
      modifies this
      ensures Valid()
      ensures old(connections) != [] ==>
                c == old(connections)[0] && connections == old(connections)[1..]
                && connectionBudget == old(connectionBudget)
      ensures old(connections) == [] ==>
                c == created && connections == [] && connectionBudget == old(connectionBudget) - 1
      ensures checkedOut == old(checkedOut) + multiset{c}
      ensures statements == old(statements)
    {
      if connections != [] {
        c := connections[0];
        assert connections == [c] + connections[1..];
        connections := connections[1..];
      } else {
        c := created;
        connectionBudget := connectionBudget - 1;
      }
      checkedOut := checkedOut + multiset{c};
    }

    /** `connections.push(connection)` after a statement ran on it. */
    method Release(c: Connection)
      requires Valid() && c in checkedOut
      modifies this
      ensures Valid()
      ensures connections == [c] + old(connections) && connectionBudget == old(connectionBudget)
      ensures checkedOut == old(checkedOut) - multiset{c}
      ensures statements == old(statements)
    {
      connections := [c] + connections;
      checkedOut := checkedOut - multiset{c};
    }

    /**
     * `closeConnection`: every registered statement forgets its prepared
     * statement for `c`, then the budget grows by one. `c` leaves circulation.
     */
    method CloseConnection(c: Connection)
      requires Valid() && c in checkedOut
      modifies this, set s | s in statements
      ensures Valid()
      ensures statements == old(statements) && connections == old(connections)
      ensures connectionBudget == old(connectionBudget) + 1
      ensures checkedOut == old(checkedOut) - multiset{c}
      ensures forall i :: 0 <= i < |statements| ==>
                statements[i].cachedStatements == old(statements[i].cachedStatements) - {c}
    {
      var i := 0;
      while i < |statements|
        invariant 0 <= i <= |statements|
        invariant statements == old(statements) && connections == old(connections)
        invariant connectionBudget == old(connectionBudget) && checkedOut == old(checkedOut)
        invariant forall j :: 0 <= j < i ==>
                    statements[j].cachedStatements == old(statements[j].cachedStatements) - {c}
        invariant forall j :: i <= j < |statements| ==>
                    statements[j].cachedStatements == old(statements[j].cachedStatements)
        invariant forall s :: s in statements ==> s.Valid()
      {
        statements[i].Forget(c);
        i := i + 1;
      }
      connectionBudget := connectionBudget + 1;
      checkedOut := checkedOut - multiset{c};
      forall s, c' | s in statements && c' in s.cachedStatements
        ensures c' in connections || c' in checkedOut
      {
        var j :| 0 <= j < |statements| && statements[j] == s;
        assert c' != c && c' in old(s.cachedStatements);
        assert c' in old(connections) || c' in old(checkedOut);
      }
    }

    /** `close()`: the statement's cache is emptied and it alone leaves the registry. */
    method CloseStatement(s: Statement)
      requires Valid() && s in statements
      modifies this, s
      ensures Valid()
      ensures s.cachedStatements == map[]
      ensures statements == Without(old(statements), s) && s !in statements
      ensures forall t :: t in statements <==> t in old(statements) && t != s
      ensures connections == old(connections) && connectionBudget == old(connectionBudget)
      ensures checkedOut == old(checkedOut)
    {
      s.Clear();
      WithoutUnique(statements, s);
      statements := Without(statements, s);
    }

    /**
     * `closeAll`: closes every connection, which the source can only finish
     * once no connection is checked out; afterwards the budget is back at its
     * maximum and no statement caches anything.
     */
    method CloseAll()
      requires Valid() && checkedOut == multiset{}
      modifies this, set s | s in statements
      ensures Valid()
      ensures connectionBudget == maxConnections && connections == []
      ensures statements == old(statements) && checkedOut == multiset{}
      ensures forall s :: s in statements ==> s.cachedStatements == map[]
    {
      while connectionBudget < maxConnections
        invariant Valid() && checkedOut == multiset{} && statements == old(statements)
        decreases maxConnections - connectionBudget
      {
        var c := Acquire(0);
        CloseConnection(c);
      }
      forall s | s in statements
        ensures s.cachedStatements == map[]
      {
        assert connections == [];
        forall c | c in s.cachedStatements
          ensures c in connections || c in checkedOut
        {
        }
        assert s.cachedStatements.Keys == {};
      }
    }

    /** `tryWithConnection`: the cached (or newly prepared) statement, then the binding, then the run. */
    method TryWithConnection<R>(s: Statement, c: Connection, mappers: map<JavaClass, Mapper>,
                                objects: seq<JValue>, execute: (Prepared, Bound) -> Option<R>)
      returns (r: Option<R>)
      requires Valid() && s in statements && c in checkedOut
      modifies s
      ensures Valid()
      ensures s.cachedStatements == old(s.cachedStatements)[c := Prepared(c, s.sql, s.returnGeneratedKeys)]
      ensures r == Attempted(s.sql, s.returnGeneratedKeys, Binding(mappers, objects), c, execute)
    {
      var st := s.Prepare(c);
      var bound := Bind(mappers, objects);
      if bound.None? {
        return None;
      }
      r := execute(st, bound.value);
    }

    /**
     * `withConnection`: runs the statement on a pooled connection, following
     * `script` attempt by attempt. Statement and checked-out connections are
     * as before; the idle stack is what `Run` says.
     */
    method WithConnection<R>(s: Statement, mappers: map<JavaClass, Mapper>, objects: seq<JValue>,
                             script: seq<Attempt<R>>)
      returns (r: Outcome<R>)
      requires Valid() && s in statements && (connections != [] || connectionBudget > 0)
      modifies this, set t | t in statements
      ensures Valid()
      ensures statements == old(statements) && checkedOut == old(checkedOut)
      ensures r == Run(s.sql, s.returnGeneratedKeys, Binding(mappers, objects), old(connections), script).outcome
      ensures connections == Run(s.sql, s.returnGeneratedKeys, Binding(mappers, objects), old(connections), script).idle
      decreases |script|, 1
    {
      if script == [] {
        return Exhausted;
      }
      ghost var tr := Run(s.sql, s.returnGeneratedKeys, Binding(mappers, objects), connections, script);
      var a := script[0];
      var c := Acquire(a.created);
      var result := TryWithConnection(s, c, mappers, objects, a.execute);
      if result.None? {
        if a.invalid {
          assert tr == Run(s.sql, s.returnGeneratedKeys, Binding(mappers, objects), connections, script[1..]);
          r := Retry(s, c, mappers, objects, script[1..]);
          return;
        }
        assert tr == Trace(Failed, [c] + connections);
        Release(c);
        return Failed;
      }
      assert tr == Trace(Done(result.value), [c] + connections);
      Release(c);
      r := Done(result.value);
    }

    /** The `connectionInvalid` branch: close the connection and start over. */
    method Retry<R>(s: Statement, c: Connection, mappers: map<JavaClass, Mapper>, objects: seq<JValue>,
                    script: seq<Attempt<R>>)
      returns (r: Outcome<R>)
      requires Valid() && s in statements && c in checkedOut
      modifies this, set t | t in statements
      ensures Valid()
      ensures statements == old(statements) && checkedOut == old(checkedOut) - multiset{c}
      ensures r == Run(s.sql, s.returnGeneratedKeys, Binding(mappers, objects), old(connections), script).outcome
      ensures connections == Run(s.sql, s.returnGeneratedKeys, Binding(mappers, objects), old(connections), script).idle
      decreases |script| + 1, 0
    {
      CloseConnection(c);
      r := WithConnection(s, mappers, objects, script);
    }
  }

  /** Idle, checked-out and not-yet-created connections always add up to the dialect's maximum. */
  lemma PoolAccounting(p: Pool, d: Dialect)
    requires p.Valid() && p.maxConnections == MaxConnections(d)
    ensures |p.connections| + |p.checkedOut| + p.connectionBudget == (if d == MySql then 4 else 1)
    ensures |p.connections| + |p.checkedOut| <= MaxConnections(d)
  {
  }
}
