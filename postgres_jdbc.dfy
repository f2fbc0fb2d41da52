/**
 * The PostgreSQL data source: the bean factory that rejects an empty host
 * list and chooses between a plain pool and a failover wrapper, and the
 * wrapper itself (`FailoverDataSource`), which keeps an active host index and
 * a current pool, retries acquisition over the hosts, classifies SQL errors
 * and switches back to the primary when a health probe succeeds.
 *
 * The outcome of each `getConnection()` + `isValid(5)` pair and of each health
 * probe is an input: the driver and the database are not part of this model.
 */
module PostgresJdbcConfig {
  import opened Common

  const NoHostsMessage := "No PostgreSQL hosts configured"
  const ExhaustedMessage := "Failed to obtain PostgreSQL connection after all retries"

  /** A `java.sql.SQLException`: its message and SQLState, either of which may be null. */
  datatype SqlException = SqlException(message: Option<string>, sqlState: Option<string>)

  /** The exception thrown when every attempt gave an invalid connection and none threw. */
  const GenericFailure := SqlException(Some(ExhaustedMessage), None)

  /** Whether an error means the host is unreachable and failover should move on. */
  predicate IsConnectionError(e: SqlException)
  {
    && e.message.Some?
    && (|| Contains(e.message.value, "Connection refused")
        || Contains(e.message.value, "Unable to connect")
        || Contains(e.message.value, "Connection timed out")
        || Contains(e.message.value, "FATAL")
        || (e.sqlState.Some? && StartsWith(e.sqlState.value, "08")))
  }

  /** A null message is never a connection error, whatever the SQLState says. */
  lemma NullMessageIsNeverConnectionError(sqlState: Option<string>)
    ensures !IsConnectionError(SqlException(None, sqlState))
  {
  }

  /** With a message, a SQLState of class 08 (connection exception) is a connection error. */
  lemma ConnectionExceptionClassIsConnectionError(message: string, sqlState: string)
    requires StartsWith(sqlState, "08")
    ensures IsConnectionError(SqlException(Some(message), Some(sqlState)))
  {
  }

  /** A message reporting a refused connection anywhere in its text is a connection error whatever its SQLState. */
  lemma RefusedIsConnectionError(message: string, sqlState: Option<string>)
    requires exists i :: 0 <= i <= |message| && OccursAt(message, "Connection refused", i)
    ensures IsConnectionError(SqlException(Some(message), sqlState))
  {
    ContainsIffOccurs(message, "Connection refused");
  }

  /**
   * The driver reports a rejected password as a FATAL server message with
   * SQLState 28P01, an authorization class and not 08; the "FATAL" test still
   * classifies it as a connection error, so it triggers a host switch.
   */
  lemma RejectedPasswordIsConnectionError(message: string)
    requires StartsWith(message, "FATAL")
    ensures !StartsWith("28P01", "08")
    ensures IsConnectionError(SqlException(Some(message), Some("28P01")))
  {
    assert "28P01"[..2] != "08" by {
      assert "28P01"[..2][0] == '2';
    }
  }

  /** The outcome of one attempt: `getConnection()` followed by `isValid(5)`. */
  datatype Attempt = Usable | Unusable | Threw(e: SqlException)

  /** The outcome of attempt number `k` against a host. */
  type Oracle = (nat, Host) -> Attempt

  /** One attempt made by the retry loop: the active host index at the time and what happened. */
  datatype Try = Try(index: nat, outcome: Attempt)

  /** What `getConnectionWithFailover` does: its result, the attempts it made and the final active index. */
  datatype Acquisition = Acquisition(result: Result<Connection, SqlException>, tries: seq<Try>, active: nat)

  /** The active index after a try: it moves on only after a connection error. */
  function After(n: nat, t: Try): nat
    requires n >= 1
  {
    if t.outcome.Threw? && IsConnectionError(t.outcome.e) then NextHost(t.index, n) else t.index
  }

  /** The try really changed host (with one host, `switchToHost` sees the same index and does nothing). */
  predicate Switches(n: nat, t: Try)
    requires n >= 1
  {
    After(n, t) != t.index
  }

  /** The exception of the last try that threw, if any (`lastException`). */
  function LastThrown(tries: seq<Try>): Option<SqlException>
  {
    if tries == [] then None
    else if tries[|tries| - 1].outcome.Threw? then Some(tries[|tries| - 1].outcome.e)
    else LastThrown(tries[..|tries| - 1])
  }

  /** The hosts the tries switched to, in order: one pool is built for each. */
  function SwitchedHosts(hosts: seq<Host>, tries: seq<Try>): seq<Host>
    requires |hosts| >= 1
  {
    if tries == [] then []
    else
      var t := tries[|tries| - 1];
      SwitchedHosts(hosts, tries[..|tries| - 1]) + (if Switches(|hosts|, t) then [hosts[After(|hosts|, t)]] else [])
  }

  lemma SwitchedHostsSnoc(hosts: seq<Host>, tries: seq<Try>, t: Try)
    requires |hosts| >= 1
    ensures Switches(|hosts|, t) ==> SwitchedHosts(hosts, tries + [t]) == SwitchedHosts(hosts, tries) + [hosts[After(|hosts|, t)]]
    ensures !Switches(|hosts|, t) ==> SwitchedHosts(hosts, tries + [t]) == SwitchedHosts(hosts, tries)
  {
    assert (tries + [t])[..|tries|] == tries;
  }

  lemma LastThrownSnoc(tries: seq<Try>, t: Try)
    ensures LastThrown(tries + [t]) == if t.outcome.Threw? then Some(t.outcome.e) else LastThrown(tries)
  {
    assert (tries + [t])[..|tries|] == tries;
  }

  /**
   * The retry loop of `getConnectionWithFailover`, from the point where the
   * tries `tries` have been made and `active` is the active index: attempt
   * number `|tries|` runs while `|tries| <= maxRetries`.
   */
  function Retry(hosts: seq<Host>, outcome: Oracle, maxRetries: int, active: nat, tries: seq<Try>): (a: Acquisition)
    requires |hosts| >= 1 && active < |hosts|
    ensures a.active < |hosts|
    decreases maxRetries + 1 - |tries|
  {
    if |tries| > maxRetries then
      var last := LastThrown(tries);
      Acquisition(Failure(if last.Some? then last.value else GenericFailure), tries, active)
    else
      var t := Try(active, outcome(|tries|, hosts[active]));
      if t.outcome.Usable? then Acquisition(Success(Connection(hosts[active], |tries|)), tries + [t], active)
      else Retry(hosts, outcome, maxRetries, After(|hosts|, t), tries + [t])
  }

  function AttemptLimit(maxRetries: int): nat
  {
    if maxRetries < 0 then 0 else maxRetries + 1
  }

  /**
   * The tries form a run of the loop that started on host `start`: each try
   * is made on the index left by the previous one and its outcome is the one
   * the oracle gives for that attempt and host; no try but the last is usable.
   */
  ghost predicate Run(hosts: seq<Host>, outcome: Oracle, start: nat, tries: seq<Try>)
    requires |hosts| >= 1
  {
    && (forall j :: 0 <= j < |tries| ==>
          tries[j].index < |hosts| && tries[j].outcome == outcome(j, hosts[tries[j].index]))
    && (tries != [] ==> tries[0].index == start)
    && (forall j :: 0 < j < |tries| ==> tries[j].index == After(|hosts|, tries[j - 1]))
    && (forall j :: 0 <= j < |tries| - 1 ==> !tries[j].outcome.Usable?)
  }

  /** The index the run leaves active. */
  function EndIndex(n: nat, start: nat, tries: seq<Try>): nat
    requires n >= 1
  {
    if tries == [] then start else After(n, tries[|tries| - 1])
  }

  /**
   * What `getConnectionWithFailover` promises of one acquisition: at most
   * `maxRetries + 1` attempts; a connection is returned only from a usable
   * attempt, the last one; failure comes only when every attempt has been
   * used, and reports the last SQLException seen, or the generic one when
   * none was thrown.
   */
  ghost predicate Explains(hosts: seq<Host>, outcome: Oracle, maxRetries: int, start: nat, a: Acquisition)
    requires |hosts| >= 1
  {
    var ts := a.tries;
    && |ts| <= AttemptLimit(maxRetries)
    && Run(hosts, outcome, start, ts)
    && a.active == EndIndex(|hosts|, start, ts)
    && (a.result.Success? <==> ts != [] && ts[|ts| - 1].outcome.Usable?)
    && (a.result.Success? ==> a.active < |hosts| && a.result.value == Connection(hosts[a.active], |ts| - 1))
    && (a.result.Failure? ==>
          && |ts| == AttemptLimit(maxRetries)
          && a.result.error == (if LastThrown(ts).Some? then LastThrown(ts).value else GenericFailure))
  }

  lemma {:induction false} RetryExplainedFrom(hosts: seq<Host>, outcome: Oracle, maxRetries: int, start: nat, active: nat, tries: seq<Try>)
    requires |hosts| >= 1 && start < |hosts| && active < |hosts|
    requires Run(hosts, outcome, start, tries) && (tries != [] ==> !tries[|tries| - 1].outcome.Usable?)
    requires active == EndIndex(|hosts|, start, tries)
    requires |tries| <= AttemptLimit(maxRetries)
    ensures Explains(hosts, outcome, maxRetries, start, Retry(hosts, outcome, maxRetries, active, tries))
    decreases maxRetries + 1 - |tries|
  {
    if |tries| <= maxRetries {
      var t := Try(active, outcome(|tries|, hosts[active]));
      var tries' := tries + [t];
      assert Run(hosts, outcome, start, tries') by {
        assert forall j :: 0 <= j < |tries| ==> tries'[j] == tries[j];
      }
      if !t.outcome.Usable? {
        RetryNextStep(hosts, outcome, maxRetries, active, tries);
        RetryExplainedFrom(hosts, outcome, maxRetries, start, After(|hosts|, t), tries');
      } else {
        RetryUsableStep(hosts, outcome, maxRetries, active, tries);
      }
    }
  }

  /** Every acquisition the loop can perform is explained by the promise above. */
  lemma RetryExplained(hosts: seq<Host>, outcome: Oracle, maxRetries: int, start: nat)
    requires |hosts| >= 1 && start < |hosts|
    ensures Explains(hosts, outcome, maxRetries, start, Retry(hosts, outcome, maxRetries, start, []))
  {
    RetryExplainedFrom(hosts, outcome, maxRetries, start, start, []);
  }

  /** One unfolding of `Retry` when attempts remain and the attempt yields a usable connection. */
  lemma RetryUsableStep(hosts: seq<Host>, outcome: Oracle, maxRetries: int, active: nat, tries: seq<Try>)
    requires |hosts| >= 1 && active < |hosts| && |tries| <= maxRetries
    requires outcome(|tries|, hosts[active]).Usable?
    ensures Retry(hosts, outcome, maxRetries, active, tries)
         == Acquisition(Success(Connection(hosts[active], |tries|)), tries + [Try(active, Usable)], active)
  {
  }

  /** One unfolding of `Retry` when attempts remain and the attempt does not yield a usable connection. */
  lemma RetryNextStep(hosts: seq<Host>, outcome: Oracle, maxRetries: int, active: nat, tries: seq<Try>)
    requires |hosts| >= 1 && active < |hosts| && |tries| <= maxRetries
    requires !outcome(|tries|, hosts[active]).Usable?
    ensures var t := Try(active, outcome(|tries|, hosts[active]));
            Retry(hosts, outcome, maxRetries, active, tries) == Retry(hosts, outcome, maxRetries, After(|hosts|, t), tries + [t])
  {
  }

  /**
   * A primary that refuses connections and a reachable standby: with three
   * retries allowed, the second attempt returns a connection from the
   * standby after one switch.
   */
  lemma PrimaryDownStandbyUp()
    ensures var primary, standby := Host("db-primary", 5432), Host("db-standby", 5432);
            var refused := SqlException(Some("Connection refused"), Some("08001"));
            var outcome := (k: nat, h: Host) => if h == primary then Threw(refused) else Usable;
            var a := Retry([primary, standby], outcome, 3, 0, []);
            && a.result == Success(Connection(standby, 1))
            && SwitchedHosts([primary, standby], a.tries) == [standby]
  {
    var primary, standby := Host("db-primary", 5432), Host("db-standby", 5432);
    var refused := SqlException(Some("Connection refused"), Some("08001"));
    var outcome := (k: nat, h: Host) => if h == primary then Threw(refused) else Usable;
    assert OccursAt("Connection refused", "Connection refused", 0);
    RefusedIsConnectionError("Connection refused", Some("08001"));
    var t0 := Try(0, Threw(refused));
    var t1 := Try(1, Usable);
    assert Retry([primary, standby], outcome, 3, 0, []) == Retry([primary, standby], outcome, 3, 1, [t0]);
    assert Retry([primary, standby], outcome, 3, 1, [t0]).tries == [t0, t1];
    SwitchedHostsSnoc([primary, standby], [], t0);
    SwitchedHostsSnoc([primary, standby], [t0], t1);
  }

  /**
   * Both hosts refuse connections and two retries are allowed: three
   * attempts alternate between the hosts, three switches are made, and the
   * last refusal is what the caller sees.
   */
  lemma BothHostsDown()
    ensures var a, b := Host("db-a", 5432), Host("db-b", 5432);
            var refused := SqlException(Some("Connection refused"), Some("08001"));
            var acq := Retry([a, b], (k: nat, h: Host) => Threw(refused), 2, 0, []);
            && acq.result == Failure(refused)
            && |acq.tries| == 3
            && acq.active == 1
            && SwitchedHosts([a, b], acq.tries) == [b, a, b]
  {
    var a, b := Host("db-a", 5432), Host("db-b", 5432);
    var refused := SqlException(Some("Connection refused"), Some("08001"));
    var outcome := (k: nat, h: Host) => Threw(refused);
    assert OccursAt("Connection refused", "Connection refused", 0);
    RefusedIsConnectionError("Connection refused", Some("08001"));
    var t0, t1, t2 := Try(0, Threw(refused)), Try(1, Threw(refused)), Try(0, Threw(refused));
    RetryNextStep([a, b], outcome, 2, 0, []);
    assert [] + [t0] == [t0];
    RetryNextStep([a, b], outcome, 2, 1, [t0]);
    assert [t0] + [t1] == [t0, t1];
    RetryNextStep([a, b], outcome, 2, 0, [t0, t1]);
    assert [t0, t1] + [t2] == [t0, t1, t2];
    LastThrownSnoc([t0, t1], t2);
    SwitchedHostsSnoc([a, b], [], t0);
    SwitchedHostsSnoc([a, b], [t0], t1);
    SwitchedHostsSnoc([a, b], [t0, t1], t2);
  }

  /** The outcome of the health check's probe of the primary. */
  datatype Probe =
    | Validated   // the probe connection passed `isValid(5)`
    | NotValid    // the probe connection failed `isValid(5)`
    | ProbeFailed // `getConnection()` or `isValid` threw a SQLException

  /** The failover wrapper: an active host index and the pool currently in use. */
  class FailoverDataSource {
    const hosts: seq<Host>
    const maxRetries: int
    const pools: Pools
    var active: nat
    var current: PoolId

    /**
     * The active index is in range, the current pool was built for the active
     * host and has not been closed, and no pool was closed twice.
     */
    ghost predicate Valid()
      reads this, pools
    {
      && |hosts| >= 1
      && active < |hosts|
      && pools.Valid()
      && current < |pools.hostOf|
      && pools.hostOf[current] == hosts[active]
      && current !in pools.closed
    }

    /** A new wrapper is on the primary, with a pool built for it. */
    constructor (hosts: seq<Host>, maxRetries: int, pools: Pools)
      requires |hosts| >= 1 && pools.Valid()
      modifies pools
      ensures Valid()
      ensures this.hosts == hosts && this.maxRetries == maxRetries && this.pools == pools
      ensures active == 0 && current == |old(pools.hostOf)|
      ensures pools.hostOf == old(pools.hostOf) + [hosts[0]]
      ensures pools.log == old(pools.log) + [Built(current, hosts[0])]
    {
      this.hosts := hosts;
      this.maxRetries := maxRetries;
      this.pools := pools;
      active := 0;
      var p := pools.Build(hosts[0]);
      current := p;
    }

    /**
     * `switchToHost`: nothing happens when `index` is already active;
     * otherwise a pool for `hosts[index]` is built and becomes current, the
     * index is set, and then the superseded pool is closed (an exception from
     * `close()` is caught and logged, so the call always returns normally).
     */
    method SwitchToHost(index: nat)
      requires Valid() && index < |hosts|
      modifies this, pools
      ensures Valid()
      ensures old(active) == index ==>
                && active == old(active) && current == old(current)
                && pools.hostOf == old(pools.hostOf) && pools.log == old(pools.log)
      ensures old(active) != index ==>
                && active == index && current == |old(pools.hostOf)|
                && pools.hostOf == old(pools.hostOf) + [hosts[index]]
                && pools.log == old(pools.log) + [Built(current, hosts[index]), Closed(old(current))]
    {
      if index != active {
        var superseded := current;
        current := pools.Build(hosts[index]);
        active := index;
        pools.Close(superseded);
      }
    }

    /** `switchToNextHost`: `switchToHost((active + 1) % hosts.size())`. */
    method SwitchToNextHost()
      requires Valid()
      modifies this, pools
      ensures Valid()
      ensures active == NextHost(old(active), |hosts|)
      ensures old(active) == active ==>
                current == old(current) && pools.hostOf == old(pools.hostOf) && pools.log == old(pools.log)
      ensures old(active) != active ==>
                && current == |old(pools.hostOf)|
                && pools.hostOf == old(pools.hostOf) + [hosts[active]]
                && pools.log == old(pools.log) + [Built(current, hosts[active]), Closed(old(current))]
    {
      SwitchToHost(NextHost(active, |hosts|));
    }

    /**
     * Starting from the registry state `hostOf0`/`log0` with pool `prev`
     * current, the wrapper has switched to the hosts `switched`, in turn.
     */
    ghost predicate SwitchedSince(prev: PoolId, hostOf0: seq<Host>, log0: seq<PoolEvent>, switched: seq<Host>)
      reads this, pools
    {
      && pools.hostOf == hostOf0 + switched
      && pools.log == log0 + SwitchLog(prev, |hostOf0|, switched, false)
      && current == CurrentAfter(prev, |hostOf0|, |switched|)
    }

    /**
     * The catch block of the retry loop, for an attempt on the active host
     * that gave no usable connection: a connection error switches to the
     * next host; anything else leaves the wrapper as it is. The ghost
     * parameters carry the switches made so far; `now` extends them.
     */
    method HandleFailure(attempt: Attempt, ghost prev: PoolId, ghost hostOf0: seq<Host>, ghost log0: seq<PoolEvent>, ghost switched: seq<Host>)
      returns (ghost now: seq<Host>)
      requires Valid() && !attempt.Usable?
      requires SwitchedSince(prev, hostOf0, log0, switched)
      modifies this, pools
      ensures Valid()
      ensures var t := Try(old(active), attempt);
              && active == After(|hosts|, t)
              && (Switches(|hosts|, t) ==> now == switched + [hosts[active]])
              && (!Switches(|hosts|, t) ==> now == switched)
      ensures SwitchedSince(prev, hostOf0, log0, now)
    {
      now := switched;
      if attempt.Threw? && IsConnectionError(attempt.e) {
        SwitchToNextHost();
        if active != old(active) {
          SwitchLogSnoc(prev, |hostOf0|, switched, hosts[active], false);
          assert hostOf0 + (switched + [hosts[active]]) == (hostOf0 + switched) + [hosts[active]];
          ghost var step := [Built(|hostOf0| + |switched|, hosts[active]), Closed(CurrentAfter(prev, |hostOf0|, |switched|))];
          assert log0 + (SwitchLog(prev, |hostOf0|, switched, false) + step)
              == (log0 + SwitchLog(prev, |hostOf0|, switched, false)) + step;
          now := switched + [hosts[active]];
        }
      }
    }

    /**
     * `checkPrimaryHealth`, one tick of the health checker: on the primary it
     * does nothing; otherwise it builds a probe pool for the primary (never
     * closed) and switches back to the primary only if the probe connection
     * is valid. A failed probe leaves the wrapper as it was.
     */
    method CheckPrimaryHealth(probe: Probe)
      requires Valid()
      modifies this, pools
      ensures Valid()
      ensures old(active) == 0 ==>
                && active == old(active) && current == old(current)
                && pools.hostOf == old(pools.hostOf) && pools.log == old(pools.log)
      ensures old(active) != 0 && probe != Validated ==>
                && active == old(active) && current == old(current)
                && pools.hostOf == old(pools.hostOf) + [hosts[0]]
                && pools.log == old(pools.log) + [Built(|old(pools.hostOf)|, hosts[0])]
      ensures old(active) != 0 && probe == Validated ==>
                && active == 0 && current == |old(pools.hostOf)| + 1
                && pools.hostOf == old(pools.hostOf) + [hosts[0], hosts[0]]
                && pools.log == old(pools.log) + [Built(current - 1, hosts[0]), Built(current, hosts[0]), Closed(old(current))]
    {
      if active != 0 {
        var probePool := pools.Build(hosts[0]);
        if probe == Validated {
          SwitchToHost(0);
        }
      }
    }

    /**
     * `getConnectionWithFailover`: at most `maxRetries + 1` attempts on the
     * current pool; a usable connection is returned at once; a SQLException
     * is remembered and, when it is a connection error, the wrapper moves to
     * the next host; an invalid connection or any other error only uses up the
     * attempt. When attempts run out, the last SQLException is thrown, or the
     * generic one if none was.
     */
    method GetConnectionWithFailover(outcome: Oracle) returns (r: Result<Connection, SqlException>)
      requires Valid()
      modifies this, pools
      ensures Valid()
      ensures var a := Retry(hosts, outcome, maxRetries, old(active), []);
              var switched := SwitchedHosts(hosts, a.tries);
              && r == a.result && active == a.active
              && pools.hostOf == old(pools.hostOf) + switched
              && pools.log == old(pools.log) + SwitchLog(old(current), |old(pools.hostOf)|, switched, false)
              && current == CurrentAfter(old(current), |old(pools.hostOf)|, |switched|)
    {
      var retries := 0;
      var lastException: Option<SqlException> := None;
      ghost var tries: seq<Try> := [];
      ghost var switched: seq<Host> := [];
      ghost var prev, hostOf0, log0 := current, pools.hostOf, pools.log;
      assert SwitchedSince(prev, hostOf0, log0, []);
      while retries <= maxRetries
        invariant Valid()
        invariant retries == |tries|
        invariant lastException == LastThrown(tries)
        invariant Retry(hosts, outcome, maxRetries, active, tries) == Retry(hosts, outcome, maxRetries, old(active), [])
        invariant switched == SwitchedHosts(hosts, tries)
        invariant SwitchedSince(prev, hostOf0, log0, switched)
        decreases maxRetries - retries
      {
        var attempt := outcome(retries, hosts[active]);
        ghost var t := Try(active, attempt);
        SwitchedHostsSnoc(hosts, tries, t);
        LastThrownSnoc(tries, t);
        if attempt.Usable? {
          r := Success(Connection(hosts[active], retries));
          RetryUsableStep(hosts, outcome, maxRetries, active, tries);
          tries := tries + [t];
          return;
        }
        RetryNextStep(hosts, outcome, maxRetries, active, tries);
        if attempt.Threw? {
          lastException := Some(attempt.e);
        }
        switched := HandleFailure(attempt, prev, hostOf0, log0, switched);
        tries := tries + [t];
        retries := retries + 1;
      }
      r := Failure(if lastException.Some? then lastException.value else GenericFailure);
    }
  }

  /** What the `postgresDataSource` bean is. */
  datatype DataSource = PlainPool(pool: PoolId) | Failover(source: FailoverDataSource)

  /**
   * The `postgresDataSource` bean: an empty host list is a configuration
   * error; with failover disabled or a single host, a plain pool for the
   * first host; otherwise a failover wrapper over all hosts.
   */
  method PostgresDataSource(hosts: seq<Host>, failover: FailoverSettings, pools: Pools) returns (r: Result<DataSource, string>)
    requires pools.Valid()
    modifies pools
    ensures pools.Valid()
    ensures hosts == [] ==>
              r == Failure(NoHostsMessage) && pools.hostOf == old(pools.hostOf) && pools.log == old(pools.log)
    ensures hosts != [] ==>
              && r.Success?
              && pools.hostOf == old(pools.hostOf) + [hosts[0]]
              && pools.log == old(pools.log) + [Built(|old(pools.hostOf)|, hosts[0])]
    ensures hosts != [] && (!failover.enabled || |hosts| == 1) ==>
              r == Success(PlainPool(|old(pools.hostOf)|))
    ensures hosts != [] && failover.enabled && |hosts| > 1 ==>
              && r.Success? && r.value.Failover?
              && var ds := r.value.source;
                 && fresh(ds) && ds.Valid() && ds.pools == pools
                 && ds.hosts == hosts && ds.maxRetries == failover.maxRetries
                 && ds.active == 0 && ds.current == |old(pools.hostOf)|
  {
    if hosts == [] {
      return Failure(NoHostsMessage);
    }
    if !failover.enabled || |hosts| == 1 {
      var p := pools.Build(hosts[0]);
      return Success(PlainPool(p));
    }
    var ds := new FailoverDataSource(hosts, failover.maxRetries, pools);
    return Success(Failover(ds));
  }
}
