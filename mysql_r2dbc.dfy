/**
 * The MySQL connection factory: the bean factory that rejects an empty host
 * list and returns either the primary's pool or a failover wrapper, and the
 * wrapper itself (`FailoverConnectionFactory`), which keeps an active host
 * index and a current pool and, on a classified connection error, disposes
 * the pool, builds one for the next host and retries.
 *
 * `create()` is a reactive pipeline: `Mono.defer(currentPool::create)` with
 * `retryWhen(Retry.fixedDelay(maxRetries, delay).filter(...).doBeforeRetry(...))`.
 * Subscribing to it runs the loop modelled here: each (re)subscription asks
 * the pool current at that time for a connection; an error that fails the
 * filter is propagated as is; a classified error when `maxRetries` retries
 * have already been made ends the pipeline with Reactor's "retries
 * exhausted" error around it; any other classified error runs the
 * `doBeforeRetry` callback (a host switch) and resubscribes. The outcome of
 * each subscription is an input; the delay between retries is not modelled.
 */
module MysqlR2dbcConfig {
  import opened Common

  const NoHostsMessage := "No MySQL hosts configured"

  /**
   * An error signalled by the pool: whether it is an
   * `R2dbcNonTransientResourceException`, whether its cause is a
   * `java.net.ConnectException`, and its message, which may be null.
   */
  datatype R2dbcError = R2dbcError(nonTransientResource: bool, causedByConnectException: bool, message: Option<string>)

  /** `isConnectionError`: the errors the retry filter lets through. */
  predicate IsConnectionError(e: R2dbcError)
  {
    || e.nonTransientResource
    || e.causedByConnectException
    || (e.message.Some? && Contains(e.message.value, "Connection refused"))
  }

  /** Each of the three tests classifies an error alone; without any of them the error is not retried. */
  lemma ConnectionErrorCases(e: R2dbcError)
    ensures e.nonTransientResource ==> IsConnectionError(e)
    ensures e.causedByConnectException ==> IsConnectionError(e)
    ensures e.message.None? && !e.nonTransientResource && !e.causedByConnectException ==> !IsConnectionError(e)
  {
  }

  /** A message containing "Connection refused" is retried, whatever the exception's class and cause. */
  lemma RefusedIsConnectionError(message: string, nonTransientResource: bool, causedByConnectException: bool)
    requires exists i :: 0 <= i <= |message| && OccursAt(message, "Connection refused", i)
    ensures IsConnectionError(R2dbcError(nonTransientResource, causedByConnectException, Some(message)))
  {
    ContainsIffOccurs(message, "Connection refused");
  }

  /** What one subscription to the current pool gives. */
  datatype Attempt = Connected | Failed(error: R2dbcError)

  /** The outcome of subscription number `k` to the pool of a host. */
  type Oracle = (nat, Host) -> Attempt

  /** One subscription: the active host index at the time and what happened. */
  datatype Try = Try(index: nat, outcome: Attempt)

  /** How `create()` fails: the unclassified error itself, or Reactor's exhaustion error after `retries` retries around the last error. */
  datatype CreateError = Rejected(error: R2dbcError) | RetriesExhausted(retries: nat, last: R2dbcError)

  /** What `create()` does: its result, the subscriptions it made and the final active index. */
  datatype Creation = Creation(result: Result<Connection, CreateError>, tries: seq<Try>, active: nat)

  /** The number of retries the policy allows: `maxRetries`, none when it is negative. */
  function RetryLimit(maxRetries: int): nat
  {
    if maxRetries < 0 then 0 else maxRetries
  }

  /**
   * The `retryWhen` pipeline from the point where the subscriptions `tries`
   * have been made (every one a classified error followed by a host switch)
   * and `active` is the active index.
   */
  function RetryWhen(hosts: seq<Host>, outcome: Oracle, maxRetries: int, active: nat, tries: seq<Try>): (c: Creation)
    requires |hosts| >= 1 && active < |hosts|
    ensures |c.tries| > |tries|
    decreases maxRetries - |tries|
  {
    var k := |tries|;
    var t := Try(active, outcome(k, hosts[active]));
    match t.outcome
    case Connected => Creation(Success(Connection(hosts[active], k)), tries + [t], active)
    case Failed(e) =>
      if !IsConnectionError(e) then Creation(Failure(Rejected(e)), tries + [t], active)
      else if k >= maxRetries then Creation(Failure(RetriesExhausted(k, e)), tries + [t], active)
      else RetryWhen(hosts, outcome, maxRetries, NextHost(active, |hosts|), tries + [t])
  }

  /** The hosts switched to before the retries that followed the tries `retried`, in order. */
  function SwitchedHosts(hosts: seq<Host>, retried: seq<Try>): seq<Host>
    requires |hosts| >= 1
  {
    if retried == [] then []
    else
      var t := retried[|retried| - 1];
      var next := NextHost(t.index, |hosts|);
      SwitchedHosts(hosts, retried[..|retried| - 1]) + (if next != t.index then [hosts[next]] else [])
  }

  lemma SwitchedHostsSnoc(hosts: seq<Host>, retried: seq<Try>, t: Try)
    requires |hosts| >= 1
    ensures NextHost(t.index, |hosts|) != t.index ==>
              SwitchedHosts(hosts, retried + [t]) == SwitchedHosts(hosts, retried) + [hosts[NextHost(t.index, |hosts|)]]
    ensures NextHost(t.index, |hosts|) == t.index ==>
              SwitchedHosts(hosts, retried + [t]) == SwitchedHosts(hosts, retried)
  {
    assert (retried + [t])[..|retried|] == retried;
  }

  /**
   * The tries form a run of the pipeline that started on host `start`: each
   * subscription is on the host after the previous one, its outcome is the
   * one the oracle gives, and every subscription but the last failed with a
   * classified error (only those are retried).
   */
  ghost predicate Run(hosts: seq<Host>, outcome: Oracle, start: nat, tries: seq<Try>)
    requires |hosts| >= 1
  {
    && (forall j :: 0 <= j < |tries| ==>
          tries[j].index < |hosts| && tries[j].outcome == outcome(j, hosts[tries[j].index]))
    && (tries != [] ==> tries[0].index == start)
    && (forall j :: 0 < j < |tries| ==> tries[j].index == NextHost(tries[j - 1].index, |hosts|))
    && (forall j :: 0 <= j < |tries| - 1 ==> tries[j].outcome.Failed? && IsConnectionError(tries[j].outcome.error))
  }

  /**
   * What the retry policy promises of one `create()`: at most `maxRetries`
   * retries after the first subscription, each after a classified error; the
   * result is the connection of the last subscription, or the unclassified
   * error it gave, or, when it gave a classified error, the exhaustion error,
   * which only happens once every retry has been used.
   */
  ghost predicate Explains(hosts: seq<Host>, outcome: Oracle, maxRetries: int, start: nat, c: Creation)
    requires |hosts| >= 1
  {
    var ts := c.tries;
    && 1 <= |ts| <= RetryLimit(maxRetries) + 1
    && Run(hosts, outcome, start, ts)
    && c.active == ts[|ts| - 1].index
    && var last := ts[|ts| - 1].outcome;
       && (c.result.Success? <==> last.Connected?)
       && (c.result.Success? ==> c.active < |hosts| && c.result.value == Connection(hosts[c.active], |ts| - 1))
       && (last.Failed? && !IsConnectionError(last.error) ==> c.result == Failure(Rejected(last.error)))
       && (last.Failed? && IsConnectionError(last.error) ==>
             |ts| - 1 == RetryLimit(maxRetries) && c.result == Failure(RetriesExhausted(|ts| - 1, last.error)))
  }

  lemma {:induction false} RetryWhenExplainedFrom(hosts: seq<Host>, outcome: Oracle, maxRetries: int, start: nat, active: nat, tries: seq<Try>)
    requires |hosts| >= 1 && start < |hosts| && active < |hosts|
    requires Run(hosts, outcome, start, tries)
    requires tries != [] ==>
               && tries[|tries| - 1].outcome.Failed? && IsConnectionError(tries[|tries| - 1].outcome.error)
               && active == NextHost(tries[|tries| - 1].index, |hosts|)
    requires tries == [] ==> active == start
    requires |tries| <= RetryLimit(maxRetries)
    ensures Explains(hosts, outcome, maxRetries, start, RetryWhen(hosts, outcome, maxRetries, active, tries))
    decreases maxRetries - |tries|
  {
    var k := |tries|;
    var t := Try(active, outcome(k, hosts[active]));
    var tries' := tries + [t];
    assert Run(hosts, outcome, start, tries') by {
      assert forall j :: 0 <= j < |tries| ==> tries'[j] == tries[j];
    }
    if t.outcome.Failed? && IsConnectionError(t.outcome.error) && k < maxRetries {
      assert RetryWhen(hosts, outcome, maxRetries, active, tries)
          == RetryWhen(hosts, outcome, maxRetries, NextHost(active, |hosts|), tries');
      RetryWhenExplainedFrom(hosts, outcome, maxRetries, start, NextHost(active, |hosts|), tries');
    } else {
      assert RetryWhen(hosts, outcome, maxRetries, active, tries).tries == tries';
    }
  }

  /** Every `create()` the pipeline can perform is explained by the promise above. */
  lemma RetryWhenExplained(hosts: seq<Host>, outcome: Oracle, maxRetries: int, start: nat)
    requires |hosts| >= 1 && start < |hosts|
    ensures Explains(hosts, outcome, maxRetries, start, RetryWhen(hosts, outcome, maxRetries, start, []))
  {
    RetryWhenExplainedFrom(hosts, outcome, maxRetries, start, start, []);
  }

  /**
   * When every host fails with the same classified error, `create()` uses
   * every retry, moving to the next host before each, and then fails with
   * the exhaustion error around that error.
   */
  lemma OutageUsesEveryRetry(hosts: seq<Host>, e: R2dbcError, maxRetries: int, start: nat)
    requires |hosts| >= 1 && start < |hosts| && IsConnectionError(e)
    ensures var c := RetryWhen(hosts, (k: nat, h: Host) => Failed(e), maxRetries, start, []);
            && |c.tries| == RetryLimit(maxRetries) + 1
            && c.result == Failure(RetriesExhausted(RetryLimit(maxRetries), e))
  {
    var outcome := (k: nat, h: Host) => Failed(e);
    RetryWhenExplained(hosts, outcome, maxRetries, start);
    var c := RetryWhen(hosts, outcome, maxRetries, start, []);
    assert c.tries[|c.tries| - 1].outcome == Failed(e);
  }

  /** The failover wrapper: an active host index and the pool currently in use. */
  class FailoverConnectionFactory {
    const hosts: seq<Host>
    const maxRetries: int
    const pools: Pools
    var active: nat
    var current: PoolId

    /** The active index is in range and the current pool was built for the active host and not disposed. */
    ghost predicate Valid()
      reads this, pools
    {
      && |hosts| >= 1
      && active < |hosts|
      && pools.Valid()
      && current < |pools.hostOf|
      && pools.hostOf[current] == hosts[active]
      && current !in pools.closed
    }

    /** A new wrapper is on the primary, with a pool built for it. */
    constructor (hosts: seq<Host>, maxRetries: int, pools: Pools)
      requires |hosts| >= 1 && pools.Valid()
      modifies pools
      ensures Valid()
      ensures this.hosts == hosts && this.maxRetries == maxRetries && this.pools == pools
      ensures active == 0 && current == |old(pools.hostOf)|
      ensures pools.hostOf == old(pools.hostOf) + [hosts[0]]
      ensures pools.log == old(pools.log) + [Built(current, hosts[0])]
    {
      this.hosts := hosts;
      this.maxRetries := maxRetries;
      this.pools := pools;
      active := 0;
      var p := pools.Build(hosts[0]);
      current := p;
    }

    /**
     * `switchToNextHost`: when the next index `(active + 1) % hosts.size()`
     * is the active one nothing happens; otherwise the current pool is
     * disposed first, then a pool for the next host is built and becomes
     * current, and the index is set.
     */
    method SwitchToNextHost()
      requires Valid()
      modifies this, pools
      ensures Valid()
      ensures active == NextHost(old(active), |hosts|)
      ensures old(active) == active ==>
                current == old(current) && pools.hostOf == old(pools.hostOf) && pools.log == old(pools.log)
      ensures old(active) != active ==>
                && current == |old(pools.hostOf)|
                && pools.hostOf == old(pools.hostOf) + [hosts[active]]
                && pools.log == old(pools.log) + [Closed(old(current)), Built(current, hosts[active])]
    {
      var next := NextHost(active, |hosts|);
      if next != active {
        pools.Close(current);
        current := pools.Build(hosts[next]);
        active := next;
      }
    }

    /**
     * Starting from the registry state `hostOf0`/`log0` with pool `prev`
     * current, the wrapper has switched to the hosts `switched`, in turn.
     */
    ghost predicate SwitchedSince(prev: PoolId, hostOf0: seq<Host>, log0: seq<PoolEvent>, switched: seq<Host>)
      reads this, pools
    {
      && pools.hostOf == hostOf0 + switched
      && pools.log == log0 + SwitchLog(prev, |hostOf0|, switched, true)
      && current == CurrentAfter(prev, |hostOf0|, |switched|)
    }

    /**
     * The `doBeforeRetry` callback: one host switch before a retry. The ghost
     * parameters carry the switches made so far; `now` extends them.
     */
    method BeforeRetry(ghost prev: PoolId, ghost hostOf0: seq<Host>, ghost log0: seq<PoolEvent>, ghost switched: seq<Host>)
      returns (ghost now: seq<Host>)
      requires Valid() && SwitchedSince(prev, hostOf0, log0, switched)
      modifies this, pools
      ensures Valid()
      ensures active == NextHost(old(active), |hosts|)
      ensures active != old(active) ==> now == switched + [hosts[active]]
      ensures active == old(active) ==> now == switched
      ensures SwitchedSince(prev, hostOf0, log0, now)
    {
      now := switched;
      SwitchToNextHost();
      if active != old(active) {
        SwitchLogSnoc(prev, |hostOf0|, switched, hosts[active], true);
        assert hostOf0 + (switched + [hosts[active]]) == (hostOf0 + switched) + [hosts[active]];
        ghost var step := [Closed(CurrentAfter(prev, |hostOf0|, |switched|)), Built(|hostOf0| + |switched|, hosts[active])];
        assert log0 + (SwitchLog(prev, |hostOf0|, switched, true) + step)
            == (log0 + SwitchLog(prev, |hostOf0|, switched, true)) + step;
        now := switched + [hosts[active]];
      }
    }

    /**
     * `create()`, subscribed once: it ends as `RetryWhen` says, with one host
     * switch before each retry and the pools built and disposed accordingly.
     */
    method Create(outcome: Oracle) returns (r: Result<Connection, CreateError>)
      requires Valid()
      modifies this, pools
      ensures Valid()
      ensures var c := RetryWhen(hosts, outcome, maxRetries, old(active), []);
              var switched := SwitchedHosts(hosts, c.tries[..|c.tries| - 1]);
              && r == c.result && active == c.active
              && pools.hostOf == old(pools.hostOf) + switched
              && pools.log == old(pools.log) + SwitchLog(old(current), |old(pools.hostOf)|, switched, true)
              && current == CurrentAfter(old(current), |old(pools.hostOf)|, |switched|)
    {
      var retries := 0;
      ghost var tries: seq<Try> := [];
      ghost var switched: seq<Host> := [];
      ghost var prev, hostOf0, log0 := current, pools.hostOf, pools.log;
      assert SwitchedSince(prev, hostOf0, log0, []);
      while true
        invariant Valid()
        invariant retries == |tries|
        invariant RetryWhen(hosts, outcome, maxRetries, active, tries) == RetryWhen(hosts, outcome, maxRetries, old(active), [])
        invariant switched == SwitchedHosts(hosts, tries)
        invariant SwitchedSince(prev, hostOf0, log0, switched)
        decreases maxRetries - retries
      {
        var attempt := outcome(retries, hosts[active]);
        ghost var t := Try(active, attempt);
        assert (tries + [t])[..|tries|] == tries;
        if attempt.Connected? {
          return Success(Connection(hosts[active], retries));
        }
        if !IsConnectionError(attempt.error) {
          return Failure(Rejected(attempt.error));
        }
        if retries >= maxRetries {
          return Failure(RetriesExhausted(retries, attempt.error));
        }
        SwitchedHostsSnoc(hosts, tries, t);
        switched := BeforeRetry(prev, hostOf0, log0, switched);
        tries := tries + [t];
        retries := retries + 1;
      }
    }
  }

  /** What the `mysqlConnectionFactory` bean is. */
  datatype ConnectionFactory = PlainPool(pool: PoolId) | Failover(factory: FailoverConnectionFactory)

  /**
   * The `mysqlConnectionFactory` bean: an empty host list is a configuration
   * error; otherwise a pool for the first host is built at once. With
   * failover disabled or a single host that pool is the bean; otherwise the
   * bean is a failover wrapper, which builds its own pool for the first host
   * (the first one is left unused).
   */
  method MysqlConnectionFactory(hosts: seq<Host>, failover: FailoverSettings, pools: Pools) returns (r: Result<ConnectionFactory, string>)
    requires pools.Valid()
    modifies pools
    ensures pools.Valid()
    ensures hosts == [] ==>
              r == Failure(NoHostsMessage) && pools.hostOf == old(pools.hostOf) && pools.log == old(pools.log)
    ensures hosts != [] && (!failover.enabled || |hosts| == 1) ==>
              && r == Success(PlainPool(|old(pools.hostOf)|))
              && pools.hostOf == old(pools.hostOf) + [hosts[0]]
              && pools.log == old(pools.log) + [Built(|old(pools.hostOf)|, hosts[0])]
    ensures hosts != [] && failover.enabled && |hosts| > 1 ==>
              && r.Success? && r.value.Failover?
              && var f := r.value.factory;
                 && fresh(f) && f.Valid() && f.pools == pools
                 && f.hosts == hosts && f.maxRetries == failover.maxRetries
                 && f.active == 0 && f.current == |old(pools.hostOf)| + 1
                 && pools.hostOf == old(pools.hostOf) + [hosts[0], hosts[0]]
                 && pools.log == old(pools.log) + [Built(|old(pools.hostOf)|, hosts[0]), Built(f.current, hosts[0])]
  {
    if hosts == [] {
      return Failure(NoHostsMessage);
    }
    var primaryPool := pools.Build(hosts[0]);
    if !failover.enabled || |hosts| == 1 {
      return Success(PlainPool(primaryPool));
    }
    var f := new FailoverConnectionFactory(hosts, failover.maxRetries, pools);
    return Success(Failover(f));
  }
}
