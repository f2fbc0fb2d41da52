/**
 * Shared vocabulary of the two failover wrappers: configured hosts, the
 * Option/Result wrappers that stand for Java's null and exceptions, the
 * `String.contains`/`startsWith` tests, and a registry that stands for the
 * connection-pool library (HikariCP, r2dbc-pool). A pool is an opaque id;
 * the registry only remembers which host each pool was built for and, in
 * order, every build and every close/dispose call.
 */
module Common {

  /** One entry of the configured host list: address and port. */
  datatype Host = Host(address: string, port: int)

  datatype Option<+T> = None | Some(value: T)

  datatype Result<+T, +E> = Success(value: T) | Failure(error: E)

  /**
   * The failover settings both wrappers read; the retry delay only paces the
   * retries and is not modelled.
   */
  datatype FailoverSettings = FailoverSettings(enabled: bool, maxRetries: int)

  /** A connection handed out by the pool of `host` on attempt number `attempt`. */
  datatype Connection = Connection(host: Host, attempt: nat)

  /** A pool is identified by the order in which it was built. */
  type PoolId = nat

  /** What the wrappers ask of the pool library. */
  datatype PoolEvent = Built(pool: PoolId, host: Host) | Closed(pool: PoolId)

  /** `t` occurs in `s` starting at index `i`. */
  predicate OccursAt(s: string, t: string, i: int)
  {
    0 <= i && i + |t| <= |s| && s[i..i + |t|] == t
  }

  /** Java's `s.startsWith(p)`. */
  predicate StartsWith(s: string, p: string)
  {
    |p| <= |s| && s[..|p|] == p
  }

  /** Java's `s.contains(t)`: `t` occurs somewhere in `s`. */
  predicate Contains(s: string, t: string)
    decreases |s|
  {
    StartsWith(s, t) || (s != [] && Contains(s[1..], t))
  }

  /** `Contains` finds exactly the occurrences `OccursAt` describes. */
  lemma {:induction false} ContainsIffOccurs(s: string, t: string)
    ensures Contains(s, t) <==> exists i :: 0 <= i <= |s| && OccursAt(s, t, i)
    decreases |s|
  {
    if StartsWith(s, t) {
      assert OccursAt(s, t, 0);
    } else if s != [] {
      ContainsIffOccurs(s[1..], t);
      if Contains(s[1..], t) {
        var i :| 0 <= i <= |s[1..]| && OccursAt(s[1..], t, i);
        assert s[i + 1..i + 1 + |t|] == s[1..][i..i + |t|];
        assert OccursAt(s, t, i + 1);
      }
      if i :| 0 <= i <= |s| && OccursAt(s, t, i) {
        assert i != 0;
        assert s[1..][i - 1..i - 1 + |t|] == s[i..i + |t|];
        assert OccursAt(s[1..], t, i - 1);
      }
    }
  }

  /** The index the wrappers move to on failover: `(active + 1) % hosts.size()`. */
  function NextHost(active: nat, n: nat): (r: nat)
    requires n >= 1
    ensures r < n
  {
    (active + 1) % n
  }

  function ClosesOf(e: PoolEvent): multiset<PoolId>
  {
    if e.Closed? then multiset{e.pool} else multiset{}
  }

  /** How many times each pool was closed, according to a log. */
  function Closes(log: seq<PoolEvent>): multiset<PoolId>
  {
    if log == [] then multiset{}
    else Closes(log[..|log| - 1]) + ClosesOf(log[|log| - 1])
  }

  lemma ClosesSnoc(log: seq<PoolEvent>, e: PoolEvent)
    ensures Closes(log + [e]) == Closes(log) + ClosesOf(e)
  {
    assert (log + [e])[..|log|] == log;
  }

  /** No two close calls of a log are for the same pool. */
  ghost predicate ClosedAtMostOnce(log: seq<PoolEvent>)
  {
    forall i, j :: 0 <= i < j < |log| && log[i].Closed? && log[j].Closed? ==> log[i].pool != log[j].pool
  }

  /**
   * The pool that is current after `k` switches that started on pool `prev`
   * and built pools `base`, `base + 1`, ... in turn.
   */
  function CurrentAfter(prev: PoolId, base: PoolId, k: nat): PoolId
  {
    if k == 0 then prev else base + k - 1
  }

  /**
   * The pool-library calls made by a run of switches to the hosts `hs`, one
   * switch per host, starting on pool `prev` with `base` as the next fresh id.
   * Each switch builds a pool for its host and closes the pool it supersedes;
   * `disposeFirst` says whether the close comes before the build.
   */
  function SwitchLog(prev: PoolId, base: PoolId, hs: seq<Host>, disposeFirst: bool): seq<PoolEvent>
    decreases |hs|
  {
    if hs == [] then []
    else
      var k := |hs| - 1;
      var superseded := CurrentAfter(prev, base, k);
      SwitchLog(prev, base, hs[..k], disposeFirst)
      + (if disposeFirst then [Closed(superseded), Built(base + k, hs[k])]
         else [Built(base + k, hs[k]), Closed(superseded)])
  }

  lemma SwitchLogSnoc(prev: PoolId, base: PoolId, hs: seq<Host>, h: Host, disposeFirst: bool)
    ensures disposeFirst ==>
              SwitchLog(prev, base, hs + [h], disposeFirst)
              == SwitchLog(prev, base, hs, disposeFirst) + [Closed(CurrentAfter(prev, base, |hs|)), Built(base + |hs|, h)]
    ensures !disposeFirst ==>
              SwitchLog(prev, base, hs + [h], disposeFirst)
              == SwitchLog(prev, base, hs, disposeFirst) + [Built(base + |hs|, h), Closed(CurrentAfter(prev, base, |hs|))]
  {
    assert (hs + [h])[..|hs|] == hs;
  }

  /** Appending two events adds their closes. */
  lemma ClosesSnoc2(log: seq<PoolEvent>, e1: PoolEvent, e2: PoolEvent, p: PoolId)
    ensures Closes(log + [e1, e2])[p] == Closes(log)[p] + ClosesOf(e1)[p] + ClosesOf(e2)[p]
  {
    assert log + [e1, e2] == (log + [e1]) + [e2];
    ClosesSnoc(log, e1);
    ClosesSnoc(log + [e1], e2);
  }

  /** The last switch of a run closes exactly the pool it supersedes. */
  lemma {:induction false} SwitchLogLastCloses(prev: PoolId, base: PoolId, hs: seq<Host>, disposeFirst: bool, p: PoolId)
    requires hs != []
    ensures Closes(SwitchLog(prev, base, hs, disposeFirst))[p]
            == Closes(SwitchLog(prev, base, hs[..|hs| - 1], disposeFirst))[p]
               + if p == CurrentAfter(prev, base, |hs| - 1) then 1 else 0
  {
    var k := |hs| - 1;
    var close, build := Closed(CurrentAfter(prev, base, k)), Built(base + k, hs[k]);
    var before := SwitchLog(prev, base, hs[..k], disposeFirst);
    if disposeFirst {
      assert SwitchLog(prev, base, hs, disposeFirst) == before + [close, build];
      ClosesSnoc2(before, close, build, p);
    } else {
      assert SwitchLog(prev, base, hs, disposeFirst) == before + [build, close];
      ClosesSnoc2(before, build, close, p);
    }
  }

  /**
   * A run of switches closes every pool it supersedes exactly once: the
   * starting pool and every pool it built except the last, and no other.
   */
  lemma {:induction false} SwitchLogClosesEachSupersededPoolOnce(prev: PoolId, base: PoolId, hs: seq<Host>, disposeFirst: bool, p: PoolId)
    requires prev < base
    ensures Closes(SwitchLog(prev, base, hs, disposeFirst))[p]
            == if hs != [] && (p == prev || base <= p < base + |hs| - 1) then 1 else 0
    decreases |hs|
  {
    if hs != [] {
      var k := |hs| - 1;
      SwitchLogLastCloses(prev, base, hs, disposeFirst, p);
      SwitchLogClosesEachSupersededPoolOnce(prev, base, hs[..k], disposeFirst, p);
    }
  }

  /**
   * The pool library, as the wrappers see it: it builds a pool per request
   * and records every close. Closing twice is not something the wrappers
   * ever do, and `Valid` makes the model check that.
   */
  class Pools {
    /** `hostOf[p]` is the host pool `p` was built for. */
    var hostOf: seq<Host>
    /** Every build and close, in the order they were requested. */
    var log: seq<PoolEvent>
    /** The pools closed so far. */
    ghost var closed: set<PoolId>

    ghost predicate Valid()
      reads this
    {
      && (forall p :: p in closed ==> p < |hostOf|)
      && (forall p :: Closed(p) in log <==> p in closed)
      && ClosedAtMostOnce(log)
    }

    constructor ()
      ensures Valid() && hostOf == [] && log == [] && closed == {}
    {
      hostOf := [];
      log := [];
      closed := {};
    }

    /** Builds a new pool for `h` (`createHikariDataSource`, `createConnectionPool`). */
    method Build(h: Host) returns (p: PoolId)
      requires Valid()
      modifies this
      ensures Valid()
      ensures p == |old(hostOf)| && hostOf == old(hostOf) + [h]
      ensures log == old(log) + [Built(p, h)] && closed == old(closed)
    {
      p := |hostOf|;
      hostOf := hostOf + [h];
      log := log + [Built(p, h)];
    }

    /** Closes or disposes pool `p`; whatever the library throws is caught by the caller. */
    method Close(p: PoolId)
      requires Valid() && p < |hostOf| && p !in closed
      modifies this
      ensures Valid()
      ensures hostOf == old(hostOf) && log == old(log) + [Closed(p)] && closed == old(closed) + {p}
    {
      log := log + [Closed(p)];
      closed := closed + {p};
    }
  }
}
