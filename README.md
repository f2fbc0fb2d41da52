# Host failover in dual-db-demo, modelled in Dafny

The demo talks to PostgreSQL and MySQL. Each database can be configured with
several hosts. Two hand-written wrappers move between those hosts when a
connection fails:

- `FailoverDataSource` is the JDBC data source for PostgreSQL. It keeps an
  active host index and a current HikariCP pool. `getConnectionWithFailover`
  retries acquisition up to `maxRetries + 1` times, and moves to the next host
  after an error it classifies as a connection error. A health check switches
  back to the primary once a probe connection to it is valid.
- `FailoverConnectionFactory` is the R2DBC connection factory for MySQL. It
  disposes its pool and builds one for the next host before each retry of a
  Reactor `retryWhen` pipeline. The pipeline allows at most `maxRetries`
  retries, and only errors that pass its filter are retried.

The bean factories `postgresDataSource` and `mysqlConnectionFactory` reject an
empty host list. They use the plain pool of the first host when failover is
disabled or only one host is configured, and the wrapper otherwise. The
PostgreSQL R2DBC bean parses host, port and database out of its configured URL.

The model is in four modules:

- `Common` (common.dfy) holds the shared vocabulary:
  - hosts, and Option/Result types standing for null and exceptions;
  - `String.contains` and `startsWith`;
  - the `Pools` class, which stands for the pool library. A pool is an id, and
    the registry records the host each pool was built for and, in order,
    every build and close request;
  - `SwitchLog`, the sequence of pool requests a run of host switches makes;
  - the lemma that such a run closes every superseded pool exactly once.
- `PostgresJdbcConfig` (postgres_jdbc.dfy):
  - the classifier `IsConnectionError`;
  - the retry loop as a specification function `Retry`, with its
    characterization `Explains`;
  - the class `FailoverDataSource`, whose methods update `active` and
    `current` in place and are proved against `Retry` and `SwitchLog`;
  - the bean factory.
- `MysqlR2dbcConfig` (mysql_r2dbc.dfy) has the same parts for MySQL. The retry
  pipeline is `RetryWhen`, and `Create` is the loop one subscription to
  `create()` performs.
- `PostgresR2dbcConfig` (postgres_r2dbc.dfy) models the URL parsing as pure
  functions. Java's `String.replace`, its one-character `String.split` with
  trailing empty strings dropped, and `Integer.parseInt` are written out
  exactly, except that `parseInt` accepts only ASCII digits. A split-free description `Described` of the parse is proved equal to
  it.

Inputs the code reads from the outside world become parameters:

- the outcome of every connection attempt or subscription is an oracle from
  (attempt number, host) to an outcome;
- the health probe's outcome is a parameter;
- the configured settings are a `FailoverSettings` value.

## Model

| member | source | states |
|---|---|---|
| `Common.StartsWith` | src/main/java/id/my/hendisantika/dualdbdemo/config/PostgresJdbcConfig.java:229 | Java's `String.startsWith`: the string begins with the pattern; used by the SQLState test and, through `Contains`, by every message test |
| `Common.Contains` | src/main/java/id/my/hendisantika/dualdbdemo/config/PostgresJdbcConfig.java:225-228 | Java's `String.contains`, as a scan that tries `StartsWith` at each position; `ContainsIffOccurs` proves it equal to an occurrence at some index |
| `Common.ContainsIffOccurs` | src/main/java/id/my/hendisantika/dualdbdemo/config/PostgresJdbcConfig.java:225-228 | the `contains` test holds exactly when the text occurs at some index of the message |
| `Common.NextHost` | src/main/java/id/my/hendisantika/dualdbdemo/config/PostgresJdbcConfig.java:233-236 | the next index `(active + 1) % n` is always a valid index of the host list |
| `Common.SwitchLogClosesEachSupersededPoolOnce` | src/main/java/id/my/hendisantika/dualdbdemo/config/PostgresJdbcConfig.java:243-254 | a run of switches closes the pool it started on and every pool it built except the last, each exactly once, and closes no other pool |
| `Common.Pools.Build` | src/main/java/id/my/hendisantika/dualdbdemo/config/PostgresJdbcConfig.java:84-102 | building a pool registers a fresh id for the host and logs the build; nothing is closed |
| `Common.Pools.Close` | src/main/java/id/my/hendisantika/dualdbdemo/config/PostgresJdbcConfig.java:248-253 | a pool not yet closed is closed and the close is logged; no pool is ever closed twice |
| `PostgresJdbcConfig.IsConnectionError` | src/main/java/id/my/hendisantika/dualdbdemo/config/PostgresJdbcConfig.java:222-231 | the classifier: a present message containing one of the four texts, or a SQLState of class 08; its cases are stated by the four lemmas that follow |
| `PostgresJdbcConfig.NullMessageIsNeverConnectionError` | src/main/java/id/my/hendisantika/dualdbdemo/config/PostgresJdbcConfig.java:222-231 | an exception with a null message is never a connection error, even with a SQLState of class 08 |
| `PostgresJdbcConfig.ConnectionExceptionClassIsConnectionError` | src/main/java/id/my/hendisantika/dualdbdemo/config/PostgresJdbcConfig.java:229 | with a message present, a SQLState starting with "08" makes the exception a connection error |
| `PostgresJdbcConfig.RefusedIsConnectionError` | src/main/java/id/my/hendisantika/dualdbdemo/config/PostgresJdbcConfig.java:225 | a message containing "Connection refused" anywhere in its text is a connection error whatever the SQLState |
| `PostgresJdbcConfig.RejectedPasswordIsConnectionError` | src/main/java/id/my/hendisantika/dualdbdemo/config/PostgresJdbcConfig.java:228-229 | a FATAL message with the authentication SQLState 28P01 (not class 08) is still classified as a connection error |
| `PostgresJdbcConfig.Retry` | src/main/java/id/my/hendisantika/dualdbdemo/config/PostgresJdbcConfig.java:190-219 | the loop as a function of the attempts made so far: it always leaves a valid active index; `RetryExplained` characterizes it completely |
| `PostgresJdbcConfig.RetryExplained` | src/main/java/id/my/hendisantika/dualdbdemo/config/PostgresJdbcConfig.java:190-219 | at most `maxRetries + 1` attempts, each on the index left by the previous one, with the index moving on only after a connection error; success exactly when the last attempt was usable, with that connection; failure only after every attempt, with the last SQLException thrown or the generic one when none was |
| `PostgresJdbcConfig.PrimaryDownStandbyUp` | src/main/java/id/my/hendisantika/dualdbdemo/config/PostgresJdbcConfig.java:194-212 | primary refusing and standby up: the second attempt returns the standby's connection after one switch |
| `PostgresJdbcConfig.BothHostsDown` | src/main/java/id/my/hendisantika/dualdbdemo/config/PostgresJdbcConfig.java:194-219 | both hosts refusing with two retries allowed: three attempts alternate hosts, three switches are made and the last refusal is thrown |
| `PostgresJdbcConfig.FailoverDataSource.constructor` | src/main/java/id/my/hendisantika/dualdbdemo/config/PostgresJdbcConfig.java:140-147 | a new wrapper has active index 0 and a freshly built current pool for the first host |
| `PostgresJdbcConfig.FailoverDataSource.SwitchToHost` | src/main/java/id/my/hendisantika/dualdbdemo/config/PostgresJdbcConfig.java:238-256 | switching to the active index changes nothing; otherwise a pool for the target host is built and becomes current, the index is set, and the old pool is closed, in that order, with nothing else changed |
| `PostgresJdbcConfig.FailoverDataSource.SwitchToNextHost` | src/main/java/id/my/hendisantika/dualdbdemo/config/PostgresJdbcConfig.java:233-236 | the index becomes `(active + 1) % n`, a switch that builds and closes exactly as `SwitchToHost` says |
| `PostgresJdbcConfig.FailoverDataSource.HandleFailure` | src/main/java/id/my/hendisantika/dualdbdemo/config/PostgresJdbcConfig.java:200-213 | after a failed attempt, a connection error moves to the next host and anything else leaves the wrapper unchanged |
| `PostgresJdbcConfig.FailoverDataSource.CheckPrimaryHealth` | src/main/java/id/my/hendisantika/dualdbdemo/config/PostgresJdbcConfig.java:164-178 | on the primary nothing happens; otherwise a probe pool for the primary is built, and only a valid probe switches back to the primary |
| `PostgresJdbcConfig.FailoverDataSource.GetConnectionWithFailover` | src/main/java/id/my/hendisantika/dualdbdemo/config/PostgresJdbcConfig.java:190-220 | the result and final index are those of `Retry`; the pools built are one per switch the attempts caused, and the log is that run's switch log (build, then close) |
| `PostgresJdbcConfig.PostgresDataSource` | src/main/java/id/my/hendisantika/dualdbdemo/config/PostgresJdbcConfig.java:63-82 | an empty host list fails with "No PostgreSQL hosts configured" and builds nothing; failover off or one host gives a plain pool for the first host; otherwise a new wrapper over all hosts on the primary |
| `MysqlR2dbcConfig.IsConnectionError` | src/main/java/id/my/hendisantika/dualdbdemo/config/MysqlR2dbcConfig.java:162-166 | the retry filter: a non-transient resource exception, a ConnectException cause, or a message containing "Connection refused"; its cases are stated by the two lemmas that follow |
| `MysqlR2dbcConfig.ConnectionErrorCases` | src/main/java/id/my/hendisantika/dualdbdemo/config/MysqlR2dbcConfig.java:162-166 | a non-transient resource exception or a ConnectException cause is retried on its own; without either and with a null message nothing is retried |
| `MysqlR2dbcConfig.RefusedIsConnectionError` | src/main/java/id/my/hendisantika/dualdbdemo/config/MysqlR2dbcConfig.java:165 | a message containing "Connection refused" is retried whatever the exception's class or cause |
| `MysqlR2dbcConfig.RetryWhen` | src/main/java/id/my/hendisantika/dualdbdemo/config/MysqlR2dbcConfig.java:150-159 | the pipeline as a function of the subscriptions made so far: every call makes at least one more subscription; `RetryWhenExplained` characterizes it completely |
| `MysqlR2dbcConfig.RetryWhenExplained` | src/main/java/id/my/hendisantika/dualdbdemo/config/MysqlR2dbcConfig.java:150-159 | one subscription plus at most `maxRetries` retries, each after a classified error and on the next host; a connection is the last subscription's; an unclassified error propagates as is; a classified error ends the pipeline only once every retry is used, wrapped in the exhaustion error |
| `MysqlR2dbcConfig.OutageUsesEveryRetry` | src/main/java/id/my/hendisantika/dualdbdemo/config/MysqlR2dbcConfig.java:150-158 | when every host fails with a classified error, every retry is used and the exhaustion error reports `maxRetries` retries and that error |
| `MysqlR2dbcConfig.FailoverConnectionFactory.constructor` | src/main/java/id/my/hendisantika/dualdbdemo/config/MysqlR2dbcConfig.java:140-147 | a new wrapper has active index 0 and a freshly built current pool for the first host |
| `MysqlR2dbcConfig.FailoverConnectionFactory.SwitchToNextHost` | src/main/java/id/my/hendisantika/dualdbdemo/config/MysqlR2dbcConfig.java:168-181 | when the next index is the active one nothing changes; otherwise the old pool is disposed, then a pool for the next host is built and becomes current, and the index is set |
| `MysqlR2dbcConfig.FailoverConnectionFactory.BeforeRetry` | src/main/java/id/my/hendisantika/dualdbdemo/config/MysqlR2dbcConfig.java:155-158 | the callback before each retry makes exactly one switch to the next host |
| `MysqlR2dbcConfig.FailoverConnectionFactory.Create` | src/main/java/id/my/hendisantika/dualdbdemo/config/MysqlR2dbcConfig.java:150-160 | the result and final index are those of `RetryWhen`; one switch precedes every retry, and the pools and log are that run's switch log (dispose, then build) |
| `MysqlR2dbcConfig.MysqlConnectionFactory` | src/main/java/id/my/hendisantika/dualdbdemo/config/MysqlR2dbcConfig.java:69-92 | an empty host list fails with "No MySQL hosts configured"; otherwise the primary's pool is built first and is the bean when failover is off or one host is configured; else a new wrapper builds a second pool for the primary and is the bean |
| `PostgresR2dbcConfig.RemoveAll` | src/main/java/id/my/hendisantika/dualdbdemo/config/PostgresR2dbcConfig.java:67 | `replace(target, "")` never lengthens the string; `RemoveAllWithout`, `RemoveAllLeading` and `CleanUrl` state what it removes |
| `PostgresR2dbcConfig.RemoveAllWithout` | src/main/java/id/my/hendisantika/dualdbdemo/config/PostgresR2dbcConfig.java:67 | `replace` leaves a string without the target unchanged |
| `PostgresR2dbcConfig.RemoveAllLeading` | src/main/java/id/my/hendisantika/dualdbdemo/config/PostgresR2dbcConfig.java:67 | a leading occurrence of the target is removed and the scan continues after it |
| `PostgresR2dbcConfig.CleanUrl` | src/main/java/id/my/hendisantika/dualdbdemo/config/PostgresR2dbcConfig.java:67 | a URL of the form prefix + rest, where rest has no "//", becomes exactly rest |
| `PostgresR2dbcConfig.Pieces` | src/main/java/id/my/hendisantika/dualdbdemo/config/PostgresR2dbcConfig.java:68-69 | there is at least one piece and no piece contains the separator |
| `PostgresR2dbcConfig.JoinPieces` | src/main/java/id/my/hendisantika/dualdbdemo/config/PostgresR2dbcConfig.java:68-69 | joining the pieces with the separator gives the string back |
| `PostgresR2dbcConfig.PiecesOfJoin` | src/main/java/id/my/hendisantika/dualdbdemo/config/PostgresR2dbcConfig.java:68-69 | splitting a join of separator-free pieces gives the pieces back |
| `PostgresR2dbcConfig.DropTrailingEmpty` | src/main/java/id/my/hendisantika/dualdbdemo/config/PostgresR2dbcConfig.java:68-69 | the result is a prefix of the pieces whose last element is non-empty, and everything dropped is empty |
| `PostgresR2dbcConfig.Split` | src/main/java/id/my/hendisantika/dualdbdemo/config/PostgresR2dbcConfig.java:68-69 | no element of the array contains the separator or any character the string lacks; `SplitFacts` states its length and first two elements |
| `PostgresR2dbcConfig.SplitFacts` | src/main/java/id/my/hendisantika/dualdbdemo/config/PostgresR2dbcConfig.java:68-72 | the split array is empty exactly when the string is non-empty and only separators; its first element is the text before the first separator; a second element exists exactly when a non-separator follows the first separator, and is the text up to the next one |
| `PostgresR2dbcConfig.ParseInt` | src/main/java/id/my/hendisantika/dualdbdemo/config/PostgresR2dbcConfig.java:71 | a parsed value is always within the range of Java's `int` |
| `PostgresR2dbcConfig.ParseIntDecimal` | src/main/java/id/my/hendisantika/dualdbdemo/config/PostgresR2dbcConfig.java:71 | `parseInt` reads back the decimal text of every value up to 2147483647, and of every negative value down to -2147483648 after a '-'; a larger value is rejected |
| `PostgresR2dbcConfig.ParseUrl` | src/main/java/id/my/hendisantika/dualdbdemo/config/PostgresR2dbcConfig.java:66-72 | the whole parse: a success always has a host without ':' or '/', a port in `int` range and a database without '/'; the lemmas below state its results |
| `PostgresR2dbcConfig.ParseCleanUrl` | src/main/java/id/my/hendisantika/dualdbdemo/config/PostgresR2dbcConfig.java:68-72 | the parse after the prefix is removed, with the same guarantee on a success; `ParseCleanUrlDescribed` proves it equal to the split-free description |
| `PostgresR2dbcConfig.ParseCleanUrlDescribed` | src/main/java/id/my/hendisantika/dualdbdemo/config/PostgresR2dbcConfig.java:68-72 | the host is the text before the first ':' of the segment before the first '/'; the port is read from the second ':'-piece when it exists, else 5432, and non-numeric text is a NumberFormat error; the database is the second '/'-segment when it exists, else "test"; an all-separator segment is an index error |
| `PostgresR2dbcConfig.ParseRoundTrip` | src/main/java/id/my/hendisantika/dualdbdemo/config/PostgresR2dbcConfig.java:66-72 | `r2dbc:postgresql://h:p/d` parses back to (h, p, d) when h has no ':' or '/', p is a decimal in int range and d is non-empty without '/' |
| `PostgresR2dbcConfig.DefaultsApply` | src/main/java/id/my/hendisantika/dualdbdemo/config/PostgresR2dbcConfig.java:71-72 | `h`, `h:`, `h/` and `h:/` all give port 5432 and database "test" |
| `PostgresR2dbcConfig.ExtraSegmentsIgnored` | src/main/java/id/my/hendisantika/dualdbdemo/config/PostgresR2dbcConfig.java:69-72 | further ':'-pieces after the port and any number of further '/'-segments after the database do not change the result |
| `PostgresR2dbcConfig.NonNumericPortRejected` | src/main/java/id/my/hendisantika/dualdbdemo/config/PostgresR2dbcConfig.java:71 | a port text that does not start with a digit or sign fails with a NumberFormat error carrying that text |
| `PostgresR2dbcConfig.OnlySlashesFail` | src/main/java/id/my/hendisantika/dualdbdemo/config/PostgresR2dbcConfig.java:68-69 | a URL that is only slashes after the prefix makes the parser index an empty array |

## Left out

- Logging is not modelled.
- Locks and threads are not modelled: `synchronized`, `AtomicInteger`,
  `volatile` and the health-check scheduler. Every operation runs as one
  sequential step.
- The retry delay is not modelled: `Thread.sleep`, Reactor's fixed delay, and
  the `SQLException` thrown when the sleep is interrupted.
- The internals of HikariCP, r2dbc-pool and the drivers are not modelled,
  including `isValid` and exceptions thrown while building a pool. A pool is
  an id.
- The `DataSource` delegate methods and `getMetadata` are thin forwards to
  the current pool and are not modelled.
- The pools the code never closes are recorded as built but never closed in
  the model: the health check's probe pool and the unused primary pool of the
  MySQL failover path. The invalid connections the JDBC loop leaves open are
  not modelled at all, since the model keeps no connection objects. No
  property is claimed about either.
- The `currentDataSource != null` and `currentPool != null` tests are always
  true once a wrapper exists. The model has no null pool.
- PostgresJdbcConfig.FailoverDataSource.GetConnectionWithFailover: the `retries` counter is an
  unbounded integer, so the wrap-around a `maxRetries` of 2147483647 would
  cause in Java is not modelled.
- MysqlR2dbcConfig.RetryWhen: `maxRetries` is passed to Reactor as a `long`.
  A negative value is treated as zero retries, and Reactor's own handling of
  it is not part of this model.
- MysqlR2dbcConfig.RetryWhen: Reactor's exhaustion error is reduced to the
  number of retries and the last error; its message text is not modelled.
- PostgresR2dbcConfig.ParseInt: only ASCII digits are accepted. Java also
  accepts other Unicode decimal digits.
- A null URL, which would throw a NullPointerException, is not modelled.
- The remaining options of the connection factories and pool configurations
  (user, password, pool sizes, timeouts) are not modelled.

## Behaviour of the code worth noting

Both behaviours below are modelled and proved.

- In the JDBC loop an error that is not a connection error does not abort
  the loop. It uses up an attempt without switching host (`Retry`,
  `RetryExplained`).
- Any message containing "FATAL" counts as a connection error. This includes
  authentication failures, which then trigger a host switch
  (`RejectedPasswordIsConnectionError`).
