/**
 * The URL parsing of the `postgresConnectionFactory` bean: the configured
 * R2DBC URL loses every occurrence of `r2dbc:postgresql://`, is split on
 * '/', and its first segment is split on ':'; the host is the first piece,
 * the port the second (5432 when there is none) and the database the second
 * '/'-segment ("test" when there is none).
 *
 * Java's `String.replace`, `String.split` with a one-character separator and
 * `Integer.parseInt` are modelled exactly as far as this parsing reaches them,
 * except that `parseInt` accepts only ASCII digits: `split` returns the whole string when the separator does not occur, and
 * otherwise the pieces between separators without the trailing empty ones;
 * an index past the end of the array and a malformed port are the two errors.
 */
module PostgresR2dbcConfig {
  import opened Common

  const Scheme := "r2dbc:postgresql:"
  /** The text the parser removes. */
  const UrlPrefix := Scheme + "//"
  const DefaultPort := 5432
  const DefaultDatabase := "test"

  /** Bounds of Java's `int`. */
  const IntMin := -0x8000_0000
  const IntMax := 0x7fff_ffff

  /** What the parser extracts. */
  datatype Endpoint = Endpoint(host: string, port: int, database: string)

  /** What a successful parse can give: a host without ':' or '/', a port in `int` range, a database without '/'. */
  predicate WellFormed(e: Endpoint)
  {
    ':' !in e.host && '/' !in e.host && IntMin <= e.port <= IntMax && '/' !in e.database
  }

  /** `ArrayIndexOutOfBoundsException` from indexing a split result, or `NumberFormatException` from `parseInt`. */
  datatype ParseError = IndexOutOfBounds | NumberFormat(text: string)

  // ---------------------------------------------------------------------
  // String.replace(target, "")
  // ---------------------------------------------------------------------

  /** `s.replace(target, "")`: the occurrences found scanning left to right, none overlapping, are removed. */
  function RemoveAll(s: string, target: string): (r: string)
    requires target != []
    ensures |r| <= |s|
    decreases |s|
  {
    if s == [] then []
    else if StartsWith(s, target) then RemoveAll(s[|target|..], target)
    else [s[0]] + RemoveAll(s[1..], target)
  }

  /** A string without `target` is left as it is. */
  lemma {:induction false} RemoveAllWithout(s: string, target: string)
    requires target != [] && !Contains(s, target)
    ensures RemoveAll(s, target) == s
    decreases |s|
  {
    if s != [] {
      RemoveAllWithout(s[1..], target);
      assert [s[0]] + s[1..] == s;
    }
  }

  /** A leading occurrence is removed and scanning goes on after it. */
  lemma RemoveAllLeading(target: string, s: string)
    requires target != []
    ensures RemoveAll(target + s, target) == RemoveAll(s, target)
  {
    assert (target + s)[..|target|] == target;
    assert (target + s)[|target|..] == s;
  }

  /** No two '/' next to each other. */
  predicate NoDoubleSlash(s: string)
  {
    forall i :: 0 <= i < |s| - 1 ==> !(s[i] == '/' && s[i + 1] == '/')
  }

  /** Joining two strings without adjacent slashes by one '/' adds none, unless the second starts with '/'. */
  lemma SlashJoin(a: string, b: string)
    requires '/' !in a && NoDoubleSlash(b) && (b == [] || b[0] != '/')
    ensures NoDoubleSlash(a + ['/'] + b)
  {
    var s := a + ['/'] + b;
    forall i | 0 <= i < |s| - 1 && s[i] == '/'
      ensures s[i + 1] != '/'
    {
      if i > |a| {
        assert s[i] == b[i - |a| - 1] && s[i + 1] == b[i - |a|];
      }
    }
  }

  /** The prefix ends in "//", so a string without two adjacent slashes cannot contain it. */
  lemma NoDoubleSlashExcludesPrefix(s: string)
    requires NoDoubleSlash(s)
    ensures !Contains(s, UrlPrefix)
  {
    ContainsIffOccurs(s, UrlPrefix);
    forall i | 0 <= i <= |s| && OccursAt(s, UrlPrefix, i)
      ensures s[i + |Scheme|] == '/' && s[i + |Scheme| + 1] == '/'
    {
      assert s[i..i + |UrlPrefix|] == UrlPrefix;
      assert UrlPrefix[|Scheme|] == '/' && UrlPrefix[|Scheme| + 1] == '/';
    }
  }

  /** A string without the first character of `t` does not contain `t`. */
  lemma {:induction false} LacksFirstExcludes(s: string, t: string)
    requires t != [] && t[0] !in s
    ensures !Contains(s, t)
    decreases |s|
  {
    if s != [] {
      LacksFirstExcludes(s[1..], t);
    }
  }

  /** The URL the parser expects loses exactly its prefix. */
  lemma CleanUrl(rest: string)
    requires NoDoubleSlash(rest)
    ensures RemoveAll(UrlPrefix + rest, UrlPrefix) == rest
  {
    RemoveAllLeading(UrlPrefix, rest);
    NoDoubleSlashExcludesPrefix(rest);
    RemoveAllWithout(rest, UrlPrefix);
  }

  // ---------------------------------------------------------------------
  // String.split(String.valueOf(sep))
  // ---------------------------------------------------------------------

  /** The text before the first `c`, or all of `s` when there is none. */
  function Before(s: string, c: char): (r: string)
    ensures c !in r
    ensures c !in s ==> r == s
  {
    if s == [] then []
    else if s[0] == c then []
    else [s[0]] + Before(s[1..], c)
  }

  /** The text after the first `c`, or nothing when there is none. */
  function After(s: string, c: char): (r: string)
    ensures c !in s ==> r == []
  {
    if s == [] then []
    else if s[0] == c then s[1..]
    else After(s[1..], c)
  }

  /** Every character of `s` is `c` (true of the empty string). */
  predicate OnlyOf(s: string, c: char)
  {
    forall i :: 0 <= i < |s| ==> s[i] == c
  }

  /** The first `c` cuts `s` into the text before it and the text after it. */
  lemma {:induction false} CutAtFirst(s: string, c: char)
    requires c in s
    ensures s == Before(s, c) + [c] + After(s, c)
  {
    if s[0] != c {
      CutAtFirst(s[1..], c);
      assert s == [s[0]] + s[1..];
    }
  }

  /** Cutting `a + [c] + b` at its first `c` gives back `a` and `b` when `a` has no `c`. */
  lemma {:induction false} CutJoined(a: string, c: char, b: string)
    requires c !in a
    ensures Before(a + [c] + b, c) == a && After(a + [c] + b, c) == b
  {
    if a != [] {
      assert (a + [c] + b)[1..] == a[1..] + [c] + b;
      CutJoined(a[1..], c, b);
    } else {
      assert a + [c] + b == [c] + b;
    }
  }

  /** All the pieces of `s` between occurrences of `sep`, empty ones included: one more than there are separators. */
  function Pieces(s: string, sep: char): (r: seq<string>)
    ensures |r| >= 1
    ensures forall i :: 0 <= i < |r| ==> sep !in r[i]
    ensures forall i, c :: 0 <= i < |r| && c !in s ==> c !in r[i]
    decreases |s|
  {
    if s == [] then [[]]
    else
      assert forall c :: c in s[1..] ==> c in s;
      if s[0] == sep then [[]] + Pieces(s[1..], sep)
      else
        var rest := Pieces(s[1..], sep);
        [[s[0]] + rest[0]] + rest[1..]
  }

  /** The pieces put back together with `sep` between them. */
  function Join(ps: seq<string>, sep: char): string
    requires |ps| >= 1
  {
    if |ps| == 1 then ps[0] else ps[0] + [sep] + Join(ps[1..], sep)
  }

  /** Pieces are the text before the first separator followed by the pieces of the text after it. */
  lemma {:induction false} PiecesAtFirst(s: string, sep: char)
    ensures Pieces(s, sep) == [Before(s, sep)] + (if sep in s then Pieces(After(s, sep), sep) else [])
    decreases |s|
  {
    if s != [] && s[0] != sep {
      PiecesAtFirst(s[1..], sep);
      assert sep in s <==> sep in s[1..];
    }
  }

  /** Joining the pieces gives the string back. */
  lemma {:induction false} JoinPieces(s: string, sep: char)
    ensures Join(Pieces(s, sep), sep) == s
    decreases |s|
  {
    PiecesAtFirst(s, sep);
    if sep in s {
      CutAtFirst(s, sep);
      JoinPieces(After(s, sep), sep);
    }
  }

  /** Splitting a join of pieces without separators gives the pieces back. */
  lemma {:induction false} PiecesOfJoin(ps: seq<string>, sep: char)
    requires |ps| >= 1 && forall i :: 0 <= i < |ps| ==> sep !in ps[i]
    ensures Pieces(Join(ps, sep), sep) == ps
    decreases |ps|
  {
    var s := Join(ps, sep);
    PiecesAtFirst(s, sep);
    if |ps| > 1 {
      CutJoined(ps[0], sep, Join(ps[1..], sep));
      PiecesOfJoin(ps[1..], sep);
      assert ps == [ps[0]] + ps[1..];
    }
  }

  /** Every string of `ps` is empty. */
  predicate AllEmpty(ps: seq<string>)
  {
    forall i :: 0 <= i < |ps| ==> ps[i] == []
  }

  lemma AllEmptyCons(p: string, ps: seq<string>)
    ensures AllEmpty([p] + ps) <==> p == [] && AllEmpty(ps)
  {
    var qs := [p] + ps;
    assert qs[0] == p;
    assert forall i :: 0 <= i < |ps| ==> qs[i + 1] == ps[i];
    if p == [] && AllEmpty(ps) {
      forall i | 0 < i < |qs|
        ensures qs[i] == []
      {
        assert qs[i] == ps[i - 1];
      }
    }
  }

  /** Every piece is empty exactly when the string is nothing but separators. */
  lemma {:induction false} PiecesAllEmpty(s: string, sep: char)
    ensures AllEmpty(Pieces(s, sep)) <==> OnlyOf(s, sep)
    decreases |s|
  {
    if s != [] {
      var rest := Pieces(s[1..], sep);
      if s[0] == sep {
        PiecesAllEmpty(s[1..], sep);
        assert Pieces(s, sep) == [[]] + rest;
        AllEmptyCons([], rest);
        assert OnlyOf(s, sep) <==> OnlyOf(s[1..], sep) by {
          assert forall i :: 0 < i < |s| ==> s[i] == s[1..][i - 1];
        }
      } else {
        assert Pieces(s, sep)[0] == [s[0]] + rest[0];
      }
    }
  }

  /** The trailing empty strings of `ps` dropped, as `split` does with a zero limit. */
  function DropTrailingEmpty(ps: seq<string>): (r: seq<string>)
    ensures |r| <= |ps| && r == ps[..|r|]
    ensures r != [] ==> r[|r| - 1] != []
    ensures forall i :: |r| <= i < |ps| ==> ps[i] == []
  {
    if ps != [] && ps[|ps| - 1] == [] then DropTrailingEmpty(ps[..|ps| - 1]) else ps
  }

  /** `s.split(sep)`: the whole string when `sep` does not occur, otherwise the pieces without the trailing empty ones. */
  function Split(s: string, sep: char): (r: seq<string>)
    ensures forall i :: 0 <= i < |r| ==> sep !in r[i]
    ensures forall i, c :: 0 <= i < |r| && c !in s ==> c !in r[i]
  {
    if sep !in s then [s] else DropTrailingEmpty(Pieces(s, sep))
  }

  /** What dropping the trailing empty strings keeps of a first string followed by others. */
  lemma DropTrailingEmptyFront(b: string, qs: seq<string>)
    ensures var r := DropTrailingEmpty([b] + qs);
            && (|r| == 0 <==> b == [] && AllEmpty(qs))
            && (|r| >= 1 ==> r[0] == b)
            && (|r| >= 2 <==> !AllEmpty(qs))
            && (|r| >= 2 ==> r[1] == qs[0])
  {
    var ps := [b] + qs;
    var r := DropTrailingEmpty(ps);
    AllEmptyCons(b, qs);
    assert forall j :: 0 <= j < |qs| ==> ps[j + 1] == qs[j];
    if |r| >= 1 {
      assert r[0] == ps[0];
      assert r[|r| - 1] == ps[|r| - 1];
    } else {
      assert AllEmpty(ps);
    }
    if |r| >= 2 {
      assert ps[|r| - 1] == qs[|r| - 2];
    } else if |r| == 1 {
      assert AllEmpty(qs) by {
        assert forall j :: 0 <= j < |qs| ==> qs[j] == ps[j + 1];
      }
    }
  }

  /** A string is nothing but `c` exactly when nothing precedes its first `c` and only `c` follows it. */
  lemma OnlyOfCut(s: string, c: char)
    requires c in s
    ensures OnlyOf(s, c) <==> Before(s, c) == [] && OnlyOf(After(s, c), c)
  {
    var b, a := Before(s, c), After(s, c);
    CutAtFirst(s, c);
    assert forall i :: 0 <= i < |a| ==> a[i] == s[|b| + 1 + i];
    if b == [] && OnlyOf(a, c) {
      assert forall i :: 0 < i < |s| ==> s[i] == a[i - 1];
    }
    if b != [] {
      assert s[0] == b[0];
    }
  }

  /**
   * What the parser reads of a split: the array is empty exactly when the
   * string is non-empty and nothing but separators; its first element is the
   * text before the first separator; a second element exists exactly when
   * something other than a separator follows the first separator, and it is
   * the text between the first and the second separator.
   */
  lemma SplitFacts(s: string, sep: char)
    ensures |Split(s, sep)| == 0 <==> s != [] && OnlyOf(s, sep)
    ensures |Split(s, sep)| >= 1 ==> Split(s, sep)[0] == Before(s, sep)
    ensures |Split(s, sep)| >= 2 <==> sep in s && !OnlyOf(After(s, sep), sep)
    ensures |Split(s, sep)| >= 2 ==> Split(s, sep)[1] == Before(After(s, sep), sep)
  {
    if sep in s {
      var a := After(s, sep);
      PiecesAtFirst(s, sep);
      PiecesAtFirst(a, sep);
      PiecesAllEmpty(a, sep);
      OnlyOfCut(s, sep);
      DropTrailingEmptyFront(Before(s, sep), Pieces(a, sep));
    } else if s != [] {
      assert s[0] != sep;
    }
  }

  // ---------------------------------------------------------------------
  // Integer.parseInt
  // ---------------------------------------------------------------------

  predicate IsDigit(c: char)
  {
    '0' <= c <= '9'
  }

  predicate AllDigits(s: string)
  {
    forall i :: 0 <= i < |s| ==> IsDigit(s[i])
  }

  /** The value of a string of decimal digits. */
  function DigitsValue(s: string): nat
    requires AllDigits(s)
  {
    if s == [] then 0
    else DigitsValue(s[..|s| - 1]) * 10 + (s[|s| - 1] as int - '0' as int)
  }

  /** The decimal text of `n`, without sign or leading zeros, as string concatenation writes an `int`. */
  function DecimalString(n: nat): (r: string)
    ensures r != [] && AllDigits(r)
  {
    if n < 10 then [('0' as int + n) as char]
    else DecimalString(n / 10) + [('0' as int + n % 10) as char]
  }

  /** `Integer.parseInt`: an optional sign, then at least one digit, and a value in `int` range; anything else is rejected. */
  function ParseInt(s: string): (r: Option<int>)
    ensures r.Some? ==> IntMin <= r.value <= IntMax
  {
    if s == [] then None
    else
      var digits := if s[0] == '-' || s[0] == '+' then s[1..] else s;
      if digits == [] || !AllDigits(digits) then None
      else
        var magnitude: int := DigitsValue(digits);
        var v := if s[0] == '-' then -magnitude else magnitude;
        if IntMin <= v <= IntMax then Some(v) else None
  }

  /** Reading the decimal text of a number gives the number back. */
  lemma {:induction false} DigitsOfDecimal(n: nat)
    ensures DigitsValue(DecimalString(n)) == n
  {
    if n >= 10 {
      DigitsOfDecimal(n / 10);
      var s := DecimalString(n);
      assert s[..|s| - 1] == DecimalString(n / 10);
    }
  }

  /** `parseInt` reads back every `int` from its decimal text, negative ones with a leading '-'. */
  lemma ParseIntDecimal(n: nat)
    ensures n <= IntMax ==> ParseInt(DecimalString(n)) == Some(n)
    ensures n > IntMax ==> ParseInt(DecimalString(n)) == None
    ensures n <= -IntMin ==> ParseInt("-" + DecimalString(n)) == Some(-(n as int))
  {
    DigitsOfDecimal(n);
    var s := DecimalString(n);
    assert s[0] != '-' && s[0] != '+' by {
      assert IsDigit(s[0]);
    }
    assert ("-" + s)[1..] == s;
  }

  // ---------------------------------------------------------------------
  // The parser
  // ---------------------------------------------------------------------

  /** The host, port and database of `url`, or the exception the bean factory throws. */
  function ParseUrl(url: string): (r: Result<Endpoint, ParseError>)
    ensures r.Success? ==> WellFormed(r.value)
  {
    ParseCleanUrl(RemoveAll(url, UrlPrefix))
  }

  /** The splitting and reading that follow the removal of the prefix. */
  function ParseCleanUrl(clean: string): (r: Result<Endpoint, ParseError>)
    ensures r.Success? ==> WellFormed(r.value)
  {
    var hostPortDb := Split(clean, '/');
    if |hostPortDb| == 0 then Failure(IndexOutOfBounds)
    else
      var hostPort := Split(hostPortDb[0], ':');
      if |hostPort| == 0 then Failure(IndexOutOfBounds)
      else
        var port := if |hostPort| > 1 then ParseInt(hostPort[1]) else Some(DefaultPort);
        if port.None? then Failure(NumberFormat(hostPort[1]))
        else Success(Endpoint(hostPort[0], port.value, if |hostPortDb| > 1 then hostPortDb[1] else DefaultDatabase))
  }

  /**
   * The parse described without `split`: with `clean` the URL without the
   * prefix, and `authority` its text before the first '/', an array index
   * fails when either is non-empty and nothing but its separator; the host
   * is the authority's text before its first ':'; the port is read from the
   * text between its first and second ':' when something other than ':'
   * follows the first one, and is 5432 otherwise; the database is the text
   * between the first and second '/' when something other than '/' follows
   * the first one, and is "test" otherwise.
   */
  ghost function Described(clean: string): Result<Endpoint, ParseError>
  {
    var authority := Before(clean, '/');
    if (clean != [] && OnlyOf(clean, '/')) || (authority != [] && OnlyOf(authority, ':')) then
      Failure(IndexOutOfBounds)
    else
      var portText := Before(After(authority, ':'), ':');
      var hasPort := ':' in authority && !OnlyOf(After(authority, ':'), ':');
      var hasDatabase := '/' in clean && !OnlyOf(After(clean, '/'), '/');
      if hasPort && ParseInt(portText).None? then Failure(NumberFormat(portText))
      else
        Success(Endpoint(Before(authority, ':'),
                         if hasPort then ParseInt(portText).value else DefaultPort,
                         if hasDatabase then Before(After(clean, '/'), '/') else DefaultDatabase))
  }

  /** The parser does what the description says, on every input. */
  lemma ParseCleanUrlDescribed(clean: string)
    ensures ParseCleanUrl(clean) == Described(clean)
  {
    SplitFacts(clean, '/');
    SplitFacts(Before(clean, '/'), ':');
  }

  /**
   * With a ':' after the host and a '/' after the port text, the host is
   * what precedes the ':', the port is read from the port text up to any
   * further ':', and the database is the text after the '/' up to any
   * further '/'.
   */
  lemma DescribedWithPortAndDatabase(host: string, portPart: string, tail: string)
    requires ':' !in host && '/' !in host && '/' !in portPart
    requires portPart != [] && portPart[0] != ':'
    requires tail != [] && tail[0] != '/'
    ensures var portText := Before(portPart, ':');
            Described(host + [':'] + portPart + ['/'] + tail)
            == if ParseInt(portText).None? then Failure(NumberFormat(portText))
               else Success(Endpoint(host, ParseInt(portText).value, Before(tail, '/')))
  {
    var authority := host + [':'] + portPart;
    var clean := authority + ['/'] + tail;
    CutJoined(authority, '/', tail);
    CutJoined(host, ':', portPart);
    assert !OnlyOf(portPart, ':');
    assert !OnlyOf(tail, '/');
    assert !OnlyOf(authority, ':') by {
      assert authority[|host| + 1] == portPart[0];
    }
    assert !OnlyOf(clean, '/') by {
      assert clean[|authority| + 1] == tail[0];
    }
  }

  /**
   * A URL written as prefix, host, ':', port, '/', database parses back to
   * that host, port and database, when the host has no ':' or '/', the port
   * is in `int` range and the database is non-empty without '/'.
   */
  lemma ParseRoundTrip(host: string, port: nat, database: string)
    requires ':' !in host && '/' !in host
    requires port <= IntMax
    requires database != [] && '/' !in database
    ensures ParseUrl(UrlPrefix + host + ":" + DecimalString(port) + "/" + database)
            == Success(Endpoint(host, port, database))
  {
    var p := DecimalString(port);
    var rest := host + [':'] + p + ['/'] + database;
    assert UrlPrefix + host + ":" + p + "/" + database == UrlPrefix + rest;
    assert '/' !in p && ':' !in p && p[0] != ':' by {
      assert forall i :: 0 <= i < |p| ==> IsDigit(p[i]);
    }
    assert database[0] in database;
    SlashJoin(host + [':'] + p, database);
    CleanUrl(rest);
    ParseCleanUrlDescribed(rest);
    DescribedWithPortAndDatabase(host, p, database);
    ParseIntDecimal(port);
  }

  /**
   * Without a port or database, or with nothing after their separators, the
   * defaults are used: `host`, `host:`, `host/` and `host:/` all give port
   * 5432 and database "test" (an empty host before a separator is an error).
   */
  lemma DefaultsApply(host: string, colon: bool, slash: bool)
    requires host != [] && ':' !in host && '/' !in host
    ensures var rest := host + (if colon then ":" else "") + (if slash then "/" else "");
            ParseUrl(UrlPrefix + rest) == Success(Endpoint(host, DefaultPort, DefaultDatabase))
  {
    var authority := host + (if colon then ":" else "");
    var rest := authority + (if slash then "/" else "");
    assert NoDoubleSlash(rest) by {
      if slash {
        assert rest == authority + ['/'] + [];
        SlashJoin(authority, []);
      }
    }
    CleanUrl(rest);
    ParseCleanUrlDescribed(rest);
    DescribedDefaults(host, authority, rest);
  }

  /** The description of the parse when nothing follows the separators after the host. */
  lemma DescribedDefaults(host: string, authority: string, clean: string)
    requires host != [] && ':' !in host && '/' !in host
    requires authority == host || authority == host + [':']
    requires clean == authority || clean == authority + ['/']
    ensures Described(clean) == Success(Endpoint(host, DefaultPort, DefaultDatabase))
  {
    assert host[0] in host;
    assert clean[0] == authority[0] == host[0];
    assert Before(clean, '/') == authority && OnlyOf(After(clean, '/'), '/') by {
      if clean != authority {
        CutJoined(authority, '/', []);
        assert clean == authority + ['/'] + [];
      }
    }
    assert Before(authority, ':') == host && OnlyOf(After(authority, ':'), ':') by {
      if authority != host {
        CutJoined(host, ':', []);
        assert authority == host + [':'] + [];
      }
    }
  }

  /**
   * Only the first two ':'-pieces of the authority and the first two
   * '/'-segments are read: whatever follows them is ignored.
   */
  lemma ExtraSegmentsIgnored(host: string, port: nat, more: string, database: string, path: string)
    requires ':' !in host && '/' !in host && '/' !in more
    requires port <= IntMax
    requires database != [] && '/' !in database
    requires NoDoubleSlash(path) && (path == [] || path[0] != '/')
    ensures ParseUrl(UrlPrefix + host + ":" + DecimalString(port) + ":" + more + "/" + database + "/" + path)
            == Success(Endpoint(host, port, database))
  {
    var p := DecimalString(port);
    var portPart := p + [':'] + more;
    var tail := database + ['/'] + path;
    var rest := host + [':'] + portPart + ['/'] + tail;
    assert UrlPrefix + host + ":" + p + ":" + more + "/" + database + "/" + path == UrlPrefix + rest;
    assert '/' !in p && ':' !in p && p[0] != ':' by {
      assert forall i :: 0 <= i < |p| ==> IsDigit(p[i]);
    }
    assert database[0] in database;
    SlashJoin(database, path);
    SlashJoin(host + [':'] + portPart, tail);
    CleanUrl(rest);
    ParseCleanUrlDescribed(rest);
    CutJoined(p, ':', more);
    CutJoined(database, '/', path);
    DescribedWithPortAndDatabase(host, portPart, tail);
    ParseIntDecimal(port);
  }

  /** A non-numeric port is rejected with the text that was read. */
  lemma NonNumericPortRejected(host: string, portText: string)
    requires ':' !in host && '/' !in host && ':' !in portText && '/' !in portText
    requires portText != [] && !IsDigit(portText[0]) && portText[0] != '-' && portText[0] != '+'
    ensures ParseUrl(UrlPrefix + host + ":" + portText) == Failure(NumberFormat(portText))
  {
    var rest := host + [':'] + portText;
    assert UrlPrefix + host + ":" + portText == UrlPrefix + rest;
    assert '/' !in rest;
    CleanUrl(rest);
    ParseCleanUrlDescribed(rest);
    DescribedNonNumericPort(host, portText);
  }

  /** The description of the parse when the port text is not a number. */
  lemma DescribedNonNumericPort(host: string, portText: string)
    requires ':' !in host && '/' !in host && ':' !in portText && '/' !in portText
    requires portText != [] && !IsDigit(portText[0]) && portText[0] != '-' && portText[0] != '+'
    ensures Described(host + [':'] + portText) == Failure(NumberFormat(portText))
  {
    var clean := host + [':'] + portText;
    assert '/' !in clean;
    CutJoined(host, ':', portText);
    assert portText[0] in portText;
    assert !OnlyOf(clean, ':') by {
      assert clean[|host| + 1] == portText[0];
    }
    assert ParseInt(portText) == None by {
      assert !AllDigits(portText);
    }
  }

  /** A URL that is nothing but '/' after the prefix makes the parser index an empty array. */
  lemma OnlySlashesFail(n: nat)
    requires n >= 1
    ensures ParseUrl(UrlPrefix + seq(n, i => '/')) == Failure(IndexOutOfBounds)
  {
    var slashes := seq(n, i => '/');
    RemoveAllLeading(UrlPrefix, slashes);
    LacksFirstExcludes(slashes, UrlPrefix);
    RemoveAllWithout(slashes, UrlPrefix);
    ParseCleanUrlDescribed(slashes);
  }
}
