/** Routing rules and dotted names (src/config.rs, src/dbus/daemon.rs). */
module Config {
  import opened Wire
  import opened MatchRules

  const DOT: byte := 46
  const STAR: byte := 42
  const WILDCARD: bytes := [DOT, STAR]

  /** The destinations routed to the host bus. */
  datatype Config = Config(hostRoutes: seq<bytes>)

  /** `RouteRule::matches` */
  predicate Matches(rule: bytes, destination: bytes) {
    if |rule| >= 2 && rule[|rule| - 2..] == WILDCARD then
      var prefix := rule[..|rule| - 2];
      destination == prefix || (prefix <= destination && destination[|prefix|] == DOT)
    else rule == destination
  }

  predicate ShouldRouteToHost(cfg: Config, destination: bytes) {
    exists rule :: rule in cfg.hostRoutes && Matches(rule, destination)
  }

  function JoinWith(parts: seq<bytes>, sep: byte): bytes {
    if |parts| == 0 then [] else if |parts| == 1 then parts[0]
    else parts[0] + [sep] + JoinWith(parts[1..], sep)
  }

  /** The first three segments of an interface name. */
  function ServiceOf(iface: bytes): Option<bytes> {
    var parts := Split(iface, DOT);
    if |parts| >= 3 then Some(JoinWith(parts[..3], DOT)) else None
  }

  // ----- splitting and joining -----

  lemma {:induction false} JoinOfSplit(s: bytes, sep: byte)
    ensures JoinWith(Split(s, sep), sep) == s
  {
    if |s| > 0 {
      JoinOfSplit(s[1..], sep);
      var rest := Split(s[1..], sep);
      assert s == [s[0]] + s[1..];
      if s[0] == sep {
        JoinEmptyFront(rest, sep);
      } else {
        JoinLongerFront(s[0], rest, sep);
      }
    }
  }

  lemma JoinEmptyFront(rest: seq<bytes>, sep: byte)
    requires |rest| > 0
    ensures JoinWith([[]] + rest, sep) == [sep] + JoinWith(rest, sep)
  {
    assert ([[]] + rest)[1..] == rest;
  }

  lemma JoinLongerFront(b: byte, rest: seq<bytes>, sep: byte)
    requires |rest| > 0
    ensures JoinWith([[b] + rest[0]] + rest[1..], sep) == [b] + JoinWith(rest, sep)
  {
    var h := [b] + rest[0];
    assert ([h] + rest[1..])[1..] == rest[1..];
    if |rest| > 1 {
      assert [b] + (rest[0] + [sep] + JoinWith(rest[1..], sep)) == h + [sep] + JoinWith(rest[1..], sep);
    }
  }

  lemma {:induction false} SplitParts(s: bytes, sep: byte)
    ensures forall i :: 0 <= i < |Split(s, sep)| ==> sep !in Split(s, sep)[i]
  {
    if |s| > 0 {
      SplitParts(s[1..], sep);
    }
  }

  lemma {:induction false} SplitAppend(a: bytes, b: bytes, sep: byte)
    ensures Split(a + [sep] + b, sep) == Split(a, sep) + Split(b, sep)
  {
    var s := a + [sep] + b;
    if |a| == 0 {
      assert s[1..] == b;
      assert [[]] + Split(b, sep) == Split(a, sep) + Split(b, sep);
    } else {
      assert s[1..] == a[1..] + [sep] + b;
      SplitAppend(a[1..], b, sep);
      var rest, more := Split(a[1..], sep), Split(b, sep);
      if a[0] == sep {
        assert [[]] + (rest + more) == ([[]] + rest) + more;
      } else {
        assert [[a[0]] + rest[0]] + (rest + more)[1..] == ([[a[0]] + rest[0]] + rest[1..]) + more;
      }
    }
  }

  lemma {:induction false} SplitWhole(s: bytes, sep: byte)
    requires sep !in s
    ensures Split(s, sep) == [s]
  {
    if |s| > 0 {
      SplitWhole(s[1..], sep);
      assert [s[0]] + s[1..] == s;
    }
  }

  lemma {:induction false} SplitOfJoin(parts: seq<bytes>, sep: byte)
    requires |parts| > 0 && forall i :: 0 <= i < |parts| ==> sep !in parts[i]
    ensures Split(JoinWith(parts, sep), sep) == parts
    decreases |parts|
  {
    SplitWhole(parts[0], sep);
    if |parts| == 1 {
      assert parts == [parts[0]];
    } else {
      SplitOfJoin(parts[1..], sep);
      SplitAppend(parts[0], JoinWith(parts[1..], sep), sep);
      assert parts == [parts[0]] + parts[1..];
    }
  }

  lemma {:induction false} JoinAppend(left: seq<bytes>, right: seq<bytes>, sep: byte)
    requires |left| > 0 && |right| > 0
    ensures JoinWith(left + right, sep) == JoinWith(left, sep) + [sep] + JoinWith(right, sep)
    decreases |left|
  {
    assert (left + right)[1..] == left[1..] + right;
    if |left| > 1 {
      JoinAppend(left[1..], right, sep);
      var a, b, c := left[0], JoinWith(left[1..], sep), JoinWith(right, sep);
      assert a + [sep] + (b + [sep] + c) == (a + [sep] + b) + [sep] + c;
    }
  }

  // ----- what a wildcard rule means -----

  /** A rule `p.*` matches a name exactly when the dotted segments of `p` are
      the leading segments of the name. */
  lemma WildcardMeansSegments(p: bytes, d: bytes)
    ensures Matches(p + WILDCARD, d) <==> Split(p, DOT) <= Split(d, DOT)
  {
    var rule := p + WILDCARD;
    assert rule[|rule| - 2..] == WILDCARD && rule[..|rule| - 2] == p;
    var ps, ds := Split(p, DOT), Split(d, DOT);
    if Matches(rule, d) && d != p {
      var rest := d[|p| + 1..];
      assert d == p + [DOT] + rest;
      SplitAppend(p, rest, DOT);
    }
    if ps <= ds {
      JoinOfSplit(p, DOT);
      JoinOfSplit(d, DOT);
      var more := ds[|ps|..];
      assert ds == ps + more;
      if |more| > 0 {
        JoinAppend(ps, more, DOT);
      } else {
        assert ds == ps;
      }
    }
  }

  /** Matching only the service part of an interface misses nothing, exactly
      as long as the rule has at most three segments. */
  lemma ServiceMatching(p: bytes, iface: bytes)
    ensures ServiceOf(iface).Some? <==> |Split(iface, DOT)| >= 3
    ensures ServiceOf(iface).Some? ==>
      (Matches(p + WILDCARD, ServiceOf(iface).value) <==> Matches(p + WILDCARD, iface) && |Split(p, DOT)| <= 3)
  {
    var parts, ps := Split(iface, DOT), Split(p, DOT);
    if |parts| >= 3 {
      var service := ServiceOf(iface).value;
      SplitParts(iface, DOT);
      SplitOfJoin(parts[..3], DOT);
      WildcardMeansSegments(p, service);
      WildcardMeansSegments(p, iface);
      if |ps| <= 3 && ps <= parts {
        assert ps == parts[..3][..|ps|];
      }
      if ps <= parts[..3] {
        assert ps == parts[..|ps|];
      }
    }
  }

  /** An exact rule names one thing: it matches the service part of an
      interface and the interface alike, exactly as long as it is neither or
      the two are the same, that is, the interface has three segments. */
  lemma ExactServiceMatching(rule: bytes, iface: bytes)
    requires !(|rule| >= 2 && rule[|rule| - 2..] == WILDCARD) && ServiceOf(iface).Some?
    ensures (Matches(rule, ServiceOf(iface).value) <==> Matches(rule, iface)) <==>
      |Split(iface, DOT)| == 3 || (rule != ServiceOf(iface).value && rule != iface)
  {
    var parts := Split(iface, DOT);
    var service := ServiceOf(iface).value;
    SplitParts(iface, DOT);
    SplitOfJoin(parts[..3], DOT);
    JoinOfSplit(iface, DOT);
    assert service == iface ==> parts[..3] == parts;
    assert |parts| == 3 ==> parts[..3] == parts;
  }

  // ----- what a configuration routes -----

  predicate EndsInWildcard(rule: bytes) { |rule| >= 2 && rule[|rule| - 2] == 46 && rule[|rule| - 1] == 42 }

  /** The rule names `d`: as it is, or, with ".*" at the end, by the segments in
      front of that. */
  predicate Names(rule: bytes, d: bytes) {
    if EndsInWildcard(rule) then Split(rule[..|rule| - 2], 46) <= Split(d, 46) else rule == d
  }

  lemma MatchesExactly(rule: bytes, d: bytes)
    ensures Matches(rule, d) <==> Names(rule, d)
  {
    hide Split;
    if |rule| >= 2 {
      assert rule[|rule| - 2..] == [rule[|rule| - 2], rule[|rule| - 1]];
    }
    if EndsInWildcard(rule) {
      assert rule == rule[..|rule| - 2] + WILDCARD;
      WildcardMeansSegments(rule[..|rule| - 2], d);
    }
  }

  /** A name goes to the host if and only if some rule of the configuration,
      wherever it stands, names it. */
  lemma RoutedExactly(cfg: Config, d: bytes)
    ensures ShouldRouteToHost(cfg, d) <==> exists i :: 0 <= i < |cfg.hostRoutes| && Names(cfg.hostRoutes[i], d)
  {
    hide Matches, Names;
    forall i | 0 <= i < |cfg.hostRoutes| ensures Matches(cfg.hostRoutes[i], d) <==> Names(cfg.hostRoutes[i], d) {
      MatchesExactly(cfg.hostRoutes[i], d);
    }
    if ShouldRouteToHost(cfg, d) {
      var rule :| rule in cfg.hostRoutes && Matches(rule, d);
      var i :| 0 <= i < |cfg.hostRoutes| && cfg.hostRoutes[i] == rule;
      assert Names(cfg.hostRoutes[i], d);
    }
  }

  /** The service part of an interface: three segments, or none. */
  lemma ServiceExactly(iface: bytes, service: bytes)
    ensures ServiceOf(iface) == Some(service) <==> |Split(service, 46)| == 3 && Split(service, 46) <= Split(iface, 46)
  {
    var parts := Split(iface, DOT);
    SplitParts(iface, DOT);
    JoinOfSplit(service, DOT);
    if |parts| >= 3 {
      SplitOfJoin(parts[..3], DOT);
    }
    if |Split(service, 46)| == 3 && Split(service, 46) <= parts {
      assert parts[..3] == Split(service, 46);
    }
  }
}
