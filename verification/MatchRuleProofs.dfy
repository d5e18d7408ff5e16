/** Rewriting the sender of a match rule, for rules written as key='value' parts. */
module MatchRuleProofs {
  import opened Wire
  import opened MatchRules
  import opened Config

  /** One part of a rule, with the white space around it. */
  datatype Pair = Pair(lead: bytes, key: bytes, value: bytes, trail: bytes)

  /** The part without white space around it. */
  function Core(p: Pair): bytes { p.key + [EQUALS, QUOTE] + p.value + [QUOTE] }

  function PartText(p: Pair): bytes { p.lead + Core(p) + p.trail }

  /** Nothing but white space. */
  predicate Blank(s: bytes) { TrimStart(s) == [] && TrimEnd(s) == [] }

  /** No separators inside keys and values. White space in front belongs to
      `lead`, not to the key. */
  predicate PlainPair(p: Pair) {
    COMMA !in p.key && EQUALS !in p.key && QUOTE !in p.key
    && COMMA !in p.value && QUOTE !in p.value && SpaceAtStart(Core(p)) == 0 && Blank(p.lead) && Blank(p.trail)
  }

  predicate PlainPairs(ps: seq<Pair>) { forall i :: 0 <= i < |ps| ==> PlainPair(ps[i]) }

  function PartTexts(ps: seq<Pair>): (r: seq<bytes>)
    ensures |r| == |ps| && forall i :: 0 <= i < |ps| ==> r[i] == PartText(ps[i])
  {
    if |ps| == 0 then [] else [PartText(ps[0])] + PartTexts(ps[1..])
  }

  /** The text of a rule, section "Match Rules" of the D-Bus Specification. */
  function RuleText(ps: seq<Pair>): bytes { JoinWith(PartTexts(ps), COMMA) }

  lemma RuleParts(ps: seq<Pair>)
    requires PlainPairs(ps) && |ps| > 0
    ensures Split(RuleText(ps), COMMA) == PartTexts(ps)
  {
    hide PartText, PlainPair, JoinWith, Split;
    var parts := PartTexts(ps);
    forall i | 0 <= i < |parts| ensures COMMA !in parts[i] {
      NoComma(ps[i]);
    }
    SplitOfJoin(parts, COMMA);
  }

  lemma NoComma(p: Pair)
    requires PlainPair(p)
    ensures COMMA !in PartText(p)
  {
    hide Core, Blank, SpaceAtStart;
    CoreEnds(p);
    BlankBytes(p.lead);
    BlankBytes(p.trail);
    assert COMMA !in Core(p) by { CoreShape(p); }
  }

  // ----- white space -----

  /** A byte that can occur in the encoding of a white space character. */
  predicate SpaceByte(b: byte) { b <= 32 || b >= 128 }

  lemma {:induction false} BlankStart(s: bytes)
    requires TrimStart(s) == []
    ensures forall i :: 0 <= i < |s| ==> SpaceByte(s[i])
    decreases |s|
  {
    if |s| > 0 {
      var k := SpaceAtStart(s);
      BlankStart(s[k..]);
      assert forall i :: 0 <= i < k ==> s[..k][i] == s[i];
      forall i | 0 <= i < |s| ensures SpaceByte(s[i]) {
        assert i >= k ==> s[i] == s[k..][i - k];
      }
    }
  }

  lemma BlankBytes(s: bytes)
    requires Blank(s)
    ensures forall i :: 0 <= i < |s| ==> SpaceByte(s[i])
    ensures COMMA !in s && QUOTE !in s && EQUALS !in s
  {
    BlankStart(s);
  }

  lemma SpaceAtStartPrefix(a: bytes, b: bytes)
    requires SpaceAtStart(a) > 0
    ensures SpaceAtStart(a + b) == SpaceAtStart(a)
  {
    hide IsSpace;
    assert forall k :: 0 <= k <= |a| ==> (a + b)[..k] == a[..k];
  }

  lemma SpaceAtEndSuffix(a: bytes, b: bytes)
    requires SpaceAtEnd(b) > 0
    ensures SpaceAtEnd(a + b) == SpaceAtEnd(b)
  {
    hide IsSpace;
    var s := a + b;
    assert s[|s| - 1..] == b[|b| - 1..];
    assert |b| >= 2 ==> s[|s| - 2..] == b[|b| - 2..];
    assert |b| >= 3 ==> s[|s| - 3..] == b[|b| - 3..];
  }

  lemma {:induction false} TrimLead(lead: bytes, t: bytes)
    requires TrimStart(lead) == [] && SpaceAtStart(t) == 0
    ensures TrimStart(lead + t) == t
    decreases |lead|
  {
    hide SpaceAtStart;
    if |lead| == 0 {
      assert lead + t == t;
    } else {
      var k := SpaceAtStart(lead);
      SpaceAtStartPrefix(lead, t);
      assert (lead + t)[k..] == lead[k..] + t;
      TrimLead(lead[k..], t);
    }
  }

  lemma {:induction false} TrimTrail(t: bytes, trail: bytes)
    requires TrimEnd(trail) == [] && SpaceAtEnd(t) == 0
    ensures TrimEnd(t + trail) == t
    decreases |trail|
  {
    hide SpaceAtEnd;
    if |trail| == 0 {
      assert t + trail == t;
    } else {
      var k := SpaceAtEnd(trail);
      SpaceAtEndSuffix(t, trail);
      assert (t + trail)[..|t + trail| - k] == t + trail[..|trail| - k];
      TrimTrail(t, trail[..|trail| - k]);
    }
  }

  // ----- parsing a part -----

  lemma CoreEnds(p: Pair)
    ensures |Core(p)| == |p.key| + |p.value| + 3 && Core(p)[|Core(p)| - 1] == QUOTE
    ensures Core(p)[..|p.key|] == p.key && Core(p)[|p.key|] == EQUALS && Core(p)[|p.key| + 1] == QUOTE
    ensures Core(p)[|p.key| + 2..|Core(p)| - 1] == p.value && Core(p)[|p.key| + 1..] == [QUOTE] + p.value + [QUOTE]
  {
  }

  lemma CoreShape(p: Pair)
    ensures Core(p) == p.key + [EQUALS] + ([QUOTE] + p.value + [QUOTE])
  {
  }

  lemma TrimPart(p: Pair)
    requires PlainPair(p)
    ensures Trim(PartText(p)) == Core(p)
  {
    hide Core, SpaceAtStart, SpaceAtEnd, TrimStart, TrimEnd;
    CoreEnds(p);
    var t := Core(p);
    assert PartText(p) == p.lead + (t + p.trail);
    StartsAlike(t, p.trail);
    TrimLead(p.lead, t + p.trail);
    EndsInQuote(t);
    TrimTrail(t, p.trail);
  }

  lemma EndsInQuote(t: bytes)
    requires |t| > 0 && t[|t| - 1] == QUOTE
    ensures SpaceAtEnd(t) == 0
  {
  }

  lemma StartsAlike(a: bytes, b: bytes)
    requires |a| >= 3
    ensures SpaceAtStart(a + b) == SpaceAtStart(a)
  {
    hide IsSpace;
    assert forall k :: 0 <= k <= 3 ==> (a + b)[..k] == a[..k];
  }

  lemma {:induction false} IndexOfAtMost(s: bytes, sep: byte, k: nat)
    requires k < |s| && s[k] == sep
    ensures IndexOf(s, sep) <= k
  {
    if s[0] != sep {
      IndexOfAtMost(s[1..], sep, k - 1);
    }
  }

  lemma IndexOfFirst(a: bytes, b: bytes, sep: byte)
    requires sep !in a
    ensures IndexOf(a + [sep] + b, sep) == |a|
  {
    var s := a + [sep] + b;
    IndexOfAtMost(s, sep, |a|);
    assert s[..|a|] == a;
    var i := IndexOf(s, sep);
    assert forall k :: 0 <= k < |a| ==> s[k] == a[k];
  }

  lemma {:induction false} UnquoteEnd(v: bytes)
    requires QUOTE !in v
    ensures Unquote(v + [QUOTE]) == v && Unquote([QUOTE] + v + [QUOTE]) == v
  {
    if |v| > 0 {
      assert v[0] != QUOTE && v[|v| - 1] != QUOTE;
    }
    assert Unquote(v) == v;
    var s := v + [QUOTE];
    if |v| == 0 {
      assert s[1..] == v;
    } else {
      assert s[0] == v[0] && s[..|s| - 1] == v;
    }
    assert ([QUOTE] + v + [QUOTE])[1..] == s;
  }

  lemma PartParses(info: MatchRuleInfo, p: Pair)
    requires PlainPair(p)
    ensures StorePart(info, PartText(p)) == Store(info, p.key, p.value)
  {
    hide Trim, Unquote, Store, SpaceAtStart, Core, PartText, Blank;
    TrimPart(p);
    CoreEnds(p);
    CoreShape(p);
    IndexOfFirst(p.key, [QUOTE] + p.value + [QUOTE], EQUALS);
    UnquoteEnd(p.value);
  }

  lemma SenderLength()
    ensures |SENDER| == 6 && |SENDER_EQUALS| == 7 && |SENDER_QUOTED| == 8
    ensures SENDER_QUOTED[..6] == SENDER && SENDER_QUOTED[6] == EQUALS && SENDER_QUOTED[7] == QUOTE
    ensures SENDER_EQUALS[..6] == SENDER && SENDER_EQUALS[6] == EQUALS
    ensures forall i :: 0 <= i < 6 ==> SENDER[i] != QUOTE && SENDER[i] != EQUALS && SENDER[i] != COMMA
  {
    var letters := "sender";
    assert forall i :: 0 <= i < 6 ==> SENDER[i] == letters[i] as int;
    assert letters == ['s', 'e', 'n', 'd', 'e', 'r'];
  }

  lemma PartSenderOf(p: Pair)
    requires PlainPair(p)
    ensures PartSender(PartText(p)) == if p.key == SENDER then Some(p.value) else None
  {
    hide Trim, SpaceAtStart, PartText, Core, Blank, IndexOf;
    TrimPart(p);
    CoreEnds(p);
    SenderLength();
    var t := Core(p);
    CoreShape(p);
    IndexOfFirst(p.key, [QUOTE] + p.value + [QUOTE], EQUALS);
    if SENDER_EQUALS <= t {
      assert t[..6] == SENDER_EQUALS[..6] && t[6] == EQUALS;
      assert t == SENDER + [EQUALS] + t[7..];
      IndexOfFirst(SENDER, t[7..], EQUALS);
    }
    if SENDER_QUOTED <= t {
      assert t[..7] == SENDER_QUOTED[..7] == SENDER_EQUALS;
    }
    if p.key == SENDER {
      assert t[..8] == t[..6] + [t[6], t[7]];
    }
  }

  // ----- replacing -----

  /** The pair after replacing: its value changes if it is `f` and its key
      ends in "sender". */
  predicate Hit(p: Pair, f: bytes) {
    p.value == f && |p.key| >= |SENDER| && p.key[|p.key| - |SENDER|..] == SENDER
  }

  function Replaced(p: Pair, f: bytes, n: bytes): Pair {
    if Hit(p, f) then p.(value := n) else p
  }

  /** A name that can stand in a rule. */
  predicate PlainName(f: bytes) { |f| > 0 && COMMA !in f && QUOTE !in f }

  lemma {:induction false} ReplaceSkips(a: bytes, s: bytes, was: bytes, now: bytes)
    requires |was| > 0 && forall j :: 0 <= j < |a| ==> !(was <= (a + s)[j..])
    ensures Replace(a + s, was, now) == a + Replace(s, was, now)
  {
    if |a| == 0 {
      assert a + s == s;
    } else {
      assert (a + s)[0..] == a + s;
      assert (a + s)[1..] == a[1..] + s;
      forall j | 0 <= j < |a[1..]| ensures !(was <= (a[1..] + s)[j..]) {
        assert (a[1..] + s)[j..] == (a + s)[j + 1..];
      }
      ReplaceSkips(a[1..], s, was, now);
      assert a == [a[0]] + a[1..];
    }
  }

  lemma SenderTextShape(f: bytes)
    ensures var t := SenderText(f);
      |t| == |f| + 9 && t[..6] == SENDER && t[6] == EQUALS && t[7] == QUOTE && t[8..8 + |f|] == f && t[8 + |f|] == QUOTE
  {
    SenderLength();
  }

  lemma SenderTextQuotes(f: bytes)
    requires QUOTE !in f
    ensures forall i :: 0 <= i < |f| + 9 ==> (SenderText(f)[i] == QUOTE <==> i == 7 || i == 8 + |f|)
  {
    hide SenderText;
    SenderLength();
    SenderTextShape(f);
    var t := SenderText(f);
    forall i | 0 <= i < |f| + 9 ensures t[i] == QUOTE <==> i == 7 || i == 8 + |f| {
      assert i < 6 ==> t[i] == t[..6][i];
      assert 8 <= i < 8 + |f| ==> t[i] == t[8..8 + |f|][i - 8];
    }
  }

  /** Where the key's trailing "sender" starts in the text of a part. */
  function HitPlace(p: Pair): int { |p.lead| + |p.key| - 6 }

  lemma PartEnds(p: Pair)
    requires PlainPair(p)
    ensures var t, k := PartText(p), |p.lead| + |p.key|;
      |t| == k + |p.value| + 3 + |p.trail| && t[|p.lead|..k] == p.key && t[k + 2..k + 2 + |p.value|] == p.value
      && (forall i :: 0 <= i < |p.lead| || k + |p.value| + 3 <= i < |t| ==> SpaceByte(t[i]))
      && (forall i :: 0 <= i < |t| ==> (t[i] == QUOTE <==> i == k + 1 || i == k + 2 + |p.value|))
  {
    hide Core, Blank, SpaceAtStart;
    CoreEnds(p);
    BlankBytes(p.lead);
    BlankBytes(p.trail);
    CoreQuotes(p);
    var t, c, n := PartText(p), Core(p), |p.lead|;
    forall i | 0 <= i < |t| ensures t[i] == QUOTE <==> i == n + |p.key| + 1 || i == n + |p.key| + 2 + |p.value| {
      assert n <= i < n + |c| ==> t[i] == c[i - n];
      assert i < n ==> t[i] == p.lead[i];
      assert n + |c| <= i ==> t[i] == p.trail[i - n - |c|];
    }
    assert t[n..n + |c|] == c;
    assert t[n..n + |p.key|] == c[..|p.key|] && t[n + |p.key| + 2..n + |p.key| + 2 + |p.value|] == c[|p.key| + 2..|c| - 1];
  }

  lemma CoreQuotes(p: Pair)
    requires QUOTE !in p.key && QUOTE !in p.value
    ensures forall i :: 0 <= i < |Core(p)| ==> (Core(p)[i] == QUOTE <==> i == |p.key| + 1 || i == |Core(p)| - 1)
  {
    var c := Core(p);
    forall i | 0 <= i < |c| ensures c[i] == QUOTE <==> i == |p.key| + 1 || i == |c| - 1 {
      assert i < |p.key| ==> c[i] == p.key[i];
      assert |p.key| + 1 < i < |c| - 1 ==> c[i] == p.value[i - |p.key| - 2];
    }
  }

  lemma SenderLetters(f: bytes)
    ensures forall i :: 0 <= i < 6 ==> !SpaceByte(SenderText(f)[i])
  {
    var letters := "sender";
    assert forall i :: 0 <= i < 6 ==> SenderText(f)[i] == letters[i] as int;
    assert letters == ['s', 'e', 'n', 'd', 'e', 'r'];
  }

  /** In the text of a part, followed by nothing or by a comma, the pattern
      can start only where the key's trailing "sender" does. */
  lemma MatchPlace(p: Pair, rest: bytes, f: bytes, j: nat)
    requires PlainPair(p) && PlainName(f) && (|rest| == 0 || rest[0] == COMMA)
    requires j < |PartText(p)| && SenderText(f) <= (PartText(p) + rest)[j..]
    ensures Hit(p, f) && j == HitPlace(p)
  {
    hide PlainPair, SenderText, PartText, SpaceByte;
    SenderTextShape(f);
    SenderTextQuotes(f);
    SenderLetters(f);
    PartEnds(p);
    var t, w, k := PartText(p), SenderText(f), |p.lead| + |p.key|;
    var s, e := t + rest, |t| - 1;
    assert forall i :: 0 <= i < |w| ==> w[i] == s[j..][i] == s[j + i];
    MatchesQuotes(p, rest, f, j);
    assert j == k - 6 && |f| == |p.value|;
    assert s[j] == t[j] == w[0];
    assert p.key[|p.key| - 6..] == t[j..j + 6] == s[j..][..6] == w[..6];
    assert p.value == t[j + 8..j + 8 + |f|] == s[j..][8..8 + |f|] == w[8..8 + |f|];
  }

  /** The quotes of the pattern lie on those of the part. */
  lemma MatchesQuotes(p: Pair, rest: bytes, f: bytes, j: nat)
    requires PlainPair(p) && PlainName(f) && (|rest| == 0 || rest[0] == COMMA)
    requires j < |PartText(p)| && SenderText(f) <= (PartText(p) + rest)[j..]
    ensures j == HitPlace(p) && |f| == |p.value|
  {
    hide PlainPair, SenderText, PartText, SpaceByte;
    SenderTextShape(f);
    SenderTextQuotes(f);
    SenderLetters(f);
    SenderNoComma(f);
    PartEnds(p);
    var t, w, k := PartText(p), SenderText(f), |p.lead| + |p.key|;
    var s := t + rest;
    assert forall i :: 0 <= i < |w| ==> w[i] == s[j..][i] == s[j + i];
    var e := j + |w| - 1;
    forall i | j <= i <= e ensures s[i] != COMMA {
      assert s[i] == w[i - j];
    }
    assert |t| < |s| ==> s[|t|] == COMMA;
    assert e < |t|;
    assert t[j + 7] == s[j + 7] == w[7] && t[e] == s[e] == w[|w| - 1];
  }

  lemma SenderNoComma(f: bytes)
    requires PlainName(f)
    ensures COMMA !in SenderText(f)
  {
    SenderLength();
    SenderTextShape(f);
    var w := SenderText(f);
    forall i | 0 <= i < |w| ensures w[i] != COMMA {
      assert i < 6 ==> w[i] == w[..6][i];
      assert 8 <= i < 8 + |f| ==> w[i] == w[8..8 + |f|][i - 8] == f[i - 8];
    }
  }

  lemma DifferentHead(w: bytes, s: bytes)
    requires |w| > 0 && |s| > 0 && w[0] != s[0]
    ensures !(w <= s)
  {
  }

  lemma HitShape(p: Pair, f: bytes, n: bytes)
    requires Hit(p, f)
    ensures |p.key| >= 6
    ensures PartText(p) == p.lead + p.key[..|p.key| - 6] + SenderText(f) + p.trail
    ensures PartText(Replaced(p, f, n)) == p.lead + p.key[..|p.key| - 6] + SenderText(n) + p.trail
  {
    SenderLength();
    assert p.key == p.key[..|p.key| - 6] + SENDER;
    assert Core(p) == p.key[..|p.key| - 6] + SenderText(f);
    assert Core(p.(value := n)) == p.key[..|p.key| - 6] + SenderText(n);
  }

  /** The pattern does not start before position `k` of a part's text, unless
      the part is replaced and its trailing "sender" starts earlier; nor
      behind it. */
  lemma NoMatchBefore(p: Pair, rest: bytes, f: bytes, k: nat)
    requires PlainPair(p) && PlainName(f) && (|rest| == 0 || rest[0] == COMMA)
    requires k <= |PartText(p)| && (Hit(p, f) ==> k <= HitPlace(p))
    ensures forall j :: 0 <= j < k ==> !(SenderText(f) <= (PartText(p) + rest)[j..])
  {
    hide PlainPair, PlainName, PartText, SenderText, Hit, HitPlace;
    forall j | 0 <= j < k ensures !(SenderText(f) <= (PartText(p) + rest)[j..]) {
      if SenderText(f) <= (PartText(p) + rest)[j..] {
        MatchPlace(p, rest, f, j);
      }
    }
  }

  /** Nor does it start in the white space behind the part. */
  lemma NoMatchInTrail(p: Pair, rest: bytes, f: bytes)
    requires PlainPair(p) && PlainName(f) && (|rest| == 0 || rest[0] == COMMA)
    ensures forall j :: 0 <= j < |p.trail| ==> !(SenderText(f) <= (p.trail + rest)[j..])
  {
    hide SenderText, Core, SpaceAtStart, SpaceByte, Blank;
    BlankBytes(p.trail);
    SenderLetters(f);
    SenderTextShape(f);
    forall j | 0 <= j < |p.trail| ensures !(SenderText(f) <= (p.trail + rest)[j..]) {
      var s := (p.trail + rest)[j..];
      assert s[0] == p.trail[j];
      DifferentHead(SenderText(f), s);
    }
  }

  lemma ReplaceHere(was: bytes, rest: bytes, now: bytes)
    requires |was| > 0
    ensures Replace(was + rest, was, now) == now + Replace(rest, was, now)
  {
    assert (was + rest)[|was|..] == rest && was <= was + rest;
  }

  /** Replacing in the text of one part and what follows it. */
  lemma ReplacePart(p: Pair, rest: bytes, f: bytes, n: bytes)
    requires PlainPair(p) && PlainName(f) && (|rest| == 0 || rest[0] == COMMA)
    ensures Replace(PartText(p) + rest, SenderText(f), SenderText(n))
      == PartText(Replaced(p, f, n)) + Replace(rest, SenderText(f), SenderText(n))
  {
    hide PlainPair, PlainName, PartText, SenderText, Hit, Replace, Replaced;
    SenderTextShape(f);
    if Hit(p, f) {
      HitShape(p, f, n);
      var a, b := p.lead + p.key[..|p.key| - 6], p.trail + rest;
      NoMatchBefore(p, rest, f, |a|);
      assert PartText(p) + rest == a + (SenderText(f) + b);
      ReplaceSkips(a, SenderText(f) + b, SenderText(f), SenderText(n));
      ReplaceHere(SenderText(f), b, SenderText(n));
      NoMatchInTrail(p, rest, f);
      ReplaceSkips(p.trail, rest, SenderText(f), SenderText(n));
      var z := Replace(rest, SenderText(f), SenderText(n));
      assert a + (SenderText(n) + (p.trail + z)) == a + SenderText(n) + p.trail + z;
    } else {
      assert Replaced(p, f, n) == p by { ReplacedMiss(p, f, n); }
      NoMatchBefore(p, rest, f, |PartText(p)|);
      ReplaceSkips(PartText(p), rest, SenderText(f), SenderText(n));
    }
  }

  lemma ReplacedMiss(p: Pair, f: bytes, n: bytes)
    requires !Hit(p, f)
    ensures Replaced(p, f, n) == p
  {
  }

  function ReplacedAll(ps: seq<Pair>, f: bytes, n: bytes): (r: seq<Pair>)
    ensures |r| == |ps| && forall i :: 0 <= i < |ps| ==> r[i] == Replaced(ps[i], f, n)
  {
    if |ps| == 0 then [] else [Replaced(ps[0], f, n)] + ReplacedAll(ps[1..], f, n)
  }

  lemma ReplaceComma(s: bytes, f: bytes, n: bytes)
    ensures Replace([COMMA] + s, SenderText(f), SenderText(n)) == [COMMA] + Replace(s, SenderText(f), SenderText(n))
  {
    hide SenderText;
    SenderLength();
    SenderTextShape(f);
    assert SenderText(f)[0] == SENDER[0];
    assert ([COMMA] + s)[1..] == s;
  }

  lemma RuleTextCons(p: Pair, rest: seq<Pair>)
    ensures RuleText([p]) == PartText(p)
    ensures |rest| > 0 ==> RuleText([p] + rest) == PartText(p) + ([COMMA] + RuleText(rest))
  {
    hide PartText;
    assert ([p] + rest)[1..] == rest && [p][1..] == [];
    assert PartTexts([p] + rest)[1..] == PartTexts(rest);
  }

  /** Replacing in a whole rule replaces pair by pair. */
  lemma {:induction false} ReplaceRule(ps: seq<Pair>, f: bytes, n: bytes)
    requires PlainPairs(ps) && |ps| > 0 && PlainName(f)
    ensures RewriteMatchRuleSender(RuleText(ps), f, n) == RuleText(ReplacedAll(ps, f, n))
    decreases |ps|
  {
    hide PartText, SenderText, Hit, PlainPair, PlainName, RuleText, Replaced;
    SenderTextShape(f);
    var p, rest := ps[0], ps[1..];
    assert ps == [p] + rest;
    RuleTextCons(p, rest);
    RuleTextCons(Replaced(p, f, n), ReplacedAll(rest, f, n));
    if |rest| == 0 {
      assert ps == [p];
      assert PartText(p) + [] == PartText(p);
      ReplacePart(p, [], f, n);
      assert Replace([], SenderText(f), SenderText(n)) == [];
      assert ReplacedAll(ps, f, n) == [Replaced(p, f, n)];
    } else {
      ReplaceRule(rest, f, n);
      ReplacePart(p, [COMMA] + RuleText(rest), f, n);
      ReplaceComma(RuleText(rest), f, n);
    }
  }

  // ----- what the rewritten rule means -----

  /** The keys that rules are read for. */
  predicate KeepsKey(key: bytes) {
    key != Ascii("interface") && key != Ascii("member") && key != Ascii("path") && key != Ascii("path_namespace")
    && key != Ascii("destination") && key != Ascii("type")
  }

  lemma SenderKeys(p: Pair, f: bytes)
    requires Hit(p, f)
    ensures KeepsKey(p.key)
  {
    SenderLength();
    var k := p.key;
    assert k[|k| - 6..][5] == SENDER[5] && k[|k| - 6..][0] == SENDER[0];
    assert SENDER[5] == 'r' as int && SENDER[0] == 's' as int;
    assert Ascii("member")[0] == 'm' as int;
    assert Ascii("interface")[8] == 'e' as int && Ascii("path")[3] == 'h' as int && Ascii("type")[3] == 'e' as int;
    assert Ascii("path_namespace")[13] == 'e' as int && Ascii("destination")[10] == 'n' as int;
  }

  lemma StoreOther(info: MatchRuleInfo, key: bytes, value: bytes)
    requires KeepsKey(key)
    ensures Store(info, key, value) == if key == SENDER then info.(sender := Some(value)) else info
  {
  }

  lemma StoreKeepsSender(info: MatchRuleInfo, key: bytes, value: bytes, s: Option<bytes>)
    requires key != SENDER
    ensures Store(info.(sender := s), key, value) == Store(info, key, value).(sender := s)
    ensures Store(info, key, value).sender == info.sender
  {
  }

  /** What reading the sender of a rule gives after the replacement. */
  function SenderAfter(s: Option<bytes>, f: bytes, n: bytes): Option<bytes> {
    if s == Some(f) then Some(n) else s
  }

  lemma StoreReplaced(info: MatchRuleInfo, p: Pair, f: bytes, n: bytes)
    ensures var q := Replaced(p, f, n);
      var after := Store(info, p.key, p.value);
      Store(info.(sender := SenderAfter(info.sender, f, n)), q.key, q.value) == after.(sender := SenderAfter(after.sender, f, n))
  {
    hide Store;
    SenderLength();
    var i' := info.(sender := SenderAfter(info.sender, f, n));
    if Hit(p, f) {
      SenderKeys(p, f);
      StoreOther(info, p.key, p.value);
      StoreOther(i', p.key, n);
    } else if p.key == SENDER {
      assert p.key[|p.key| - |SENDER|..] == p.key;
      StoreSender(info, p.value);
      StoreSender(i', p.value);
    } else {
      StoreKeepsSender(info, p.key, p.value, i'.sender);
    }
  }

  lemma StoreSender(info: MatchRuleInfo, value: bytes)
    ensures Store(info, SENDER, value) == info.(sender := Some(value))
  {
  }

  lemma PlainReplaced(p: Pair, f: bytes, n: bytes)
    requires PlainPair(p) && COMMA !in n && QUOTE !in n
    ensures PlainPair(Replaced(p, f, n))
  {
    SenderLength();
    if Hit(p, f) {
      var t, t' := Core(p), Core(p.(value := n));
      assert t[..1] == t'[..1] && t[..2] == t'[..2] && t[..3] == t'[..3];
    }
  }

  lemma {:induction false} InfoReplaced(ps: seq<Pair>, f: bytes, n: bytes)
    requires PlainPairs(ps) && COMMA !in n && QUOTE !in n
    ensures var info := InfoOf(PartTexts(ps));
      InfoOf(PartTexts(ReplacedAll(ps, f, n))) == info.(sender := SenderAfter(info.sender, f, n))
    decreases |ps|
  {
    hide PartText, StorePart, PlainPair, Hit, Replaced, ReplacedAll, PartTexts, Store, InfoOf, SenderAfter;
    if |ps| == 0 {
      NoRuleInfo();
      assert ReplacedAll([], f, n) == [] by { NothingReplaced(f, n); }
      assert SenderAfter(None, f, n).None? by { NoneStays(f, n); }
    } else {
      var k := |ps| - 1;
      var init, last := ps[..k], ps[k];
      InfoReplaced(init, f, n);
      ReplacedLast(init, last, f, n);
      assert ps == init + [last];
      InfoOfLast(init, last);
      PlainReplaced(last, f, n);
      InfoOfLast(ReplacedAll(init, f, n), Replaced(last, f, n));
      StoreReplaced(InfoOf(PartTexts(init)), last, f, n);
    }
  }

  lemma NoRuleInfo()
    ensures InfoOf(PartTexts([])) == NO_INFO
  {
  }

  lemma NothingReplaced(f: bytes, n: bytes)
    ensures ReplacedAll([], f, n) == []
  {
  }

  lemma NoneStays(f: bytes, n: bytes)
    ensures SenderAfter(None, f, n).None?
  {
  }

  lemma ReplacedLast(init: seq<Pair>, last: Pair, f: bytes, n: bytes)
    ensures ReplacedAll(init + [last], f, n) == ReplacedAll(init, f, n) + [Replaced(last, f, n)]
  {
    hide Replaced;
    var ps := init + [last];
    forall i | 0 <= i < |ps| ensures ReplacedAll(ps, f, n)[i] == (ReplacedAll(init, f, n) + [Replaced(last, f, n)])[i] {
    }
  }

  /** The last part of a rule is stored last. */
  lemma InfoOfLast(init: seq<Pair>, last: Pair)
    requires PlainPair(last)
    ensures InfoOf(PartTexts(init + [last])) == Store(InfoOf(PartTexts(init)), last.key, last.value)
  {
    hide PartText, StorePart, PlainPair, Store;
    var ps := init + [last];
    assert PartTexts(ps)[..|init|] == PartTexts(init);
    PartParses(InfoOf(PartTexts(init)), last);
  }

  /** The value can be read off the text of a part. */
  lemma ValueInText(p: Pair)
    ensures var t, k := PartText(p), |p.lead| + |p.key| + 2;
      |t| == k + |p.value| + 1 + |p.trail| && t[k..k + |p.value|] == p.value
  {
    hide Core;
    CoreEnds(p);
    var t, c, n := PartText(p), Core(p), |p.lead|;
    assert t[n..n + |c|] == c;
    assert t[n + |p.key| + 2..n + |p.key| + 2 + |p.value|] == c[|p.key| + 2..|c| - 1];
  }

  lemma ReplacedText(p: Pair, f: bytes, n: bytes)
    requires n != f
    ensures PartText(Replaced(p, f, n)) == PartText(p) <==> !Hit(p, f)
  {
    hide PartText;
    ValueInText(p);
    ValueInText(Replaced(p, f, n));
  }

  /** Rewriting a rule written as key='value' parts. The rule then reads as
      before except that the sender `f` became `n`. Part by part the text is
      the same, white space included, except - and exactly - where the key
      ends in "sender" and the value is `f`. */
  lemma RewrittenRule(ps: seq<Pair>, f: bytes, n: bytes)
    requires PlainPairs(ps) && |ps| > 0 && PlainName(f) && COMMA !in n && QUOTE !in n && n != f
    ensures RewriteMatchRuleSender(RuleText(ps), f, n) == RuleText(ReplacedAll(ps, f, n))
    ensures var info := InfoOf(Split(RuleText(ps), COMMA));
      InfoOf(Split(RewriteMatchRuleSender(RuleText(ps), f, n), COMMA)) == info.(sender := SenderAfter(info.sender, f, n))
    ensures var was, now := Split(RuleText(ps), COMMA), Split(RewriteMatchRuleSender(RuleText(ps), f, n), COMMA);
      |was| == |now| == |ps| && forall i :: 0 <= i < |ps| ==> (now[i] == was[i] <==> !Hit(ps[i], f))
  {
    hide PlainPair, PlainName, Split, InfoOf, RewriteMatchRuleSender, Hit, RuleText, PartText, Replaced;
    var qs := ReplacedAll(ps, f, n);
    ReplaceRule(ps, f, n);
    InfoReplaced(ps, f, n);
    RuleParts(ps);
    forall i | 0 <= i < |qs| ensures PlainPair(qs[i]) {
      PlainReplaced(ps[i], f, n);
    }
    RuleParts(qs);
    forall i | 0 <= i < |ps| ensures PartText(qs[i]) == PartText(ps[i]) <==> !Hit(ps[i], f) {
      ReplacedText(ps[i], f, n);
    }
  }

  // ----- parts of any form -----

  /** Trimming takes all white space around a text and nothing else. */
  lemma {:induction false} TrimEndExactly(s: bytes) returns (trail: bytes)
    ensures s == TrimEnd(s) + trail && TrimEnd(trail) == [] && SpaceAtEnd(TrimEnd(s)) == 0
    decreases |s|
  {
    hide SpaceAtEnd;
    if SpaceAtEnd(s) == 0 {
      trail := [];
      assert TrimEnd([]) == [] by { NothingToTrim(); }
      assert s == s + [];
    } else {
      var k := SpaceAtEnd(s);
      var last := s[|s| - k..];
      trail := TrimEndExactly(s[..|s| - k]);
      assert s == TrimEnd(s) + (trail + last);
      assert SpaceAtEnd(last) == k by { SpaceAlone(s, k); }
      SpaceAtEndSuffix(trail, last);
      assert (trail + last)[..|trail + last| - k] == trail;
      trail := trail + last;
    }
  }

  lemma NothingToTrim()
    ensures TrimEnd([]) == [] && TrimStart([]) == []
  {
  }

  lemma SpaceAlone(s: bytes, k: nat)
    requires k == SpaceAtEnd(s) && k > 0
    ensures SpaceAtEnd(s[|s| - k..]) == k
  {
    hide IsSpace;
    var last := s[|s| - k..];
    assert last[k - 1..] == s[|s| - 1..];
    if k >= 2 { assert last[k - 2..] == s[|s| - 2..]; }
    if k >= 3 { assert last[k - 3..] == s[|s| - 3..]; }
  }

  lemma {:induction false} TrimStartExactly(s: bytes) returns (lead: bytes)
    ensures s == lead + TrimStart(s) && TrimStart(lead) == [] && SpaceAtStart(TrimStart(s)) == 0
    decreases |s|
  {
    hide SpaceAtStart;
    if SpaceAtStart(s) == 0 {
      lead := [];
      NothingToTrim();
      assert s == [] + s;
    } else {
      var first := s[..SpaceAtStart(s)];
      var rest := s[|first|..];
      lead := TrimStartExactly(rest);
      SpaceInFront(s, |first|);
      SpaceGone(first, lead);
      Joined(s, first, lead, TrimStart(rest));
      lead := first + lead;
    }
  }

  lemma Joined(s: bytes, a: bytes, b: bytes, c: bytes)
    requires |a| <= |s| && s[..|a|] == a && s[|a|..] == b + c
    ensures s == (a + b) + c
  {
  }

  lemma SpaceGone(first: bytes, rest: bytes)
    requires 0 < |first| == SpaceAtStart(first)
    ensures TrimStart(first + rest) == TrimStart(rest)
  {
    hide SpaceAtStart;
    SpaceAtStartPrefix(first, rest);
    assert (first + rest)[|first|..] == rest;
  }

  lemma SpaceInFront(s: bytes, k: nat)
    requires k == SpaceAtStart(s) && k > 0
    ensures SpaceAtStart(s[..k]) == k
  {
    hide IsSpace;
    assert forall j :: 0 <= j <= k ==> s[..k][..j] == s[..j];
  }

  /** Taking quotes away takes all of them at both ends. */
  lemma {:induction false} UnquoteExactly(s: bytes) returns (lead: bytes, trail: bytes)
    ensures s == lead + Unquote(s) + trail
    ensures (forall i :: 0 <= i < |lead| ==> lead[i] == QUOTE) && (forall i :: 0 <= i < |trail| ==> trail[i] == QUOTE)
    ensures var v := Unquote(s); |v| > 0 ==> v[0] != QUOTE && v[|v| - 1] != QUOTE
    decreases |s|
  {
    if |s| > 0 && s[0] == QUOTE {
      lead, trail := UnquoteExactly(s[1..]);
      assert s == [QUOTE] + s[1..];
      assert s == ([QUOTE] + lead) + Unquote(s) + trail;
      lead := [QUOTE] + lead;
    } else if |s| > 0 && s[|s| - 1] == QUOTE {
      lead, trail := UnquoteExactly(s[..|s| - 1]);
      assert s == s[..|s| - 1] + [QUOTE];
      assert s == lead + Unquote(s) + (trail + [QUOTE]);
      trail := trail + [QUOTE];
    } else {
      lead, trail := [], [];
      assert s == [] + s + [];
    }
  }

  /** A part is read as everything before its first "=", and everything behind
      it without quotes; a part without "=" is not read. */
  lemma PartExactly(info: MatchRuleInfo, part: bytes, key: bytes, value: bytes)
    requires Trim(part) == key + [61] + value && 61 !in key
    ensures StorePart(info, part) == Store(info, key, Unquote(value))
  {
    hide Trim, Unquote, Store, IndexOf;
    IndexOfFirst(key, value, EQUALS);
    var t := Trim(part);
    assert t[..|key|] == key && t[|key| + 1..] == value;
  }

  lemma PartWithoutEquals(info: MatchRuleInfo, part: bytes)
    requires 61 !in Trim(part)
    ensures StorePart(info, part) == info && PartSender(part).None?
  {
    hide Trim;
    SenderLength();
    NoSenderKey(Trim(part));
  }

  lemma NoSenderKey(t: bytes)
    requires 61 !in t
    ensures !(SENDER_EQUALS <= t) && !(SENDER_QUOTED <= t)
  {
    SenderLength();
    assert |t| > 6 ==> t[6] != SENDER_EQUALS[6];
  }

  /** The sender of a part: between quotes if there are two, else all of it. */
  lemma PartSenderExactly(part: bytes, v: bytes)
    ensures PartSender(part) == Some(v) <==>
      var t := Trim(part);
      t == Ascii("sender='") + v + [39]
      || (t == Ascii("sender=") + v && !exists w :: t == Ascii("sender='") + w + [39])
  {
    hide Trim;
    SenderLength();
    var t := Trim(part);
    assert SENDER_QUOTED == Ascii("sender='") && SENDER_EQUALS == Ascii("sender=") by { SenderTexts(); }
    if SENDER_QUOTED <= t && |t| > 8 && t[|t| - 1] == QUOTE {
      assert t == SENDER_QUOTED + t[8..|t| - 1] + [39];
    }
    if SENDER_EQUALS <= t {
      assert t == SENDER_EQUALS + t[7..];
    }
  }

  lemma SenderTexts()
    ensures SENDER_QUOTED == Ascii("sender='") && SENDER_EQUALS == Ascii("sender=") && SENDER == Ascii("sender")
  {
    SenderLength();
    var a, b, c := "sender", "sender=", "sender='";
    assert forall i :: 0 <= i < 6 ==> SENDER[i] == a[i] as int && a[i] == b[i] == c[i];
  }

  // ----- rules of any form -----

  const INTERFACE: bytes := Ascii("interface")

  /** What a part says about a key, if it is a part for that key. */
  function Keyed(part: bytes, key: bytes): Option<bytes> {
    var t := Trim(part);
    if key + [61] <= t then Some(Unquote(t[|key| + 1..])) else None
  }

  /** Part `i` gives the key this value and no later part gives it any. */
  predicate LastWith(parts: seq<bytes>, key: bytes, i: nat, v: bytes) {
    i < |parts| && Keyed(parts[i], key) == Some(v) && forall j :: i < j < |parts| ==> Keyed(parts[j], key).None?
  }

  /** Part `i` names this sender and no earlier part names any. */
  predicate FirstWith(parts: seq<bytes>, i: nat, v: bytes) {
    i < |parts| && PartSender(parts[i]) == Some(v) && forall j :: 0 <= j < i ==> PartSender(parts[j]).None?
  }

  /** How a key in front of the first "=" looks. */
  lemma KeyBefore(t: bytes, key: bytes)
    requires 61 !in key
    ensures key + [61] <= t <==> IndexOf(t, 61) == |key| < |t| && t[..|key|] == key
  {
    hide IndexOf;
    var i, k := IndexOf(t, 61), |key|;
    if key + [61] <= t {
      IndexOfFirst(key, t[k + 1..], 61);
      assert t == key + [61] + t[k + 1..];
      assert t[..k] == key;
    }
    if i == k < |t| && t[..k] == key {
      assert t[..k + 1] == key + [61];
    }
  }

  lemma KeyTexts()
    ensures 61 !in SENDER && 61 !in INTERFACE
  {
    SenderLength();
  }

  lemma StoredEnds(info: MatchRuleInfo, key: bytes, value: bytes)
    ensures Store(info, key, value).sender == if key == SENDER then Some(value) else info.sender
    ensures Store(info, key, value).iface == if key == INTERFACE then Some(value) else info.iface
  {
    SenderLength();
  }

  lemma PartStored(info: MatchRuleInfo, part: bytes)
    ensures StorePart(info, part).sender == if Keyed(part, SENDER).Some? then Keyed(part, SENDER) else info.sender
    ensures StorePart(info, part).iface == if Keyed(part, INTERFACE).Some? then Keyed(part, INTERFACE) else info.iface
  {
    hide Trim, Unquote, IndexOf, Store;
    KeyTexts();
    var t := Trim(part);
    var at := IndexOf(t, 61);
    KeyBefore(t, SENDER);
    KeyBefore(t, INTERFACE);
    if at < |t| {
      StoredEnds(info, t[..at], Unquote(t[at + 1..]));
    }
  }

  /** The last part for a key decides: this is what a rule is routed by. */
  lemma {:induction false} LastExactly(parts: seq<bytes>, v: bytes)
    ensures InfoOf(parts).sender == Some(v) <==> exists i: nat :: LastWith(parts, SENDER, i, v)
    ensures InfoOf(parts).iface == Some(v) <==> exists i: nat :: LastWith(parts, INTERFACE, i, v)
    decreases |parts|
  {
    hide Keyed, StorePart, LastWith;
    if |parts| == 0 {
      NoneLast(v);
    } else {
      var init, last := parts[..|parts| - 1], parts[|parts| - 1];
      LastExactly(init, v);
      PartStored(InfoOf(init), last);
      LastGrows(parts, SENDER, v);
      LastGrows(parts, INTERFACE, v);
    }
  }

  lemma NoneLast(v: bytes)
    ensures InfoOf([]) == NO_INFO
    ensures !exists i: nat :: LastWith([], SENDER, i, v)
    ensures !exists i: nat :: LastWith([], INTERFACE, i, v)
  {
  }

  lemma LastGrows(parts: seq<bytes>, key: bytes, v: bytes)
    requires |parts| > 0
    ensures var init, last := parts[..|parts| - 1], Keyed(parts[|parts| - 1], key);
      (exists i: nat :: LastWith(parts, key, i, v)) <==> (if last.Some? then last == Some(v) else exists i: nat :: LastWith(init, key, i, v))
  {
    hide Keyed;
    var n := |parts| - 1;
    var init, last := parts[..n], Keyed(parts[n], key);
    if i: nat :| LastWith(parts, key, i, v) {
      if last.None? {
        assert LastWith(init, key, i, v);
      }
    }
    if last == Some(v) {
      assert LastWith(parts, key, n, v);
    }
    if last.None? {
      if i: nat :| LastWith(init, key, i, v) {
        assert LastWith(parts, key, i, v);
      }
    }
  }

  /** The first part that names a sender decides: this is what is rewritten. */
  lemma {:induction false} FirstExactly(parts: seq<bytes>, v: bytes)
    ensures FirstSender(parts) == Some(v) <==> exists i: nat :: FirstWith(parts, i, v)
    decreases |parts|
  {
    hide PartSender;
    if |parts| > 0 {
      var rest := parts[1..];
      FirstExactly(rest, v);
      if PartSender(parts[0]) == Some(v) {
        assert FirstWith(parts, 0, v);
      }
      if PartSender(parts[0]).None? {
        if i: nat :| FirstWith(rest, i, v) {
          forall j | 0 <= j < i + 1 ensures PartSender(parts[j]).None? {
            assert j > 0 ==> parts[j] == rest[j - 1];
          }
          assert FirstWith(parts, i + 1, v);
        }
        if i: nat :| FirstWith(parts, i, v) {
          assert FirstWith(rest, i - 1, v);
        }
      }
    }
  }

  predicate MatchAt(s: bytes, w: bytes, i: nat) { i + |w| <= |s| && s[i..i + |w|] == w }

  predicate Occurs(s: bytes, w: bytes) { exists i: nat :: i <= |s| && MatchAt(s, w, i) }

  lemma OccursInFront(s: bytes, w: bytes)
    requires w <= s
    ensures Occurs(s, w)
  {
    assert MatchAt(s, w, 0);
  }

  lemma OccursBehind(s: bytes, w: bytes)
    requires |s| > 0 && !(w <= s)
    ensures Occurs(s, w) <==> Occurs(s[1..], w)
  {
    if i: nat :| i <= |s| && MatchAt(s, w, i) {
      assert i > 0;
      assert s[1..][i - 1..i - 1 + |w|] == s[i..i + |w|];
      assert MatchAt(s[1..], w, i - 1);
    }
    if i: nat :| i <= |s[1..]| && MatchAt(s[1..], w, i) {
      assert s[i + 1..i + 1 + |w|] == s[1..][i..i + |w|];
      assert MatchAt(s, w, i + 1);
    }
  }

  lemma {:induction false} ReplacedLength(s: bytes, was: bytes, now: bytes)
    requires |now| < |was|
    ensures if Occurs(s, was) then |Replace(s, was, now)| < |s| else Replace(s, was, now) == s
    decreases |s|
  {
    hide Occurs;
    if |s| == 0 {
      NothingOccurs(was);
    } else if was <= s {
      ReplacedLength(s[|was|..], was, now);
      OccursInFront(s, was);
    } else {
      ReplacedLength(s[1..], was, now);
      assert s == [s[0]] + s[1..];
      OccursBehind(s, was);
    }
  }

  lemma NothingOccurs(w: bytes)
    requires |w| > 0
    ensures !Occurs([], w)
  {
  }

  /** A rule changes, whatever its form, exactly if it has the sender between
      quotes right behind the equals sign. */
  lemma RuleChanges(rule: bytes, f: bytes, n: bytes)
    requires |n| < |f|
    ensures RewriteMatchRuleSender(rule, f, n) != rule <==> Occurs(rule, SenderText(f))
  {
    hide SenderText, Occurs;
    SenderTextShape(f);
    SenderTextShape(n);
    ReplacedLength(rule, SenderText(f), SenderText(n));
  }

  /** So a rule without quotes never changes: the fake name in it reaches the
      bus as it is. */
  lemma {:induction false} UnquotedRuleKept(rule: bytes, f: bytes, n: bytes)
    requires QUOTE !in rule
    ensures RewriteMatchRuleSender(rule, f, n) == rule
    decreases |rule|
  {
    hide SenderText;
    SenderTextShape(f);
    if |rule| > 0 {
      assert |rule| > 7 ==> rule[7] != SenderText(f)[7];
      UnquotedRuleKept(rule[1..], f, n);
      assert rule == [rule[0]] + rule[1..];
    }
  }
}
