/** Names that the client uses in match rules, and names that it learned from
    a merged listing: from its message to the bytes on a bus. */
module SessionRules {
  import opened Wire
  import Utf8
  import opened Message
  import opened FakeNames
  import opened HeaderRewrite
  import opened HeaderEdits
  import opened MatchRules
  import opened MatchRuleProofs
  import opened Bodies
  import opened BodyProofs
  import opened Config
  import opened Routing
  import opened SessionSpec
  import opened SessionNames

  // ----- the sender of a rule -----

  predicate IsSender(p: Pair) { p.key == SENDER }

  /** The rule has a sender, and all its senders are `f`. */
  predicate SentBy(ps: seq<Pair>, f: bytes) {
    (exists i :: 0 <= i < |ps| && IsSender(ps[i]))
    && forall i :: 0 <= i < |ps| && IsSender(ps[i]) ==> ps[i].value == f
  }

  lemma {:induction false} FirstSenderOf(ps: seq<Pair>, f: bytes)
    requires PlainPairs(ps) && SentBy(ps, f)
    ensures FirstSender(PartTexts(ps)) == Some(f)
    decreases |ps|
  {
    hide PartSender, PartText, PlainPair;
    PartSenderOf(ps[0]);
    assert PartTexts(ps)[1..] == PartTexts(ps[1..]);
    if !IsSender(ps[0]) {
      var i :| 0 <= i < |ps| && IsSender(ps[i]);
      assert ps[1..][i - 1] == ps[i];
      FirstSenderOf(ps[1..], f);
    } else {
      assert ps[0].value == f;
    }
  }

  lemma {:induction false} InfoSender(ps: seq<Pair>, f: bytes)
    requires PlainPairs(ps) && SentBy(ps, f)
    ensures InfoOf(PartTexts(ps)).sender == Some(f)
    decreases |ps|
  {
    hide PartText, StorePart, PlainPair, Store, InfoOf;
    var k := |ps| - 1;
    var init, last := ps[..k], ps[k];
    var info := InfoOf(PartTexts(init));
    InfoOfLast(init, last);
    assert ps == init + [last];
    if IsSender(last) {
      StoreSender(info, last.value);
    } else {
      StoreKeepsSender(info, last.key, last.value, None);
      SentByInit(init, last, f);
      InfoSender(init, f);
    }
  }

  lemma SentByInit(init: seq<Pair>, last: Pair, f: bytes)
    requires SentBy(init + [last], f) && !IsSender(last)
    ensures SentBy(init, f)
  {
    var ps := init + [last];
    var i :| 0 <= i < |ps| && IsSender(ps[i]);
    assert IsSender(init[i]);
    forall j | 0 <= j < |init| && IsSender(init[j]) ensures init[j].value == f {
      assert ps[j] == init[j];
    }
  }

  /** Both ways of reading the sender of a plain rule agree. */
  lemma RuleSender(ps: seq<Pair>, f: bytes)
    requires PlainPairs(ps) && SentBy(ps, f)
    ensures FirstSender(Split(RuleText(ps), COMMA)) == Some(f)
    ensures InfoOf(Split(RuleText(ps), COMMA)).sender == Some(f)
  {
    hide PlainPair, RuleText, Split, IsSender, InfoOf, FirstSender;
    RuleParts(ps);
    FirstSenderOf(ps, f);
    InfoSender(ps, f);
  }

  // ----- a match rule with a name that the client knows -----

  lemma FakeIsPlain(n: bytes, b: Bus)
    requires IsUnique(n) && COMMA !in n && QUOTE !in n
    ensures PlainName(ToFake(n, b)) && ToFake(n, b) != n && FromFake(ToFake(n, b)) == Some((n, b))
    ensures BusOfFake(ToFake(n, b)) == Some(b)
  {
    FakeNameRoundTrip(n, b, ToFake(n, b));
    FakeNameShape(n, b);
    FakeBus(n, b);
    assert forall i :: 0 <= i < |n[1..]| ==> n[1..][i] == n[i + 1];
  }

  lemma RuleRouting(cfg: Config, c: Message, member: bytes, ps: seq<Pair>, f: bytes, b: Bus)
    requires AsRead(c) && Decodes(c.raw) && |c.raw| >= 16
    requires c.header.fields.destination == Some(DBUS) && c.header.fields.member == Some(member) && IsMatchRuleMember(member)
    requires PlainPairs(ps) && SentBy(ps, f) && BusOfFake(f) == Some(b)
    requires Utf8.Valid(RuleText(ps)) && |RuleText(ps)| < TWO32
    requires Decode(c.raw).body == TextBytes(c.header.endian, RuleText(ps))
    ensures RouteRequest(cfg, false, c) == Single(DaemonRoute(cfg, c, b))
  {
    hide Encode, Decode, Decodes, AsRead, TextBytes, ExtractName, ShouldRouteToHost, BusOfFake, Utf8.Valid, PlainPairs, RuleText,
      SentBy, Split, InfoOf, IsMatchRuleMember;
    if c.header.fields.iface != Some(DBUS) {
      WithoutInterface(cfg, c);
    }
    DaemonIsNotFake();
    DecodedHeader(c);
    RuleSender(ps, f);
    var m := Decode(c.raw);
    assert m.body == TextBytes(m.e, RuleText(ps)) + [];
    BodyStringOf(m, RuleText(ps), []);
    assert FindMethodSpec(member) == Some(ByMatchRule);
  }

  lemma RuleBody(c: Message, ps: seq<Pair>, n: bytes, b: Bus)
    requires AsRead(c) && Decodes(c.raw) && IsUnique(n) && COMMA !in n && QUOTE !in n
    requires PlainPairs(ps) && SentBy(ps, ToFake(n, b))
    requires Utf8.Valid(RuleText(ps)) && |RuleText(ps)| < TWO32
    requires Decode(c.raw).body == TextBytes(c.header.endian, RuleText(ps))
    ensures var m := Decode(c.raw);
      MatchRuleBody(c.raw, c.header.endian) == Ok(Encode(m.(body := TextBytes(m.e, RuleText(ReplacedAll(ps, ToFake(n, b), n))))))
  {
    hide Encode, Decode, Decodes, AsRead, TextBytes, Utf8.Valid, PlainPairs, RuleText, SentBy, Split, BodyString, Rebuilt,
      ToFake, FromFake, FirstSender, RewriteMatchRuleSender, PlainName, IsUnique;
    var f := ToFake(n, b);
    FakeIsPlain(n, b);
    DecodedHeader(c);
    RuleSender(ps, f);
    SentNonEmpty(ps, f);
    var m := Decode(c.raw);
    assert m.body == TextBytes(m.e, RuleText(ps)) + [];
    BodyStringOf(m, RuleText(ps), []);
    Utf8.LossyOnValid(RuleText(ps));
    ReplaceRule(ps, f, n);
    RebuildRefines(m, TextBytes(m.e, RuleText(ReplacedAll(ps, f, n))));
  }

  lemma SentNonEmpty(ps: seq<Pair>, f: bytes)
    requires SentBy(ps, f)
    ensures |ps| > 0
  {
  }

  /** AddMatch and RemoveMatch for a sender that the client knows under a
      prefix: the rule goes to that sender's bus and to no other, if the
      request names the interface of the bus daemon; it is written for the real
      name, and is otherwise the rule of the client. */
  lemma MatchRuleForName(cfg: Config, st: State, c: Message, member: bytes, ps: seq<Pair>, n: bytes, b: Bus)
    requires AsRead(c) && Decodes(c.raw) && !IsReplyToCaller(st, c)
    requires c.header.fields.destination == Some(DBUS) && c.header.fields.member == Some(member) && IsMatchRuleMember(member)
    requires IsUnique(n) && COMMA !in n && QUOTE !in n
    requires PlainPairs(ps) && SentBy(ps, ToFake(n, b))
    requires Utf8.Valid(RuleText(ps)) && |RuleText(ps)| < TWO32
    requires Decode(c.raw).body == TextBytes(c.header.endian, RuleText(ps))
    ensures var m := Decode(c.raw);
      var rule := RuleText(ReplacedAll(ps, ToFake(n, b), n));
      ClientStep(cfg, false, st, c).sent == [ToBusSent(DaemonRoute(cfg, c, b), Encode(m.(body := TextBytes(m.e, rule))), c.fds)]
      && InfoOf(Split(rule, COMMA)) == InfoOf(Split(RuleText(ps), COMMA)).(sender := Some(n))
  {
    hide Encode, Decode, Decodes, AsRead, ToFake, TextBytes, MatchRuleBody, ExtractName, Rewritten, Tracked, IsReplyToCaller,
      RouteRequest, HeaderRewritten, PlainPairs, RuleText, SentBy, Split, InfoOf, Utf8.Valid, RewriteMatchRuleSender, PlainName,
      IsMatchRuleMember, NeedsRequestRewrite, IsUnique;
    var f := ToFake(n, b);
    AsReadSize(c);
    FakeIsPlain(n, b);
    DaemonKeepsName(c, DaemonRoute(cfg, c, b));
    RuleRouting(cfg, c, member, ps, f, b);
    RuleBody(c, ps, n, b);
    NotARequestRewrite(member);
    SentNonEmpty(ps, f);
    ReplaceRule(ps, f, n);
    RewrittenRule(ps, f, n);
    RuleSender(ps, f);
  }

  lemma NotARequestRewrite(member: bytes)
    requires IsMatchRuleMember(member)
    ensures !NeedsRequestRewrite(member)
  {
    MemberLengths();
  }

  // ----- names from a merged listing -----

  /** Every unique name in a merged listing is good as an argument: there is a
      connection with that name on one of the buses, in the listing of that
      bus, and a query about it that names the interface of the bus daemon
      arrives there under its real name. */
  lemma MergedNameAsArgument(cfg: Config, st: State, host: seq<bytes>, sandbox: seq<bytes>, x: bytes, c: Message, member: bytes)
    returns (n: bytes, b: Bus)
    requires x in Merged(host, sandbox) && IsUnique(x) && ValidText(x) && |x| < TWO32
    requires AsRead(c) && Decodes(c.raw) && !IsReplyToCaller(st, c)
    requires c.header.fields.destination == Some(DBUS) && c.header.fields.member == Some(member) && NeedsRequestRewrite(member)
    requires Decode(c.raw).body == TextBytes(c.header.endian, x)
    ensures n in (if b == Host then host else sandbox) && x == ToFake(n, b)
    ensures var m := Decode(c.raw);
      ClientStep(cfg, false, st, c).sent == [ToBusSent(DaemonRoute(cfg, c, b), Encode(m.(body := TextBytes(m.e, n))), c.fds)]
  {
    hide Merged, Encode, Decode, Decodes, AsRead, ToFake, TextBytes, ClientStep, IsReplyToCaller, NeedsRequestRewrite, Utf8.Valid;
    n, b := OriginOf(host, sandbox, x);
    FakeNamesDistinct(n, n, b, b);
    FakeNameShape(n, b);
    NameAsArgument(cfg, st, c, member, n, b);
  }

  lemma OriginOf(host: seq<bytes>, sandbox: seq<bytes>, x: bytes) returns (n: bytes, b: Bus)
    requires x in Merged(host, sandbox)
    ensures n in (if b == Host then host else sandbox) && x == ToFake(n, b)
  {
    hide Merged, ToFake;
    MergeKeepsEveryName(host, sandbox);
    if s :| s in sandbox && ToFake(s, Sandbox) == x {
      n, b := s, Sandbox;
    } else {
      var h :| h in host && ToFake(h, Host) == x;
      n, b := h, Host;
    }
  }
}
