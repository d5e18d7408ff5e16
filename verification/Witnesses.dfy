/** Concrete inputs on which the router does not do what its documentation
    says. The exact conditions are proved where the behaviour is modelled. */
module Witnesses {
  import opened Wire
  import Utf8
  import opened Message
  import opened FakeNames
  import opened HeaderRewriteProofs
  import opened MatchRules
  import opened MatchRuleProofs
  import opened Bodies
  import opened BodyProofs
  import opened Config
  import opened Routing
  import opened SessionSpec
  import opened SessionRuns
  import opened SessionNames
  import opened SessionRules
  import opened SessionSurvival
  import opened HelloCall
  import opened Conversations
  import opened Socket

  // ----- bodies too short for a string -----

  const STUB: bytes := [7, 7]

  /** GetNameOwner with two bytes for an argument. */
  function StubQuery(): Msg { Built(Little, 1, 1, DaemonFields(GET_NAME_OWNER), STUB) }

  lemma QueryRead(body: bytes)
    requires |body| <= 1024
    ensures var m := Built(Little, 1, 1, DaemonFields(GET_NAME_OWNER), body);
      |m.body| < TWO32 && AsRead(Read(m)) && |Read(m).raw| >= 16 && Read(m).header.kind == MethodCall && Read(m).header.serial == 1
      && NamesConnection(Read(m)) && Read(m).header.bodyLen == |body| && Read(m).header.fields.member == Some(GET_NAME_OWNER)
  {
    hide Encode, FieldArray, Decode, Decodes, HeaderOf, ValidFields, Collect, Utf8.Valid;
    AsciiText(GET_NAME_OWNER);
    MemberLengths();
    DaemonFieldsCollected(GET_NAME_OWNER);
    BuiltIsRead(Little, 1, 1, DaemonFields(GET_NAME_OWNER), body);
  }

  /** In any state, with any configuration, this message ends the session. */
  lemma StubQueryEndsSession(cfg: Config, hostpass: bool, st: State)
    ensures var m := StubQuery();
      |m.body| < TWO32 && AsRead(Read(m)) && |Read(m).raw| >= 16 && !ClientStep(cfg, hostpass, st, Read(m)).alive
  {
    hide Built, AsRead, ClientStep, HeaderFor, NamesConnection;
    QueryRead(STUB);
    ClientStepSurvives(cfg, hostpass, st, Read(StubQuery()));
  }

  /** The answer to call 1 with two bytes for a name. */
  function StubAnswer(): Msg {
    Built(Little, 2, 9, [Field(FIELD_REPLY_SERIAL, Plain(Word(CODE_U, 1))), TextOf(FIELD_SENDER, CODE_S, DBUS)], STUB)
  }

  lemma StubAnswerRead()
    ensures var m := StubAnswer();
      |m.body| < TWO32 && AsRead(Read(m)) && |Read(m).raw| >= 16 && Read(m).header.kind == MethodReturn
      && Read(m).header.fields.replySerial == Some(1) && Stub(Read(m).header) && TextSender(Read(m))
  {
    hide Encode, FieldArray, Decode, Decodes, HeaderOf, Utf8.Valid, Built, HeaderFor;
    var f, g := Field(FIELD_REPLY_SERIAL, Plain(Word(CODE_U, 1))), TextOf(FIELD_SENDER, CODE_S, DBUS);
    AsciiText(DBUS);
    ReturnMembers();
    TwoFieldsRead(Little, 2, 9, f, g, STUB);
    BuiltBody(Little, 2, 9, [f, g], STUB);
    assert FirstIndex([f, g], FIELD_SENDER) == 1;
  }

  /** A query of the client, well formed, and the answer of its bus: the
      session is over. */
  lemma StubAnswerEndsSession(cfg: Config)
    ensures var query, answer := Built(Little, 1, 1, DaemonFields(GET_NAME_OWNER), TextBytes(Little, HELLO)), StubAnswer();
      |query.body| < TWO32 && |answer.body| < TWO32
      && var evs := [FromClient(Read(query)), FromBus(Host, Read(answer))];
        ReadableAll(evs) && At(cfg, true, evs, 1).alive && !Run(cfg, true, evs).alive
  {
    hide Built, AsRead, HeaderFor, NamesConnection, ClientStep, BusStep, TextSender, Stub, StubAnswer, TextBytes, Run;
    var query, answer := Built(Little, 1, 1, DaemonFields(GET_NAME_OWNER), TextBytes(Little, HELLO)), StubAnswer();
    ReturnMembers();
    QueryRead(TextBytes(Little, HELLO));
    StubAnswerRead();
    var evs := [FromClient(Read(query)), FromBus(Host, Read(answer))];
    var q, a := Read(query), Read(answer);
    QueryForwarded(cfg, q, 1);
    var st := ClientStep(cfg, true, EMPTY, q).st;
    AnswerKept(st, a);
    BusStepSurvives(st, a, Host);
    assert Readable(evs[0]) && Readable(evs[1]);
    RunStep(cfg, true, evs, 0);
    RunStep(cfg, true, evs, 1);
    RunStart(cfg, evs);
  }

  lemma RunStart(cfg: Config, evs: seq<Event>)
    requires ReadableAll(evs) && |evs| == 2
    ensures At(cfg, true, evs, 0) == START && At(cfg, true, evs, 2) == Run(cfg, true, evs)
  {
    assert evs[..0] == [] && evs[..2] == evs;
  }

  lemma QueryForwarded(cfg: Config, q: Message, serial: u32)
    requires AsRead(q) && |q.raw| >= 16 && q.header.kind == MethodCall && NamesConnection(q) && q.header.bodyLen >= 4
    requires q.header.serial == serial && q.header.fields.member == Some(GET_NAME_OWNER)
    ensures var r := ClientStep(cfg, true, EMPTY, q);
      r.alive && r.st == EMPTY.(calls := map[serial := CallInfo(Host, Some(GET_NAME_OWNER))])
  {
    hide AsRead, NamesConnection, PreparedForBus;
    ClientStepSurvives(cfg, true, EMPTY, q);
    MemberLengths();
  }

  lemma AnswerKept(st: State, a: Message)
    requires st == EMPTY.(calls := map[1 := CallInfo(Host, Some(GET_NAME_OWNER))])
    requires a.header.kind == MethodReturn && a.header.fields.replySerial == Some(1)
    ensures !IsServiceCall(st, a, Host) && !AnswersMerge(st, a) && CarriesName(a, Host, st.calls)
  {
  }

  // ----- match rules -----

  const INTERFACE: bytes := Ascii("interface")
  const IFACE: bytes := Ascii("a.b.c")
  const SANDBOX_NAME: bytes := Ascii("x.y")

  /** interface='a.b.c' */
  function InterfacePair(): Pair { Pair([], INTERFACE, IFACE, []) }

  /** sender='x.y' */
  function SenderPair(): Pair { Pair([], SENDER, SANDBOX_NAME, []) }

  function HostAs(): Config { Config([Ascii("a.*")]) }

  lemma PairsPlain()
    ensures PlainPair(InterfacePair()) && PlainPair(SenderPair())
  {
    SenderLength();
    var i, f := "interface", "a.b.c";
    assert forall k :: 0 <= k < |INTERFACE| ==> INTERFACE[k] == i[k] as int;
    assert forall k :: 0 <= k < |IFACE| ==> IFACE[k] == f[k] as int;
    assert Core(InterfacePair())[0] == INTERFACE[0] && Core(SenderPair())[0] == SENDER[0];
  }

  lemma IfaceService()
    ensures ServiceOf(IFACE) == Some(IFACE)
  {
    hide Split, JoinWith;
    var a, b, c: bytes := Ascii("a"), Ascii("b"), Ascii("c");
    ThreeParts(a, b, c);
    assert IFACE == a + [DOT] + (b + [DOT] + c);
    SplitOfJoin([a, b, c], DOT);
    assert [a, b, c][..3] == [a, b, c];
  }

  lemma ThreeParts(a: bytes, b: bytes, c: bytes)
    ensures JoinWith([a, b, c], DOT) == a + [DOT] + (b + [DOT] + c)
  {
    assert [a, b, c][1..] == [b, c] && [b, c][1..] == [c];
    assert JoinWith([c], DOT) == c;
    assert JoinWith([b, c], DOT) == b + [DOT] + c;
  }

  /** Under a.* exactly the names that start with the segment a go to the host. */
  lemma HostNames(name: bytes)
    ensures |name| > 2 && name[0] == 97 && name[1] == DOT ==> ShouldRouteToHost(HostAs(), name)
    ensures |name| > 2 && name[0] != 97 ==> !ShouldRouteToHost(HostAs(), name)
  {
    var rule := Ascii("a.*");
    assert rule == [97, DOT, STAR];
    assert rule[|rule| - 2..] == WILDCARD && rule[..|rule| - 2] == [97];
    assert rule in HostAs().hostRoutes;
  }

  lemma InterfaceIsOnHost()
    ensures ServiceOf(IFACE) == Some(IFACE) && ShouldRouteToHost(HostAs(), IFACE) && !ShouldRouteToHost(HostAs(), SANDBOX_NAME)
  {
    hide ServiceOf, ShouldRouteToHost, HostAs;
    IfaceService();
    HostNames(IFACE);
    HostNames(SANDBOX_NAME);
  }

  /** AddMatch of this rule. */
  function AddRule(rule: bytes): Msg { Built(Little, 1, 1, DaemonFields(ADD_MATCH), TextBytes(Little, rule)) }

  lemma AddRuleRead(rule: bytes)
    requires Utf8.Valid(rule) && |rule| <= 1024
    ensures var m := AddRule(rule);
      |m.body| < TWO32 && AsRead(Read(m)) && |Read(m).raw| >= 16 && ToDaemon(Read(m))
      && Read(m).header.fields.member == Some(ADD_MATCH) && ExtractName(Read(m).raw, Read(m).header.endian) == Some(rule)
  {
    hide Encode, FieldArray, Decode, Decodes, HeaderOf, ValidFields, Collect, ExtractName, Utf8.Valid, TextBytes;
    AsciiText(ADD_MATCH);
    MemberLengths();
    DaemonFieldsCollected(ADD_MATCH);
    BuiltIsRead(Little, 1, 1, DaemonFields(ADD_MATCH), TextBytes(Little, rule));
    assert TextBytes(Little, rule) + [] == TextBytes(Little, rule);
    BodyStringOf(AddRule(rule), rule, []);
  }

  predicate AllAscii(s: bytes) { forall i :: 0 <= i < |s| ==> 0 < s[i] < 0x80 }

  lemma PairsAscii()
    ensures AllAscii(PartText(InterfacePair())) && AllAscii(PartText(SenderPair()))
    ensures |PartText(InterfacePair())| == 17 && |PartText(SenderPair())| == 12
  {
    SenderLength();
    var i, f, n, s := "interface", "a.b.c", "x.y", "sender";
    assert forall k :: 0 <= k < |INTERFACE| ==> INTERFACE[k] == i[k] as int;
    assert forall k :: 0 <= k < |IFACE| ==> IFACE[k] == f[k] as int;
    assert forall k :: 0 <= k < |SANDBOX_NAME| ==> SANDBOX_NAME[k] == n[k] as int;
    assert forall k :: 0 <= k < |SENDER| ==> SENDER[k] == s[k] as int;
    assert AllAscii(INTERFACE) && AllAscii(IFACE) && AllAscii(SANDBOX_NAME) && AllAscii(SENDER);
  }

  lemma StoreInterface(info: MatchRuleInfo, value: bytes)
    ensures Store(info, INTERFACE, value) == info.(iface := Some(value))
  {
    SenderLength();
    assert |INTERFACE| == 9;
  }

  lemma InterfaceRule()
    ensures var rule := RuleText([InterfacePair()]);
      Utf8.Valid(rule) && |rule| <= 1024 && InfoOf(Split(rule, COMMA)) == NO_INFO.(iface := Some(IFACE))
  {
    hide PartText, InfoOf, Split, Store, RuleText, Utf8.Valid, PlainPair, PartTexts;
    var p := InterfacePair();
    PairsPlain();
    PairsAscii();
    RuleTextCons(p, []);
    AsciiText(RuleText([p]));
    RuleParts([p]);
    assert [] + [p] == [p];
    InfoOfLast([], p);
    NoRuleInfo();
    StoreInterface(NO_INFO, IFACE);
  }

  lemma InterfaceDecides(add: Message, rule: bytes)
    requires |add.raw| >= 16 && ToDaemon(add) && add.header.fields.member == Some(ADD_MATCH)
    requires ExtractName(add.raw, add.header.endian) == Some(rule)
    requires InfoOf(Split(rule, COMMA)) == NO_INFO.(iface := Some(IFACE))
    ensures RouteRequest(HostAs(), false, add) == Single(Host)
  {
    hide RouteRequest, ExtractName, InfoOf, Split, ServiceOf, ShouldRouteToHost, IsMatchRuleMember;
    AddsMatch();
    InterfaceIsOnHost();
    RuleWithoutSender(HostAs(), add, rule, ADD_MATCH);
  }

  /** A rule that names no sender, yet goes to the host alone. */
  lemma RuleForHostOnly()
    ensures var rule := RuleText([InterfacePair()]);
      InfoOf(Split(rule, COMMA)).sender.None?
      && |AddRule(rule).body| < TWO32 && AsRead(Read(AddRule(rule))) && |Read(AddRule(rule)).raw| >= 16
      && RouteRequest(HostAs(), false, Read(AddRule(rule))) == Single(Host)
  {
    hide InfoOf, Split, RuleText, AsRead, ToDaemon, ExtractName, RouteRequest, HeaderFor, AddRule, Utf8.Valid;
    var rule := RuleText([InterfacePair()]);
    InterfaceRule();
    AddRuleRead(rule);
    InterfaceDecides(Read(AddRule(rule)), rule);
  }

  lemma AddsMatch()
    ensures IsMatchRuleMember(ADD_MATCH)
  {
  }

  lemma SenderRule()
    ensures var rule := RuleText([SenderPair(), InterfacePair()]);
      Utf8.Valid(rule) && |rule| <= 1024
      && InfoOf(Split(rule, COMMA)) == NO_INFO.(sender := Some(SANDBOX_NAME), iface := Some(IFACE))
  {
    hide PartText, InfoOf, Split, Store, RuleText, Utf8.Valid, PlainPair, PartTexts;
    var s, p := SenderPair(), InterfacePair();
    PairsPlain();
    PairsAscii();
    RuleTextCons(s, [p]);
    RuleTextCons(p, []);
    assert [s] + [p] == [s, p];
    AsciiText(RuleText([s, p]));
    RuleParts([s, p]);
    assert [] + [s] == [s];
    InfoOfLast([], s);
    InfoOfLast([s], p);
    NoRuleInfo();
    StoreSender(NO_INFO, SANDBOX_NAME);
    StoreInterface(NO_INFO.(sender := Some(SANDBOX_NAME)), IFACE);
  }

  /** A rule for a sender on the sandbox bus that goes to the host alone. */
  lemma SandboxSenderMissed(call: Message)
    requires |call.raw| >= 16 && call.header.fields.destination == Some(SANDBOX_NAME)
    ensures RouteRequest(HostAs(), false, call) == Single(Sandbox)
    ensures var rule := RuleText([SenderPair(), InterfacePair()]);
      InfoOf(Split(rule, COMMA)).sender == Some(SANDBOX_NAME)
      && |AddRule(rule).body| < TWO32 && AsRead(Read(AddRule(rule))) && |Read(AddRule(rule)).raw| >= 16
      && RouteRequest(HostAs(), false, Read(AddRule(rule))) == Single(Host)
  {
    hide InfoOf, Split, RuleText, AsRead, ToDaemon, ExtractName, RouteRequest, HeaderFor, AddRule, Utf8.Valid;
    var rule := RuleText([SenderPair(), InterfacePair()]);
    SenderRule();
    AddRuleRead(rule);
    CallRouting(call);
    DecidedByInterface(Read(AddRule(rule)), rule);
  }

  lemma SandboxNameOrdinary()
    ensures BusOfFake(SANDBOX_NAME).None? && SANDBOX_NAME != DBUS
  {
    assert SANDBOX_NAME[0] != HOST_PREFIX[0] && SANDBOX_NAME[0] != SANDBOX_PREFIX[0] && |DBUS| == 20;
  }

  lemma CallRouting(call: Message)
    requires |call.raw| >= 16 && call.header.fields.destination == Some(SANDBOX_NAME)
    ensures RouteRequest(HostAs(), false, call) == Single(Sandbox)
  {
    hide BusOfFake, ShouldRouteToHost;
    SandboxNameOrdinary();
    InterfaceIsOnHost();
  }

  lemma DecidedByInterface(add: Message, rule: bytes)
    requires |add.raw| >= 16 && ToDaemon(add) && add.header.fields.member == Some(ADD_MATCH)
    requires ExtractName(add.raw, add.header.endian) == Some(rule)
    requires InfoOf(Split(rule, COMMA)) == NO_INFO.(sender := Some(SANDBOX_NAME), iface := Some(IFACE))
    ensures RouteRequest(HostAs(), false, add) == Single(Host)
  {
    hide BusOfFake, ShouldRouteToHost, ExtractName, InfoOf, Split, ServiceOf;
    DaemonIsNotFake();
    SandboxNameOrdinary();
    InterfaceIsOnHost();
    assert FindMethodSpec(ADD_MATCH) == Some(ByMatchRule);
  }

  // ----- keys that end in "sender" -----

  const FAKE: bytes := Ascii(":s.1")
  const REAL: bytes := Ascii(":1")

  /** xsender=':s.1' */
  function OtherPair(value: bytes): Pair { Pair([], Ascii("x") + SENDER, value, []) }

  /** Rewriting the sender of this rule also changes its other key. */
  lemma OtherKeyRewritten()
    ensures FromFake(FAKE) == Some((REAL, Sandbox))
    ensures var ps := [OtherPair(FAKE), Pair([], SENDER, FAKE, [])];
      FirstSender(Split(RuleText(ps), COMMA)) == Some(FAKE)
      && RewriteMatchRuleSender(RuleText(ps), FAKE, REAL) == RuleText([OtherPair(REAL), Pair([], SENDER, REAL, [])])
  {
    hide PlainPair, RuleText, Split, FirstSender, RewriteMatchRuleSender, PartText;
    var p, q := OtherPair(FAKE), Pair([], SENDER, FAKE, []);
    FakeBytes();
    OtherPlain();
    assert IsSender([p, q][1]);
    RuleSender([p, q], FAKE);
    ReplaceRule([p, q], FAKE, REAL);
    OtherHits();
    assert [p, q][1..] == [q] && [q][1..] == [];
    assert ReplacedAll([p, q], FAKE, REAL) == [OtherPair(REAL), Pair([], SENDER, REAL, [])];
  }

  lemma FakeBytes()
    ensures FAKE == [58, 115, 46, 49] && REAL == [58, 49] && FromFake(FAKE) == Some((REAL, Sandbox))
  {
    assert REAL[1..] == [49];
    assert ToFake(REAL, Sandbox) == FAKE;
    FakeNameRoundTrip(REAL, Sandbox, FAKE);
  }

  lemma OtherPlain()
    ensures var p, q := OtherPair(FAKE), Pair([], SENDER, FAKE, []);
      PlainPair(p) && PlainPair(q) && p.key != SENDER
  {
    SenderLength();
    FakeBytes();
    var p, q := OtherPair(FAKE), Pair([], SENDER, FAKE, []);
    assert forall k :: 1 <= k < 7 ==> p.key[k] == SENDER[k - 1];
    assert p.key[0] == 120;
    assert Core(p)[0] == 120 && Core(q)[0] == SENDER[0];
  }

  lemma OtherHits()
    ensures Hit(OtherPair(FAKE), FAKE) && Hit(Pair([], SENDER, FAKE, []), FAKE)
  {
    SenderLength();
    assert OtherPair(FAKE).key[1..] == SENDER;
  }

  // ----- callers on the host bus -----

  const SERVICE: bytes := Ascii("a.b")
  const CALLER: bytes := Ascii(":1.7")

  /** With the service a.b exported to the host, a host connection ":1.7" that
      calls it is shown to the client under that name; the client's call to
      the name goes to the sandbox bus, where it is somebody else's. */
  lemma HostCallerMissed()
    ensures var evs := ServiceEvents(NameRequest(Little, 1, SERVICE, []), Host, ServiceCall(Little, 5, SERVICE, CALLER, []),
                                     Callback(Little, 2, CALLER, []));
      ReadableAll(evs) && SentAt(HostAs(), false, evs, 1) == [ToClientSent(Encode(ServiceCall(Little, 5, SERVICE, CALLER, [])), [])]
      && SentAt(HostAs(), false, evs, 2) == [ToBusSent(Sandbox, Encode(Callback(Little, 2, CALLER, [])), [])]
  {
    hide ReadableAll, SentAt, NameRequest, ServiceCall, Callback, Encode, BusName, ToFake, BusOfFake, ShouldRouteToHost;
    CallerRouting();
    CallingBack(HostAs(), Little, SERVICE, [], CALLER, 1, 5, 2, [], []);
  }

  lemma CallerRouting()
    ensures BusName(SERVICE) && BusName(CALLER) && IsUnique(CALLER) && BusOfFake(CALLER).None?
    ensures ConfiguredBus(HostAs(), SERVICE) == Host && ConfiguredBus(HostAs(), CALLER) == Sandbox
  {
    hide Utf8.Valid, ShouldRouteToHost, HostAs;
    AsciiText(SERVICE);
    AsciiText(CALLER);
    HostNames(SERVICE);
    HostNames(CALLER);
    assert CALLER[1] != HOST_PREFIX[1] && CALLER[1] != SANDBOX_PREFIX[1];
  }

  // ----- the two readers -----

  /** A call that declares a descriptor. */
  function FdCall(): Msg {
    Built(Little, 1, 1, [TextOf(FIELD_MEMBER, CODE_S, HELLO), Field(FIELD_UNIX_FDS, Plain(Word(CODE_U, 1)))], [])
  }

  lemma FdCallRead()
    ensures var raw := Encode(FdCall());
      Whole(raw) && HeaderOf(raw).fields.unixFds == Some(1)
  {
    hide Encode, FieldArray, Decode, Decodes, HeaderOf, Utf8.Valid, Built, HeaderFor;
    AsciiText(HELLO);
    ReturnMembers();
    TwoFieldsRead(Little, 1, 1, TextOf(FIELD_MEMBER, CODE_S, HELLO), Field(FIELD_UNIX_FDS, Plain(Word(CODE_U, 1))), []);
  }

  /** Without its descriptor the plain reader returns this message and the
      framed reader refuses it. */
  lemma MissingFdSplitsReaders()
    ensures var s := Encode(FdCall());
      PlainRead(s).Ok? && PlainRead(s).value.Some? && FramedRead(s) == Err
  {
    hide Encode, HeaderOf, ParsePrologue;
    var s := Encode(FdCall());
    FdCallRead();
    WholeIsFrame(s);
    assert s[..|s|] == s;
  }

  lemma WholeIsFrame(s: bytes)
    requires Whole(s)
    ensures FirstFrame(s) == Complete(|s|)
  {
  }

  /** A peer that stops after thirteen bytes. */
  lemma ThirteenBytesSplitReaders()
    ensures PlainRead(Zeros(13)) == Err && FramedRead(Zeros(13)) == Ok(None)
  {
  }

  // ----- messages for the bus daemon that do not name its interface -----

  const PEER: bytes := Ascii(":1.5")

  /** GetNameOwner of a name, without an interface. */
  function BareQuery(name: bytes): Msg {
    Built(Little, 1, 1, [TextOf(FIELD_MEMBER, CODE_S, GET_NAME_OWNER), TextOf(FIELD_DESTINATION, CODE_S, DBUS)], TextBytes(Little, name))
  }

  lemma BareQueryRead(name: bytes)
    requires |name| <= 1024
    ensures var m := BareQuery(name);
      |m.body| < TWO32 && AsRead(Read(m)) && Decodes(Read(m).raw) && Decode(Read(m).raw) == m && |Read(m).raw| >= 16
      && Read(m).header.kind == MethodCall && Read(m).header.fields.destination == Some(DBUS)
      && Read(m).header.fields.iface.None? && Read(m).header.fields.member == Some(GET_NAME_OWNER)
      && Read(m).header.endian == m.e && m.body == TextBytes(Little, name) && m.e == Little
  {
    hide Encode, FieldArray, Decode, Decodes, HeaderOf, Utf8.Valid, Built, HeaderFor, TextBytes;
    AsciiText(GET_NAME_OWNER);
    AsciiText(DBUS);
    MemberLengths();
    ReturnMembers();
    var f, g := TextOf(FIELD_MEMBER, CODE_S, GET_NAME_OWNER), TextOf(FIELD_DESTINATION, CODE_S, DBUS);
    TwoFieldsRead(Little, 1, 1, f, g, TextBytes(Little, name));
    BuiltBody(Little, 1, 1, [f, g], TextBytes(Little, name));
  }

  /** The client asks about ":h.1.5", a connection of the host bus; the sandbox
      bus is asked about its own ":1.5". */
  lemma BareQueryMissesHost(st: State)
    ensures var m := BareQuery(ToFake(PEER, Host));
      |m.body| < TWO32 && |Read(m).raw| >= 16
      && ClientStep(HostAs(), false, st, Read(m)).sent == [ToBusSent(Sandbox, Encode(m.(body := TextBytes(Little, PEER))), [])]
  {
    hide Encode, Decode, Decodes, AsRead, ToFake, TextBytes, ClientStep, HeaderFor, BareQuery, Utf8.Valid, IsReplyToCaller, NeedsRequestRewrite;
    AsciiText(PEER);
    FakeNameShape(PEER, Host);
    BareQueryRead(ToFake(PEER, Host));
    var c := Read(BareQuery(ToFake(PEER, Host)));
    CallIsNoReply(st, c);
    OwnerQueryRewritten();
    NameAsArgument(HostAs(), st, c, GET_NAME_OWNER, PEER, Host);
    DaemonOnSandbox();
  }

  lemma CallIsNoReply(st: State, c: Message)
    requires c.header.kind == MethodCall
    ensures !IsReplyToCaller(st, c)
  {
  }

  lemma OwnerQueryRewritten()
    ensures NeedsRequestRewrite(GET_NAME_OWNER)
  {
  }

  lemma DaemonOnSandbox()
    ensures ConfiguredBus(HostAs(), DBUS) == Sandbox
  {
    hide ShouldRouteToHost, HostAs;
    assert |DBUS| == 20 && DBUS[0] == 111;
    HostNames(DBUS);
  }
}
