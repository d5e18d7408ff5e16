/** Exactly what each message leads to: what is written, to whom, and what is
    remembered. */
module SessionSteps {
  import opened Wire
  import opened Message
  import opened FakeNames
  import opened HeaderRewrite
  import opened HeaderEdits
  import opened MatchRules
  import opened Bodies
  import opened BodyProofs
  import opened Config
  import opened Routing
  import opened SessionSpec
  import opened SessionRuns
  import opened SessionNames
  import opened SessionRules
  import opened SessionSurvival

  // ----- messages of the client -----

  /** The destination, if there is one, has no bus prefix. */
  predicate PlainDestination(msg: Message) {
    msg.header.fields.destination.Some? ==> BusOfFake(msg.header.fields.destination.value).None?
  }

  lemma PlainPreparedForBus(msg: Message, target: Bus)
    requires PlainDestination(msg) && !NamesConnection(msg)
    ensures PreparedForBus(msg, target) == Ok(msg.raw)
  {
    hide NeedsRequestRewrite, IsMatchRuleMember;
  }

  /** Calls, signals, answers to nobody: what the client addresses to a name
      without a prefix, or to nobody, goes out on the bus that routing decides,
      once, as it came, with its descriptors; and the router remembers where. */
  lemma SentUnchanged(cfg: Config, hostpass: bool, st: State, msg: Message, b: Bus)
    requires AsRead(msg) && |msg.raw| >= 16 && !IsReplyToCaller(st, msg)
    requires RouteRequest(cfg, hostpass, msg) == Single(b) && PlainDestination(msg) && !NamesConnection(msg)
    ensures var r := ClientStep(cfg, hostpass, st, msg);
      r.alive && r.sent == [ToBusSent(b, msg.raw, msg.fds)]
      && r.st.calls == st.calls[msg.header.serial := CallInfo(b, msg.header.fields.member)]
      && r.st.incoming == st.incoming && r.st.merges == st.merges
  {
    hide RouteRequest, PreparedForBus, IsReplyToCaller, ExtractName, IsRequestName, HeaderOf, PlainDestination, NamesConnection;
    PlainPreparedForBus(msg, b);
  }

  /** The same for a name with a prefix. */
  lemma SentRenamed(cfg: Config, hostpass: bool, st: State, msg: Message, b: Bus)
    requires AsRead(msg) && |msg.raw| >= 16 && Decodes(msg.raw) && Regular(Decode(msg.raw).fields, FIELD_DESTINATION)
    requires !IsReplyToCaller(st, msg) && RouteRequest(cfg, hostpass, msg) == Single(b) && !NamesConnection(msg)
    ensures var r := ClientStep(cfg, hostpass, st, msg);
      r.alive && r.sent == [ToBusSent(b, Encode(Renamed(Decode(msg.raw), ToUpstream, b)), msg.fds)]
  {
    hide RouteRequest, IsReplyToCaller, Tracked, HeaderOf, HeaderRewritten, Encode, Decode, Decodes, Renamed, Regular, AsRead,
      NeedsRequestRewrite, IsMatchRuleMember, HeaderFor;
    RenamesHeader(msg, ToUpstream, b);
    HeaderRewriteSafe(msg, ToUpstream, b);
    var out := OrUnchanged(HeaderRewritten(msg, ToUpstream, b), msg).value;
    if out != msg {
      RestoredIsUnique(msg.header.fields.destination.value);
    }
  }

  /** Queries and match rules for the bus daemon whose argument has no prefix,
      or is missing, go out as they came. */
  lemma ArgumentUnchanged(cfg: Config, hostpass: bool, st: State, msg: Message, b: Bus)
    requires AsRead(msg) && Decodes(msg.raw) && |msg.raw| >= 16 && !IsReplyToCaller(st, msg) && !Stub(msg.header)
    requires RouteRequest(cfg, hostpass, msg) == Single(b) && NamesConnection(msg)
    requires var text := BodyString(msg.raw, msg.header.endian);
      text.Ok? ==>
        if IsMatchRuleMember(msg.header.fields.member.value) then NoFakeSender(text.value) else BusOfFake(text.value).None?
    ensures var r := ClientStep(cfg, hostpass, st, msg);
      r.alive && r.sent == [ToBusSent(b, msg.raw, msg.fds)]
  {
    hide RouteRequest, IsReplyToCaller, Tracked, HeaderOf, HeaderRewritten, Encode, Decode, Decodes, AsRead, NeedsRequestRewrite,
      IsMatchRuleMember, BodyString, NoFakeSender, WithinLimits, Fits, BusOfFake, UniqueNameRequest, MatchRuleBody, Stub;
    DecodedHeader(msg);
    DaemonKeepsName(msg, b);
    LeftAlone(Decode(msg.raw), b);
    StubOrText(msg);
    var text := BodyString(msg.raw, msg.header.endian);
    if text.Ok? {
      if IsMatchRuleMember(msg.header.fields.member.value) {
        NoRuleChange(msg);
        NotARequestRewrite(msg.header.fields.member.value);
      } else {
        NotFake(text.value);
      }
    }
  }

  predicate NoFakeSender(rule: bytes) {
    var sender := FirstSender(Split(rule, COMMA));
    sender.None? || BusOfFake(sender.value).None?
  }

  lemma NoRuleChange(msg: Message)
    requires AsRead(msg) && Decodes(msg.raw) && BodyString(msg.raw, msg.header.endian).Ok?
    requires NoFakeSender(BodyString(msg.raw, msg.header.endian).value)
    ensures MatchRuleBody(msg.raw, msg.header.endian) == Ok(msg.raw)
  {
    hide HeaderOf, Encode, Decode, Decodes, AsRead, BodyString, FirstSender, Split, BusOfFake, WithinLimits, Fits;
    DecodedHeader(msg);
    var sender := FirstSender(Split(BodyString(msg.raw, msg.header.endian).value, COMMA));
    if sender.Some? {
      NotFake(sender.value);
    }
    RuleLeftAlone(Decode(msg.raw));
  }

  /** A body is a stub, or its first string is read, or there is none. */
  lemma StubOrText(msg: Message)
    requires AsRead(msg) && Decodes(msg.raw)
    ensures BodyString(msg.raw, msg.header.endian).Panic? <==> Stub(msg.header)
  {
    hide HeaderOf, Encode, Decode, Decodes, AsRead, BodyString, WithinLimits, Fits;
    DecodedHeader(msg);
    DecodedBody(msg);
    BodyStringPanics(Decode(msg.raw));
  }

  /** Listings: both buses get the request as it came, and it is kept. */
  lemma BothAsked(cfg: Config, hostpass: bool, st: State, msg: Message)
    requires |msg.raw| >= 16 && !IsReplyToCaller(st, msg) && RouteRequest(cfg, hostpass, msg) == Merge
    ensures var r := ClientStep(cfg, hostpass, st, msg);
      r.alive && r.sent == [ToBusSent(Host, msg.raw, msg.fds), ToBusSent(Sandbox, msg.raw, msg.fds)]
      && r.st.merges == st.merges[msg.header.serial := PendingMerge(msg, None)]
      && r.st.calls == st.calls && r.st.incoming == st.incoming
  {
    hide RouteRequest, IsReplyToCaller, ExtractName, IsRequestName;
  }

  /** Match rules for both buses: each gets the rule as it came. */
  lemma BothTold(cfg: Config, hostpass: bool, st: State, msg: Message)
    requires AsRead(msg) && |msg.raw| >= 16 && !IsReplyToCaller(st, msg) && RouteRequest(cfg, hostpass, msg) == Both
    requires var text := BodyString(msg.raw, msg.header.endian); text.Ok? ==> NoFakeSender(text.value)
    ensures var r := ClientStep(cfg, hostpass, st, msg);
      r.alive && r.sent == [ToBusSent(Host, msg.raw, msg.fds), ToBusSent(Sandbox, msg.raw, msg.fds)]
      && r.st.calls == st.calls[msg.header.serial := CallInfo(Sandbox, msg.header.fields.member)]
      && r.st.incoming == st.incoming && r.st.merges == st.merges
  {
    hide RouteRequest, IsReplyToCaller, ExtractName, IsRequestName, HeaderOf, Decodes, AsRead, BodyString, NoFakeSender, MatchRuleBody,
      IsMatchRuleMember, Stub;
    BothIsNoStub(cfg, hostpass, msg);
    StubOrText(msg);
    RuleKept(msg);
  }

  lemma RuleNotMerged(cfg: Config, hostpass: bool, msg: Message)
    requires |msg.raw| >= 16 && msg.header.fields.member.Some? && IsMatchRuleMember(msg.header.fields.member.value)
    ensures !RouteRequest(cfg, hostpass, msg).Merge?
  {
    hide BusOfFake, ShouldRouteToHost, ExtractName, InfoOf, Split, IsMatchRuleMember, FindMethodSpec;
    MembersDistinct(msg.header.fields.member.value);
  }

  lemma RuleBodyRewritten(msg: Message, rule: bytes, f: bytes, n: bytes, b: Bus)
    requires AsRead(msg) && Decodes(msg.raw) && BodyString(msg.raw, msg.header.endian) == Ok(rule)
    requires FirstSender(Split(rule, COMMA)) == Some(f) && FromFake(f) == Some((n, b))
    ensures var m := Decode(msg.raw);
      MatchRuleBody(msg.raw, msg.header.endian) == Ok(Encode(m.(body := TextBytes(m.e, RewriteMatchRuleSender(rule, f, n)))))
  {
    hide HeaderOf, Encode, Decode, Decodes, AsRead, BodyString, FirstSender, Split, FromFake, WithinLimits, Fits, Rebuilt, TextBytes,
      RewriteMatchRuleSender;
    DecodedHeader(msg);
    RebuildRefines(Decode(msg.raw), TextBytes(Decode(msg.raw).e, RewriteMatchRuleSender(rule, f, n)));
  }

  /** A match rule of any form whose first sender has a prefix: each bus that it
      is routed to, one or both, gets the rule with that sender replaced. */
  lemma RuleSent(cfg: Config, hostpass: bool, st: State, msg: Message, rule: bytes, f: bytes, n: bytes, b: Bus)
    requires AsRead(msg) && Decodes(msg.raw) && |msg.raw| >= 16 && !IsReplyToCaller(st, msg)
    requires msg.header.fields.destination == Some(DBUS) && msg.header.fields.member.Some?
    requires IsMatchRuleMember(msg.header.fields.member.value) && BodyString(msg.raw, msg.header.endian) == Ok(rule)
    requires FirstSender(Split(rule, COMMA)) == Some(f) && FromFake(f) == Some((n, b))
    ensures var m := Decode(msg.raw);
      var raw := Encode(m.(body := TextBytes(m.e, RewriteMatchRuleSender(rule, f, n))));
      ClientStep(cfg, hostpass, st, msg).sent ==
      if RouteRequest(cfg, hostpass, msg).Single? then [ToBusSent(RouteRequest(cfg, hostpass, msg).bus, raw, msg.fds)]
      else [ToBusSent(Host, raw, msg.fds), ToBusSent(Sandbox, raw, msg.fds)]
  {
    hide RouteRequest, IsReplyToCaller, Tracked, HeaderOf, HeaderRewritten, Encode, Decode, Decodes, AsRead, NeedsRequestRewrite,
      IsMatchRuleMember, BodyString, FirstSender, Split, FromFake, RewriteMatchRuleSender, TextBytes, MatchRuleBody;
    NotARequestRewrite(msg.header.fields.member.value);
    RuleNotMerged(cfg, hostpass, msg);
    RuleBodyRewritten(msg, rule, f, n, b);
    var m := Decode(msg.raw);
    var raw := Encode(m.(body := TextBytes(m.e, RewriteMatchRuleSender(rule, f, n))));
    assert RequestBody(msg) == Ok(raw) && MatchRuleBodyOrOriginal(msg) == Ok(raw);
    match RouteRequest(cfg, hostpass, msg) {
      case Single(target) => DaemonKeepsName(msg, target);
      case Both =>
      case Merge =>
    }
  }

  lemma RuleKept(msg: Message)
    requires AsRead(msg) && Decodes(msg.raw) && !BodyString(msg.raw, msg.header.endian).Panic?
    requires var text := BodyString(msg.raw, msg.header.endian); text.Ok? ==> NoFakeSender(text.value)
    ensures MatchRuleBodyOrOriginal(msg) == Ok(msg.raw)
  {
    hide HeaderOf, Encode, Decode, Decodes, AsRead, BodyString, NoFakeSender, MatchRuleBody, WithinLimits, Fits;
    DecodedHeader(msg);
    LeftAlone(Decode(msg.raw), Host);
    if BodyString(msg.raw, msg.header.endian).Ok? {
      NoRuleChange(msg);
    }
  }

  /** Which services the client has after one of its messages: one more if it
      requests a name, on the bus that the name is routed to. */
  lemma ServicesAfter(cfg: Config, hostpass: bool, st: State, msg: Message)
    requires |msg.raw| >= 16
    ensures var r, name := ClientStep(cfg, hostpass, st, msg).st, ExtractName(msg.raw, msg.header.endian);
      if IsRequestName(msg) && name.Some? && !IsReplyToCaller(st, msg) then
        if hostpass || ShouldRouteToHost(cfg, name.value) then r.exported == st.exported + {name.value} && r.sandboxed == st.sandboxed
        else r.exported == st.exported && r.sandboxed == st.sandboxed + {name.value}
      else r.exported == st.exported && r.sandboxed == st.sandboxed
  {
    hide RouteRequest, IsReplyToCaller, ExtractName, IsRequestName, ForwardStep, BothStep, ShouldRouteToHost, HeaderRewritten;
    if IsReplyToCaller(st, msg) {
      ReplyKeepsServices(st, msg);
    } else {
      if IsRequestName(msg) && ExtractName(msg.raw, msg.header.endian).Some? {
        RequestNameRouting(cfg, hostpass, msg);
      }
      var st' := Tracked(st, msg, RouteRequest(cfg, hostpass, msg));
      match RouteRequest(cfg, hostpass, msg) {
        case Single(target) => ForwardingKeeps(st', msg, target);
        case Both => ForwardingKeeps(st', msg, Host);
        case Merge =>
      }
    }
  }

  /** A reply to a caller: once, to the bus it came from, under the real name of
      the caller, and the call is over. */
  lemma ReplySentOnce(cfg: Config, hostpass: bool, st: State, msg: Message)
    requires AsRead(msg) && |msg.raw| >= 16 && IsReplyToCaller(st, msg)
    requires Decodes(msg.raw) ==> Regular(Decode(msg.raw).fields, FIELD_DESTINATION)
    ensures var r, serial := ClientStep(cfg, hostpass, st, msg), msg.header.fields.replySerial.value;
      var b := st.incoming[serial];
      r.alive && r.st == st.(incoming := st.incoming - {serial})
      && r.sent == [ToBusSent(b, if Decodes(msg.raw) then Encode(Renamed(Decode(msg.raw), ToUpstream, b)) else msg.raw, msg.fds)]
  {
    hide HeaderOf, HeaderRewritten, Encode, Decode, Decodes, Renamed, Regular, AsRead, HeaderFor;
    var b := st.incoming[msg.header.fields.replySerial.value];
    if Decodes(msg.raw) {
      RenamesHeader(msg, ToUpstream, b);
    } else {
      UnparsedHeader(msg, ToUpstream, b);
    }
  }

  // ----- messages of a bus -----

  /** A return that carries names for the client. */
  predicate CarriesNames(msg: Message, b: Bus, calls: map<u32, CallInfo>) {
    CarriesName(msg, b, calls) || ReturnFor(msg, b, calls, LIST_QUEUED_OWNERS)
  }

  predicate OwnerSignal(msg: Message) {
    msg.header.kind == Signal && msg.header.fields.member == Some(NAME_OWNER_CHANGED)
  }

  /** Ordinary returns, errors, signals and calls reach the client with the
      sender under the prefix of their bus, and otherwise as they came. */
  lemma PlainPreparedForClient(msg: Message, b: Bus, calls: map<u32, CallInfo>)
    requires AsRead(msg) && (Decodes(msg.raw) ==> Regular(Decode(msg.raw).fields, FIELD_SENDER))
    requires !CarriesNames(msg, b, calls) && !OwnerSignal(msg)
    ensures PreparedForClient(msg, b, calls) ==
      Ok(if Decodes(msg.raw) then Encode(Renamed(Decode(msg.raw), ToClient, b)) else msg.raw)
  {
    hide HeaderOf, HeaderRewritten, Encode, Decode, Decodes, Renamed, Regular, AsRead, HeaderFor, NameOwnerChanged, StringArrayResponse,
      SingleNameResponse;
    ReturnMembers();
    HeaderRewriteSafe(msg, ToClient, b);
    if Decodes(msg.raw) {
      RenamesHeader(msg, ToClient, b);
    } else {
      UnparsedHeader(msg, ToClient, b);
    }
  }

  /** What any message of a bus leads to, but calls into services and answers
      to listings: one message to the client with the descriptors of this one,
      and nothing is remembered. */
  lemma ForwardedOnce(st: State, msg: Message, b: Bus)
    requires AsRead(msg) && |msg.raw| >= 16 && !IsServiceCall(st, msg, b) && !AnswersMerge(st, msg)
    requires PreparedForClient(msg, b, st.calls).Ok?
    ensures BusStep(st, msg, b) == Step(st, [ToClientSent(PreparedForClient(msg, b, st.calls).value, msg.fds)], true)
  {
    hide PreparedForClient, IsServiceCall, AnswersMerge, HeaderOf;
  }

  /** The same, spelled out for messages without names to rewrite. */
  lemma ForwardedPlain(st: State, msg: Message, b: Bus)
    requires AsRead(msg) && |msg.raw| >= 16 && !IsServiceCall(st, msg, b) && !AnswersMerge(st, msg)
    requires Decodes(msg.raw) ==> Regular(Decode(msg.raw).fields, FIELD_SENDER)
    requires !CarriesNames(msg, b, st.calls) && !OwnerSignal(msg)
    ensures BusStep(st, msg, b) ==
      Step(st, [ToClientSent(if Decodes(msg.raw) then Encode(Renamed(Decode(msg.raw), ToClient, b)) else msg.raw, msg.fds)], true)
  {
    hide PreparedForClient, IsServiceCall, AnswersMerge, AsRead, Encode, Decode, Decodes, Renamed, Regular, CarriesNames, OwnerSignal;
    PlainPreparedForClient(msg, b, st.calls);
    ForwardedOnce(st, msg, b);
  }

  /** What counts as a call into a service: a call to a name that the client
      has on the bus it comes from. */
  lemma ServiceCallExactly(st: State, msg: Message, b: Bus)
    ensures IsServiceCall(st, msg, b) <==>
      msg.header.kind == MethodCall && msg.header.fields.destination.Some?
      && ((b == Host && msg.header.fields.destination.value in st.exported)
          || (b == Sandbox && msg.header.fields.destination.value in st.sandboxed))
    ensures AnswersMerge(st, msg) <==> msg.header.fields.replySerial.Some? && msg.header.fields.replySerial.value in st.merges
    ensures IsReplyToCaller(st, msg) <==>
      (msg.header.kind == MethodReturn || msg.header.kind == Error)
      && msg.header.fields.replySerial.Some? && msg.header.fields.replySerial.value in st.incoming
  {
  }

  /** A call into a service of the client: it is shown once, with its
      descriptors, and the reply is due to its bus. */
  lemma ServiceCallSent(st: State, msg: Message, b: Bus)
    requires AsRead(msg) && |msg.raw| >= 16 && IsServiceCall(st, msg, b)
    requires Decodes(msg.raw) ==> Regular(Decode(msg.raw).fields, FIELD_SENDER)
    ensures var raw := if b == Host || !Decodes(msg.raw) then msg.raw else Encode(Renamed(Decode(msg.raw), ToClient, b));
      BusStep(st, msg, b) == Step(st.(incoming := st.incoming[msg.header.serial := b]), [ToClientSent(raw, msg.fds)], true)
  {
    hide HeaderOf, HeaderRewritten, Encode, Decode, Decodes, Renamed, Regular, AsRead, HeaderFor, IsServiceCall, AnswersMerge;
    if b == Host || !Decodes(msg.raw) {
      CallShownRaw(st, msg, b);
    } else {
      RenamesHeader(msg, ToClient, b);
    }
  }

  /** Both answers to a listing, from whichever buses: the first is kept, the
      second ends it with a reply in which the names of the first count as the
      host's if it came from there, and as the sandbox's if not. */
  lemma AnswersMerged(st: State, msg: Message, b: Bus)
    requires |msg.raw| >= 16 && !IsServiceCall(st, msg, b) && AnswersMerge(st, msg)
    ensures var r, serial := BusStep(st, msg, b), msg.header.fields.replySerial.value;
      var pending, names := st.merges[serial], ParseStringArray(msg.raw, msg.header.endian);
      if pending.first.None? then
        r == Step(st.(merges := st.merges[serial := PendingMerge(pending.request, Some((b, names)))]), [], true)
      else
        var earlier := pending.first.value.1;
        r == Step(st.(merges := st.merges - {serial}),
                  [ToClientSent(ListNamesReply(pending.request,
                    if pending.first.value.0 == Host then Merged(earlier, names) else Merged(names, earlier)), [])], true)
  {
    hide IsServiceCall, ParseStringArray, Merged, ListNamesReply;
  }

  // ----- turns -----

  /** What ends a session, what is not looked at, and what the rest leads to. */
  lemma TurnExactly(cfg: Config, hostpass: bool, w: Loop, ev: Event)
    requires Readable(ev)
    ensures !w.alive ==> Turn(cfg, hostpass, w, ev) == (w, [])
    ensures w.alive && ev.Closed? ==> Turn(cfg, hostpass, w, ev) == (Loop(w.st, false, w.sandboxActive), [])
    ensures w.alive && ev.SandboxGone? ==>
      Turn(cfg, hostpass, w, ev) == (if hostpass then Loop(w.st, true, false) else Loop(w.st, false, w.sandboxActive), [])
    ensures w.alive && ev.FromBus? && ev.bus == Sandbox && !w.sandboxActive ==> Turn(cfg, hostpass, w, ev) == (w, [])
    ensures w.alive && ev.FromBus? && (ev.bus == Host || w.sandboxActive) ==>
      |ev.msg.raw| >= 16
      && var r := BusStep(w.st, ev.msg, ev.bus);
        Turn(cfg, hostpass, w, ev) == (Loop(r.st, r.alive, w.sandboxActive), r.sent)
    ensures w.alive && ev.FromClient? ==>
      |ev.msg.raw| >= 16
      && var r := ClientStep(cfg, hostpass, w.st, ev.msg);
        Turn(cfg, hostpass, w, ev) == (Loop(r.st, r.alive, w.sandboxActive), r.sent)
  {
    hide BusStep, ClientStep, HeaderOf;
  }

  // ----- serials that are shared -----

  lemma OneReply(sent: seq<Sent>, bus: Bus, reply: Message)
    requires AsRead(reply) && RepliesTo(sent, bus, reply)
    ensures OneMessageTo(sent, bus, reply.fds)
  {
    hide HeaderRewritten, AsRead;
    HeaderRewriteSafe(reply, ToUpstream, bus);
  }

  /** Serials are chosen by each caller, so two calls can share one. When a
      call (turn `i`) is followed by another with its serial (turn `j`) before
      it is answered, the first answer (turn `k`), whichever call it answers,
      goes to the bus of the later call and no other - an answer to the
      earlier one misses its caller when that came from the other bus. The
      second answer (turn `l`) is no reply to the router any more: it goes
      wherever its destination is routed. */
  lemma SharedSerial(cfg: Config, hostpass: bool, evs: seq<Event>, i: nat, j: nat, k: nat, l: nat)
    requires ReadableAll(evs) && i < j < k < l < |evs| && evs[i].FromBus? && evs[j].FromBus?
    requires evs[i].msg.header.serial == evs[j].msg.header.serial
    requires IsServiceCall(At(cfg, hostpass, evs, i).st, evs[i].msg, evs[i].bus)
    requires CallAnswered(cfg, hostpass, evs, j, k)
    requires evs[l].FromClient? && ReplyKind(evs[l].msg) && evs[l].msg.header.fields.replySerial == Some(evs[j].msg.header.serial)
    requires At(cfg, hostpass, evs, l).alive
    requires forall t :: k < t < l ==> !TouchesIncoming(At(cfg, hostpass, evs, t), evs[t], evs[j].msg.header.serial)
    ensures RepliesTo(SentAt(cfg, hostpass, evs, k), evs[j].bus, evs[k].msg)
    ensures OneMessageTo(SentAt(cfg, hostpass, evs, k), evs[j].bus, evs[k].msg.fds)
    ensures var st := At(cfg, hostpass, evs, l).st;
      !IsReplyToCaller(st, evs[l].msg)
      && (RouteRequest(cfg, hostpass, evs[l].msg).Single? && At(cfg, hostpass, evs, l + 1).alive ==>
        OneMessageTo(SentAt(cfg, hostpass, evs, l), RouteRequest(cfg, hostpass, evs[l].msg).bus, evs[l].msg.fds))
  {
    hide Run, At, HeaderRewritten, TouchesIncoming, CallAnswered, IsServiceCall, RouteRequest, Turn, HeaderOf, RepliesTo, OneMessageTo,
      SentAt, ReadableAll, AsRead;
    ReplyDelivery(cfg, hostpass, evs, j, k);
    AnswerIsFromClient(cfg, hostpass, evs, j, k);
    IsSeen(evs, k);
    OneReply(SentAt(cfg, hostpass, evs, k), evs[j].bus, evs[k].msg);
    IncomingStaysAway(cfg, hostpass, evs, k + 1, l, evs[j].msg.header.serial);
    IsSeen(evs, l);
    RoutedAt(cfg, hostpass, evs, l);
  }

  lemma AnswerIsFromClient(cfg: Config, hostpass: bool, evs: seq<Event>, j: nat, k: nat)
    requires ReadableAll(evs) && j < k < |evs| && CallAnswered(cfg, hostpass, evs, j, k)
    ensures evs[k].FromClient?
  {
    hide TouchesIncoming, At;
  }

  lemma IsSeen(evs: seq<Event>, k: nat)
    requires ReadableAll(evs) && k < |evs| && evs[k].FromClient?
    ensures AsRead(evs[k].msg) && |evs[k].msg.raw| >= 16
  {
    hide HeaderOf;
    assert Readable(evs[k]);
  }

  lemma RoutedAt(cfg: Config, hostpass: bool, evs: seq<Event>, l: nat)
    requires ReadableAll(evs) && l < |evs| && evs[l].FromClient? && |evs[l].msg.raw| >= 16 && At(cfg, hostpass, evs, l).alive
    requires !IsReplyToCaller(At(cfg, hostpass, evs, l).st, evs[l].msg)
    ensures RouteRequest(cfg, hostpass, evs[l].msg).Single? && At(cfg, hostpass, evs, l + 1).alive ==>
      OneMessageTo(SentAt(cfg, hostpass, evs, l), RouteRequest(cfg, hostpass, evs[l].msg).bus, evs[l].msg.fds)
  {
    hide Run, At, RouteRequest, Turn, HeaderOf, OneMessageTo, SentAt, IsReplyToCaller;
    RunStep(cfg, hostpass, evs, l);
    assert Readable(evs[l]);
    if RouteRequest(cfg, hostpass, evs[l].msg).Single? {
      RoutedOnly(cfg, hostpass, At(cfg, hostpass, evs, l), evs[l]);
    }
  }
}
