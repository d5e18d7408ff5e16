/** Which messages a session survives: what the rewriters cannot rewrite they
    pass on as it is, save for one family of malformed bodies. */
module SessionSurvival {
  import opened Wire
  import opened Message
  import opened FakeNames
  import opened HeaderRewrite
  import opened HeaderRewriteProofs
  import opened HeaderEdits
  import opened MatchRules
  import opened Bodies
  import opened BodyProofs
  import opened Config
  import opened Routing
  import opened SessionSpec
  import opened SessionNames

  /** A body that has bytes, but not the four of a string length. */
  predicate Stub(h: Header) { 0 < h.bodyLen < 4 }

  // ----- body rewriters -----

  lemma BodyStringPanics(m: Msg)
    requires Fits(m)
    ensures BodyString(Encode(m), m.e).Panic? <==> 0 < |m.body| < 4
    ensures |Encode(m)| >= 16 && BodyStart(Encode(m), m.e) <= |Encode(m)|
    ensures |m.body| < 4 ==> ExtractName(Encode(m), m.e).None?
  {
    hide Encode, Fits, BodyStart, ReadU32;
    BodyStartOf(m);
    assert |Encode(m)| == BodyStart(Encode(m), m.e) + |Encode(m)[BodyStart(Encode(m), m.e)..]|;
  }

  /** The rewriters that read one string fail hard on a stub and on nothing
      else; those that read several never do. */
  lemma RewritersPanic(m: Msg, b: Bus)
    requires Fits(m)
    ensures SingleNameResponse(Encode(m), m.e, b).Panic? <==> 0 < |m.body| < 4
    ensures UniqueNameRequest(Encode(m), m.e).Panic? <==> 0 < |m.body| < 4
    ensures MatchRuleBody(Encode(m), m.e).Panic? <==> 0 < |m.body| < 4
    ensures !StringArrayResponse(Encode(m), m.e, b).Panic? && !NameOwnerChanged(Encode(m), m.e, b).Panic?
  {
    hide Encode, Fits, BodyStart, ReadU32, BodyString, FromFake, ToFake, FirstSender, Split, DecodeThree, DecodeStringArray,
      RewriteMatchRuleSender, Texts, StringArray, TextBytes;
    BodyStringPanics(m);
  }

  // ----- prepared messages -----

  /** A return that carries one name: the answer to Hello or GetNameOwner. */
  predicate CarriesName(msg: Message, b: Bus, calls: map<u32, CallInfo>) {
    ReturnFor(msg, b, calls, HELLO) || ReturnFor(msg, b, calls, GET_NAME_OWNER)
  }

  /** A call to the bus daemon whose argument is rewritten. */
  predicate NamesConnection(msg: Message) {
    msg.header.fields.destination == Some(DBUS) && msg.header.fields.member.Some?
    && (NeedsRequestRewrite(msg.header.fields.member.value) || IsMatchRuleMember(msg.header.fields.member.value))
  }

  /** The first sender field, if any, holds a string or an object path. */
  predicate TextSender(msg: Message) {
    Decodes(msg.raw) ==> Editable(Decode(msg.raw).fields, FIELD_SENDER)
  }

  lemma UnparsedFields(msg: Message)
    requires AsRead(msg) && !Decodes(msg.raw)
    ensures msg.header.fields == NO_FIELDS
  {
    hide DecodeFields;
  }

  /** Header rewriting of a received message never panics; when it fails the
      message goes on as it was. */
  lemma HeaderRewriteSafe(msg: Message, direction: Direction, b: Bus)
    requires AsRead(msg)
    ensures var out := OrUnchanged(HeaderRewritten(msg, direction, b), msg);
      out.Ok? && |out.value.raw| >= 16 && OnlyNameChanges(msg, out.value, direction, b)
  {
    hide Rewritten, Encode, Decode, Decodes, AsRead, WithinLimits, Fits, NewName;
    AsReadSize(msg);
    if Decodes(msg.raw) {
      var name := NameIn(msg.header.fields, NameCode(direction));
      DecodedHeader(msg);
      if name.Some? && NewName(name.value, direction, b).Some? {
        EditNeverPanics(Decode(msg.raw), NameCode(direction), NewName(name.value, direction, b).value);
      }
    } else {
      UnparsedHeader(msg, direction, b);
    }
  }

  /** `out` is `msg` or differs from it in one name and the bytes. */
  predicate OnlyNameChanges(msg: Message, out: Message, direction: Direction, b: Bus) {
    var code := NameCode(direction);
    var was := NameIn(msg.header.fields, code);
    out == msg
    || (was.Some? && NewName(was.value, direction, b).Some?
        && out == Message(msg.header.(fields := WithName(msg.header.fields, code, NewName(was.value, direction, b))), out.raw, msg.fds))
  }

  /** A destination that lost its prefix is a unique name, so it is not the
      bus daemon. */
  lemma RestoredIsUnique(fake: bytes)
    requires FromFake(fake).Some?
    ensures FromFake(fake).value.0 != DBUS && fake != DBUS
  {
    hide FromFake, ToFake;
    var (n, bus) := FromFake(fake).value;
    FakeNameRoundTrip(n, bus, fake);
    RealNameIsNotDaemon(n);
    FakeBus(n, bus);
    DaemonIsNotFake();
  }

  lemma RequestBodySucceeds(msg: Message)
    requires AsRead(msg)
    ensures RequestBody(msg).Ok? <==> !(NamesConnection(msg) && Stub(msg.header))
  {
    hide Encode, Decode, Decodes, AsRead, Fits, WithinLimits, UniqueNameRequest, MatchRuleBody, NeedsRequestRewrite, IsMatchRuleMember;
    if Decodes(msg.raw) {
      DecodedHeader(msg);
      RewritersPanic(Decode(msg.raw), Host);
    } else {
      UnparsedFields(msg);
    }
  }

  lemma OtherBodyKept(msg: Message)
    requires msg.header.fields.destination != Some(DBUS)
    ensures RequestBody(msg) == Ok(msg.raw)
  {
  }

  lemma PreparedForBusSucceeds(msg: Message, target: Bus)
    requires AsRead(msg)
    ensures PreparedForBus(msg, target).Ok? <==> !(NamesConnection(msg) && Stub(msg.header))
  {
    hide HeaderRewritten, AsRead, RequestBody, FromFake, Stub;
    HeaderRewriteSafe(msg, ToUpstream, target);
    RequestBodySucceeds(msg);
    var out := OrUnchanged(HeaderRewritten(msg, ToUpstream, target), msg).value;
    if out != msg {
      RestoredIsUnique(msg.header.fields.destination.value);
      OtherBodyKept(out);
    }
  }

  // ----- messages for the client -----

  lemma {:induction false} LastStringAt(fs: seq<Field>, code: byte) returns (i: nat)
    requires LastString(fs, code).Some?
    ensures i < |fs| && fs[i].value == Plain(Text(CODE_S, LastString(fs, code).value))
    decreases |fs|
  {
    i := |fs| - 1;
    if fs[i].code != code {
      i := LastStringAt(fs[..i], code);
    }
  }

  /** A string of a message is a good deal shorter than a length field can say. */
  lemma LastStringShort(m: Msg, code: byte)
    requires WithinLimits(m) && LastString(m.fields, code).Some?
    ensures ValidText(LastString(m.fields, code).value) && |LastString(m.fields, code).value| <= MAX_MESSAGE_SIZE
  {
    hide ValidText, LastString, FieldArray, ArrayLen, PadLen;
    var i := LastStringAt(m.fields, code);
    assert ValidField(m.fields[i]);
    ArrayLenParts(m, i);
  }

  lemma EditedFits(m: Msg, code: byte, value: bytes)
    requires WithinLimits(m) && Editable(m.fields, code) && FirstIndex(m.fields, code) < |m.fields|
    requires ValidText(value) && |value| <= MAX_MESSAGE_SIZE + 2
    ensures Fits(Edited(m, code, value))
  {
    hide Edited, FirstIndex, Editable, FieldArray, ValidText, ArrayLen, PadLen;
    EditedArrayLen(m, code, value);
    EditedInPlace(m, code, value);
    EditedPad(m, code, value);
  }

  /** With a string for a first sender, the message for the client has the
      body of the original, even if the sender was not found or is repeated. */
  lemma SenderRewriteKeepsBody(msg: Message, b: Bus) returns (m: Msg)
    requires AsRead(msg) && Decodes(msg.raw) && TextSender(msg)
    ensures var out := HeaderRewritten(msg, ToClient, b);
      out.Ok? && Fits(m) && out.value.raw == Encode(m) && m.e == msg.header.endian && |m.body| == msg.header.bodyLen
  {
    hide Rewritten, Encode, Decode, Decodes, AsRead, Fits, WithinLimits, NewName, Edited, Editable, FirstIndex, Blocked, LastString, Collect;
    DecodedHeader(msg);
    m := Decode(msg.raw);
    DecodedBody(msg);
    CollectNames(m.fields, FIELD_SENDER);
    var name := NameIn(msg.header.fields, FIELD_SENDER);
    if name.Some? && NewName(name.value, ToClient, b).Some? {
      var new' := NewName(name.value, ToClient, b).value;
      LastStringFound(m.fields, FIELD_SENDER);
      LastStringShort(m, FIELD_SENDER);
      NewNameValid(name.value, ToClient, b);
      EditedFits(m, FIELD_SENDER, new');
      EditRefines(m, FIELD_SENDER, new');
      EditedInPlace(m, FIELD_SENDER, new');
      if !Blocked(m.fields, FIELD_SENDER) {
        m := Edited(m, FIELD_SENDER, new');
      }
    }
  }

  lemma DecodedBody(msg: Message)
    requires AsRead(msg) && Decodes(msg.raw)
    ensures var m := Decode(msg.raw); |m.body| == msg.header.bodyLen && Collect(m.fields) == msg.header.fields
  {
    hide Encode, Decode, Decodes, AsRead, WithinLimits, Collect;
    DecodedHeader(msg);
  }

  /** Rewriters of several strings do not panic on any bytes with a prologue. */
  lemma SeveralNeverPanic(raw: bytes, e: Endian, b: Bus)
    requires |raw| >= 16
    ensures !StringArrayResponse(raw, e, b).Panic? && !NameOwnerChanged(raw, e, b).Panic?
  {
    hide BodyStart, ToFake, DecodeThree, DecodeStringArray, Texts, StringArray;
  }

  lemma PreparedForClientSucceeds(msg: Message, b: Bus, calls: map<u32, CallInfo>)
    requires AsRead(msg) && (CarriesName(msg, b, calls) ==> TextSender(msg))
    ensures PreparedForClient(msg, b, calls).Ok? <==> !(CarriesName(msg, b, calls) && Stub(msg.header))
  {
    hide HeaderRewritten, Encode, Decode, Decodes, AsRead, TextSender, Fits, SingleNameResponse, StringArrayResponse, NameOwnerChanged,
      NewName;
    HeaderRewriteSafe(msg, ToClient, b);
    ReturnMembers();
    var out := OrUnchanged(HeaderRewritten(msg, ToClient, b), msg).value;
    SeveralNeverPanic(out.raw, out.header.endian, b);
    if CarriesName(msg, b, calls) {
      if !Decodes(msg.raw) {
        UnparsedFields(msg);
      } else {
        var m := SenderRewriteKeepsBody(msg, b);
        RewritersPanic(m, b);
      }
    }
  }

  // ----- steps -----

  lemma ArgumentMembers(member: bytes)
    requires NeedsRequestRewrite(member) || IsMatchRuleMember(member)
    ensures FindMethodSpec(member).Some? && !FindMethodSpec(member).value.MergeBoth?
  {
    MembersDistinct(member);
  }

  /** Listings take no argument. */
  lemma MergeHasNoArgument(cfg: Config, hostpass: bool, msg: Message)
    requires |msg.raw| >= 16 && RouteRequest(cfg, hostpass, msg).Merge?
    ensures !NamesConnection(msg)
  {
    hide ExtractName, BusOfFake, ShouldRouteToHost, FindMethodSpec, NeedsRequestRewrite, IsMatchRuleMember, InfoOf, ServiceOf;
    if NamesConnection(msg) {
      ArgumentMembers(msg.header.fields.member.value);
    }
  }

  lemma BothHasArgument(cfg: Config, hostpass: bool, msg: Message)
    requires |msg.raw| >= 16 && RouteRequest(cfg, hostpass, msg).Both?
    ensures ExtractName(msg.raw, msg.header.endian).Some? && msg.header.fields.member.Some?
  {
    hide ExtractName, BusOfFake, ShouldRouteToHost, RouteMatchRule;
    MemberLengths();
  }

  /** A stub has no name, so it is never sent to both buses. */
  lemma BothIsNoStub(cfg: Config, hostpass: bool, msg: Message)
    requires AsRead(msg) && |msg.raw| >= 16 && RouteRequest(cfg, hostpass, msg).Both?
    ensures !Stub(msg.header) && Decodes(msg.raw)
  {
    hide Encode, Decode, Decodes, AsRead, Fits, ExtractName, WithinLimits, RouteRequest;
    BothHasArgument(cfg, hostpass, msg);
    if Decodes(msg.raw) {
      DecodedHeader(msg);
      BodyStringPanics(Decode(msg.raw));
    } else {
      UnparsedFields(msg);
    }
  }

  /** The session goes on after every message of the client, except one: a
      query or match rule for the bus daemon with a stub for a body. */
  lemma ClientStepSurvives(cfg: Config, hostpass: bool, st: State, msg: Message)
    requires AsRead(msg) && |msg.raw| >= 16
    ensures ClientStep(cfg, hostpass, st, msg).alive <==>
      IsReplyToCaller(st, msg) || !(NamesConnection(msg) && Stub(msg.header))
  {
    hide HeaderRewritten, Encode, Decode, Decodes, AsRead, Fits, PreparedForBus, RouteRequest, Tracked, MatchRuleBody, OnlyNameChanges,
      NamesConnection, Stub, IsMatchRuleMember;
    if IsReplyToCaller(st, msg) {
      HeaderRewriteSafe(msg, ToUpstream, st.incoming[msg.header.fields.replySerial.value]);
    } else {
      match RouteRequest(cfg, hostpass, msg) {
        case Single(target) => PreparedForBusSucceeds(msg, target);
        case Both =>
          BothIsNoStub(cfg, hostpass, msg);
          RuleSurvives(msg);
        case Merge => MergeHasNoArgument(cfg, hostpass, msg);
      }
    }
  }

  lemma RuleSurvives(msg: Message)
    requires AsRead(msg) && Decodes(msg.raw) && !Stub(msg.header)
    ensures MatchRuleBodyOrOriginal(msg).Ok?
  {
    hide Encode, Decode, Decodes, AsRead, Fits, WithinLimits, MatchRuleBody;
    DecodedHeader(msg);
    RewritersPanic(Decode(msg.raw), Host);
  }

  /** The session goes on after every message of a bus, except one: the
      answer to the client's Hello or GetNameOwner with a stub for a body. */
  lemma BusStepSurvives(st: State, msg: Message, b: Bus)
    requires AsRead(msg) && |msg.raw| >= 16 && (CarriesName(msg, b, st.calls) ==> TextSender(msg))
    ensures BusStep(st, msg, b).alive <==>
      IsServiceCall(st, msg, b) || AnswersMerge(st, msg) || !(CarriesName(msg, b, st.calls) && Stub(msg.header))
  {
    hide HeaderRewritten, Encode, Decode, Decodes, AsRead, TextSender, Fits, PreparedForClient, CarriesName, Stub, ParseStringArray,
      OnlyNameChanges;
    HeaderRewriteSafe(msg, ToClient, b);
    PreparedForClientSucceeds(msg, b, st.calls);
  }

  // ----- whole runs -----

  /** What ends a session: a connection that closes (the sandbox bus only if
      the session is not a hostpass one), or a stub where a name is read. */
  predicate Ends(hostpass: bool, w: Loop, ev: Event)
    requires Readable(ev)
  {
    match ev
    case FromClient(msg) => !IsReplyToCaller(w.st, msg) && NamesConnection(msg) && Stub(msg.header)
    case FromBus(bus, msg) =>
      (bus == Host || w.sandboxActive) && !IsServiceCall(w.st, msg, bus) && !AnswersMerge(w.st, msg)
      && CarriesName(msg, bus, w.st.calls) && Stub(msg.header)
    case SandboxGone => !hostpass
    case Closed => true
  }

  /** If this is an answer with a name in it, its first sender is a string. */
  predicate TextAnswer(w: Loop, ev: Event) {
    ev.FromBus? && CarriesName(ev.msg, ev.bus, w.st.calls) ==> TextSender(ev.msg)
  }

  predicate TextAnswers(cfg: Config, hostpass: bool, evs: seq<Event>)
    requires ReadableAll(evs)
  {
    forall i :: 0 <= i < |evs| ==> TextAnswer(At(cfg, hostpass, evs, i), evs[i])
  }

  lemma TurnSurvives(cfg: Config, hostpass: bool, w: Loop, ev: Event)
    requires Readable(ev) && TextAnswer(w, ev)
    ensures Turn(cfg, hostpass, w, ev).0.alive <==> w.alive && !Ends(hostpass, w, ev)
  {
    hide ClientStep, BusStep, HeaderOf, TextSender, NamesConnection, CarriesName, IsServiceCall, AnswersMerge, Stub, Whole;
    match ev {
      case FromClient(msg) =>
        AsReadSize(msg);
        ClientStepSurvives(cfg, hostpass, w.st, msg);
      case FromBus(bus, msg) =>
        AsReadSize(msg);
        BusStepSurvives(w.st, msg, bus);
      case _ =>
    }
  }

  /** A session is alive after a run if and only if nothing in the run ended
      it: no other message, in whatever state, can. */
  lemma {:induction false} RunSurvives(cfg: Config, hostpass: bool, evs: seq<Event>)
    requires ReadableAll(evs) && TextAnswers(cfg, hostpass, evs)
    ensures Run(cfg, hostpass, evs).alive <==>
      forall i :: 0 <= i < |evs| ==> !Ends(hostpass, At(cfg, hostpass, evs, i), evs[i])
    decreases |evs|
  {
    hide Turn, Ends, Readable, TextAnswer, At, Run;
    RunsOn(cfg, hostpass, evs);
    if |evs| > 0 {
      var k := |evs| - 1;
      var init := evs[..k];
      forall i | 0 <= i < k
        ensures At(cfg, hostpass, init, i) == At(cfg, hostpass, evs, i) && init[i] == evs[i]
      {
        SameStart(cfg, hostpass, evs, k, i);
      }
      RunSurvives(cfg, hostpass, init);
      TurnSurvives(cfg, hostpass, At(cfg, hostpass, evs, k), evs[k]);
    }
  }

  lemma RunsOn(cfg: Config, hostpass: bool, evs: seq<Event>)
    requires ReadableAll(evs)
    ensures |evs| == 0 ==> Run(cfg, hostpass, evs).alive
    ensures |evs| > 0 ==> var k := |evs| - 1;
      At(cfg, hostpass, evs, k) == Run(cfg, hostpass, evs[..k])
      && Run(cfg, hostpass, evs) == Turn(cfg, hostpass, At(cfg, hostpass, evs, k), evs[k]).0
  {
    hide Turn, Readable;
  }

  lemma SameStart(cfg: Config, hostpass: bool, evs: seq<Event>, k: nat, i: nat)
    requires ReadableAll(evs) && i < k <= |evs|
    ensures At(cfg, hostpass, evs[..k], i) == At(cfg, hostpass, evs, i) && evs[..k][i] == evs[i]
  {
    hide Run, Readable;
    assert evs[..k][..i] == evs[..i];
  }
}
