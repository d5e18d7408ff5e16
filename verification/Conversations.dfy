/** Two conversations from bytes to bytes: a merged listing, and a call into a
    service of the client. They also show that what the theorems about runs
    ask for does happen. */
module Conversations {
  import opened Wire
  import Utf8
  import opened Message
  import opened MessageProofs
  import opened FakeNames
  import opened HeaderRewrite
  import opened HeaderRewriteProofs
  import opened HeaderEdits
  import opened Bodies
  import opened BodyProofs
  import opened Config
  import opened Routing
  import opened SessionSpec
  import opened SessionRuns
  import opened SessionNames
  import opened SessionSurvival
  import opened HelloCall

  // ----- messages put together -----

  function Built(e: Endian, kind: byte, serial: u32, fields: seq<Field>, body: bytes): (m: Msg)
    ensures |m.pad| == PadLen(m) && AllZero(m.pad)
  {
    Msg(e, kind, 0, serial, fields, Zeros(Pad(16 + |FieldArray(e, fields)|, 8)), body)
  }

  /** The message as a reader returns it. */
  function Read(m: Msg): Message
    requires |m.body| < TWO32
  {
    Message(HeaderFor(m), Encode(m), [])
  }

  function TextSize(f: Field): nat {
    match f.value.b
    case Text(_, s) => |s| + 24
    case Signature(s) => |s| + 24
    case _ => 24
  }

  /** A bound on the length of a field array. */
  function Bound(fs: seq<Field>): nat {
    if |fs| == 0 then 0 else TextSize(fs[0]) + Bound(fs[1..])
  }

  lemma FieldBound(e: Endian, f: Field)
    requires ValidField(f)
    ensures |FieldBytes(e, f)| + 7 <= TextSize(f)
  {
    hide Utf8.Valid;
  }

  lemma {:induction false} ArrayBound(e: Endian, fs: seq<Field>)
    requires ValidFields(fs)
    ensures |FieldArray(e, fs)| <= Bound(fs)
    decreases |fs|
  {
    hide FieldArray, FieldBytes, TextSize, ValidField;
    if |fs| > 0 {
      assert fs == [fs[0]] + fs[1..];
      FieldArrayCons(e, fs[0], fs[1..]);
      FieldBound(e, fs[0]);
      ArrayBound(e, fs[1..]);
      assert |fs| == 1 ==> fs == [fs[0]];
    } else {
      FieldArrayNonEmpty(e, fs);
    }
  }

  lemma BuiltIsRead(e: Endian, kind: byte, serial: u32, fields: seq<Field>, body: bytes)
    requires ValidFields(fields) && Bound(fields) <= MAX_MESSAGE_SIZE && |body| <= MAX_MESSAGE_SIZE
    ensures var m := Built(e, kind, serial, fields, body);
      WithinLimits(m) && AsRead(Read(m)) && Decodes(Encode(m)) && Decode(Encode(m)) == m && |Encode(m)| >= 16
  {
    hide FieldArray, Encode, Decode, Decodes, HeaderOf, ValidField, Bound;
    ArrayBound(e, fields);
    HeaderOfEncoded(Built(e, kind, serial, fields, body));
  }

  /** The fields of a call to the bus daemon. */
  function DaemonFields(member: bytes): seq<Field> {
    [TextOf(FIELD_INTERFACE, CODE_S, DBUS), TextOf(FIELD_MEMBER, CODE_S, member), TextOf(FIELD_DESTINATION, CODE_S, DBUS)]
  }

  lemma DaemonFieldsCollected(member: bytes)
    requires ValidText(member) && |member| < 256
    ensures ValidFields(DaemonFields(member)) && Bound(DaemonFields(member)) <= MAX_MESSAGE_SIZE
    ensures Collect(DaemonFields(member)) == NO_FIELDS.(iface := Some(DBUS), member := Some(member), destination := Some(DBUS))
  {
    hide Utf8.Valid;
    AsciiText(DBUS);
    ReturnMembers();
    var fs := DaemonFields(member);
    ThreeCollected(fs[0], fs[1], fs[2]);
  }

  lemma ThreeCollected(f: Field, g: Field, h: Field)
    ensures Collect([f, g]) == Assign(Assign(NO_FIELDS, f), g)
    ensures Collect([f, g, h]) == Assign(Assign(Assign(NO_FIELDS, f), g), h)
    ensures Bound([f, g]) == TextSize(f) + TextSize(g)
    ensures Bound([f, g, h]) == TextSize(f) + TextSize(g) + TextSize(h)
  {
    hide Assign, TextSize;
    assert [f, g, h][..2] == [f, g] && [f, g][..1] == [f] && [f][..0] == [];
    assert Collect([f]) == Assign(NO_FIELDS, f);
    assert [f, g, h][1..] == [g, h] && [g, h][1..] == [h] && [f, g][1..] == [g];
    OneBound(g);
    OneBound(h);
    assert Bound([g, h]) == TextSize(g) + TextSize(h);
  }

  lemma OneBound(f: Field)
    ensures Bound([f]) == TextSize(f)
  {
    assert [f][1..] == [];
  }

  // ----- a merged listing -----

  function ListingRequest(e: Endian, serial: u32): Msg { Built(e, 1, serial, DaemonFields(LIST_NAMES), []) }

  /** The answer of a bus. */
  function Listing(e: Endian, serial: u32, names: seq<bytes>): Msg {
    MethodReturnMsg(e, serial, StringArray(e, names), Some(Ascii("as")))
  }

  predicate Sendable(e: Endian, names: seq<bytes>) {
    ValidNames(names) && 4 + |Texts(e, names)| <= MAX_MESSAGE_SIZE
  }

  lemma ListingRead(e: Endian, serial: u32, names: seq<bytes>)
    requires Sendable(e, names)
    ensures var m := Listing(e, serial, names);
      |m.body| < TWO32 && AsRead(Read(m)) && Read(m).header.kind == MethodReturn
      && Read(m).header.fields.replySerial == Some(serial) && |Read(m).raw| >= 16
      && ParseStringArray(Read(m).raw, Read(m).header.endian) == names
  {
    hide Encode, FieldArray, Texts, Decode, Decodes, HeaderOf, ParseStringArray, ValidFields, ValidNames, Collect;
    ReplyFields(serial);
    ReplyLength(e, serial);
    HeaderOfEncoded(Listing(e, serial, names));
    ParsesStringArray(Listing(e, serial, names), names);
  }

  lemma ListingRequestRead(cfg: Config, e: Endian, serial: u32)
    ensures var m := ListingRequest(e, serial);
      |m.body| < TWO32 && AsRead(Read(m)) && Read(m).header.kind == MethodCall && Read(m).header.serial == serial
      && Read(m).header.endian == e && |Read(m).raw| >= 16 && RouteRequest(cfg, false, Read(m)).Merge?
  {
    hide Encode, FieldArray, Decode, Decodes, HeaderOf, ValidFields, Collect, BusOfFake, FindMethodSpec, ExtractName, Utf8.Valid;
    AsciiText(LIST_NAMES);
    MemberLengths();
    DaemonFieldsCollected(LIST_NAMES);
    BuiltIsRead(e, 1, serial, DaemonFields(LIST_NAMES), []);
    DaemonIsNotFake();
    MembersDistinct(LIST_NAMES);
  }

  function ListingEvents(e: Endian, serial: u32, first: Bus, names: seq<bytes>, second: Bus, more: seq<bytes>): seq<Event>
    requires 4 + |Texts(e, names)| < TWO32 && 4 + |Texts(e, more)| < TWO32
  {
    [FromClient(Read(ListingRequest(e, serial))), FromBus(first, Read(Listing(e, serial, names))),
     FromBus(second, Read(Listing(e, serial, more)))]
  }

  /** A client asks for the names and each bus answers, in either order: the
      client reads one reply to its request, with the merged names. */
  lemma MergedListing(cfg: Config, e: Endian, serial: u32, host: seq<bytes>, sandbox: seq<bytes>, first: Bus) returns (raw: bytes)
    requires Sendable(e, host) && Sendable(e, sandbox) && 4 + |Texts(e, Merged(host, sandbox))| <= MAX_MESSAGE_SIZE
    ensures var evs := if first == Host then ListingEvents(e, serial, Host, host, Sandbox, sandbox)
        else ListingEvents(e, serial, Sandbox, sandbox, Host, host);
      ReadableAll(evs) && MergeRun(cfg, false, evs, 0, 1, 2) && SentAt(cfg, false, evs, 1) == []
      && SentAt(cfg, false, evs, 2) == [ToClientSent(raw, [])]
    ensures RepliesWith(raw, e, serial, Merged(host, sandbox))
  {
    hide Merged, Texts, Listing, ListingRequest, AsRead, HeaderFor, Encode, RouteRequest, ParseStringArray, RepliesWith, ListNamesReply,
      ValidNames, SentAt, MergeRun, ReadableAll;
    var evs := if first == Host then ListingEvents(e, serial, Host, host, Sandbox, sandbox)
      else ListingEvents(e, serial, Sandbox, sandbox, Host, host);
    ListingRequestRead(cfg, e, serial);
    ListingRead(e, serial, host);
    ListingRead(e, serial, sandbox);
    assert Readable(evs[0]) && Readable(evs[1]) && Readable(evs[2]);
    ThreeReadable(evs);
    ListingRun(cfg, evs, serial);
    MergeProtocol(cfg, false, evs, 0, 1, 2);
    MergedReplyReadable(evs[0].msg, HostAnswer(evs[1], evs[2]), SandboxAnswer(evs[1], evs[2]));
    raw := ListNamesReply(evs[0].msg, Merged(host, sandbox));
  }

  lemma ThreeReadable(evs: seq<Event>)
    requires |evs| == 3 && Readable(evs[0]) && Readable(evs[1]) && Readable(evs[2])
    ensures ReadableAll(evs)
  {
    hide Readable;
  }

  lemma FirstTurns(cfg: Config, evs: seq<Event>)
    requires ReadableAll(evs) && |evs| == 3
    ensures At(cfg, false, evs, 0) == START
    ensures At(cfg, false, evs, 1) == Turn(cfg, false, START, evs[0]).0
    ensures At(cfg, false, evs, 2) == Turn(cfg, false, At(cfg, false, evs, 1), evs[1]).0
  {
    hide Turn;
    RunStep(cfg, false, evs, 0);
    RunStep(cfg, false, evs, 1);
    assert evs[..0] == [];
  }

  lemma ListingRun(cfg: Config, evs: seq<Event>, serial: u32)
    requires ReadableAll(evs) && |evs| == 3
    requires evs[0].FromClient? && |evs[0].msg.raw| >= 16 && RouteRequest(cfg, false, evs[0].msg).Merge?
    requires evs[0].msg.header.serial == serial && evs[0].msg.header.kind == MethodCall
    requires evs[1].FromBus? && ReplyKind(evs[1].msg) && evs[1].msg.header.fields.replySerial == Some(serial)
    requires evs[2].FromBus? && ReplyKind(evs[2].msg) && evs[2].msg.header.fields.replySerial == Some(serial)
    requires evs[1].bus != evs[2].bus
    ensures MergeRun(cfg, false, evs, 0, 1, 2)
  {
    hide Run, At, Turn, AsRead, RouteRequest, ParseStringArray;
    FirstTurns(cfg, evs);
    MergeAsked(cfg, false, START, evs[0]);
    StaysActive(cfg, START, evs[0]);
    FirstAnswer(cfg, false, At(cfg, false, evs, 1), evs[1], serial);
    StaysActive(cfg, At(cfg, false, evs, 1), evs[1]);
  }

  lemma StaysActive(cfg: Config, w: Loop, ev: Event)
    requires Readable(ev) && (ev.FromClient? || ev.FromBus?)
    ensures Turn(cfg, false, w, ev).0.sandboxActive == w.sandboxActive
  {
    hide ClientStep, BusStep, AsRead;
  }

  // ----- a call into a service -----

  /** RequestName of this name; its other argument does not matter. */
  function NameRequest(e: Endian, serial: u32, name: bytes, rest: bytes): Msg {
    Built(e, 1, serial, DaemonFields(REQUEST_NAME), TextBytes(e, name) + rest)
  }

  /** A call from `caller` to a name. */
  function ServiceCall(e: Endian, serial: u32, name: bytes, caller: bytes, body: bytes): Msg {
    Built(e, 1, serial, [TextOf(FIELD_DESTINATION, CODE_S, name), TextOf(FIELD_SENDER, CODE_S, caller)], body)
  }

  /** An answer to the call `serial`, addressed to `caller`. */
  function Answer(e: Endian, own: u32, serial: u32, caller: bytes, body: bytes): Msg {
    Built(e, 2, own, [Field(FIELD_REPLY_SERIAL, Plain(Word(CODE_U, serial))), TextOf(FIELD_DESTINATION, CODE_S, caller)], body)
  }

  /** A name as the bus grants them: short, and valid text. */
  predicate BusName(n: bytes) { ValidText(n) && |n| < 256 }

  lemma NameRequestRead(cfg: Config, e: Endian, serial: u32, name: bytes, rest: bytes)
    requires BusName(name) && |rest| <= 1024
    ensures var m := NameRequest(e, serial, name, rest);
      |m.body| < TWO32 && AsRead(Read(m)) && |Read(m).raw| >= 16 && IsRequestName(Read(m)) && Read(m).header.kind == MethodCall
      && ExtractName(Read(m).raw, Read(m).header.endian) == Some(name) && Read(m).header.bodyLen >= 4
  {
    hide Encode, FieldArray, Decode, Decodes, HeaderOf, ValidFields, Collect, ExtractName, Utf8.Valid, TextBytes, Regular;
    var m := NameRequest(e, serial, name, rest);
    AsciiText(REQUEST_NAME);
    MemberLengths();
    DaemonFieldsCollected(REQUEST_NAME);
    BuiltIsRead(e, 1, serial, DaemonFields(REQUEST_NAME), TextBytes(e, name) + rest);
    BodyStringOf(m, name, rest);
  }

  lemma TwoFieldsRead(e: Endian, kind: byte, serial: u32, f: Field, g: Field, body: bytes)
    requires ValidField(f) && ValidField(g) && TextSize(f) + TextSize(g) <= 1024 && |body| <= MAX_MESSAGE_SIZE
    ensures var m := Built(e, kind, serial, [f, g], body);
      WithinLimits(m) && AsRead(Read(m)) && Decodes(Encode(m)) && Decode(Encode(m)) == m && |Encode(m)| >= 16
      && Read(m).header == Header(e, TypeOf(kind), 0, serial, |body|, Assign(Assign(NO_FIELDS, f), g))
  {
    hide Encode, FieldArray, Decode, Decodes, HeaderOf, ValidField, TextSize, Assign, Collect;
    ThreeCollected(f, g, g);
    BuiltIsRead(e, kind, serial, [f, g], body);
  }

  lemma ServiceCallRead(e: Endian, serial: u32, name: bytes, caller: bytes, body: bytes)
    requires BusName(name) && BusName(caller) && |body| <= MAX_MESSAGE_SIZE
    ensures var m := ServiceCall(e, serial, name, caller, body);
      |m.body| < TWO32 && AsRead(Read(m)) && |Read(m).raw| >= 16 && Read(m).header.kind == MethodCall
      && Read(m).header.serial == serial
      && Decodes(Read(m).raw) && Decode(Read(m).raw) == m && Regular(m.fields, FIELD_SENDER)
      && Read(m).header.fields.destination == Some(name) && Read(m).header.fields.sender == Some(caller)
  {
    hide Encode, FieldArray, Decode, Decodes, HeaderOf, Utf8.Valid, Built, HeaderFor;
    TwoFieldsRead(e, 1, serial, TextOf(FIELD_DESTINATION, CODE_S, name), TextOf(FIELD_SENDER, CODE_S, caller), body);
    BuiltBody(e, 1, serial, [TextOf(FIELD_DESTINATION, CODE_S, name), TextOf(FIELD_SENDER, CODE_S, caller)], body);
    assert FirstIndex([TextOf(FIELD_DESTINATION, CODE_S, name), TextOf(FIELD_SENDER, CODE_S, caller)], FIELD_SENDER) == 1;
  }

  lemma BuiltBody(e: Endian, kind: byte, serial: u32, fields: seq<Field>, body: bytes)
    ensures var m := Built(e, kind, serial, fields, body);
      m.body == body && m.fields == fields && m.e == e
  {
  }

  lemma AnswerRead(e: Endian, own: u32, serial: u32, caller: bytes, body: bytes)
    requires BusName(caller) && |body| <= MAX_MESSAGE_SIZE
    ensures var m := Answer(e, own, serial, caller, body);
      |m.body| < TWO32 && AsRead(Read(m)) && |Read(m).raw| >= 16 && Read(m).header.kind == MethodReturn
      && Decodes(Read(m).raw) && Decode(Read(m).raw) == m && Regular(m.fields, FIELD_DESTINATION)
      && Read(m).header.fields.replySerial == Some(serial) && Read(m).header.fields.destination == Some(caller)
  {
    hide Encode, FieldArray, Decode, Decodes, HeaderOf, Utf8.Valid, Built, HeaderFor;
    var f, g := Field(FIELD_REPLY_SERIAL, Plain(Word(CODE_U, serial))), TextOf(FIELD_DESTINATION, CODE_S, caller);
    TwoFieldsRead(e, 2, own, f, g, body);
    BuiltBody(e, 2, own, [f, g], body);
    assert FirstIndex([f, g], FIELD_DESTINATION) == 1;
  }

  /** After a RequestName, calls to the name from its bus are calls into a
      service of the client. */
  lemma NameRecorded(cfg: Config, req: Message, call: Message, name: bytes)
    requires AsRead(req) && |req.raw| >= 16 && IsRequestName(req) && req.header.kind == MethodCall && req.header.bodyLen >= 4
    requires ExtractName(req.raw, req.header.endian) == Some(name)
    requires call.header.kind == MethodCall && call.header.fields.destination == Some(name)
    ensures var r := ClientStep(cfg, false, EMPTY, req);
      r.alive && IsServiceCall(r.st, call, ConfiguredBus(cfg, name))
  {
    hide AsRead, ExtractName, RouteRequest, PreparedForBus, ShouldRouteToHost, NamesConnection, IsRequestName;
    ClientStepSurvives(cfg, false, EMPTY, req);
    RequestNameRouting(cfg, false, req);
    var st := Tracked(EMPTY, req, RouteRequest(cfg, false, req));
    ForwardingKeeps(st, req, ConfiguredBus(cfg, name));
  }

  lemma AnswerEdited(e: Endian, own: u32, serial: u32, caller: bytes, n: bytes, body: bytes)
    ensures var m := Answer(e, own, serial, caller, body);
      Editable(m.fields, FIELD_DESTINATION) && Edited(m, FIELD_DESTINATION, n) == Answer(e, own, serial, n, body)
  {
    hide FieldArray, Pad, Zeros;
    var m := Answer(e, own, serial, caller, body);
    assert FirstIndex(m.fields, FIELD_DESTINATION) == 1;
    assert SetText(m.fields, FIELD_DESTINATION, n) == Answer(e, own, serial, n, body).fields;
  }

  function ServiceEvents(req: Msg, bus: Bus, call: Msg, answer: Msg): seq<Event>
    requires |req.body| < TWO32 && |call.body| < TWO32 && |answer.body| < TWO32
  {
    [FromClient(Read(req)), FromBus(bus, Read(call)), FromClient(Read(answer))]
  }

  /** The client takes a name and is then called under it. */
  predicate CalledUnderName(cfg: Config, evs: seq<Event>, n: bytes)
    requires ReadableAll(evs)
  {
    |evs| == 3 && evs[0].FromClient? && evs[1].FromBus? && evs[2].FromClient?
    && |evs[0].msg.raw| >= 16 && |evs[1].msg.raw| >= 16
    && (var r := ClientStep(cfg, false, EMPTY, evs[0].msg); r.alive && IsServiceCall(r.st, evs[1].msg, evs[1].bus))
    && Decodes(evs[1].msg.raw) && Regular(Decode(evs[1].msg.raw).fields, FIELD_SENDER)
    && evs[1].msg.header.fields.sender == Some(n)
  }

  lemma CallRenamed(e: Endian, serial: u32, name: bytes, n: bytes, body: bytes)
    requires IsUnique(n)
    ensures Renamed(ServiceCall(e, serial, name, n, body), ToClient, Sandbox) == ServiceCall(e, serial, name, ToFake(n, Sandbox), body)
  {
    hide FieldArray, Pad, Zeros, ToFake;
    var m := ServiceCall(e, serial, name, n, body);
    assert FirstIndex(m.fields, FIELD_SENDER) == 1;
    assert LastString(m.fields, FIELD_SENDER) == Some(n);
    FakeNameShape(n, Sandbox);
    assert SetText(m.fields, FIELD_SENDER, ToFake(n, Sandbox)) == ServiceCall(e, serial, name, ToFake(n, Sandbox), body).fields;
  }

  lemma ServiceCalled(cfg: Config, evs: seq<Event>, n: bytes)
    requires ReadableAll(evs) && CalledUnderName(cfg, evs, n)
    ensures var w := At(cfg, false, evs, 1);
      w.alive && w.sandboxActive && IsServiceCall(w.st, evs[1].msg, evs[1].bus) && At(cfg, false, evs, 2).alive
      && SentAt(cfg, false, evs, 1) ==
        [ToClientSent(if evs[1].bus == Host then evs[1].msg.raw else Encode(Renamed(Decode(evs[1].msg.raw), ToClient, evs[1].bus)),
                      evs[1].msg.fds)]
    ensures var w := At(cfg, false, evs, 2); w.sandboxActive
  {
    hide Run, At, AsRead, Decodes, Decode, Regular, ClientStep, IsServiceCall, ServiceCallStep, SentAt, CallerSeen, HeaderOf, Whole, Encode, Renamed;
    assert Readable(evs[0]) && Readable(evs[1]);
    FirstTurns(cfg, evs);
    RunStep(cfg, false, evs, 1);
    StaysActive(cfg, START, evs[0]);
    StaysActive(cfg, At(cfg, false, evs, 1), evs[1]);
    var st := At(cfg, false, evs, 1).st;
    assert st == ClientStep(cfg, false, EMPTY, evs[0].msg).st;
    CallShown(st, evs[1].msg, n, evs[1].bus);
    assert SentAt(cfg, false, evs, 1) == ServiceCallStep(st, evs[1].msg, evs[1].bus).sent;
  }

  lemma ServiceRun(cfg: Config, evs: seq<Event>, n: bytes)
    requires ReadableAll(evs) && CalledUnderName(cfg, evs, n)
    requires ReplyKind(evs[2].msg) && evs[2].msg.header.fields.replySerial == Some(evs[1].msg.header.serial)
    ensures CallAnswered(cfg, false, evs, 1, 2)
  {
    hide Run, At, AsRead, Decodes, Decode, Regular, ClientStep, IsServiceCall, ServiceCallStep, SentAt;
    ServiceCalled(cfg, evs, n);
  }

  /** The client takes a name, is called under it by the connection `n` of the
      name's bus, and answers the sender that it saw: the answer arrives on
      that bus, addressed to `n`, and is otherwise the client's own. */
  lemma ServiceConversation(cfg: Config, e: Endian, name: bytes, rest: bytes, n: bytes, req: u32, serial: u32, own: u32,
                            question: bytes, reply: bytes)
    requires BusName(name) && BusName(n) && BusName(CallerSeen(n, ConfiguredBus(cfg, name))) && IsUnique(n) && FromFake(n).None?
    requires |rest| <= 1024 && |question| <= MAX_MESSAGE_SIZE && |reply| <= MAX_MESSAGE_SIZE
    ensures var bus := ConfiguredBus(cfg, name);
      var evs := ServiceEvents(NameRequest(e, req, name, rest), bus, ServiceCall(e, serial, name, n, question),
                               Answer(e, own, serial, CallerSeen(n, bus), reply));
      ReadableAll(evs) && CallAnswered(cfg, false, evs, 1, 2)
      && SentAt(cfg, false, evs, 1) == [ToClientSent(Encode(ServiceCall(e, serial, name, CallerSeen(n, bus), question)), [])]
      && SentAt(cfg, false, evs, 2) == [ToBusSent(bus, Encode(Answer(e, own, serial, n, reply)), [])]
  {
    hide AsRead, Decodes, Decode, Regular, ClientStep, IsServiceCall, ReadableAll, SentAt, CallAnswered, NameRequest, ServiceCall, Renamed,
      Answer, Encode, HeaderFor, ValidText, IsRequestName, ExtractName, Editable, Edited, ConfiguredBus, ToFake, FromFake;
    var bus := ConfiguredBus(cfg, name);
    var seen := CallerSeen(n, bus);
    NameRequestRead(cfg, e, req, name, rest);
    ServiceCallRead(e, serial, name, n, question);
    AnswerRead(e, own, serial, seen, reply);
    var evs := ServiceEvents(NameRequest(e, req, name, rest), bus, ServiceCall(e, serial, name, n, question),
                             Answer(e, own, serial, seen, reply));
    assert Readable(evs[0]) && Readable(evs[1]) && Readable(evs[2]);
    ThreeReadable(evs);
    NameRecorded(cfg, evs[0].msg, evs[1].msg, name);
    ServiceCalled(cfg, evs, n);
    CallRenamed(e, serial, name, n, question);
    ServiceRun(cfg, evs, n);
    CallerGetsReply(cfg, false, evs, 1, 2, n);
    AnswerEdited(e, own, serial, seen, n, reply);
  }

  // ----- calling a caller back -----

  /** A call of the client to a connection. */
  function Callback(e: Endian, serial: u32, dest: bytes, body: bytes): Msg {
    Built(e, 1, serial, [TextOf(FIELD_MEMBER, CODE_S, HELLO), TextOf(FIELD_DESTINATION, CODE_S, dest)], body)
  }

  lemma CallbackRead(e: Endian, serial: u32, dest: bytes, body: bytes)
    requires BusName(dest) && |body| <= MAX_MESSAGE_SIZE
    ensures var m := Callback(e, serial, dest, body);
      |m.body| < TWO32 && AsRead(Read(m)) && |Read(m).raw| >= 16 && Read(m).header.kind == MethodCall
      && Decodes(Read(m).raw) && Decode(Read(m).raw) == m && Regular(m.fields, FIELD_DESTINATION)
      && Read(m).header.fields.destination == Some(dest)
  {
    hide Encode, FieldArray, Decode, Decodes, HeaderOf, Utf8.Valid, Built, HeaderFor;
    var f, g := TextOf(FIELD_MEMBER, CODE_S, HELLO), TextOf(FIELD_DESTINATION, CODE_S, dest);
    AsciiText(HELLO);
    ReturnMembers();
    TwoFieldsRead(e, 1, serial, f, g, body);
    BuiltBody(e, 1, serial, [f, g], body);
    assert FirstIndex([f, g], FIELD_DESTINATION) == 1;
  }

  lemma CallbackEdited(e: Endian, serial: u32, dest: bytes, n: bytes, body: bytes)
    ensures var m := Callback(e, serial, dest, body);
      Editable(m.fields, FIELD_DESTINATION) && Edited(m, FIELD_DESTINATION, n) == Callback(e, serial, n, body)
  {
    hide FieldArray, Pad, Zeros;
    var m := Callback(e, serial, dest, body);
    assert FirstIndex(m.fields, FIELD_DESTINATION) == 1;
    assert SetText(m.fields, FIELD_DESTINATION, n) == Callback(e, serial, n, body).fields;
  }

  /** The client takes a name, is called under it by the connection `n` of the
      name's bus, and later calls the sender that it saw. The call carries the
      name `n`, but for a caller on the host it goes to whichever bus the
      configuration gives to `n`. */
  lemma CallingBack(cfg: Config, e: Endian, name: bytes, rest: bytes, n: bytes, req: u32, serial: u32, own: u32,
                    question: bytes, body: bytes)
    requires BusName(name) && BusName(n) && BusName(CallerSeen(n, ConfiguredBus(cfg, name))) && IsUnique(n) && BusOfFake(n).None?
    requires |rest| <= 1024 && |question| <= MAX_MESSAGE_SIZE && |body| <= MAX_MESSAGE_SIZE
    ensures var bus := ConfiguredBus(cfg, name);
      var evs := ServiceEvents(NameRequest(e, req, name, rest), bus, ServiceCall(e, serial, name, n, question),
                               Callback(e, own, CallerSeen(n, bus), body));
      ReadableAll(evs)
      && SentAt(cfg, false, evs, 1) == [ToClientSent(Encode(ServiceCall(e, serial, name, CallerSeen(n, bus), question)), [])]
      && SentAt(cfg, false, evs, 2) ==
        [ToBusSent(if bus == Sandbox then Sandbox else ConfiguredBus(cfg, n), Encode(Callback(e, own, n, body)), [])]
  {
    hide AsRead, Decodes, Decode, Regular, ClientStep, IsServiceCall, ReadableAll, SentAt, NameRequest, ServiceCall, Renamed,
      Callback, Encode, HeaderFor, ValidText, IsRequestName, ExtractName, Editable, Edited, ConfiguredBus, ToFake, BusOfFake;
    var bus := ConfiguredBus(cfg, name);
    var seen := CallerSeen(n, bus);
    NameRequestRead(cfg, e, req, name, rest);
    ServiceCallRead(e, serial, name, n, question);
    CallbackRead(e, own, seen, body);
    var evs := ServiceEvents(NameRequest(e, req, name, rest), bus, ServiceCall(e, serial, name, n, question),
                             Callback(e, own, seen, body));
    assert Readable(evs[0]) && Readable(evs[1]) && Readable(evs[2]);
    ThreeReadable(evs);
    NameRecorded(cfg, evs[0].msg, evs[1].msg, name);
    ServiceCalled(cfg, evs, n);
    CallRenamed(e, serial, name, n, question);
    SentByStep(cfg, evs, 2);
    CallerAsDestination(cfg, At(cfg, false, evs, 2).st, evs[2].msg, n, bus);
    CallbackEdited(e, own, seen, n, body);
  }

  lemma SentByStep(cfg: Config, evs: seq<Event>, k: nat)
    requires ReadableAll(evs) && k < |evs| && evs[k].FromClient? && |evs[k].msg.raw| >= 16 && At(cfg, false, evs, k).alive
    ensures SentAt(cfg, false, evs, k) == ClientStep(cfg, false, At(cfg, false, evs, k).st, evs[k].msg).sent
  {
    hide Run, AsRead, ClientStep;
    RunStep(cfg, false, evs, k);
    assert Readable(evs[k]);
  }
}
