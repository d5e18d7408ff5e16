/** Names across a session: what the client sees of a name works when the
    client uses it. End to end, from received bytes to sent bytes. */
module SessionNames {
  import opened Wire
  import Utf8
  import opened Message
  import opened MessageProofs
  import opened FakeNames
  import opened HeaderRewrite
  import opened HeaderRewriteProofs
  import opened HeaderEdits
  import opened Bodies
  import opened BodyProofs
  import opened Config
  import opened Routing
  import opened SessionSpec
  import opened SessionRuns

  // ----- renaming -----

  /** The field with this code, if there is one, is the only one and no
      8-aligned field stands before it. */
  predicate Regular(fs: seq<Field>, code: byte) {
    FirstIndex(fs, code) < |fs| ==> Once(fs, code) && !Blocked(fs, code)
  }

  /** The abstract message with its name changed for the other side. */
  function Renamed(m: Msg, direction: Direction, bus: Bus): Msg {
    var code := NameCode(direction);
    var name := LastString(m.fields, code);
    if name.None? || NewName(name.value, direction, bus).None? || !Editable(m.fields, code) then m
    else Edited(m, code, NewName(name.value, direction, bus).value)
  }

  lemma OnceEditable(fs: seq<Field>, code: byte)
    requires Once(fs, code) && LastString(fs, code).Some?
    ensures Editable(fs, code) && fs[FirstIndex(fs, code)].value == Plain(Text(CODE_S, LastString(fs, code).value))
  {
    hide FirstIndex, LastString;
    LastStringOnce(fs, code);
  }

  /** Rewriting the header of a received message gives the encoding of the
      renamed message together with its true header. */
  lemma RenamesHeader(msg: Message, direction: Direction, source: Bus)
    requires AsRead(msg) && Decodes(msg.raw) && Regular(Decode(msg.raw).fields, NameCode(direction))
    ensures var m' := Renamed(Decode(msg.raw), direction, source);
      HeaderRewritten(msg, direction, source) == Ok(Message(HeaderFor(m'), Encode(m'), msg.fds))
  {
    hide Rewritten, Encode, Edited, Collect, FirstIndex, Blocked, Once, Decode, Decodes, HeaderOf, NewName, LastString, Editable,
      WithText, Fits, WithinLimits;
    var m, code := Decode(msg.raw), NameCode(direction);
    DecodedHeader(msg);
    CollectNames(m.fields, code);
    var name := LastString(m.fields, code);
    if name.Some? && NewName(name.value, direction, source).Some? {
      var new' := NewName(name.value, direction, source).value;
      LastStringFound(m.fields, code);
      OnceEditable(m.fields, code);
      EditRefines(m, code, new');
      CollectAfterEdit(m, code, new');
      EditedInPlace(m, code, new');
      EditedString(m.fields[FirstIndex(m.fields, code)], new');
    }
  }

  lemma EditedString(f: Field, value: bytes)
    requires f.value.Plain? && f.value.b.Text? && f.value.b.code == CODE_S
    ensures AsString(WithText(f, value).value) == Some(value)
  {
  }

  /** A received message whose header array did not parse is never renamed. */
  lemma UnparsedHeader(msg: Message, direction: Direction, source: Bus)
    requires AsRead(msg) && !Decodes(msg.raw)
    ensures HeaderRewritten(msg, direction, source) == Ok(msg)
  {
    hide Rewritten, DecodeFields;
  }

  lemma EditedArrayLen(m: Msg, code: byte, value: bytes)
    requires Fits(m) && Editable(m.fields, code) && FirstIndex(m.fields, code) < |m.fields|
    ensures ArrayLen(Edited(m, code, value)) <= ArrayLen(m) + |value| + 7
  {
    hide FieldArray, Before, FirstIndex, Encode, ArrayLen, PadLen;
    var m', i := Edited(m, code, value), FirstIndex(m.fields, code);
    assert m'.fields[..i] == m.fields[..i] && m'.fields[i + 1..] == m.fields[i + 1..];
    assert ValidField(m.fields[i]);
    ArrayLenParts(m, i);
    ArrayLenParts(m', i);
  }

  lemma NewNameValid(name: bytes, direction: Direction, source: Bus)
    requires ValidText(name) && |name| + 2 < TWO32 && NewName(name, direction, source).Some?
    ensures var new' := NewName(name, direction, source).value;
      ValidText(new') && |new'| <= |name| + 2
  {
    hide Utf8.Valid;
    if direction.ToClient? {
      FakeOfText(name, source);
    } else {
      var (n, b) := FromFake(name).value;
      FakeNameRoundTrip(n, b, name);
      FakeNameShape(n, b);
    }
  }

  /** A renamed message still has sizes that the wire format can carry. */
  lemma RenamedFits(m: Msg, direction: Direction, source: Bus)
    requires WithinLimits(m) && Regular(m.fields, NameCode(direction))
    ensures Fits(Renamed(m, direction, source))
  {
    hide Edited, FirstIndex, Blocked, Once, NewName, LastString, Editable, FieldArray, ValidText, ArrayLen, PadLen, WithText;
    var code := NameCode(direction);
    var name := LastString(m.fields, code);
    if name.Some? && NewName(name.value, direction, source).Some? {
      var new' := NewName(name.value, direction, source).value;
      LastStringFound(m.fields, code);
      OnceEditable(m.fields, code);
      var i := FirstIndex(m.fields, code);
      assert ValidField(m.fields[i]);
      ArrayLenParts(m, i);
      NewNameValid(name.value, direction, source);
      EditedArrayLen(m, code, new');
      EditedInPlace(m, code, new');
      EditedPad(m, code, new');
    }
  }

  lemma EditedPad(m: Msg, code: byte, value: bytes)
    requires Fits(m) && Editable(m.fields, code)
    ensures |Edited(m, code, value).pad| == PadLen(Edited(m, code, value))
  {
    var m' := Edited(m, code, value);
    PadLenFields(m.(fields := m'.fields), m');
  }

  // ----- what the client sees -----

  /** Body rewriting for the client changes the body and nothing else. */
  lemma PreparedBody(msg: Message, source: Bus, calls: map<u32, CallInfo>) returns (body: bytes)
    requires AsRead(msg) && Decodes(msg.raw) && Regular(Decode(msg.raw).fields, FIELD_SENDER)
    requires PreparedForClient(msg, source, calls).Ok?
    ensures PreparedForClient(msg, source, calls) == Ok(Encode(Renamed(Decode(msg.raw), ToClient, source).(body := body)))
  {
    hide HeaderRewritten, Encode, Renamed, Decode, Decodes, HeaderOf, Regular, Fits, NeedsResponseRewrite;
    var m' := Renamed(Decode(msg.raw), ToClient, source);
    RenamesHeader(msg, ToClient, source);
    EncodeDecode(msg.raw);
    RenamedFits(Decode(msg.raw), ToClient, source);
    var renamed := Message(HeaderFor(m'), Encode(m'), msg.fds);
    body := m'.body;
    assert m'.(body := body) == m';
    if renamed.header.kind == MethodReturn {
      body := ResponseShape(renamed, source, calls, m');
    } else if renamed.header.kind == Signal {
      body := SignalShape(renamed, source, m');
    }
  }

  lemma ResponseShape(msg: Message, source: Bus, calls: map<u32, CallInfo>, m: Msg) returns (body: bytes)
    requires Fits(m) && msg.raw == Encode(m) && msg.header.endian == m.e && ResponseBody(msg, source, calls).Ok?
    ensures ResponseBody(msg, source, calls) == Ok(Encode(m.(body := body)))
  {
    hide Encode, Fits, Rebuilt, BodyString, ParseStringArray, NeedsResponseRewrite;
    body := m.body;
    assert m.(body := body) == m;
    var bs := BodyString(msg.raw, m.e);
    var single := if bs.Ok? then TextBytes(m.e, ToFake(bs.value, source)) else [];
    var many := if |msg.raw| >= 16 then StringArray(m.e, FakeAll(ParseStringArray(msg.raw, m.e), source)) else [];
    RebuildRefines(m, single);
    RebuildRefines(m, many);
    if ResponseBody(msg, source, calls) != Ok(msg.raw) {
      body := if calls[msg.header.fields.replySerial.value].member.value == LIST_QUEUED_OWNERS then many else single;
    }
  }

  lemma SignalShape(msg: Message, source: Bus, m: Msg) returns (body: bytes)
    requires Fits(m) && msg.raw == Encode(m) && msg.header.endian == m.e && SignalBody(msg, source).Ok?
    ensures SignalBody(msg, source) == Ok(Encode(m.(body := body)))
  {
    hide Encode, Fits, Rebuilt, DecodeThree, BodyStart;
    body := m.body;
    assert m.(body := body) == m;
    if SignalBody(msg, source) != Ok(msg.raw) {
      var t := DecodeThree(m.e, msg.raw[BodyStart(msg.raw, m.e)..]).value;
      body := Texts(m.e, [t.0, ToFake(t.1, source), ToFake(t.2, source)]);
      RebuildRefines(m, body);
    }
  }

  /** An encoded message that the router would accept parses to its own header. */
  lemma WholeEncoded(m: Msg, raw: bytes)
    requires Fits(m.(body := [])) && raw == Encode(m) && Whole(raw)
    ensures WithinLimits(m) && HeaderOf(raw) == HeaderFor(m)
  {
    hide Encode, FieldArray, ReadU32, ValidFields, Front, HeaderOf, Collect, TypeOf, Decodes, Decode;
    PrologueOf(m);
    Layout(m);
    SmallRemainder(ArrayLen(m));
    PadLenFields(m.(body := []), m);
    WholePrologue(m, raw);
    HeaderOfEncoded(m);
  }

  lemma WholePrologue(m: Msg, raw: bytes)
    requires Whole(raw) && raw[0] == Marker(m.e)
    ensures var p := ParsePrologue(raw).value;
      p.endian == m.e && p.bodyLen == ReadU32(m.e, raw, 4) <= MAX_MESSAGE_SIZE && p.arrayLen == ReadU32(m.e, raw, 12) <= MAX_MESSAGE_SIZE
  {
    hide ReadU32;
  }

  /** What the client reads in a message from bus `b`: the same header, with
      the sender under the prefix of `b`. */
  lemma ClientSeesFakeSender(msg: Message, b: Bus, calls: map<u32, CallInfo>, raw: bytes)
    requires AsRead(msg) && Decodes(msg.raw) && Regular(Decode(msg.raw).fields, FIELD_SENDER)
    requires PreparedForClient(msg, b, calls) == Ok(raw) && Whole(raw)
    ensures var sender := msg.header.fields.sender;
      HeaderOf(raw).fields == msg.header.fields.(sender := if sender.None? then None else Some(ToFake(sender.value, b)))
      && HeaderOf(raw).kind == msg.header.kind && HeaderOf(raw).serial == msg.header.serial
  {
    hide HeaderRewritten, Encode, Decode, Decodes, HeaderOf, Whole, PreparedForClient, Edited, FirstIndex, Blocked, Once, Collect;
    var m := Decode(msg.raw);
    var m' := Renamed(m, ToClient, b);
    var body := PreparedBody(msg, b, calls);
    RenamesHeader(msg, ToClient, b);
    DecodedHeader(msg);
    RenamedFits(m, ToClient, b);
    FitsWithoutBody(m');
    WholeEncoded(m'.(body := body), raw);
    RenamedFields(msg, b);
  }

  lemma FitsWithoutBody(m: Msg)
    requires Fits(m)
    ensures Fits(m.(body := []))
  {
    hide ValidFields, FieldArray;
    PadLenFields(m, m.(body := []));
  }

  lemma RenamedFields(msg: Message, b: Bus)
    requires AsRead(msg) && Decodes(msg.raw) && Regular(Decode(msg.raw).fields, FIELD_SENDER)
    ensures var sender, m' := msg.header.fields.sender, Renamed(Decode(msg.raw), ToClient, b);
      |m'.body| < TWO32
      && HeaderFor(m').fields == msg.header.fields.(sender := if sender.None? then None else Some(ToFake(sender.value, b)))
      && HeaderFor(m').kind == msg.header.kind && HeaderFor(m').serial == msg.header.serial
  {
    hide HeaderRewritten, Encode, Decode, Decodes, AsRead, Regular, Renamed, HeaderFor, WithinLimits, ToFake;
    DecodedHeader(msg);
    RenamedFits(Decode(msg.raw), ToClient, b);
    RenamesHeader(msg, ToClient, b);
    SenderRewritten(msg, b);
  }

  lemma SenderRewritten(msg: Message, b: Bus)
    requires HeaderRewritten(msg, ToClient, b).Ok?
    ensures var sender := msg.header.fields.sender;
      HeaderRewritten(msg, ToClient, b).value.header == msg.header.(fields := msg.header.fields.(sender :=
        if sender.None? then None else Some(ToFake(sender.value, b))))
  {
    hide Rewritten, ToFake;
  }

  // ----- what the bus gets -----

  lemma RealNameIsNotDaemon(n: bytes)
    requires IsUnique(n)
    ensures n != DBUS
  {
    assert DBUS[0] != COLON;
  }

  /** The destination of a regular message is in one field, a string. */
  lemma OneDestination(c: Message, name: bytes)
    requires AsRead(c) && Decodes(c.raw) && Regular(Decode(c.raw).fields, FIELD_DESTINATION)
    requires c.header.fields.destination == Some(name)
    ensures var fs := Decode(c.raw).fields;
      LastString(fs, FIELD_DESTINATION) == Some(name) && Once(fs, FIELD_DESTINATION) && Editable(fs, FIELD_DESTINATION)
  {
    hide Encode, Decode, Decodes, AsRead, HeaderFor, WithinLimits, ToFake, FirstIndex, Once, Blocked, LastString, Editable, Collect;
    DecodedHeader(c);
    var fs := Decode(c.raw).fields;
    CollectNames(fs, FIELD_DESTINATION);
    HeaderForFields(Decode(c.raw));
    LastStringFound(fs, FIELD_DESTINATION);
    OnceEditable(fs, FIELD_DESTINATION);
  }

  lemma EditedIsRenamed(c: Message, n: bytes, b: Bus, target: Bus)
    requires AsRead(c) && Decodes(c.raw) && Regular(Decode(c.raw).fields, FIELD_DESTINATION)
    requires IsUnique(n) && c.header.fields.destination == Some(ToFake(n, b))
    ensures Editable(Decode(c.raw).fields, FIELD_DESTINATION)
    ensures Edited(Decode(c.raw), FIELD_DESTINATION, n) == Renamed(Decode(c.raw), ToUpstream, target)
  {
    hide Decode, Decodes, AsRead, ToFake, FromFake, Edited, FirstIndex, Once, LastString, Editable, Regular;
    OneDestination(c, ToFake(n, b));
    FakeNameRoundTrip(n, b, ToFake(n, b));
  }

  /** The renamed destination of a message to a fake name. */
  lemma DestinationRestored(c: Message, n: bytes, b: Bus, target: Bus)
    requires AsRead(c) && Decodes(c.raw) && Regular(Decode(c.raw).fields, FIELD_DESTINATION)
    requires IsUnique(n) && c.header.fields.destination == Some(ToFake(n, b))
    ensures Editable(Decode(c.raw).fields, FIELD_DESTINATION)
    ensures var m' := Edited(Decode(c.raw), FIELD_DESTINATION, n);
      |m'.body| < TWO32 && HeaderRewritten(c, ToUpstream, target) == Ok(Message(HeaderFor(m'), Encode(m'), c.fds))
      && HeaderFor(m') == c.header.(fields := c.header.fields.(destination := Some(n)))
  {
    hide Rewritten, Encode, Decode, Decodes, AsRead, HeaderFor, WithinLimits, ToFake, FromFake, Edited, FirstIndex, Once, Blocked,
      LastString, Editable, Renamed, Regular;
    DecodedHeader(c);
    EditedIsRenamed(c, n, b, target);
    FakeNameRoundTrip(n, b, ToFake(n, b));
    RenamedFits(Decode(c.raw), ToUpstream, target);
    RenamesHeader(c, ToUpstream, target);
  }

  lemma HeaderForFields(m: Msg)
    requires |m.body| < TWO32
    ensures HeaderFor(m).fields == Collect(m.fields)
  {
  }

  /** A call or signal of the client to a fake name goes to the bus of that
      name, and the bytes sent carry the real name and are otherwise those of
      the client. */
  lemma BusGetsRealName(cfg: Config, st: State, c: Message, n: bytes, b: Bus)
    requires AsRead(c) && Decodes(c.raw) && Regular(Decode(c.raw).fields, FIELD_DESTINATION)
    requires IsUnique(n) && c.header.fields.destination == Some(ToFake(n, b)) && !IsReplyToCaller(st, c)
    ensures Editable(Decode(c.raw).fields, FIELD_DESTINATION)
    ensures var r := ClientStep(cfg, false, st, c);
      r.alive && r.sent == [ToBusSent(b, Encode(Edited(Decode(c.raw), FIELD_DESTINATION, n)), c.fds)]
  {
    hide HeaderRewritten, Encode, Decode, Decodes, AsRead, HeaderFor, ToFake, Edited, Regular, Editable, FirstIndex,
      RouteDbusMethod, Tracked, IsReplyToCaller, ShouldRouteToHost;
    DestinationRestored(c, n, b, b);
    RealNameIsNotDaemon(n);
    FakeNameRoundTrip(n, b, ToFake(n, b));
    AsReadSize(c);
  }

  lemma AsReadSize(c: Message)
    requires AsRead(c)
    ensures |c.raw| >= 16
  {
  }

  /** Address round trip. A message of bus `b` with the unique sender `n`
      reaches the client with a sender that the client can use: what the
      client then addresses to it arrives on `b`, addressed to `n`. */
  lemma AddressRoundTrip(cfg: Config, st: State, msg: Message, b: Bus, calls: map<u32, CallInfo>, raw: bytes, c: Message)
    requires AsRead(msg) && Decodes(msg.raw) && Regular(Decode(msg.raw).fields, FIELD_SENDER)
    requires msg.header.fields.sender.Some? && IsUnique(msg.header.fields.sender.value)
    requires PreparedForClient(msg, b, calls) == Ok(raw) && Whole(raw)
    requires AsRead(c) && Decodes(c.raw) && Regular(Decode(c.raw).fields, FIELD_DESTINATION) && !IsReplyToCaller(st, c)
    requires c.header.fields.destination == HeaderOf(raw).fields.sender
    ensures var n := msg.header.fields.sender.value;
      Editable(Decode(c.raw).fields, FIELD_DESTINATION)
      && ClientStep(cfg, false, st, c).sent == [ToBusSent(b, Encode(Edited(Decode(c.raw), FIELD_DESTINATION, n)), c.fds)]
  {
    hide PreparedForClient, Encode, Decode, Decodes, AsRead, HeaderOf, Whole, ToFake, Edited, Regular, Editable, ClientStep, IsReplyToCaller;
    ClientSeesFakeSender(msg, b, calls, raw);
    BusGetsRealName(cfg, st, c, msg.header.fields.sender.value, b);
  }

  // ----- replies to callers -----

  /** The name under which the client knows the sender of a call into one of
      its services: only sandbox peers are presented under a fake name. */
  function CallerSeen(n: bytes, b: Bus): bytes {
    if b == Sandbox then ToFake(n, b) else n
  }

  /** A reply addressed to the caller as the client saw it is sent to the
      caller's real name - on the host bus exactly when that name does not
      itself look like a fake one. */
  lemma ReplyReachesCaller(st: State, reply: Message, n: bytes, b: Bus)
    requires AsRead(reply) && Decodes(reply.raw) && Regular(Decode(reply.raw).fields, FIELD_DESTINATION)
    requires IsReplyToCaller(st, reply) && st.incoming[reply.header.fields.replySerial.value] == b
    requires IsUnique(n) && reply.header.fields.destination == Some(CallerSeen(n, b))
    ensures Editable(Decode(reply.raw).fields, FIELD_DESTINATION)
    ensures var r := ReplyStep(st, reply);
      b == Sandbox ==> r.sent == [ToBusSent(Sandbox, Encode(Edited(Decode(reply.raw), FIELD_DESTINATION, n)), reply.fds)]
    ensures b == Host ==>
      (ReplyStep(st, reply).sent == [ToBusSent(Host, reply.raw, reply.fds)] <==> FromFake(n).None?)
  {
    hide Rewritten, Encode, Decode, Decodes, AsRead, HeaderFor, ToFake, FromFake, FirstIndex, Once, Blocked, Edited, Editable, LastString;
    if b == Sandbox {
      DestinationRestored(reply, n, b, b);
    } else {
      OneDestination(reply, n);
      if FromFake(n).Some? {
        HostReplyChanged(reply, n, b);
      }
    }
  }

  /** A caller of the host bus whose real name has a bus prefix loses it. */
  lemma HostReplyChanged(reply: Message, n: bytes, b: Bus)
    requires AsRead(reply) && Decodes(reply.raw) && Regular(Decode(reply.raw).fields, FIELD_DESTINATION)
    requires reply.header.fields.destination == Some(n) && FromFake(n).Some?
    ensures var out := HeaderRewritten(reply, ToUpstream, b);
      out.Ok? && out.value.raw != reply.raw
  {
    hide Rewritten, Encode, Decode, Decodes, AsRead, HeaderFor, FromFake;
    var (real', bus) := FromFake(n).value;
    FakeNameRoundTrip(real', bus, n);
    FakeNameShape(real', bus);
    DestinationRestored(reply, real', bus, b);
    DecodedHeader(reply);
    var m, m' := Decode(reply.raw), Edited(Decode(reply.raw), FIELD_DESTINATION, real');
    RenamedFits(m, ToUpstream, b);
    if Encode(m') == Encode(m) {
      EditedIsRenamed(reply, real', bus, b);
      EncodeInjective(m, m');
    }
  }

  /** A call into a service reaches the client as it came, except that its
      sender is the name the client knows the caller by. */
  lemma CallShown(st: State, msg: Message, n: bytes, b: Bus)
    requires AsRead(msg) && Decodes(msg.raw) && Regular(Decode(msg.raw).fields, FIELD_SENDER)
    requires msg.header.fields.sender == Some(n)
    ensures var r := ServiceCallStep(st, msg, b);
      r.alive && r.sent == [ToClientSent(if b == Host then msg.raw else Encode(Renamed(Decode(msg.raw), ToClient, b)), msg.fds)]
    ensures var raw := if b == Host then msg.raw else Encode(Renamed(Decode(msg.raw), ToClient, b));
      Whole(raw) ==>
        HeaderOf(raw).fields == msg.header.fields.(sender := Some(CallerSeen(n, b)))
        && HeaderOf(raw).serial == msg.header.serial && HeaderOf(raw).kind == msg.header.kind
  {
    hide HeaderRewritten, Encode, Decode, Decodes, HeaderOf, Whole, Regular, Renamed, Fits, ToFake, HeaderFor;
    if b == Sandbox {
      var m' := Renamed(Decode(msg.raw), ToClient, b);
      DecodedHeader(msg);
      RenamesHeader(msg, ToClient, b);
      RenamedFits(Decode(msg.raw), ToClient, b);
      RenamedFields(msg, b);
      FitsWithoutBody(m');
      if Whole(Encode(m')) {
        WholeEncoded(m', Encode(m'));
      }
    }
  }

  /** Calls whose header does not parse, and all calls from the host, come as
      they are. */
  lemma CallShownRaw(st: State, msg: Message, b: Bus)
    requires AsRead(msg) && (b == Host || !Decodes(msg.raw))
    ensures var r := ServiceCallStep(st, msg, b);
      r.alive && r.sent == [ToClientSent(msg.raw, msg.fds)] && r.st == st.(incoming := st.incoming[msg.header.serial := b])
  {
    hide HeaderRewritten, Decodes, AsRead;
    if b == Sandbox {
      UnparsedHeader(msg, ToClient, b);
    }
  }

  /** Where a message goes that the client sends, other than as a reply, to
      the caller of one of its services: to the caller's bus if and only if
      that is the sandbox bus or the configuration routes the caller's own
      name to the host. */
  lemma CallerAsDestination(cfg: Config, st: State, c: Message, n: bytes, b: Bus)
    requires AsRead(c) && !IsReplyToCaller(st, c) && IsUnique(n) && BusOfFake(n).None?
    requires c.header.fields.destination == Some(CallerSeen(n, b))
    requires Decodes(c.raw) && Regular(Decode(c.raw).fields, FIELD_DESTINATION)
    ensures Editable(Decode(c.raw).fields, FIELD_DESTINATION)
    ensures var r, bus := ClientStep(cfg, false, st, c), if b == Sandbox then Sandbox else ConfiguredBus(cfg, n);
      r.sent == [ToBusSent(bus, Encode(if b == Sandbox then Edited(Decode(c.raw), FIELD_DESTINATION, n) else Decode(c.raw)), c.fds)]
    ensures |c.raw| >= 16 && RouteRequest(cfg, false, c).Single?
      && (RouteRequest(cfg, false, c).bus == b <==> b == Sandbox || ShouldRouteToHost(cfg, n))
  {
    hide Encode, Decode, Decodes, AsRead, ToFake, Edited, Regular, Editable, FirstIndex, LastString, Once, Blocked, Collect,
      Tracked, IsReplyToCaller, ShouldRouteToHost, Rewritten, RouteDbusMethod, WithinLimits, Fits, BusOfFake;
    AsReadSize(c);
    DecodedHeader(c);
    RealNameIsNotDaemon(n);
    if b == Sandbox {
      FakeBus(n, b);
      BusGetsRealName(cfg, st, c, n, b);
    } else {
      OneDestination(c, n);
      NotFake(n);
    }
  }

  lemma NotFake(n: bytes)
    requires BusOfFake(n).None?
    ensures FromFake(n).None?
  {
  }

  /** Over any run: the answer to a call into a service of the client reaches
      the caller on its bus, under its real name, provided that the client
      addresses it to the sender it saw and that the caller's real name does
      not look like a fake one. */
  lemma CallerGetsReply(cfg: Config, hostpass: bool, evs: seq<Event>, i: nat, k: nat, n: bytes)
    requires ReadableAll(evs) && i < k < |evs| && CallAnswered(cfg, hostpass, evs, i, k)
    requires var reply := evs[k].msg;
      Decodes(reply.raw) && Regular(Decode(reply.raw).fields, FIELD_DESTINATION)
      && reply.header.fields.destination == Some(CallerSeen(n, evs[i].bus))
    requires IsUnique(n) && FromFake(n).None?
    ensures Editable(Decode(evs[k].msg.raw).fields, FIELD_DESTINATION)
    ensures var bus, reply := evs[i].bus, evs[k].msg;
      var raw := if bus == Host then reply.raw else Encode(Edited(Decode(reply.raw), FIELD_DESTINATION, n));
      SentAt(cfg, hostpass, evs, k) == [ToBusSent(bus, raw, reply.fds)]
  {
    hide Encode, Decode, Decodes, Rewritten, SentAt, At, ToFake, FromFake, Edited, Editable, Regular, TouchesIncoming, HeaderOf, Whole;
    var bus, reply := evs[i].bus, evs[k].msg;
    var serial := evs[i].msg.header.serial;
    ReplyDelivery(cfg, hostpass, evs, i, k);
    assert Readable(evs[k]);
    var st := EMPTY.(incoming := map[serial := bus]);
    ReplyReachesCaller(st, reply, n, bus);
    SentIsStep(SentAt(cfg, hostpass, evs, k), st, reply, bus);
  }

  lemma SentIsStep(sent: seq<Sent>, st: State, reply: Message, bus: Bus)
    requires IsReplyToCaller(st, reply) && st.incoming[reply.header.fields.replySerial.value] == bus
    requires RepliesTo(sent, bus, reply)
    ensures ReplyStep(st, reply).sent == sent
  {
    hide Rewritten;
  }

  // ----- names in bodies -----

  /** `msg` is a return from bus `b` for a pending call of this method. */
  predicate ReturnFor(msg: Message, b: Bus, calls: map<u32, CallInfo>, member: bytes) {
    msg.header.kind == MethodReturn && msg.header.fields.replySerial.Some?
    && msg.header.fields.replySerial.value in calls
    && calls[msg.header.fields.replySerial.value] == CallInfo(b, Some(member))
  }

  lemma ReturnMembers()
    ensures HELLO != LIST_QUEUED_OWNERS && GET_NAME_OWNER != LIST_QUEUED_OWNERS
    ensures |DBUS| == 20 && |HELLO| == 5 && |LIST_QUEUED_OWNERS| == 16
  {
    assert |HELLO| == 5 && |LIST_QUEUED_OWNERS| == 16 && |GET_NAME_OWNER| == 12;
  }

  /** The reply to Hello or GetNameOwner presents the name it carries under
      the prefix of its bus. */
  lemma NameInReply(msg: Message, b: Bus, calls: map<u32, CallInfo>, member: bytes, n: bytes)
    requires AsRead(msg) && Decodes(msg.raw) && Regular(Decode(msg.raw).fields, FIELD_SENDER)
    requires ReturnFor(msg, b, calls, member) && (member == HELLO || member == GET_NAME_OWNER)
    requires ValidText(n) && |n| < TWO32 && Decode(msg.raw).body == TextBytes(msg.header.endian, n)
    ensures var m' := Renamed(Decode(msg.raw), ToClient, b);
      PreparedForClient(msg, b, calls) == Ok(Encode(m'.(body := TextBytes(m'.e, ToFake(n, b)))))
  {
    hide HeaderRewritten, Encode, Decode, Decodes, AsRead, Regular, ToFake, ValidText, TextBytes, SingleNameResponse, StringArrayResponse, Fits;
    ReturnMembers();
    DecodedHeader(msg);
    RenamesHeader(msg, ToClient, b);
    RenamedFits(Decode(msg.raw), ToClient, b);
    RenamedKeeps(Decode(msg.raw), ToClient, b);
    RenamedReplySerial(msg, b);
    SingleNameRewrites(Renamed(Decode(msg.raw), ToClient, b), n, b);
  }

  lemma RenamedKeeps(m: Msg, direction: Direction, b: Bus)
    ensures var m' := Renamed(m, direction, b);
      m'.e == m.e && m'.body == m.body && m'.kind == m.kind && m'.serial == m.serial
  {
  }

  lemma RenamedReplySerial(msg: Message, b: Bus)
    requires AsRead(msg) && Decodes(msg.raw) && Regular(Decode(msg.raw).fields, FIELD_SENDER)
    ensures var m' := Renamed(Decode(msg.raw), ToClient, b);
      |m'.body| < TWO32 && HeaderFor(m').fields.replySerial == msg.header.fields.replySerial
      && HeaderFor(m').kind == msg.header.kind && HeaderFor(m').endian == m'.e == msg.header.endian
  {
    hide HeaderRewritten, Encode, Decode, Decodes, AsRead, Regular, Renamed, WithinLimits, Collect;
    RenamedFields(msg, b);
    DecodedHeader(msg);
    RenamedKeeps(Decode(msg.raw), ToClient, b);
  }

  /** Over any run: the bus's answer to a Hello or GetNameOwner call of the
      client reaches it with the name under the prefix of that bus, whatever
      happens between. */
  lemma NameReturned(cfg: Config, hostpass: bool, evs: seq<Event>, i: nat, k: nat, n: bytes)
    requires ReadableAll(evs) && i < k < |evs| && OwnCallReturned(cfg, hostpass, evs, i, k)
    requires evs[i].msg.header.fields.member == Some(HELLO) || evs[i].msg.header.fields.member == Some(GET_NAME_OWNER)
    requires var msg := evs[k].msg;
      Decodes(msg.raw) && Regular(Decode(msg.raw).fields, FIELD_SENDER)
      && ValidText(n) && |n| < TWO32 && Decode(msg.raw).body == TextBytes(msg.header.endian, n)
    ensures var msg, b := evs[k].msg, evs[k].bus;
      var m' := Renamed(Decode(msg.raw), ToClient, b);
      SentAt(cfg, hostpass, evs, k) == [ToClientSent(Encode(m'.(body := TextBytes(m'.e, ToFake(n, b)))), msg.fds)]
  {
    hide Run, At, SentAt, PreparedForClient, Encode, Decode, Decodes, Regular, Renamed, ToFake, ValidText, TextBytes, RouteRequest, HeaderOf;
    ReturnKnown(cfg, hostpass, evs, i, k);
    assert Readable(evs[k]);
    NameInReply(evs[k].msg, evs[k].bus, At(cfg, hostpass, evs, k).st.calls, evs[i].msg.header.fields.member.value, n);
  }

  /** The reply to ListQueuedOwners presents every name under the prefix of its bus. */
  lemma NamesInReply(msg: Message, b: Bus, calls: map<u32, CallInfo>, names: seq<bytes>)
    requires AsRead(msg) && Decodes(msg.raw) && Regular(Decode(msg.raw).fields, FIELD_SENDER)
    requires ReturnFor(msg, b, calls, LIST_QUEUED_OWNERS)
    requires ValidNames(names) && |Texts(msg.header.endian, names)| < TWO32
    requires Decode(msg.raw).body == StringArray(msg.header.endian, names)
    ensures var m' := Renamed(Decode(msg.raw), ToClient, b);
      PreparedForClient(msg, b, calls) == Ok(Encode(m'.(body := StringArray(m'.e, FakeAll(names, b)))))
  {
    hide HeaderRewritten, Encode, Decode, Decodes, AsRead, Regular, ToFake, ValidNames, StringArray, Texts, Fits, ResponseBody, Renamed,
      FakeAll, HeaderFor, WithinLimits;
    var m' := Renamed(Decode(msg.raw), ToClient, b);
    DecodedHeader(msg);
    RenamesHeader(msg, ToClient, b);
    RenamedFits(Decode(msg.raw), ToClient, b);
    RenamedKeeps(Decode(msg.raw), ToClient, b);
    RenamedReplySerial(msg, b);
    StringArrayRewrites(m', names, b);
    OwnersBody(Message(HeaderFor(m'), Encode(m'), msg.fds), b, calls);
  }

  lemma OwnersBody(msg: Message, b: Bus, calls: map<u32, CallInfo>)
    requires ReturnFor(msg, b, calls, LIST_QUEUED_OWNERS)
    ensures StringArrayResponse(msg.raw, msg.header.endian, b).Ok? ==>
      ResponseBody(msg, b, calls) == StringArrayResponse(msg.raw, msg.header.endian, b)
  {
    hide StringArrayResponse, SingleNameResponse;
    ReturnMembers();
  }

  /** NameOwnerChanged presents the old and the new owner under the prefix of
      its bus; the name that changed hands stays. */
  lemma OwnersInSignal(msg: Message, b: Bus, calls: map<u32, CallInfo>, name: bytes, was: bytes, now: bytes)
    requires AsRead(msg) && Decodes(msg.raw) && Regular(Decode(msg.raw).fields, FIELD_SENDER)
    requires msg.header.kind == Signal && msg.header.fields.member == Some(NAME_OWNER_CHANGED)
    requires ValidNames([name, was, now]) && Decode(msg.raw).body == Texts(msg.header.endian, [name, was, now])
    ensures var m' := Renamed(Decode(msg.raw), ToClient, b);
      PreparedForClient(msg, b, calls) == Ok(Encode(m'.(body := Texts(m'.e, [name, ToFake(was, b), ToFake(now, b)]))))
  {
    hide HeaderRewritten, Encode, Decode, Decodes, AsRead, Regular, ToFake, ValidNames, Texts, NameOwnerChanged, Fits, ResponseBody;
    DecodedHeader(msg);
    RenamesHeader(msg, ToClient, b);
    RenamedFits(Decode(msg.raw), ToClient, b);
    RenamedKeeps(Decode(msg.raw), ToClient, b);
    RenamedReplySerial(msg, b);
    RenamedFields(msg, b);
    NameOwnerChangedRewrites(Renamed(Decode(msg.raw), ToClient, b), name, was, now, b);
  }

  /** A name under the prefix of a bus, passed to a query whose argument is
      rewritten, is sent as the real name; and to the bus of that name, if the
      query names the interface of the bus daemon. */
  lemma NameAsArgument(cfg: Config, st: State, c: Message, member: bytes, n: bytes, b: Bus)
    requires AsRead(c) && Decodes(c.raw) && !IsReplyToCaller(st, c)
    requires c.header.fields.destination == Some(DBUS) && c.header.fields.member == Some(member) && NeedsRequestRewrite(member)
    requires IsUnique(n) && ValidText(n) && |n| + 2 < TWO32
    requires Decode(c.raw).body == TextBytes(c.header.endian, ToFake(n, b))
    ensures var m := Decode(c.raw);
      ClientStep(cfg, false, st, c).sent == [ToBusSent(DaemonRoute(cfg, c, b), Encode(m.(body := TextBytes(m.e, n))), c.fds)]
  {
    hide Encode, Decode, Decodes, AsRead, ToFake, FromFake, ValidText, TextBytes, UniqueNameRequest, ExtractName, Rewritten,
      MatchRuleBody, Tracked, IsReplyToCaller, FindMethodSpec, ShouldRouteToHost, BusOfFake, NeedsRequestRewrite;
    AsReadSize(c);
    DaemonKeepsName(c, b);
    DaemonKeepsName(c, DaemonRoute(cfg, c, b));
    QueryRouting(cfg, c, member, n, b);
    QueryBody(c, n, b);
  }

  /** Which calls bring a fake name to its bus as the real one: those of the
      seven methods whose argument is rewritten, if they name the interface of
      the bus daemon or the daemon itself is routed to that bus. The argument
      of any other method stays as the client wrote it. */
  lemma NameArrives(cfg: Config, st: State, c: Message, member: bytes, n: bytes, b: Bus)
    requires AsRead(c) && Decodes(c.raw) && !IsReplyToCaller(st, c)
    requires c.header.fields.destination == Some(DBUS) && c.header.fields.member == Some(member) && !IsMatchRuleMember(member)
    requires IsUnique(n) && ValidText(n) && |n| + 2 < TWO32
    requires Decode(c.raw).body == TextBytes(c.header.endian, ToFake(n, b))
    ensures var m := Decode(c.raw);
      ClientStep(cfg, false, st, c).sent == [ToBusSent(b, Encode(m.(body := TextBytes(m.e, n))), c.fds)]
      <==> NeedsRequestRewrite(member) && DaemonRoute(cfg, c, b) == b
    ensures !NeedsRequestRewrite(member) ==>
      forall i :: 0 <= i < |ClientStep(cfg, false, st, c).sent| ==> ClientStep(cfg, false, st, c).sent[i].raw == c.raw
  {
    hide Encode, Decode, Decodes, AsRead, ToFake, FromFake, ValidText, TextBytes, ExtractName, Rewritten, WithinLimits, Fits,
      Tracked, IsReplyToCaller, RouteRequest, ShouldRouteToHost, BusOfFake, NeedsRequestRewrite, IsMatchRuleMember, PadLen;
    if NeedsRequestRewrite(member) {
      NameAsArgument(cfg, st, c, member, n, b);
    } else {
      AsReadSize(c);
      DaemonKeepsName(c, Host);
      DaemonKeepsName(c, Sandbox);
      DecodedHeader(c);
      ShorterBody(Decode(c.raw), n, b);
    }
  }

  lemma ShorterBody(m: Msg, n: bytes, b: Bus)
    requires Fits(m) && IsUnique(n) && m.body == TextBytes(m.e, ToFake(n, b))
    ensures Encode(m) != Encode(m.(body := TextBytes(m.e, n)))
  {
    hide Encode, FieldArray, ToFake, Utf8.Valid;
    FakeNameShape(n, b);
    PadLenFields(m, m.(body := TextBytes(m.e, n)));
    EncodedLength(m);
    EncodedLength(m.(body := TextBytes(m.e, n)));
  }

  /** Messages to the bus daemon are not readdressed. */
  lemma DaemonKeepsName(c: Message, target: Bus)
    requires c.header.fields.destination == Some(DBUS)
    ensures HeaderRewritten(c, ToUpstream, target) == Ok(c)
  {
    DaemonIsNotFake();
  }

  lemma QueryRouting(cfg: Config, c: Message, member: bytes, n: bytes, b: Bus)
    requires AsRead(c) && Decodes(c.raw) && |c.raw| >= 16
    requires c.header.fields.destination == Some(DBUS) && c.header.fields.member == Some(member) && NeedsRequestRewrite(member)
    requires IsUnique(n) && ValidText(n) && |n| + 2 < TWO32
    requires Decode(c.raw).body == TextBytes(c.header.endian, ToFake(n, b))
    ensures RouteRequest(cfg, false, c) == Single(DaemonRoute(cfg, c, b))
  {
    hide Encode, Decode, Decodes, AsRead, ToFake, TextBytes, ExtractName, FindMethodSpec, ShouldRouteToHost, BusOfFake, Utf8.Valid;
    if c.header.fields.iface != Some(DBUS) {
      WithoutInterface(cfg, c);
    } else {
      MembersDistinct(member);
      DaemonIsNotFake();
      DecodedHeader(c);
      FakeOfText(n, b);
      FakeBus(n, b);
      var m := Decode(c.raw);
      assert m.body == TextBytes(m.e, ToFake(n, b)) + [];
      BodyStringOf(m, ToFake(n, b), []);
    }
  }

  lemma FakeBus(n: bytes, b: Bus)
    requires IsUnique(n)
    ensures BusOfFake(ToFake(n, b)) == Some(b)
  {
    FakeNameRoundTrip(n, b, ToFake(n, b));
  }

  lemma QueryBody(c: Message, n: bytes, b: Bus)
    requires AsRead(c) && Decodes(c.raw) && IsUnique(n) && ValidText(n) && |n| + 2 < TWO32
    requires Decode(c.raw).body == TextBytes(c.header.endian, ToFake(n, b))
    ensures var m := Decode(c.raw);
      UniqueNameRequest(c.raw, c.header.endian) == Ok(Encode(m.(body := TextBytes(m.e, n))))
  {
    hide Encode, Decode, Decodes, AsRead, ToFake, FromFake, TextBytes, UniqueNameRequest, ValidText;
    DecodedHeader(c);
    FakeOfText(n, b);
    FakeNameRoundTrip(n, b, ToFake(n, b));
    UniqueNameRestores(Decode(c.raw), ToFake(n, b));
  }

  // ----- merged listings -----

  /** The reply to a merged listing is well formed: it answers the request it
      was asked with, and the client reads exactly the merged names. */
  lemma MergedReplyReadable(request: Message, a: Event, b: Event)
    requires Readable(a) && Readable(b) && a.FromBus? && b.FromBus?
    requires 4 + |Texts(request.header.endian, Merged(NamesOf(a), NamesOf(b)))| <= MAX_MESSAGE_SIZE
    ensures RepliesWith(ListNamesReply(request, Merged(NamesOf(a), NamesOf(b))), request.header.endian, request.header.serial,
                        Merged(NamesOf(a), NamesOf(b)))
  {
    hide ParseStringArray, Merged, Texts, ListNamesReply, RepliesWith;
    AsReadLength(a.msg);
    AsReadLength(b.msg);
    ParsedNamesShort(a.msg.raw, a.msg.header.endian);
    ParsedNamesShort(b.msg.raw, b.msg.header.endian);
    MergedNamesValid(NamesOf(a), NamesOf(b), if |a.msg.raw| < |b.msg.raw| then |b.msg.raw| else |a.msg.raw|);
    ListNamesReplyReadsBack(request, Merged(NamesOf(a), NamesOf(b)));
  }

  lemma AsReadLength(c: Message)
    requires AsRead(c)
    ensures 16 <= |c.raw| <= 2 * MAX_MESSAGE_SIZE + 24
  {
    hide HeaderOf, ReadU32;
  }
}
