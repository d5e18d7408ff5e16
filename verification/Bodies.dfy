/** Editing and building message bodies (src/dbus/daemon.rs). */
module Bodies {
  import opened Wire
  import Utf8
  import opened Message
  import opened FakeNames
  import opened MatchRules

  // ----- rebuilding -----

  function BodyStart(raw: bytes, e: Endian): nat
    requires |raw| >= 16
  {
    Align(16 + ReadU32(e, raw, 12), 8)
  }

  /** The effect of `rebuild_message_with_body`. */
  function Rebuilt(raw: bytes, e: Endian, body: bytes): Outcome<bytes> {
    if |raw| < 16 || BodyStart(raw, e) > |raw| then Panic else
    Ok(raw[..4] + U32(e, |body|) + raw[8..BodyStart(raw, e)] + body)
  }

  // ----- a string in front of the body -----

  /** The first string of the body as the daemon rewriters read it. Err when
      there is no body or the string runs past the end. */
  function BodyString(raw: bytes, e: Endian): Outcome<bytes> {
    if |raw| < 16 then Panic else
    var start := BodyStart(raw, e);
    if start >= |raw| then Err else
    if start + 4 > |raw| then Panic else
    var end := start + 4 + ReadU32(e, raw, start);
    if end > |raw| then Err else Ok(Utf8.Lossy(raw[start + 4..end]))
  }

  /** The first string of the body as routing reads it. */
  function ExtractName(raw: bytes, e: Endian): Option<bytes>
    requires |raw| >= 16
  {
    var start := BodyStart(raw, e);
    if start + 4 > |raw| then None else
    var end := start + 4 + ReadU32(e, raw, start);
    if end > |raw| || !Utf8.Valid(raw[start + 4..end]) then None else Some(raw[start + 4..end])
  }

  /** Replies that carry one name: Hello and GetNameOwner. */
  function SingleNameResponse(raw: bytes, e: Endian, source: Bus): Outcome<bytes> {
    match BodyString(raw, e)
    case Panic => Panic
    case Err => Ok(raw)
    case Ok(name) => if !IsUnique(name) then Ok(raw) else Rebuilt(raw, e, TextBytes(e, ToFake(name, source)))
  }

  /** Requests that name a connection: the prefix is removed. */
  function UniqueNameRequest(raw: bytes, e: Endian): Outcome<bytes> {
    match BodyString(raw, e)
    case Panic => Panic
    case Err => Err
    case Ok(name) =>
      if FromFake(name).None? then Ok(raw) else Rebuilt(raw, e, TextBytes(e, FromFake(name).value.0))
  }

  /** AddMatch and RemoveMatch: the sender of the rule loses its prefix. */
  function MatchRuleBody(raw: bytes, e: Endian): Outcome<bytes> {
    match BodyString(raw, e)
    case Panic => Panic
    case Err => Ok(raw)
    case Ok(rule) =>
      var sender := FirstSender(Split(rule, COMMA));
      if sender.None? || FromFake(sender.value).None? then Ok(raw)
      else Rebuilt(raw, e, TextBytes(e, RewriteMatchRuleSender(rule, sender.value, FromFake(sender.value).value.0)))
  }

  // ----- several strings -----

  function TextItems(e: Endian, names: seq<bytes>): (r: seq<bytes>)
    ensures |r| == |names|
  {
    if |names| == 0 then [] else [TextBytes(e, names[0])] + TextItems(e, names[1..])
  }

  /** Strings one after the other, each on a 4-byte boundary. */
  function Texts(e: Endian, names: seq<bytes>): bytes { Join(TextItems(e, names), 4) }

  /** An array of strings, `as`. */
  function StringArray(e: Endian, names: seq<bytes>): bytes {
    U32(e, |Texts(e, names)|) + Texts(e, names)
  }

  function DecodeTexts(e: Endian, bs: bytes, at: nat): Option<seq<bytes>>
    requires at < |bs|
    decreases |bs| - at
  {
    var r := DecodeText(e, bs, at);
    if r.None? then None
    else if r.value.1 == |bs| then Some([r.value.0])
    else
      var next := Align(r.value.1, 4);
      if next <= at || next >= |bs| || !AllZero(bs[r.value.1..next]) then None else
      var rest := DecodeTexts(e, bs, next);
      if rest.None? then None else Some([r.value.0] + rest.value)
  }

  function DecodeStringArray(e: Endian, bs: bytes): Option<seq<bytes>> {
    if |bs| < 4 || 4 + ReadU32(e, bs, 0) > |bs| then None
    else if ReadU32(e, bs, 0) == 0 then Some([])
    else DecodeTexts(e, bs[4..4 + ReadU32(e, bs, 0)], 0)
  }

  /** The names in a ListNames reply; none when the body does not parse. */
  function ParseStringArray(raw: bytes, e: Endian): seq<bytes>
    requires |raw| >= 16
  {
    var start := BodyStart(raw, e);
    if start >= |raw| then [] else
    var names := DecodeStringArray(e, raw[start..]);
    if names.None? then [] else names.value
  }

  function FakeAll(names: seq<bytes>, source: Bus): (r: seq<bytes>)
    ensures |r| == |names| && forall i :: 0 <= i < |names| ==> r[i] == ToFake(names[i], source)
  {
    if |names| == 0 then [] else [ToFake(names[0], source)] + FakeAll(names[1..], source)
  }

  /** ListQueuedOwners replies: every unique name gets the prefix. */
  function StringArrayResponse(raw: bytes, e: Endian, source: Bus): Outcome<bytes> {
    if |raw| < 16 then Panic else
    var names := ParseStringArray(raw, e);
    if |names| == 0 then Ok(raw) else Rebuilt(raw, e, StringArray(e, FakeAll(names, source)))
  }

  /** The text at the next 4-byte boundary. */
  function NextText(e: Endian, bs: bytes, at: nat): Option<(bytes, nat)> {
    var start := Align(at, 4);
    if at > |bs| || start > |bs| || !AllZero(bs[at..start]) then None else DecodeText(e, bs, start)
  }

  function DecodeThree(e: Endian, bs: bytes): Option<(bytes, bytes, bytes)> {
    var a := NextText(e, bs, 0);
    if a.None? then None else
    var b := NextText(e, bs, a.value.1);
    if b.None? then None else
    var c := NextText(e, bs, b.value.1);
    if c.None? then None else Some((a.value.0, b.value.0, c.value.0))
  }

  /** NameOwnerChanged: the old and the new owner get the prefix, the name does not. */
  function NameOwnerChanged(raw: bytes, e: Endian, source: Bus): Outcome<bytes> {
    if |raw| < 16 then Panic else
    var start := BodyStart(raw, e);
    if start >= |raw| then Ok(raw) else
    var t := DecodeThree(e, raw[start..]);
    if t.None? then Ok(raw)
    else Rebuilt(raw, e, Texts(e, [t.value.0, ToFake(t.value.1, source), ToFake(t.value.2, source)]))
  }

  // ----- merging ListNames replies -----

  /** The names, each only where it occurs first. */
  function Dedup(names: seq<bytes>): seq<bytes> {
    if |names| == 0 then [] else
    var init, last := names[..|names| - 1], names[|names| - 1];
    if last in init then Dedup(init) else Dedup(init) + [last]
  }

  function Merged(host: seq<bytes>, sandbox: seq<bytes>): seq<bytes> {
    Dedup(FakeAll(sandbox, Sandbox) + FakeAll(host, Host))
  }

  lemma {:induction false} DedupMembers(names: seq<bytes>, x: bytes)
    ensures x in Dedup(names) <==> x in names
    decreases |names|
  {
    if |names| > 0 {
      var init, last := names[..|names| - 1], names[|names| - 1];
      assert names == init + [last];
      DedupMembers(init, x);
    }
  }

  lemma DedupStep(names: seq<bytes>, key: bytes)
    ensures Dedup(names + [key]) == if key in Dedup(names) then Dedup(names) else Dedup(names) + [key]
  {
    assert (names + [key])[..|names|] == names;
    DedupMembers(names, key);
  }

  lemma DedupNone()
    ensures Dedup([]) == []
  {
  }

  /** The key under which a name is merged is its fake name. */
  lemma MergeKey(name: bytes, bus: Bus)
    ensures (if IsUnique(name) then ToFake(name, bus) else name) == ToFake(name, bus)
  {
  }

  method MergeListNames(hostNames: seq<bytes>, sandboxNames: seq<bytes>) returns (result: seq<bytes>)
    ensures result == Merged(hostNames, sandboxNames)
  {
    hide Dedup, ToFake, IsUnique;
    var seen: set<bytes> := {};
    result := [];
    ghost var fakes, more := FakeAll(sandboxNames, Sandbox), FakeAll(hostNames, Host);
    DedupNone();
    for i := 0 to |sandboxNames|
      invariant result == Dedup(fakes[..i])
      invariant forall x :: x in seen <==> x in result
    {
      var name := sandboxNames[i];
      var key := if IsUnique(name) then ToFake(name, Sandbox) else name;
      MergeKey(name, Sandbox);
      assert fakes[..i + 1] == fakes[..i] + [key];
      DedupStep(fakes[..i], key);
      if key !in seen {
        seen, result := seen + {key}, result + [key];
      }
    }
    assert fakes[..|sandboxNames|] == fakes && fakes + more[..0] == fakes;
    for i := 0 to |hostNames|
      invariant result == Dedup(fakes + more[..i])
      invariant forall x :: x in seen <==> x in result
    {
      var name := hostNames[i];
      var key := if IsUnique(name) then ToFake(name, Host) else name;
      MergeKey(name, Host);
      assert fakes + more[..i + 1] == (fakes + more[..i]) + [key];
      DedupStep(fakes + more[..i], key);
      if key !in seen {
        seen, result := seen + {key}, result + [key];
      }
    }
    assert more[..|hostNames|] == more;
  }

  // ----- building replies -----

  /** A method return with the fields that `build_method_return` writes. */
  function MethodReturnMsg(e: Endian, serial: u32, body: bytes, signature: Option<bytes>): Msg {
    var fields := [Field(FIELD_REPLY_SERIAL, Plain(Word(CODE_U, serial)))]
      + (if signature.None? then [] else [Field(FIELD_SIGNATURE, Plain(Signature(signature.value)))]);
    Msg(e, 2, 1, (serial + 1000000) % TWO32, fields, Zeros(Pad(16 + |FieldArray(e, fields)|, 8)), body)
  }

  method BuildMethodReturn(request: Message, body: bytes, signature: Option<bytes>) returns (msg: bytes)
    ensures msg == Encode(MethodReturnMsg(request.header.endian, request.header.serial, body, signature))
  {
    hide U32, FieldArray, Zeros;
    var e := request.header.endian;
    var fields := [Field(FIELD_REPLY_SERIAL, Plain(Word(CODE_U, request.header.serial)))];
    if signature.Some? {
      fields := fields + [Field(FIELD_SIGNATURE, Plain(Signature(signature.value)))];
    }
    var fieldsEncoded := FieldArray(e, fields);
    var padding := Pad(16 + |fieldsEncoded|, 8);
    msg := [Marker(e)];
    msg := msg + [2];
    msg := msg + [1];
    msg := msg + [1];
    msg := msg + U32(e, |body|);
    var serial := (request.header.serial + 1000000) % TWO32;
    msg := msg + U32(e, serial);
    msg := msg + (U32(e, |fieldsEncoded|) + fieldsEncoded);
    msg := msg + Zeros(padding);
    msg := msg + body;
    ghost var m := MethodReturnMsg(e, request.header.serial, body, signature);
    assert m.fields == fields;
    assert [Marker(e)] + [2] + [1] + [1] == [Marker(m.e), m.kind, m.flags, 1];
  }

  function ListNamesReply(request: Message, names: seq<bytes>): bytes {
    Encode(MethodReturnMsg(request.header.endian, request.header.serial,
      StringArray(request.header.endian, names), Some(Ascii("as"))))
  }

  method BuildListNamesResponse(request: Message, names: seq<bytes>) returns (msg: bytes)
    ensures msg == ListNamesReply(request, names)
  {
    hide Encode, MethodReturnMsg, StringArray;
    var body := StringArray(request.header.endian, names);
    msg := BuildMethodReturn(request, body, Some(Ascii("as")));
  }
}
