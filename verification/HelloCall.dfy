/** The Hello call that the router makes on the host bus for its client (src/session.rs). */
module HelloCall {
  import opened Wire
  import Utf8
  import opened Message
  import opened MessageProofs
  import opened HeaderRewriteProofs
  import opened HeaderEdits
  import opened BodyProofs
  import opened Routing
  import opened SessionSpec

  const DAEMON_PATH: bytes := Ascii("/org/freedesktop/DBus")

  function TextOf(code: byte, kind: byte, s: bytes): Field { Field(code, Plain(Text(kind, s))) }

  function HelloMsg(): Msg {
    var fields := [TextOf(FIELD_PATH, CODE_O, DAEMON_PATH), TextOf(FIELD_INTERFACE, CODE_S, DBUS),
                   TextOf(FIELD_MEMBER, CODE_S, HELLO), TextOf(FIELD_DESTINATION, CODE_S, DBUS)];
    Msg(Little, 1, 0, 1, fields, Zeros(Pad(16 + |FieldArray(Little, fields)|, 8)), [])
  }

  method BuildHelloCall() returns (msg: bytes)
    ensures msg == Encode(HelloMsg())
  {
    hide U32, FieldArray, Zeros;
    var fields := [TextOf(FIELD_PATH, CODE_O, DAEMON_PATH), TextOf(FIELD_INTERFACE, CODE_S, DBUS),
                   TextOf(FIELD_MEMBER, CODE_S, HELLO), TextOf(FIELD_DESTINATION, CODE_S, DBUS)];
    var fieldsEncoded := FieldArray(Little, fields);
    var padding := Pad(16 + |fieldsEncoded|, 8);
    msg := [Marker(Little), 1, 0, 1];
    msg := msg + U32(Little, 0);
    msg := msg + U32(Little, 1);
    msg := msg + (U32(Little, |fieldsEncoded|) + fieldsEncoded);
    msg := msg + Zeros(padding);
    assert msg == Encode(HelloMsg());
  }

  lemma AsciiText(s: bytes)
    requires forall i :: 0 <= i < |s| ==> 0 < s[i] < 0x80
    ensures ValidText(s)
  {
    assert s + [] == s;
    Utf8.AsciiInFront(s, []);
    EmptyIsValid();
  }

  lemma HelloFields()
    ensures ValidFields(HelloMsg().fields)
    ensures Collect(HelloMsg().fields) ==
      NO_FIELDS.(path := Some(DAEMON_PATH), iface := Some(DBUS), member := Some(HELLO), destination := Some(DBUS))
  {
    hide FieldArray, Utf8.Valid;
    AsciiText(DAEMON_PATH);
    AsciiText(DBUS);
    AsciiText(HELLO);
    var fs := HelloMsg().fields;
    assert fs[..3][..2] == fs[..2] && fs[..2][..1] == fs[..1] && fs[..1][..0] == [];
    assert Collect(fs[..1]) == Assign(NO_FIELDS, fs[0]);
    assert Collect(fs[..2]) == Assign(Collect(fs[..1]), fs[1]);
    assert Collect(fs[..3]) == Assign(Collect(fs[..2]), fs[2]);
  }

  /** Length of an array that starts with a string field. */
  lemma TextInFrontLength(code: byte, kind: byte, s: bytes, rest: seq<Field>)
    requires IsText(kind)
    ensures var fs := [TextOf(code, kind, s)] + rest;
      |FieldArray(Little, fs)| == if |rest| == 0 then |s| + 9 else Align(|s| + 9, 8) + |FieldArray(Little, rest)|
  {
    hide FieldBytes, FieldArray, TextBytes, Pad;
    var f := TextOf(code, kind, s);
    TextFieldBytes(Little, f);
    FieldArrayCons(Little, f, rest);
    assert |rest| == 0 ==> [f] + rest == [f];
  }

  lemma NameLengths()
    ensures |DAEMON_PATH| == 21 && |DBUS| == 20 && |HELLO| == 5
    ensures Align(30, 8) == Align(29, 8) == 32 && Align(14, 8) == 16
  {
  }

  lemma HelloLength()
    ensures ArrayLen(HelloMsg()) == 109
  {
    hide FieldArray, FieldBytes, TextOf, Align, Pad;
    var fs := HelloMsg().fields;
    NameLengths();
    TextInFrontLength(FIELD_PATH, CODE_O, DAEMON_PATH, fs[1..]);
    TextInFrontLength(FIELD_INTERFACE, CODE_S, DBUS, fs[2..]);
    TextInFrontLength(FIELD_MEMBER, CODE_S, HELLO, fs[3..]);
    TextInFrontLength(FIELD_DESTINATION, CODE_S, DBUS, []);
    assert fs == [fs[0]] + fs[1..] && fs[1..] == [fs[1]] + fs[2..] && fs[2..] == [fs[2]] + fs[3..] && fs[3..] == [fs[3]] + [];
  }

  /** The bus reads the call as a method call `Hello` of its own interface,
      with serial 1 and no body, in 128 bytes. */
  lemma HelloReadsBack()
    ensures var raw := Encode(HelloMsg());
      Whole(raw) && |raw| == 128
      && HeaderOf(raw) == Header(Little, MethodCall, 0, 1, 0,
        NO_FIELDS.(path := Some(DAEMON_PATH), iface := Some(DBUS), member := Some(HELLO), destination := Some(DBUS)))
  {
    hide Encode, FieldArray, Whole, Decodes, Decode, ValidFields, Collect;
    HelloFields();
    HelloLength();
    HeaderOfEncoded(HelloMsg());
    EncodedLength(HelloMsg());
  }
}
