/** D-Bus messages: the abstract message, its encoding, and the parsing that
    src/dbus/message.rs does on received bytes. */
module Message {
  import opened Wire
  import Utf8

  const MAX_MESSAGE_SIZE := 64 * 1024 * 1024
  const MIN_HEADER_SIZE := 16

  // Type codes, as in signatures.
  const CODE_A: byte := 97
  const CODE_B: byte := 98
  const CODE_D: byte := 100
  const CODE_G: byte := 103
  const CODE_H: byte := 104
  const CODE_I: byte := 105
  const CODE_N: byte := 110
  const CODE_O: byte := 111
  const CODE_Q: byte := 113
  const CODE_S: byte := 115
  const CODE_T: byte := 116
  const CODE_U: byte := 117
  const CODE_V: byte := 118
  const CODE_X: byte := 120
  const CODE_Y: byte := 121
  const CODE_STRUCT: byte := 40
  const CODE_DICT: byte := 123

  // Header field codes.
  const FIELD_PATH: byte := 1
  const FIELD_INTERFACE: byte := 2
  const FIELD_MEMBER: byte := 3
  const FIELD_REPLY_SERIAL: byte := 5
  const FIELD_DESTINATION: byte := 6
  const FIELD_SENDER: byte := 7
  const FIELD_SIGNATURE: byte := 8
  const FIELD_UNIX_FDS: byte := 9

  // ----- header field values -----

  /** A value of a basic type. `Word` is any four-byte code, `Fixed` the other
      codes of fixed size. */
  datatype Basic =
    | Text(code: byte, s: bytes)
    | Signature(s: bytes)
    | Word(code: byte, n: u32)
    | Fixed(code: byte, data: bytes)

  datatype Value = Plain(b: Basic) | Variant(b: Basic)
  datatype Field = Field(code: byte, value: Value)

  predicate IsText(code: byte) { code == CODE_S || code == CODE_O }
  predicate IsWord(code: byte) { code == CODE_U || code == CODE_I || code == CODE_B || code == CODE_H }
  predicate IsHalf(code: byte) { code == CODE_N || code == CODE_Q }
  predicate IsWide(code: byte) { code == CODE_X || code == CODE_T || code == CODE_D }

  function FixedSize(code: byte): nat {
    if IsHalf(code) then 2 else if IsWide(code) then 8 else if code == CODE_Y then 1 else 0
  }

  function CodeOf(b: Basic): byte {
    match b
    case Signature(_) => CODE_G
    case Text(code, _) => code
    case Word(code, _) => code
    case Fixed(code, _) => code
  }

  /** Alignment of a value, from the first code of its signature. */
  function ValueAlign(code: byte): alignment {
    if IsText(code) || IsWord(code) || code == CODE_A then 4
    else if IsHalf(code) then 2
    else if IsWide(code) || code == CODE_STRUCT || code == CODE_DICT then 8
    else 1
  }

  predicate ValidText(s: bytes) { 0 !in s && Utf8.Valid(s) }

  predicate ValidBasic(b: Basic) {
    match b
    case Text(code, s) => IsText(code) && ValidText(s) && |s| < TWO32
    case Signature(s) => ValidText(s) && |s| < 256
    case Word(code, _) => IsWord(code)
    case Fixed(code, data) => FixedSize(code) > 0 && |data| == FixedSize(code)
  }

  predicate ValidField(f: Field) { ValidBasic(f.value.b) }
  predicate ValidFields(fs: seq<Field>) { forall i :: 0 <= i < |fs| ==> ValidField(fs[i]) }

  // ----- encoding -----

  function TextBytes(e: Endian, s: bytes): (r: bytes)
    ensures |r| == |s| + 5
  {
    U32(e, |s|) + s + [0]
  }

  function BasicBytes(e: Endian, b: Basic): bytes {
    match b
    case Text(_, s) => TextBytes(e, s)
    case Signature(s) => [|s| % 256] + s + [0]
    case Word(_, n) => U32(e, n)
    case Fixed(_, data) => data
  }

  /** Offset of the innermost value in its field. */
  function LeadLen(v: Value): (n: nat)
    ensures n >= 4
  {
    match v
    case Plain(b) => Align(4, ValueAlign(CodeOf(b)))
    case Variant(b) => Align(7, ValueAlign(CodeOf(b)))
  }

  /** Signature of the variant and everything before its innermost value. */
  function FieldLead(f: Field): (r: bytes)
    ensures |r| == LeadLen(f.value)
  {
    match f.value
    case Plain(b) => [f.code, 1, CodeOf(b), 0] + Zeros(Pad(4, ValueAlign(CodeOf(b))))
    case Variant(b) => [f.code, 1, CODE_V, 0, 1, CodeOf(b), 0] + Zeros(Pad(7, ValueAlign(CodeOf(b))))
  }

  function FieldBytes(e: Endian, f: Field): (r: bytes)
    ensures |r| == LeadLen(f.value) + |BasicBytes(e, f.value.b)|
  {
    FieldLead(f) + BasicBytes(e, f.value.b)
  }

  function FieldItems(e: Endian, fs: seq<Field>): (r: seq<bytes>)
    ensures |r| == |fs|
  {
    if |fs| == 0 then [] else [FieldBytes(e, fs[0])] + FieldItems(e, fs[1..])
  }

  /** Contents of the header-fields array: structs on 8-byte boundaries. */
  function FieldArray(e: Endian, fs: seq<Field>): bytes {
    Join(FieldItems(e, fs), 8)
  }

  /** A whole message. `pad` is the header-to-body padding: the specification
      wants zeros there, the router does not look. */
  datatype Msg = Msg(e: Endian, kind: byte, flags: byte, serial: u32, fields: seq<Field>, pad: bytes, body: bytes)

  function Marker(e: Endian): byte { if e.Little? then 108 else 66 }

  /** The first sixteen bytes: fixed header and array length. */
  function Front(m: Msg): (r: bytes)
    ensures |r| == 16
  {
    [Marker(m.e), m.kind, m.flags, 1] + U32(m.e, |m.body|) + U32(m.e, m.serial) + U32(m.e, ArrayLen(m))
  }

  function Encode(m: Msg): bytes {
    Front(m) + FieldArray(m.e, m.fields) + m.pad + m.body
  }

  function ArrayLen(m: Msg): nat { |FieldArray(m.e, m.fields)| }
  function PadLen(m: Msg): nat { Pad(16 + ArrayLen(m), 8) }

  /** Lengths that the wire format can carry. */
  predicate Fits(m: Msg) {
    ValidFields(m.fields) && |m.pad| == PadLen(m) && ArrayLen(m) < TWO32 && |m.body| < TWO32
  }

  /** Lengths that the router accepts. */
  predicate WithinLimits(m: Msg) {
    Fits(m) && ArrayLen(m) <= MAX_MESSAGE_SIZE && |m.body| <= MAX_MESSAGE_SIZE
  }

  // ----- the fixed prologue -----

  datatype MessageType = Invalid | MethodCall | MethodReturn | Error | Signal

  function TypeOf(b: byte): MessageType {
    if b == 1 then MethodCall else if b == 2 then MethodReturn else if b == 3 then Error
    else if b == 4 then Signal else Invalid
  }

  datatype Prologue = Prologue(endian: Endian, kind: MessageType, flags: byte, serial: u32, bodyLen: u32, arrayLen: u32) {
    function HeaderEnd(): nat { MIN_HEADER_SIZE + arrayLen }
    function Padding(): nat { Pad(HeaderEnd(), 8) }
    function TotalLen(): nat { HeaderEnd() + Padding() + bodyLen }
  }

  function ParsePrologue(head: bytes): Outcome<Prologue>
    requires |head| >= MIN_HEADER_SIZE
  {
    if head[0] != Marker(Little) && head[0] != Marker(Big) then Err else
    var e := if head[0] == Marker(Little) then Little else Big;
    if head[3] != 1 then Err else
    var bodyLen := ReadU32(e, head, 4);
    if bodyLen > MAX_MESSAGE_SIZE then Err else
    var arrayLen := ReadU32(e, head, 12);
    if arrayLen > MAX_MESSAGE_SIZE then Err else
    Ok(Prologue(e, TypeOf(head[1]), head[2], ReadU32(e, head, 8), bodyLen, arrayLen))
  }

  // ----- decoding header fields -----

  /** A length-prefixed, NUL-terminated string at `at`, and where it ends. */
  function DecodeText(e: Endian, bs: bytes, at: nat): Option<(bytes, nat)>
    requires at <= |bs|
  {
    if at + 4 > |bs| then None else
    var end := at + 4 + ReadU32(e, bs, at);
    if end >= |bs| || bs[end] != 0 || !ValidText(bs[at + 4..end]) then None
    else Some((bs[at + 4..end], end + 1))
  }

  function DecodeSignature(bs: bytes, at: nat): Option<(bytes, nat)>
    requires at <= |bs|
  {
    if at >= |bs| then None else
    var end := at + 1 + bs[at];
    if end >= |bs| || bs[end] != 0 || !ValidText(bs[at + 1..end]) then None
    else Some((bs[at + 1..end], end + 1))
  }

  /** The value of type `code` at `at`, and where it ends. */
  function DecodeBasic(e: Endian, code: byte, bs: bytes, at: nat): Option<(Basic, nat)>
    requires at <= |bs|
  {
    if IsText(code) then
      var r := DecodeText(e, bs, at);
      if r.None? then None else Some((Text(code, r.value.0), r.value.1))
    else if code == CODE_G then
      var r := DecodeSignature(bs, at);
      if r.None? then None else Some((Signature(r.value.0), r.value.1))
    else if IsWord(code) then
      if at + 4 > |bs| then None else Some((Word(code, ReadU32(e, bs, at)), at + 4))
    else if FixedSize(code) > 0 && at + FixedSize(code) <= |bs| then
      Some((Fixed(code, bs[at..at + FixedSize(code)]), at + FixedSize(code)))
    else None
  }

  /** The struct (code, variant) at the 8-aligned offset `at`, and where it ends. */
  function DecodeField(e: Endian, bs: bytes, at: nat): Option<(Field, nat)>
    requires at <= |bs|
  {
    if at + 4 > |bs| || bs[at + 1] != 1 || bs[at + 3] != 0 then None
    else if bs[at + 2] != CODE_V then
      var start := at + 4 + Pad(4, ValueAlign(bs[at + 2]));
      if start > |bs| || !AllZero(bs[at + 4..start]) then None else
      var r := DecodeBasic(e, bs[at + 2], bs, start);
      if r.None? then None else Some((Field(bs[at], Plain(r.value.0)), r.value.1))
    else if at + 7 > |bs| || bs[at + 4] != 1 || bs[at + 6] != 0 then None
    else
      var start := at + 7 + Pad(7, ValueAlign(bs[at + 5]));
      if start > |bs| || !AllZero(bs[at + 7..start]) then None else
      var r := DecodeBasic(e, bs[at + 5], bs, start);
      if r.None? then None else Some((Field(bs[at], Variant(r.value.0)), r.value.1))
  }

  function DecodeFrom(e: Endian, bs: bytes, at: nat): Option<seq<Field>>
    requires at < |bs|
    decreases |bs| - at
  {
    var r := DecodeField(e, bs, at);
    if r.None? then None
    else if r.value.1 == |bs| then Some([r.value.0])
    else
      var next := Align(r.value.1, 8);
      if next <= at || next >= |bs| || !AllZero(bs[r.value.1..next]) then None else
      var rest := DecodeFrom(e, bs, next);
      if rest.None? then None else Some([r.value.0] + rest.value)
  }

  /** Reader for the contents of the header-fields array, a(yv). */
  function DecodeFields(e: Endian, bs: bytes): Option<seq<Field>> {
    if |bs| == 0 then Some([]) else DecodeFrom(e, bs, 0)
  }

  // ----- parsed headers -----

  datatype HeaderFields = HeaderFields(
    path: Option<bytes>, iface: Option<bytes>, member: Option<bytes>, replySerial: Option<u32>,
    destination: Option<bytes>, sender: Option<bytes>, signature: Option<bytes>, unixFds: Option<u32>)

  const NO_FIELDS := HeaderFields(None, None, None, None, None, None, None, None)

  function AsString(v: Value): Option<bytes> {
    if v.Plain? && v.b.Text? && v.b.code == CODE_S then Some(v.b.s) else None
  }

  function AsU32(v: Value): Option<u32> {
    if v.Plain? && v.b.Word? && v.b.code == CODE_U then Some(v.b.n) else None
  }

  /** What the parsing loop does with one field. PATH and SIGNATURE keep the
      value seen before when the type is wrong; the others forget it. */
  function Assign(acc: HeaderFields, f: Field): HeaderFields {
    if f.code == FIELD_PATH then
      if f.value.Plain? && f.value.b.Text? && f.value.b.code == CODE_O then acc.(path := Some(f.value.b.s)) else acc
    else if f.code == FIELD_INTERFACE then acc.(iface := AsString(f.value))
    else if f.code == FIELD_MEMBER then acc.(member := AsString(f.value))
    else if f.code == FIELD_REPLY_SERIAL then acc.(replySerial := AsU32(f.value))
    else if f.code == FIELD_DESTINATION then acc.(destination := AsString(f.value))
    else if f.code == FIELD_SENDER then acc.(sender := AsString(f.value))
    else if f.code == FIELD_UNIX_FDS then acc.(unixFds := AsU32(f.value))
    else if f.code == FIELD_SIGNATURE then
      if f.value.Plain? && f.value.b.Signature? then acc.(signature := Some(f.value.b.s)) else acc
    else acc
  }

  function Collect(fs: seq<Field>): HeaderFields {
    if |fs| == 0 then NO_FIELDS else Assign(Collect(fs[..|fs| - 1]), fs[|fs| - 1])
  }

  /** A header array that does not parse leaves every field empty. */
  function HeaderFieldsOf(e: Endian, buf: bytes): HeaderFields {
    var fs := DecodeFields(e, buf);
    if fs.None? then NO_FIELDS else Collect(fs.value)
  }

  method ParseHeaderFields(buf: bytes, e: Endian) returns (result: HeaderFields)
    ensures result == HeaderFieldsOf(e, buf)
  {
    var decoded := DecodeFields(e, buf);
    if decoded.None? {
      return NO_FIELDS;
    }
    var fields := decoded.value;
    result := NO_FIELDS;
    for i := 0 to |fields|
      invariant result == Collect(fields[..i])
    {
      assert fields[..i + 1][..i] == fields[..i];
      result := Assign(result, fields[i]);
    }
    assert fields[..|fields|] == fields;
  }

  datatype Header = Header(endian: Endian, kind: MessageType, flags: byte, serial: u32, bodyLen: u32, fields: HeaderFields)
  type Fd = nat

  /** A received message: its parsed header, all of its bytes, its descriptors. */
  datatype Message = Message(header: Header, raw: bytes, fds: seq<Fd>)

  function IntoHeader(p: Prologue, fields: HeaderFields): Header {
    Header(p.endian, p.kind, p.flags, p.serial, p.bodyLen, fields)
  }

  /** `raw` is one whole message, as far as its prologue tells. */
  predicate Whole(raw: bytes) {
    |raw| >= MIN_HEADER_SIZE && ParsePrologue(raw).Ok? && |raw| == ParsePrologue(raw).value.TotalLen()
  }

  /** The header that both readers attach to a whole message. */
  function HeaderOf(raw: bytes): Header
    requires Whole(raw)
  {
    var p := ParsePrologue(raw).value;
    IntoHeader(p, HeaderFieldsOf(p.endian, raw[MIN_HEADER_SIZE..p.HeaderEnd()]))
  }

  /** What both message readers return. */
  predicate AsRead(msg: Message) { Whole(msg.raw) && msg.header == HeaderOf(msg.raw) }

  /** A whole message whose header array also parses. */
  predicate Decodes(raw: bytes) {
    Whole(raw) && var p := ParsePrologue(raw).value; DecodeFields(p.endian, raw[MIN_HEADER_SIZE..p.HeaderEnd()]).Some?
  }

  function Decode(raw: bytes): Msg
    requires Decodes(raw)
  {
    var p := ParsePrologue(raw).value;
    var end := p.HeaderEnd();
    var start := end + p.Padding();
    Msg(p.endian, raw[1], raw[2], p.serial, DecodeFields(p.endian, raw[16..end]).value, raw[end..start], raw[start..])
  }

  /** The header that parsing an encoded message must give. */
  function HeaderFor(m: Msg): Header
    requires |m.body| < TWO32
  {
    Header(m.e, TypeOf(m.kind), m.flags, m.serial, |m.body|, Collect(m.fields))
  }
}
