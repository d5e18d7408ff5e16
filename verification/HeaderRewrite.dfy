/** In-place editing of one string field of a marshalled header (src/dbus/rewrite.rs). */
module HeaderRewrite {
  import opened Wire
  import opened Message
  import opened FakeNames

  // ----- scanning -----

  /** What looking at one header field leads to. */
  datatype Scan = Next(pos: nat) | Found(at: nat) | Stop | Crash

  function SkipText(raw: bytes, e: Endian, end: nat, pos: nat, nul: nat): Scan {
    if pos + 4 > end then Stop else if pos + 4 > |raw| then Crash
    else Next(pos + 4 + ReadU32(e, raw, pos) + nul)
  }

  /** Skip a value of a basic type; anything else ends the scan. */
  function SkipBasic(raw: bytes, e: Endian, end: nat, pos: nat, sig: byte): Scan {
    if IsText(sig) then SkipText(raw, e, end, pos, 1)
    else if sig == CODE_G then
      if pos >= end then Stop else if pos >= |raw| then Crash else Next(pos + 1 + raw[pos] + 1)
    else if IsWord(sig) then Next(pos + 4)
    else if FixedSize(sig) > 0 then Next(pos + FixedSize(sig))
    else Stop
  }

  function SkipVariant(raw: bytes, e: Endian, end: nat, pos: nat): Scan {
    if pos >= end then Stop else if pos >= |raw| then Crash else
    var len := raw[pos];
    if pos + 1 + len + 1 > end then Stop else
    if len > 0 && pos + 1 >= |raw| then Crash else
    var sig := if len > 0 then raw[pos + 1] else 0;
    SkipBasic(raw, e, end, Align(pos + 1 + len + 1, ValueAlign(sig)), sig)
  }

  function SkipValue(raw: bytes, e: Endian, end: nat, pos: nat, sig: byte): Scan {
    if sig == CODE_A then SkipText(raw, e, end, pos, 0)
    else if sig == CODE_V then SkipVariant(raw, e, end, pos)
    else if IsText(sig) || IsWord(sig) || sig == CODE_G || FixedSize(sig) > 0 then SkipBasic(raw, e, end, pos, sig)
    // An unknown type is logged with the bytes around it, sliced from pos - 16.
    else if pos > |raw| + 16 then Crash else Stop
  }

  /** First code of a field's signature, read `back` bytes behind the position. */
  function SigByte(raw: bytes, pos: nat, len: nat): Option<byte>
    requires pos > len
  {
    if len == 0 then Some(0) else if pos - len - 1 >= |raw| then None else Some(raw[pos - len - 1])
  }

  /** One turn of the scanning loop. The signature is read a second time, after
      the position was aligned for the value. */
  function ScanField(raw: bytes, e: Endian, end: nat, from: nat, want: byte): (r: Scan)
    ensures r.Next? ==> r.pos > from
    ensures r.Found? ==> r.at > from
  {
    var pos := Align(from, 8);
    if pos >= end then Stop else if pos >= |raw| then Crash
    else if pos + 1 >= end then Stop else if pos + 1 >= |raw| then Crash else
    var len := raw[pos + 1];
    var sig := SigByte(raw, pos + 1 + 1 + len + 1, len);
    if sig.None? then Crash else
    var at := Align(pos + 1 + 1 + len + 1, ValueAlign(sig.value));
    if raw[pos] == want then Found(at) else
    var again := SigByte(raw, at, len);
    if again.None? then Crash else SkipValue(raw, e, end, at, again.value)
  }

  function FindField(raw: bytes, e: Endian, end: nat, pos: nat, want: byte): (r: Scan)
    ensures !r.Next?
    ensures r.Found? ==> r.at > pos
    decreases if pos < end then end - pos else 0
  {
    if pos >= end then Stop else
    var step := ScanField(raw, e, end, pos, want);
    if step.Next? then FindField(raw, e, end, step.pos, want) else step
  }

  // ----- splicing -----

  /** The message with the string at `pos` replaced, its padding, array length
      and body padding recomputed. Lengths are written as 32-bit words, so a
      length that the malformed input makes negative wraps. */
  function Splice(raw: bytes, e: Endian, end: nat, pos: nat, value: bytes): Outcome<bytes>
    requires |raw| >= 16 && pos >= 16 && end >= 16
  {
    if pos + 4 > |raw| then Err else
    var oldEnd := pos + 4 + ReadU32(e, raw, pos) + 1;
    var oldNext := Align(oldEnd, 8);
    var more := oldNext < end;
    var newPad := if more then Pad(pos + |value| + 5, 8) else 0;
    var oldTotal := if more then oldNext - pos else oldEnd - pos;
    var newArrayLen := (end - 16) + (|value| + 5 + newPad) - oldTotal;
    var oldBody := Align(end, 8);
    if (more && end > |raw|) || oldBody > |raw| then Panic else
    Ok(raw[..12] + U32(e, newArrayLen % TWO32) + raw[16..pos] + TextBytes(e, value) + Zeros(newPad)
       + (if more then raw[oldNext..end] else []) + Zeros((8 - (16 + newArrayLen) % 8) % 8) + raw[oldBody..])
  }

  /** The effect of `rewrite_header_field` on any bytes at all. */
  function Rewritten(raw: bytes, e: Endian, want: byte, value: bytes): Outcome<bytes> {
    if |raw| < 16 then Panic else
    var end := 16 + ReadU32(e, raw, 12);
    match FindField(raw, e, end, 16, want)
    case Found(at) => Splice(raw, e, end, at, value)
    case Crash => Panic
    case _ => Ok(raw)
  }

  // ----- messages -----

  datatype Direction = ToClient | ToUpstream

  /** The header field a direction rewrites. */
  function NameCode(direction: Direction): byte {
    if direction.ToClient? then FIELD_SENDER else FIELD_DESTINATION
  }

  function NameIn(f: HeaderFields, code: byte): Option<bytes> {
    if code == FIELD_SENDER then f.sender else f.destination
  }

  function WithName(f: HeaderFields, code: byte, name: Option<bytes>): HeaderFields {
    if code == FIELD_SENDER then f.(sender := name) else f.(destination := name)
  }

  /** A sender gets the prefix of the bus it came from, a destination loses
      its prefix; None when the name stays. */
  function NewName(name: bytes, direction: Direction, source: Bus): Option<bytes> {
    match direction
    case ToClient => if ToFake(name, source) == name then None else Some(ToFake(name, source))
    case ToUpstream => if FromFake(name).None? then None else Some(FromFake(name).value.0)
  }

  /** The effect of `rewrite_message_header`. */
  function HeaderRewritten(msg: Message, direction: Direction, source: Bus): Outcome<Message> {
    var code := NameCode(direction);
    var old' := NameIn(msg.header.fields, code);
    var name := if old'.None? then None else NewName(old'.value, direction, source);
    if name.None? then Ok(msg) else
    match Rewritten(msg.raw, msg.header.endian, code, name.value)
    case Ok(raw) => Ok(Message(msg.header.(fields := WithName(msg.header.fields, code, name)), raw, msg.fds))
    case Err => Err
    case Panic => Panic
  }

  /** A message being edited in place. */
  class MessageBuffer {
    var header: Header
    var raw: bytes
    const fds: seq<Fd>

    constructor (msg: Message)
      ensures View() == msg
    {
      header, raw, fds := msg.header, msg.raw, msg.fds;
    }

    function View(): Message
      reads this
    {
      Message(header, raw, fds)
    }

    /** Assigns the new bytes only when everything went well. */
    method RewriteHeaderField(code: byte, value: bytes) returns (r: Outcome<()>)
      modifies this`raw
      ensures var want := Rewritten(old(raw), header.endian, code, value);
        raw == (if want.Ok? then want.value else old(raw)) && r.Ok? == want.Ok? && r.Err? == want.Err?
    {
      hide ReadU32, ScanField, Splice;
      if |raw| < MIN_HEADER_SIZE {
        return Panic;
      }
      var fieldsEnd := MIN_HEADER_SIZE + ReadU32(header.endian, raw, 12);
      var pos := MIN_HEADER_SIZE;
      while pos < fieldsEnd
        invariant pos >= MIN_HEADER_SIZE && raw == old(raw)
        invariant FindField(raw, header.endian, fieldsEnd, pos, code) == FindField(raw, header.endian, fieldsEnd, 16, code)
      {
        match ScanField(raw, header.endian, fieldsEnd, pos, code) {
          case Next(next) => pos := next;
          case Stop => return Ok(());
          case Crash => return Panic;
          case Found(at) =>
            r := ReplaceString(fieldsEnd, at, value);
            return;
        }
      }
      return Ok(());
    }

    method ReplaceString(fieldsEnd: nat, pos: nat, value: bytes) returns (r: Outcome<()>)
      requires |raw| >= 16 && pos >= 16 && fieldsEnd >= 16
      modifies this`raw
      ensures var want := Splice(old(raw), header.endian, fieldsEnd, pos, value);
        raw == (if want.Ok? then want.value else old(raw)) && r.Ok? == want.Ok? && r.Err? == want.Err?
    {
      hide U32, ReadU32, Pad, TextBytes, Zeros;
      if pos + 4 > |raw| {
        return Err;
      }
      var oldStrEnd := pos + 4 + ReadU32(header.endian, raw, pos) + 1;
      var oldNextStart := Align(oldStrEnd, 8);
      var hasMore := oldNextStart < fieldsEnd;
      var newStr := TextBytes(header.endian, value);
      var newPadding := if hasMore then Pad(pos + |newStr|, 8) else 0;
      var sizeDiff := (|newStr| + newPadding) - (if hasMore then oldNextStart - pos else oldStrEnd - pos);
      var newArrayLen := fieldsEnd - 16 + sizeDiff;
      var oldBodyStart := Align(fieldsEnd, 8);
      if (hasMore && fieldsEnd > |raw|) || oldBodyStart > |raw| {
        return Panic;
      }
      var newRaw := raw[..12];
      newRaw := newRaw + U32(header.endian, newArrayLen % TWO32);
      newRaw := newRaw + raw[16..pos];
      newRaw := newRaw + newStr;
      newRaw := newRaw + Zeros(newPadding);
      newRaw := newRaw + (if hasMore then raw[oldNextStart..fieldsEnd] else []);
      newRaw := newRaw + Zeros((8 - (16 + newArrayLen) % 8) % 8);
      newRaw := newRaw + raw[oldBodyStart..];
      raw := newRaw;
      return Ok(());
    }

    method RewriteMessageHeader(direction: Direction, source: Bus) returns (r: Outcome<()>)
      modifies this
      ensures var want := HeaderRewritten(old(View()), direction, source);
        View() == (if want.Ok? then want.value else old(View())) && r.Ok? == want.Ok? && r.Err? == want.Err?
    {
      r := Ok(());
      match direction {
        case ToClient =>
          if header.fields.sender.Some? {
            var fake := ToFake(header.fields.sender.value, source);
            if fake != header.fields.sender.value {
              r := RewriteHeaderField(FIELD_SENDER, fake);
              if r.Ok? {
                header := header.(fields := header.fields.(sender := Some(fake)));
              }
            }
          }
        case ToUpstream =>
          if header.fields.destination.Some? {
            var found := FromFake(header.fields.destination.value);
            if found.Some? {
              r := RewriteHeaderField(FIELD_DESTINATION, found.value.0);
              if r.Ok? {
                header := header.(fields := header.fields.(destination := Some(found.value.0)));
              }
            }
          }
      }
    }
  }
}
