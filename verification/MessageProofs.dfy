/** The message format is a bijection: decoding undoes encoding and encoding
    undoes decoding. */
module MessageProofs {
  import opened Wire
  import opened Message

  // ----- basic values -----

  /** `part` lies in `bs` at `at`. */
  predicate Holds(bs: bytes, at: nat, part: bytes) {
    at + |part| <= |bs| && bs[at..at + |part|] == part
  }

  lemma HoldsParts(bs: bytes, at: nat, left: bytes, right: bytes)
    ensures Holds(bs, at, left + right) <==> Holds(bs, at, left) && Holds(bs, at + |left|, right)
  {
    var mid, end := at + |left|, at + |left| + |right|;
    if end <= |bs| {
      var v := bs[at..end];
      assert v[..|left|] == bs[at..mid] && v[|left|..] == bs[mid..end];
      assert v == v[..|left|] + v[|left|..];
    }
  }

  lemma HoldsOne(bs: bytes, at: nat, b: byte)
    ensures Holds(bs, at, [b]) <==> at < |bs| && bs[at] == b
  {
    if at < |bs| {
      assert bs[at..at + 1] == [bs[at]];
    }
  }

  lemma HoldsU32(e: Endian, bs: bytes, at: nat, n: nat)
    requires Holds(bs, at, U32(e, n))
    ensures ReadU32(e, bs, at) == n % TWO32
    ensures n < TWO32 ==> ReadU32(e, bs, at) == n
  {
    ReadWrite(e, n, bs, at);
  }

  lemma HoldsText(e: Endian, bs: bytes, at: nat, s: bytes)
    ensures Holds(bs, at, TextBytes(e, s)) <==>
      Holds(bs, at, U32(e, |s|)) && Holds(bs, at + 4, s) && at + 4 + |s| < |bs| && bs[at + 4 + |s|] == 0
  {
    HoldsParts(bs, at, U32(e, |s|) + s, [0]);
    HoldsParts(bs, at, U32(e, |s|), s);
    HoldsOne(bs, at + 4 + |s|, 0);
  }

  lemma HoldsSignature(bs: bytes, at: nat, s: bytes)
    requires |s| < 256
    ensures Holds(bs, at, [|s| % 256] + s + [0]) <==>
      at + 1 + |s| < |bs| && bs[at] == |s| && Holds(bs, at + 1, s) && bs[at + 1 + |s|] == 0
  {
    var first: bytes := [|s|];
    assert [|s| % 256] == first;
    HoldsParts(bs, at, first + s, [0]);
    HoldsParts(bs, at, first, s);
    HoldsOne(bs, at, |s|);
    HoldsOne(bs, at + 1 + |s|, 0);
  }

  lemma TextComplete(e: Endian, s: bytes, bs: bytes, at: nat)
    requires ValidText(s) && |s| < TWO32 && Holds(bs, at, TextBytes(e, s))
    ensures DecodeText(e, bs, at) == Some((s, at + |s| + 5))
  {
    hide ReadU32, U32, ValidText, TextBytes;
    HoldsText(e, bs, at, s);
    HoldsU32(e, bs, at, |s|);
  }

  lemma SignatureComplete(s: bytes, bs: bytes, at: nat)
    requires ValidText(s) && |s| < 256 && Holds(bs, at, [|s| % 256] + s + [0])
    ensures DecodeSignature(bs, at) == Some((s, at + |s| + 2))
  {
    HoldsSignature(bs, at, s);
  }

  lemma BasicComplete(e: Endian, b: Basic, bs: bytes, at: nat)
    requires ValidBasic(b) && Holds(bs, at, BasicBytes(e, b))
    ensures DecodeBasic(e, CodeOf(b), bs, at) == Some((b, at + |BasicBytes(e, b)|))
  {
    hide ReadU32, U32, ValidText, DecodeText, DecodeSignature, TextBytes;
    match b {
      case Text(code, s) => TextComplete(e, s, bs, at);
      case Signature(s) => SignatureComplete(s, bs, at);
      case Word(code, n) => HoldsU32(e, bs, at, n);
      case Fixed(code, data) =>
    }
  }

  lemma TextSound(e: Endian, bs: bytes, at: nat)
    requires at <= |bs| && DecodeText(e, bs, at).Some?
    ensures var (s, end) := DecodeText(e, bs, at).value;
      ValidText(s) && |s| < TWO32 && Holds(bs, at, TextBytes(e, s)) && end == at + |s| + 5
  {
    WriteRead(e, bs, at);
    HoldsText(e, bs, at, bs[at + 4..at + 4 + ReadU32(e, bs, at)]);
  }

  lemma SignatureSound(bs: bytes, at: nat)
    requires at <= |bs| && DecodeSignature(bs, at).Some?
    ensures var (s, end) := DecodeSignature(bs, at).value;
      ValidText(s) && |s| < 256 && Holds(bs, at, [|s| % 256] + s + [0]) && end == at + |s| + 2
  {
    HoldsSignature(bs, at, bs[at + 1..at + 1 + bs[at]]);
  }

  lemma BasicSound(e: Endian, code: byte, bs: bytes, at: nat)
    requires at <= |bs| && DecodeBasic(e, code, bs, at).Some?
    ensures var (b, end) := DecodeBasic(e, code, bs, at).value;
      ValidBasic(b) && CodeOf(b) == code && Holds(bs, at, BasicBytes(e, b)) && end == at + |BasicBytes(e, b)|
  {
    if IsText(code) {
      TextSound(e, bs, at);
    } else if code == CODE_G {
      SignatureSound(bs, at);
    } else if IsWord(code) {
      WriteRead(e, bs, at);
    }
  }

  // ----- fields -----

  lemma HoldsZeros(bs: bytes, at: nat, n: nat)
    ensures Holds(bs, at, Zeros(n)) <==> at + n <= |bs| && AllZero(bs[at..at + n])
  {
    if at + n <= |bs| {
      ZerosOnly(bs[at..at + n]);
    }
  }

  lemma HoldsFour(bs: bytes, at: nat, q: bytes)
    requires |q| == 4
    ensures Holds(bs, at, q) <==>
      at + 4 <= |bs| && bs[at] == q[0] && bs[at + 1] == q[1] && bs[at + 2] == q[2] && bs[at + 3] == q[3]
  {
    if at + 4 <= |bs| {
      var v := bs[at..at + 4];
      assert v[0] == bs[at] && v[1] == bs[at + 1] && v[2] == bs[at + 2] && v[3] == bs[at + 3];
    }
  }

  lemma HoldsThree(bs: bytes, at: nat, q: bytes)
    requires |q| == 3
    ensures Holds(bs, at, q) <==> at + 3 <= |bs| && bs[at] == q[0] && bs[at + 1] == q[1] && bs[at + 2] == q[2]
  {
    if at + 3 <= |bs| {
      var v := bs[at..at + 3];
      assert v[0] == bs[at] && v[1] == bs[at + 1] && v[2] == bs[at + 2];
    }
  }

  /** The bytes of a field spelled out, one by one. */
  lemma HoldsField(e: Endian, f: Field, bs: bytes, at: nat)
    ensures Holds(bs, at, FieldBytes(e, f)) <==> Holds(bs, at, FieldLead(f)) && Holds(bs, at + |FieldLead(f)|, BasicBytes(e, f.value.b))
    ensures var align := ValueAlign(CodeOf(f.value.b));
      Holds(bs, at, FieldLead(f)) <==>
      (if f.value.Plain? then
         Holds(bs, at, [f.code, 1, CodeOf(f.value.b), 0]) && Holds(bs, at + 4, Zeros(Pad(4, align)))
       else
         Holds(bs, at, [f.code, 1, CODE_V, 0]) && Holds(bs, at + 4, [1, CodeOf(f.value.b), 0])
         && Holds(bs, at + 7, Zeros(Pad(7, align))))
  {
    HoldsParts(bs, at, FieldLead(f), BasicBytes(e, f.value.b));
    var code := CodeOf(f.value.b);
    if f.value.Plain? {
      HoldsParts(bs, at, [f.code, 1, code, 0], Zeros(Pad(4, ValueAlign(code))));
    } else {
      var lead, inner, zeros := [f.code, 1, CODE_V, 0], [1, code, 0], Zeros(Pad(7, ValueAlign(code)));
      assert FieldLead(f) == lead + inner + zeros;
      HoldsParts(bs, at, lead + inner, zeros);
      HoldsParts(bs, at, lead, inner);
    }
  }

  lemma FieldComplete(e: Endian, f: Field, bs: bytes, at: nat)
    requires ValidField(f) && Holds(bs, at, FieldBytes(e, f))
    ensures DecodeField(e, bs, at) == Some((f, at + |FieldBytes(e, f)|))
  {
    hide FieldBytes, FieldLead, BasicBytes, TextBytes, DecodeBasic, ValidText, Pad, ValueAlign;
    HoldsField(e, f, bs, at);
    var code := CodeOf(f.value.b);
    BasicComplete(e, f.value.b, bs, at + |FieldLead(f)|);
    if f.value.Plain? {
      HoldsFour(bs, at, [f.code, 1, code, 0]);
      HoldsZeros(bs, at + 4, Pad(4, ValueAlign(code)));
    } else {
      HoldsFour(bs, at, [f.code, 1, CODE_V, 0]);
      HoldsThree(bs, at + 4, [1, code, 0]);
      HoldsZeros(bs, at + 7, Pad(7, ValueAlign(code)));
    }
  }

  lemma PlainSound(e: Endian, bs: bytes, at: nat)
    requires at <= |bs| && DecodeField(e, bs, at).Some? && bs[at + 2] != CODE_V
    ensures var (f, end) := DecodeField(e, bs, at).value;
      ValidField(f) && Holds(bs, at, FieldBytes(e, f)) && end == at + |FieldBytes(e, f)|
  {
    hide FieldBytes, FieldLead, BasicBytes, TextBytes, DecodeBasic, ValidBasic, Pad, ValueAlign;
    var (f, end) := DecodeField(e, bs, at).value;
    var code := bs[at + 2];
    BasicSound(e, code, bs, at + 4 + Pad(4, ValueAlign(code)));
    HoldsFour(bs, at, [f.code, 1, code, 0]);
    HoldsZeros(bs, at + 4, Pad(4, ValueAlign(code)));
    HoldsField(e, f, bs, at);
  }

  lemma VariantSound(e: Endian, bs: bytes, at: nat)
    requires at <= |bs| && DecodeField(e, bs, at).Some? && bs[at + 2] == CODE_V
    ensures var (f, end) := DecodeField(e, bs, at).value;
      ValidField(f) && Holds(bs, at, FieldBytes(e, f)) && end == at + |FieldBytes(e, f)|
  {
    hide FieldBytes, FieldLead, BasicBytes, TextBytes, DecodeBasic, ValidBasic, Pad, ValueAlign;
    var (f, end) := DecodeField(e, bs, at).value;
    var code := bs[at + 5];
    BasicSound(e, code, bs, at + 7 + Pad(7, ValueAlign(code)));
    HoldsFour(bs, at, [f.code, 1, CODE_V, 0]);
    HoldsThree(bs, at + 4, [1, code, 0]);
    HoldsZeros(bs, at + 7, Pad(7, ValueAlign(code)));
    HoldsField(e, f, bs, at);
  }

  lemma FieldSound(e: Endian, bs: bytes, at: nat)
    requires at <= |bs| && DecodeField(e, bs, at).Some?
    ensures var (f, end) := DecodeField(e, bs, at).value;
      ValidField(f) && Holds(bs, at, FieldBytes(e, f)) && end == at + |FieldBytes(e, f)|
  {
    if bs[at + 2] == CODE_V {
      VariantSound(e, bs, at);
    } else {
      PlainSound(e, bs, at);
    }
  }

  lemma FieldArrayCons(e: Endian, f: Field, rest: seq<Field>)
    ensures FieldArray(e, [f]) == FieldBytes(e, f)
    ensures |rest| > 0 ==> FieldArray(e, [f] + rest) == Padded(FieldBytes(e, f), 8) + FieldArray(e, rest)
  {
    hide FieldBytes;
    assert ([f] + rest)[1..] == rest;
    assert FieldItems(e, [f] + rest)[1..] == FieldItems(e, rest);
  }

  /** Every field occupies at least four bytes, so arrays of fields are not empty. */
  lemma FieldArrayNonEmpty(e: Endian, fs: seq<Field>)
    ensures |FieldArray(e, fs)| == 0 <==> |fs| == 0
  {
    if |fs| > 0 {
      FieldArrayCons(e, fs[0], fs[1..]);
      assert fs == [fs[0]] + fs[1..];
      assert |fs| == 1 ==> fs == [fs[0]];
    }
  }

  lemma {:induction false} FieldsComplete(e: Endian, fs: seq<Field>, bs: bytes, at: nat)
    requires ValidFields(fs) && |fs| > 0 && Aligned(at, 8)
    requires Holds(bs, at, FieldArray(e, fs)) && at + |FieldArray(e, fs)| == |bs|
    ensures at < |bs| && DecodeFrom(e, bs, at) == Some(fs)
    decreases |fs|
  {
    hide FieldBytes, FieldArray, DecodeField, BasicBytes, LeadLen, ValidField;
    var f, rest := fs[0], fs[1..];
    var w := FieldBytes(e, f);
    assert fs == [f] + rest;
    FieldArrayCons(e, f, rest);
    if |rest| == 0 {
      assert fs == [f];
      FieldComplete(e, f, bs, at);
    } else {
      HoldsParts(bs, at, Padded(w, 8), FieldArray(e, rest));
      HoldsParts(bs, at, w, Zeros(Pad(|w|, 8)));
      HoldsZeros(bs, at + |w|, Pad(|w|, 8));
      FieldComplete(e, f, bs, at);
      PadShift(at, |w|, 8);
      AlignedSum(at, Align(|w|, 8), 8);
      FieldsComplete(e, rest, bs, at + Align(|w|, 8));
    }
  }

  lemma {:induction false} FieldsSound(e: Endian, bs: bytes, at: nat)
    requires at < |bs| && Aligned(at, 8) && DecodeFrom(e, bs, at).Some?
    ensures var fs := DecodeFrom(e, bs, at).value;
      |fs| > 0 && ValidFields(fs) && Holds(bs, at, FieldArray(e, fs)) && at + |FieldArray(e, fs)| == |bs|
    decreases |bs| - at
  {
    hide FieldBytes, FieldArray, DecodeField, BasicBytes, LeadLen, ValidField;
    FieldSound(e, bs, at);
    var (f, end) := DecodeField(e, bs, at).value;
    var w := FieldBytes(e, f);
    if end == |bs| {
      FieldArrayCons(e, f, []);
    } else {
      var next := Align(end, 8);
      PadShift(at, |w|, 8);
      AlignedSum(at, Align(|w|, 8), 8);
      FieldsSound(e, bs, next);
      var rest := DecodeFrom(e, bs, next).value;
      FieldArrayCons(e, f, rest);
      HoldsZeros(bs, end, Pad(|w|, 8));
      HoldsParts(bs, at, w, Zeros(Pad(|w|, 8)));
      HoldsParts(bs, at, Padded(w, 8), FieldArray(e, rest));
    }
  }

  /** Reading a header-fields array finds `fs` exactly when the array is the encoding of `fs`. */
  lemma FieldsRoundTrip(e: Endian, bs: bytes, fs: seq<Field>)
    ensures DecodeFields(e, bs) == Some(fs) <==> ValidFields(fs) && bs == FieldArray(e, fs)
  {
    FieldArrayNonEmpty(e, fs);
    if |bs| > 0 {
      if DecodeFields(e, bs) == Some(fs) {
        FieldsSound(e, bs, 0);
      }
      if ValidFields(fs) && bs == FieldArray(e, fs) {
        FieldsComplete(e, fs, bs, 0);
      }
    }
  }

  // ----- whole messages -----

  /** Where everything is in an encoded message. */
  lemma Layout(m: Msg)
    ensures var raw, end := Encode(m), 16 + ArrayLen(m);
      var start := end + |m.pad|;
      |raw| == start + |m.body|
      && raw[..16] == Front(m) && raw[16..end] == FieldArray(m.e, m.fields) && raw[end..start] == m.pad && raw[start..] == m.body
  {
    hide Front, FieldArray;
    var raw, a := Encode(m), FieldArray(m.e, m.fields);
    HoldsParts(raw, 0, Front(m) + a + m.pad, m.body);
    HoldsParts(raw, 0, Front(m) + a, m.pad);
    HoldsParts(raw, 0, Front(m), a);
  }

  lemma FrontLayout(m: Msg)
    ensures var f := Front(m);
      f[..4] == [Marker(m.e), m.kind, m.flags, 1] && f[4..8] == U32(m.e, |m.body|)
      && f[8..12] == U32(m.e, m.serial) && f[12..16] == U32(m.e, ArrayLen(m))
      && f[..12] == [Marker(m.e), m.kind, m.flags, 1] + U32(m.e, |m.body|) + U32(m.e, m.serial)
  {
    hide U32, ArrayLen, Marker;
    var f, lead := Front(m), [Marker(m.e), m.kind, m.flags, 1];
    HoldsParts(f, 0, lead + U32(m.e, |m.body|) + U32(m.e, m.serial), U32(m.e, ArrayLen(m)));
    HoldsParts(f, 0, lead + U32(m.e, |m.body|), U32(m.e, m.serial));
    HoldsParts(f, 0, lead, U32(m.e, |m.body|));
  }

  /** What the prologue of an encoded message reads back as. */
  lemma PrologueOf(m: Msg)
    ensures var raw := Encode(m);
      |raw| >= 16 && raw[..16] == Front(m)
      && raw[0] == Marker(m.e) && raw[1] == m.kind && raw[2] == m.flags && raw[3] == 1
      && ReadU32(m.e, raw, 4) == |m.body| % TWO32 && ReadU32(m.e, raw, 8) == m.serial
      && ReadU32(m.e, raw, 12) == ArrayLen(m) % TWO32
  {
    hide U32, ReadU32, FieldArray;
    var raw := Encode(m);
    Layout(m);
    FrontLayout(m);
    var f := raw[..16];
    assert raw[..4] == f[..4] && raw[4..8] == f[4..8] && raw[8..12] == f[8..12] && raw[12..16] == f[12..16];
    assert f[..4][0] == raw[0] && f[..4][1] == raw[1] && f[..4][2] == raw[2] && f[..4][3] == raw[3];
    HoldsU32(m.e, raw, 4, |m.body|);
    HoldsU32(m.e, raw, 8, m.serial);
    HoldsU32(m.e, raw, 12, ArrayLen(m));
  }

  /** `Prologue::parse` accepts an encoded message exactly when its sizes are
      within the limits, and then computes its exact length. */
  lemma PrologueAccepts(m: Msg)
    requires Fits(m)
    ensures ParsePrologue(Encode(m)) ==
      if WithinLimits(m) then Ok(Prologue(m.e, TypeOf(m.kind), m.flags, m.serial, |m.body|, ArrayLen(m))) else Err
    ensures WithinLimits(m) ==> ParsePrologue(Encode(m)).value.TotalLen() == |Encode(m)|
  {
    hide U32, ReadU32, FieldArray, Front, ValidFields, TypeOf;
    PrologueOf(m);
    Layout(m);
  }

  lemma HeaderOfEncoded(m: Msg)
    requires WithinLimits(m)
    ensures Whole(Encode(m)) && HeaderOf(Encode(m)) == HeaderFor(m)
    ensures Decodes(Encode(m)) && Decode(Encode(m)) == m
  {
    hide U32, ReadU32, FieldArray, Front, Encode, TypeOf, DecodeFields, ValidFields, Collect, ParsePrologue;
    PrologueOf(m);
    PrologueAccepts(m);
    Layout(m);
    FieldsRoundTrip(m.e, FieldArray(m.e, m.fields), m.fields);
  }

  lemma FrontSound(raw: bytes, m: Msg)
    requires |raw| >= 16 && (raw[0] == Marker(m.e) && raw[1] == m.kind && raw[2] == m.flags && raw[3] == 1)
    requires ReadU32(m.e, raw, 4) == |m.body| && ReadU32(m.e, raw, 8) == m.serial && ReadU32(m.e, raw, 12) == ArrayLen(m)
    ensures raw[..16] == Front(m)
  {
    hide U32, ReadU32, ArrayLen, Marker;
    WriteRead(m.e, raw, 4);
    WriteRead(m.e, raw, 8);
    WriteRead(m.e, raw, 12);
    HoldsFour(raw, 0, [Marker(m.e), m.kind, m.flags, 1]);
    assert raw[..16] == raw[0..4] + raw[4..8] + raw[8..12] + raw[12..16];
  }

  lemma EncodeDecode(raw: bytes)
    requires Decodes(raw)
    ensures WithinLimits(Decode(raw)) && Encode(Decode(raw)) == raw
  {
    hide U32, ReadU32, FieldArray, Front, DecodeFields, ValidFields;
    var m := Decode(raw);
    var p := ParsePrologue(raw).value;
    var end := p.HeaderEnd();
    FieldsRoundTrip(m.e, raw[16..end], m.fields);
    FrontSound(raw, m);
    assert raw == raw[..16] + raw[16..end] + raw[end..end + p.Padding()] + raw[end + p.Padding()..];
  }

  /** Decoding and encoding are inverse: a received message parses to `m`
      exactly when its bytes are the encoding of `m`. */
  lemma MessageRoundTrip(raw: bytes, m: Msg)
    ensures Decodes(raw) && Decode(raw) == m <==> WithinLimits(m) && raw == Encode(m)
  {
    hide Encode, Decode, Decodes, WithinLimits;
    if Decodes(raw) {
      EncodeDecode(raw);
    }
    if WithinLimits(m) {
      HeaderOfEncoded(m);
    }
  }
}
