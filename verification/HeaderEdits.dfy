/** Consequences of the refinement: when an edit is exact, what it changes in
    size, when it can be undone, and when the cached header stays true. */
module HeaderEdits {
  import opened Wire
  import Utf8
  import opened Message
  import opened MessageProofs
  import opened FakeNames
  import opened HeaderRewrite
  import opened HeaderRewriteProofs

  predicate SameCodes(fs: seq<Field>, gs: seq<Field>) {
    |fs| == |gs| && forall j :: 0 <= j < |fs| ==> fs[j].code == gs[j].code
  }

  lemma FirstIndexSame(fs: seq<Field>, gs: seq<Field>, code: byte)
    requires SameCodes(fs, gs)
    ensures FirstIndex(fs, code) == FirstIndex(gs, code)
  {
    var i, j := FirstIndex(fs, code), FirstIndex(gs, code);
    if i < |fs| {
      assert gs[i].code == code;
    }
    if j < |gs| {
      assert fs[j].code == code;
    }
  }

  /** An edit keeps every field in its place. */
  lemma EditedInPlace(m: Msg, code: byte, value: bytes)
    requires Editable(m.fields, code)
    ensures var m' := Edited(m, code, value);
      SameCodes(m.fields, m'.fields) && FirstIndex(m'.fields, code) == FirstIndex(m.fields, code)
      && Editable(m'.fields, code) && Blocked(m'.fields, code) == Blocked(m.fields, code)
      && m' == m.(fields := m'.fields, pad := m'.pad)
    ensures Fits(m) && ValidText(value) && |value| < TWO32 ==> ValidFields(Edited(m, code, value).fields)
  {
    hide ValidText;
    var m', i := Edited(m, code, value), FirstIndex(m.fields, code);
    FirstIndexSame(m.fields, m'.fields, code);
    assert forall j :: 0 <= j < i ==> m'.fields[j] == m.fields[j];
    if i < |m.fields| {
      assert ValidBasic(m.fields[i].value.b) && ValidText(value) && |value| < TWO32 ==> ValidField(m'.fields[i]);
    }
  }

  /** Different messages have different bytes. */
  lemma EncodeInjective(m: Msg, m': Msg)
    requires Fits(m) && Fits(m') && Encode(m) == Encode(m')
    ensures m == m'
  {
    hide Encode, FieldArray, ReadU32, ValidFields, DecodeFields, Front, Pad, Marker;
    var raw := Encode(m);
    PrologueOf(m);
    PrologueOf(m');
    MarkersDiffer(m.e, m'.e);
    SmallRemainder(ArrayLen(m));
    SmallRemainder(ArrayLen(m'));
    Layout(m);
    Layout(m');
    FieldsRoundTrip(m.e, FieldArray(m.e, m.fields), m.fields);
    FieldsRoundTrip(m.e, FieldArray(m.e, m.fields), m'.fields);
  }

  lemma SmallRemainder(n: nat)
    requires n < TWO32
    ensures n % TWO32 == n
  {
  }

  lemma MarkersDiffer(e: Endian, e': Endian)
    requires Marker(e) == Marker(e')
    ensures e == e'
  {
  }

  /** The edit is exact if and only if no 8-aligned field stands before the
      target, or there was nothing to change. */
  lemma EditExact(m: Msg, code: byte, value: bytes)
    requires Fits(m) && Editable(m.fields, code) && Fits(Edited(m, code, value))
    ensures Rewritten(Encode(m), m.e, code, value) == Ok(Encode(Edited(m, code, value))) <==>
      (Blocked(m.fields, code) ==>
        m.fields[FirstIndex(m.fields, code)].value.b.s == value && AllZero(m.pad))
  {
    hide Encode, Rewritten, Fits;
    EditRefines(m, code, value);
    if Blocked(m.fields, code) {
      var m', i := Edited(m, code, value), FirstIndex(m.fields, code);
      ZerosOnly(m.pad);
      if Encode(m) == Encode(m') {
        EncodeInjective(m, m');
        assert m'.fields[i] == WithText(m.fields[i], value);
        assert AllZero(m'.pad);
      } else if m.fields[i].value.b.s == value && AllZero(m.pad) {
        assert WithText(m.fields[i], value) == m.fields[i];
        assert m'.fields == m.fields;
        FitsPad(m);
      }
    }
  }

  lemma FitsPad(m: Msg)
    requires Fits(m)
    ensures |m.pad| == PadLen(m)
  {
  }

  /** The family that fails is not empty: with a 64-bit field in front, a
      sender keeps its real name. */
  lemma WideFieldHidesSender()
    ensures var fields := [Field(10, Plain(Fixed(CODE_T, Zeros(8)))), Field(FIELD_SENDER, Plain(Text(CODE_S, [58, 49])))];
      var m := Msg(Little, 4, 0, 7, fields, Zeros(5), []);
      Fits(m) && Editable(fields, FIELD_SENDER)
      && Rewritten(Encode(m), Little, FIELD_SENDER, [58, 104, 46, 49]) == Ok(Encode(m))
      && HeaderFor(m).fields.sender == Some([58, 49])
  {
    hide Rewritten, Encode, FieldArray, Utf8.Valid, FieldBytes;
    var name := [58, 49];
    var f, g := Field(10, Plain(Fixed(CODE_T, Zeros(8)))), Field(FIELD_SENDER, Plain(Text(CODE_S, name)));
    var fields := [f, g];
    var m := Msg(Little, 4, 0, 7, fields, Zeros(5), []);
    assert fields[1..] == [g] && FirstIndex([g], FIELD_SENDER) == 0;
    assert FirstIndex(fields, FIELD_SENDER) == 1 && WideField(fields[0]);
    assert fields[..1] == [f] && Collect(fields) == Assign(Collect([f]), g);
    TwoByteText();
    TwoFieldsLength(f, g);
    EditRefines(m, FIELD_SENDER, [58, 104, 46, 49]);
  }

  lemma TwoByteText()
    ensures ValidText([58, 49])
  {
    assert [58, 49][1..] == [49] && [49][1..] == [];
    assert Utf8.Valid([]);
    assert Utf8.Valid([49]);
  }

  lemma TwoFieldsLength(f: Field, g: Field)
    requires f == Field(10, Plain(Fixed(CODE_T, Zeros(8)))) && g == Field(FIELD_SENDER, Plain(Text(CODE_S, [58, 49])))
    ensures |FieldArray(Little, [f, g])| == 27
  {
    hide FieldArray, FieldBytes, LeadLen;
    FieldArrayCons(Little, f, [g]);
    assert [f] + [g] == [f, g];
    FieldArrayCons(Little, g, []);
    LeadLengths(f.value, g.value);
    assert |FieldBytes(Little, f)| == 16 && |FieldBytes(Little, g)| == 11;
    AlignedSame(16);
  }

  lemma LeadLengths(f: Value, g: Value)
    requires f.Plain? && CodeOf(f.b) == CODE_T && g.Plain? && CodeOf(g.b) == CODE_S
    ensures LeadLen(f) == 8 && LeadLen(g) == 4
  {
    hide LeadLen;
    PlainLeadLen(f);
    PlainLeadLen(g);
  }

  // ----- size -----

  lemma AlignStep(n: nat)
    ensures Align(n + 2, 8) == Align(n, 8) || Align(n + 2, 8) == Align(n, 8) + 8
  {
    RestSum(n, 2, 8);
  }

  lemma ArrayLenParts(m: Msg, i: nat)
    requires i < |m.fields| && TextField(m.fields[i]) && IsText(m.fields[i].value.b.code)
    ensures var rest := m.fields[i + 1..];
      ArrayLen(m) == |Before(m.e, m.fields[..i])| + |m.fields[i].value.b.s| + 9
        + (if |rest| == 0 then 0 else Pad(|m.fields[i].value.b.s| + 9, 8)) + |FieldArray(m.e, rest)|
  {
    hide FieldArray, Before, Pad;
    ArrayParts(m.e, m.fields, i);
    FieldArrayNonEmpty(m.e, m.fields[i + 1..]);
  }

  lemma StepLengths(b: nat, n: nat, r: nat, last: bool)
    ensures var x := 16 + b + n + 9 + (if last then 0 else Pad(n + 9, 8)) + r;
      var y := 16 + b + n + 11 + (if last then 0 else Pad(n + 11, 8)) + r;
      Align(y, 8) == Align(x, 8) || Align(y, 8) == Align(x, 8) + 8
  {
    hide Pad;
    var x := 16 + b + n + 9 + (if last then 0 else Pad(n + 9, 8)) + r;
    AlignStep(n + 9);
    AlignStep(x);
    AlignEight(x);
  }

  lemma EncodedLength(m: Msg)
    requires |m.pad| == PadLen(m)
    ensures |Encode(m)| == Align(16 + ArrayLen(m), 8) + |m.body|
  {
    hide Encode, FieldArray;
    Layout(m);
  }

  /** Adding a bus prefix (two bytes) lengthens a message by 0 or 8, removing
      one undoes that, and the body stays on an 8-byte boundary. */
  lemma EditLength(m: Msg, code: byte, value: bytes)
    requires Fits(m) && Editable(m.fields, code) && FirstIndex(m.fields, code) < |m.fields|
    requires |value| == |m.fields[FirstIndex(m.fields, code)].value.b.s| + 2
    ensures var m' := Edited(m, code, value);
      |Encode(m')| == |Encode(m)| || |Encode(m')| == |Encode(m)| + 8
    ensures var m' := Edited(m, code, value);
      Aligned(|Encode(m)| - |m.body|, 8) && Aligned(|Encode(m')| - |m'.body|, 8) && m'.body == m.body
  {
    hide FieldArray, Before, FirstIndex, Encode, Align, ArrayLen, PadLen, Pad;
    var m', i := Edited(m, code, value), FirstIndex(m.fields, code);
    var rest := m.fields[i + 1..];
    assert m'.fields[..i] == m.fields[..i] && m'.fields[i + 1..] == rest;
    assert ValidField(m.fields[i]);
    ArrayLenParts(m, i);
    ArrayLenParts(m', i);
    PadLenFields(m.(fields := m'.fields), m');
    EncodedLength(m);
    EncodedLength(m');
    StepLengths(|Before(m.e, m.fields[..i])|, |m.fields[i].value.b.s|, |FieldArray(m.e, rest)|, |rest| == 0);
  }

  lemma AlignEight(n: nat)
    ensures Align(n + 8, 8) == Align(n, 8) + 8
  {
    PadShift(8, n, 8);
  }

  // ----- undo -----

  lemma EditTwice(m: Msg, code: byte, value: bytes)
    requires Editable(m.fields, code) && FirstIndex(m.fields, code) < |m.fields|
    requires Editable(Edited(m, code, value).fields, code)
    ensures Edited(Edited(m, code, value), code, m.fields[FirstIndex(m.fields, code)].value.b.s) == m.(pad := Zeros(PadLen(m)))
  {
    hide FirstIndex, PadLen, Zeros;
    EditedInPlace(m, code, value);
    var i := FirstIndex(m.fields, code);
    var m' := Edited(m, code, value);
    assert m'.fields[i] == WithText(m.fields[i], value);
    assert m'.fields[i := m.fields[i]] == m.fields;
    PadLenSame(m, m.pad, Zeros(PadLen(m)));
    var back := Edited(m', code, m.fields[i].value.b.s);
    assert back.fields == m.fields;
    PadLenFields(m, m'.(fields := m.fields));
  }

  lemma PadLenSame(m: Msg, p: bytes, q: bytes)
    ensures PadLen(m.(pad := p)) == PadLen(m.(pad := q))
  {
  }

  lemma PadLenFields(m: Msg, m': Msg)
    requires m.e == m'.e && m.fields == m'.fields
    ensures PadLen(m) == PadLen(m')
  {
  }

  /** Replacing a name and putting the old one back gives back every byte, if
      and only if the body padding was made of zeros. */
  lemma EditUndo(m: Msg, code: byte, value: bytes)
    requires Fits(m) && Editable(m.fields, code) && FirstIndex(m.fields, code) < |m.fields|
    requires !Blocked(m.fields, code) && Fits(Edited(m, code, value))
    ensures var there := Rewritten(Encode(m), m.e, code, value);
      there.Ok?
      && (Rewritten(there.value, m.e, code, m.fields[FirstIndex(m.fields, code)].value.b.s) == Ok(Encode(m)) <==> AllZero(m.pad))
  {
    hide Rewritten, Encode, FirstIndex, Fits, Edited, Blocked;
    var old' := m.fields[FirstIndex(m.fields, code)].value.b.s;
    EditRefines(m, code, value);
    EditedInPlace(m, code, value);
    EditRefines(Edited(m, code, value), code, old');
    EditTwice(m, code, value);
    ZerosOnly(m.pad);
    FitsPad(m);
    var back := m.(pad := Zeros(PadLen(m)));
    FitsOther(m, back);
    if Encode(back) == Encode(m) {
      EncodeInjective(back, m);
    }
  }

  lemma FitsOther(m: Msg, m': Msg)
    requires Fits(m) && m' == m.(pad := Zeros(PadLen(m)))
    ensures Fits(m')
  {
  }

  // ----- the cached header -----

  /** Parsing keeps the last field of each code; editing changes the first. */
  function LastString(fs: seq<Field>, code: byte): Option<bytes> {
    if |fs| == 0 then None
    else if fs[|fs| - 1].code == code then AsString(fs[|fs| - 1].value)
    else LastString(fs[..|fs| - 1], code)
  }

  predicate Once(fs: seq<Field>, code: byte) {
    var i := FirstIndex(fs, code);
    i < |fs| && forall j :: i < j < |fs| ==> fs[j].code != code
  }

  predicate IsNameCode(code: byte) { code == FIELD_SENDER || code == FIELD_DESTINATION }

  lemma {:induction false} CollectNames(fs: seq<Field>, code: byte)
    requires IsNameCode(code)
    ensures NameIn(Collect(fs), code) == LastString(fs, code)
    decreases |fs|
  {
    if |fs| > 0 {
      CollectNames(fs[..|fs| - 1], code);
    }
  }

  lemma {:induction false} CollectEdit(fs: seq<Field>, gs: seq<Field>, code: byte)
    requires IsNameCode(code) && SameCodes(fs, gs)
    requires forall j :: 0 <= j < |fs| && fs[j].code != code ==> fs[j] == gs[j]
    ensures Collect(gs) == WithName(Collect(fs), code, LastString(gs, code))
    decreases |fs|
  {
    if |fs| > 0 {
      CollectEdit(fs[..|fs| - 1], gs[..|gs| - 1], code);
      CollectNames(gs, code);
    }
  }

  lemma {:induction false} FirstIndexPrefix(fs: seq<Field>, code: byte)
    requires |fs| > 0
    ensures FirstIndex(fs[..|fs| - 1], code) ==
      if FirstIndex(fs, code) >= |fs| - 1 then |fs| - 1 else FirstIndex(fs, code)
  {
    var init := fs[..|fs| - 1];
    var i, k := FirstIndex(fs, code), FirstIndex(init, code);
    assert k < |init| ==> fs[k] == init[k];
    assert i < |init| ==> init[i].code == code;
  }

  lemma {:induction false} LastStringOnce(fs: seq<Field>, code: byte)
    requires Once(fs, code)
    ensures LastString(fs, code) == AsString(fs[FirstIndex(fs, code)].value)
    decreases |fs|
  {
    if fs[|fs| - 1].code != code {
      FirstIndexPrefix(fs, code);
      LastStringOnce(fs[..|fs| - 1], code);
    }
  }

  lemma {:induction false} LastStringRepeated(fs: seq<Field>, gs: seq<Field>, code: byte)
    requires SameCodes(fs, gs) && !Once(fs, code)
    requires forall j :: 0 <= j < |fs| && j != FirstIndex(fs, code) ==> fs[j] == gs[j]
    ensures LastString(gs, code) == LastString(fs, code)
    decreases |fs|
  {
    if |fs| > 0 && fs[|fs| - 1].code != code {
      FirstIndexPrefix(fs, code);
      var init := fs[..|fs| - 1];
      if Once(init, code) {
        assert forall j :: FirstIndex(fs, code) < j < |init| ==> fs[j] == init[j];
        assert Once(fs, code);
      }
      LastStringRepeated(init, gs[..|gs| - 1], code);
    }
  }

  /** What a re-parse of the edited message finds. */
  lemma CollectAfterEdit(m: Msg, code: byte, value: bytes)
    requires IsNameCode(code) && Editable(m.fields, code) && FirstIndex(m.fields, code) < |m.fields|
    ensures var name := if Once(m.fields, code) then AsString(WithText(m.fields[FirstIndex(m.fields, code)], value).value)
        else LastString(m.fields, code);
      Collect(Edited(m, code, value).fields) == WithName(Collect(m.fields), code, name)
  {
    hide Once, Collect, FirstIndex, LastString;
    var gs, i := Edited(m, code, value).fields, FirstIndex(m.fields, code);
    EditedInPlace(m, code, value);
    CollectEdit(m.fields, gs, code);
    assert gs[i] == WithText(m.fields[i], value);
    if Once(m.fields, code) {
      OnceSame(m.fields, gs, code);
      LastStringOnce(gs, code);
    } else {
      LastStringRepeated(m.fields, gs, code);
    }
  }

  lemma OnceSame(fs: seq<Field>, gs: seq<Field>, code: byte)
    requires SameCodes(fs, gs) && Once(fs, code)
    ensures Once(gs, code)
  {
    FirstIndexSame(fs, gs, code);
  }

  /** Rewriting a header name of a received message: the bytes are the encoding
      of the simple edit, and the cached header is what parsing those bytes
      gives, if and only if the name occurs once and nothing blocks it. */
  lemma CachedHeader(msg: Message, direction: Direction, source: Bus, name: bytes)
    requires AsRead(msg) && Decodes(msg.raw)
    requires var old' := NameIn(msg.header.fields, NameCode(direction));
      old'.Some? && NewName(old'.value, direction, source) == Some(name)
    requires Editable(Decode(msg.raw).fields, NameCode(direction))
    requires WithinLimits(Edited(Decode(msg.raw), NameCode(direction), name))
    ensures var m, code, out := Decode(msg.raw), NameCode(direction), HeaderRewritten(msg, direction, source);
      out.Ok? && Whole(out.value.raw)
      && out.value.raw == Encode(if Blocked(m.fields, code) then m else Edited(m, code, name))
      && (out.value.header == HeaderOf(out.value.raw) <==> Once(m.fields, code) && !Blocked(m.fields, code))
  {
    hide Rewritten, Encode, Edited, WithinLimits, Collect, FirstIndex, Blocked, Once, Decode, Decodes, Whole, HeaderOf, NewName;
    var m, code := Decode(msg.raw), NameCode(direction);
    var m' := Edited(m, code, name);
    DecodedHeader(msg);
    EditRefines(m, code, name);
    HeaderOfEncoded(m);
    HeaderOfEncoded(m');
    CollectNames(m.fields, code);
    NameChanges(msg.header.fields, direction, source);
    LastStringFound(m.fields, code);
    CollectAfterEdit(m, code, name);
    EditedInPlace(m, code, name);
    if Once(m.fields, code) {
      LastStringOnce(m.fields, code);
    }
  }

  lemma DecodedHeader(msg: Message)
    requires AsRead(msg) && Decodes(msg.raw)
    ensures var m := Decode(msg.raw);
      WithinLimits(m) && Fits(m) && Encode(m) == msg.raw && msg.header == HeaderFor(m) && m.e == msg.header.endian
  {
    hide Encode, Decode, HeaderOf;
    EncodeDecode(msg.raw);
    HeaderOfEncoded(Decode(msg.raw));
  }

  lemma NameChanges(f: HeaderFields, direction: Direction, source: Bus)
    requires NameIn(f, NameCode(direction)).Some?
    requires NewName(NameIn(f, NameCode(direction)).value, direction, source).Some?
    ensures NewName(NameIn(f, NameCode(direction)).value, direction, source).value != NameIn(f, NameCode(direction)).value
  {
  }

  lemma {:induction false} LastStringFound(fs: seq<Field>, code: byte)
    requires LastString(fs, code).Some?
    ensures FirstIndex(fs, code) < |fs|
    decreases |fs|
  {
    if fs[|fs| - 1].code != code {
      LastStringFound(fs[..|fs| - 1], code);
      FirstIndexPrefix(fs, code);
    }
  }
}
