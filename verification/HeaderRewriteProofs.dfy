/** Editing the bytes in place refines "decode, replace one value, encode". */
module HeaderRewriteProofs {
  import opened Wire
  import opened Message
  import opened MessageProofs
  import opened HeaderRewrite

  // ----- the simple edit -----

  /** Index of the first field with this code; the length when there is none. */
  function FirstIndex(fs: seq<Field>, code: byte): (i: nat)
    ensures i <= |fs| && (i < |fs| ==> fs[i].code == code)
    ensures forall j :: 0 <= j < i ==> fs[j].code != code
  {
    if |fs| == 0 || fs[0].code == code then 0 else FirstIndex(fs[1..], code) + 1
  }

  predicate TextField(f: Field) { f.value.Plain? && f.value.b.Text? }

  /** A field whose value is aligned to eight bytes. */
  predicate WideField(f: Field) { f.value.Plain? && IsWide(CodeOf(f.value.b)) }

  /** The first field with this code, if any, holds a string or an object path. */
  predicate Editable(fs: seq<Field>, code: byte) {
    var i := FirstIndex(fs, code);
    i < |fs| ==> TextField(fs[i])
  }

  /** Some field before the first one with this code is 8-aligned. */
  predicate Blocked(fs: seq<Field>, code: byte) {
    var i := FirstIndex(fs, code);
    i < |fs| && exists j :: 0 <= j < i && WideField(fs[j])
  }

  function WithText(f: Field, value: bytes): Field
    requires TextField(f)
  {
    f.(value := Plain(f.value.b.(s := value)))
  }

  function SetText(fs: seq<Field>, code: byte, value: bytes): seq<Field>
    requires Editable(fs, code)
  {
    var i := FirstIndex(fs, code);
    if i == |fs| then fs else fs[i := WithText(fs[i], value)]
  }

  /** The message with that value replaced and canonical body padding. */
  function Edited(m: Msg, code: byte, value: bytes): Msg
    requires Editable(m.fields, code)
  {
    if FirstIndex(m.fields, code) == |m.fields| then m else
    var m' := m.(fields := SetText(m.fields, code, value));
    m'.(pad := Zeros(PadLen(m')))
  }

  // ----- one field -----

  lemma PlainLead(e: Endian, f: Field, raw: bytes, p: nat)
    requires f.value.Plain? && Holds(raw, p, FieldBytes(e, f))
    ensures p + LeadLen(f.value) <= |raw|
    ensures raw[p] == f.code && raw[p + 1] == 1 && raw[p + 2] == CodeOf(f.value.b)
    ensures forall k :: p + 4 <= k < p + LeadLen(f.value) ==> raw[k] == 0
    ensures Holds(raw, p + LeadLen(f.value), BasicBytes(e, f.value.b))
  {
    hide FieldBytes, BasicBytes, ValueAlign;
    HoldsField(e, f, raw, p);
    HoldsFour(raw, p, [f.code, 1, CodeOf(f.value.b), 0]);
    var n := Pad(4, ValueAlign(CodeOf(f.value.b)));
    HoldsZeros(raw, p + 4, n);
    forall k | p + 4 <= k < p + LeadLen(f.value) ensures raw[k] == 0 {
      assert raw[k] == raw[p + 4..p + 4 + n][k - p - 4];
    }
  }

  lemma VariantLead(e: Endian, f: Field, raw: bytes, p: nat)
    requires f.value.Variant? && Holds(raw, p, FieldBytes(e, f))
    ensures p + LeadLen(f.value) <= |raw|
    ensures raw[p] == f.code && raw[p + 1] == 1 && raw[p + 2] == CODE_V
    ensures raw[p + 4] == 1 && raw[p + 5] == CodeOf(f.value.b)
    ensures Holds(raw, p + LeadLen(f.value), BasicBytes(e, f.value.b))
  {
    hide FieldBytes, BasicBytes, ValueAlign;
    HoldsField(e, f, raw, p);
    HoldsFour(raw, p, [f.code, 1, CODE_V, 0]);
    HoldsThree(raw, p + 4, [1, CodeOf(f.value.b), 0]);
  }

  /** Skipping a value of a basic type lands right behind it. */
  lemma SkipsBasic(e: Endian, b: Basic, raw: bytes, end: nat, p: nat)
    requires ValidBasic(b) && Holds(raw, p, BasicBytes(e, b)) && p + |BasicBytes(e, b)| <= end <= |raw|
    ensures SkipBasic(raw, e, end, p, CodeOf(b)) == Next(p + |BasicBytes(e, b)|)
  {
    hide U32, ReadU32, ValidText, TextBytes;
    match b {
      case Text(_, s) =>
        HoldsText(e, raw, p, s);
        HoldsU32(e, raw, p, |s|);
      case Signature(s) => HoldsSignature(raw, p, s);
      case Word(_, _) =>
      case Fixed(_, _) =>
    }
  }

  /** The scanning turn on a one-letter signature. */
  lemma ScanOneCode(raw: bytes, e: Endian, end: nat, p: nat, want: byte)
    requires Aligned(p, 8) && p + 4 <= end && p + 4 <= |raw| && raw[p + 1] == 1
    ensures var sig, n := raw[p + 2], Pad(4, ValueAlign(raw[p + 2]));
      ScanField(raw, e, end, p, want) ==
      if raw[p] == want then Found(p + 4 + n)
      else if p + 2 + n >= |raw| then Crash
      else SkipValue(raw, e, end, p + 4 + n, raw[p + 2 + n])
  {
    hide SkipValue, Pad, ValueAlign, Aligned, Align;
    var a := ValueAlign(raw[p + 2]);
    AlignedToAll(p, a);
    AlignFour(p, a);
    AlignedSame(p);
    assert SigByte(raw, p + 4, 1) == Some(raw[p + 2]);
  }

  lemma AlignFour(p: nat, a: alignment)
    requires Aligned(p, a)
    ensures Align(p + 4, a) == p + 4 + Pad(4, a)
  {
    PadShift(p, 4, a);
  }

  lemma PadOfZero()
    ensures Pad(0, 8) == 0
  {
  }

  lemma PadAfterLead(code: byte)
    ensures Pad(4, ValueAlign(code)) == if ValueAlign(code) == 8 then 4 else 0
    ensures Align(4, ValueAlign(code)) == 4 + Pad(4, ValueAlign(code))
  {
  }

  lemma PlainLeadLen(v: Value)
    requires v.Plain?
    ensures LeadLen(v) == if ValueAlign(CodeOf(v.b)) == 8 then 8 else 4
  {
    hide Pad, Align;
    PadAfterLead(CodeOf(v.b));
  }

  lemma ScansPlain(e: Endian, f: Field, raw: bytes, end: nat, p: nat, want: byte)
    requires ValidField(f) && f.value.Plain? && Aligned(p, 8) && Holds(raw, p, FieldBytes(e, f))
    requires p + |FieldBytes(e, f)| <= end <= |raw|
    ensures ScanField(raw, e, end, p, want) ==
      if f.code == want then Found(p + LeadLen(f.value)) else if WideField(f) then Stop else Next(p + |FieldBytes(e, f)|)
  {
    hide FieldBytes, BasicBytes, ValidText, SkipBasic, ScanField, Pad, Align;
    var code := CodeOf(f.value.b);
    PlainLead(e, f, raw, p);
    PadAfterLead(code);
    ScanOneCode(raw, e, end, p, want);
    SkipsBasic(e, f.value.b, raw, end, p + LeadLen(f.value));
  }

  lemma ScansVariant(e: Endian, f: Field, raw: bytes, end: nat, p: nat, want: byte)
    requires ValidField(f) && f.value.Variant? && Aligned(p, 8) && Holds(raw, p, FieldBytes(e, f))
    requires p + |FieldBytes(e, f)| <= end <= |raw|
    ensures ScanField(raw, e, end, p, want) == if f.code == want then Found(p + 4) else Next(p + |FieldBytes(e, f)|)
    ensures !WideField(f)
  {
    hide FieldBytes, BasicBytes, ValidText, SkipBasic, ScanField, Pad, Align;
    var code := CodeOf(f.value.b);
    VariantLead(e, f, raw, p);
    PadAfterLead(CODE_V);
    ScanOneCode(raw, e, end, p, want);
    AlignedToAll(p, ValueAlign(code));
    assert Align(p + 7, ValueAlign(code)) == p + LeadLen(f.value) by {
      ShiftAlign(p, 7, ValueAlign(code));
    }
    SkipsBasic(e, f.value.b, raw, end, p + LeadLen(f.value));
  }

  lemma ShiftAlign(p: nat, n: nat, a: alignment)
    requires Aligned(p, a)
    ensures Align(p + n, a) == p + Align(n, a)
  {
    PadShift(p, n, a);
  }

  // ----- the whole array -----

  /** The encoding of leading fields, each with the padding behind it. */
  function Before(e: Endian, fs: seq<Field>): bytes {
    PaddedAll(FieldItems(e, fs), 8)
  }

  lemma BeforeCons(e: Endian, f: Field, rest: seq<Field>)
    ensures Before(e, [f] + rest) == Padded(FieldBytes(e, f), 8) + Before(e, rest)
  {
    hide FieldBytes;
    assert ([f] + rest)[1..] == rest;
    assert FieldItems(e, [f] + rest)[1..] == FieldItems(e, rest);
  }

  lemma {:induction false} ArraySplit(e: Endian, left: seq<Field>, right: seq<Field>)
    requires |right| > 0
    ensures FieldArray(e, left + right) == Before(e, left) + FieldArray(e, right)
  {
    hide FieldBytes, FieldArray, Before;
    if |left| == 0 {
      assert left + right == right;
      assert Before(e, left) == [] by { BeforeNone(e); }
    } else {
      var f, rest := left[0], left[1..];
      assert left == [f] + rest && left + right == [f] + (rest + right);
      ArraySplit(e, rest, right);
      BeforeCons(e, f, rest);
      FieldArrayCons(e, f, rest + right);
    }
  }

  lemma BeforeNone(e: Endian)
    ensures Before(e, []) == []
  {
  }

  lemma FirstIndexCons(f: Field, rest: seq<Field>, code: byte)
    ensures var fs := [f] + rest;
      FirstIndex(fs, code) == (if f.code == code then 0 else FirstIndex(rest, code) + 1)
      && (f.code != code && Editable(fs, code) ==> Editable(rest, code))
      && Blocked(fs, code) == (f.code != code && FirstIndex(rest, code) < |rest| && (WideField(f) || Blocked(rest, code)))
  {
    var fs, i := [f] + rest, FirstIndex(rest, code);
    assert fs[1..] == rest;
    assert forall j :: 0 <= j < |rest| ==> fs[j + 1] == rest[j];
    if f.code != code && i < |rest| && (WideField(f) || Blocked(rest, code)) {
      if WideField(f) {
        assert WideField(fs[0]);
      } else {
        var j :| 0 <= j < i && WideField(rest[j]);
        assert WideField(fs[j + 1]);
      }
    }
    if f.code != code && Blocked(fs, code) {
      var j :| 0 <= j < i + 1 && WideField(fs[j]);
      assert j > 0 ==> WideField(rest[j - 1]);
    }
  }

  /** The first turn of the loop on an encoded field. */
  lemma FirstTurn(e: Endian, f: Field, raw: bytes, end: nat, pos: nat, p: nat, want: byte)
    requires ValidField(f) && Align(pos, 8) == p && Holds(raw, p, FieldBytes(e, f))
    requires p + |FieldBytes(e, f)| <= end <= |raw| && (f.code == want ==> TextField(f))
    ensures FindField(raw, e, end, pos, want) ==
      if f.code == want then Found(p + 4) else if WideField(f) then Stop
      else FindField(raw, e, end, p + |FieldBytes(e, f)|, want)
  {
    hide FieldBytes, ScanField, WideField, Pad, Align;
    AlignedSame(p);
    ScanFrom(raw, e, end, pos, p, want);
    if f.value.Plain? {
      ScansPlain(e, f, raw, end, p, want);
      PlainLeadLen(f.value);
    } else {
      ScansVariant(e, f, raw, end, p, want);
    }
  }

  /** The scan of an encoded field array finds the string of the first field
      with the wanted code, unless an 8-aligned field comes earlier. */
  lemma {:induction false} FindsField(e: Endian, fs: seq<Field>, raw: bytes, end: nat, pos: nat, p: nat, want: byte)
    requires ValidFields(fs) && |fs| > 0 && Editable(fs, want) && Align(pos, 8) == p
    requires Holds(raw, p, FieldArray(e, fs)) && p + |FieldArray(e, fs)| == end
    ensures var i := FirstIndex(fs, want);
      FindField(raw, e, end, pos, want) ==
      if i < |fs| && !Blocked(fs, want) then Found(p + |Before(e, fs[..i])| + 4) else Stop
    decreases |fs|
  {
    hide FieldBytes, FieldArray, Before, FindField, ValidField, Blocked, FirstIndex, Editable, WideField, TextField, Pad, Zeros;
    var f, rest := fs[0], fs[1..];
    var w := FieldBytes(e, f);
    assert fs == [f] + rest;
    FieldArrayCons(e, f, rest);
    FirstIndexCons(f, rest, want);
    if f.code == want {
      EditableLead(fs, want);
      BeforeNone(e);
      assert fs[..0] == [];
    }
    if |rest| == 0 {
      assert fs == [f];
      FirstTurn(e, f, raw, end, pos, p, want);
      FindEnds(raw, e, end, want);
    } else {
      HoldsParts(raw, p, Padded(w, 8), FieldArray(e, rest));
      HoldsParts(raw, p, w, Zeros(Pad(|w|, 8)));
      FirstTurn(e, f, raw, end, pos, p, want);
      if f.code != want && !WideField(f) {
        ShiftAlign(p, |w|, 8);
        AlignedSum(p, Align(|w|, 8), 8);
        FindsField(e, rest, raw, end, p + |w|, p + Align(|w|, 8), want);
        var i := FirstIndex(rest, want);
        assert fs[..i + 1] == [f] + rest[..i];
        BeforeCons(e, f, rest[..i]);
      }
    }
  }

  lemma FindEnds(raw: bytes, e: Endian, end: nat, want: byte)
    ensures FindField(raw, e, end, end, want) == Stop
  {
  }

  lemma EditableLead(fs: seq<Field>, want: byte)
    requires |fs| > 0 && fs[0].code == want && Editable(fs, want) && ValidField(fs[0])
    ensures TextField(fs[0]) && LeadLen(fs[0].value) == 4
  {
  }

  lemma AlignedSame(p: nat)
    requires Aligned(p, 8)
    ensures Align(p, 8) == p
  {
    PadShift(p, 0, 8);
    PadOfZero();
  }

  lemma ScanFrom(raw: bytes, e: Endian, end: nat, pos: nat, p: nat, want: byte)
    requires Align(pos, 8) == p && Align(p, 8) == p
    ensures ScanField(raw, e, end, pos, want) == ScanField(raw, e, end, p, want)
  {
    hide SkipValue, SigByte, ValueAlign, Align;
  }

  // ----- splicing -----

  /** The padding between a string field and the next field. */
  function Gap(s: bytes, last: bool): bytes {
    if last then [] else Zeros(Pad(|s| + 9, 8))
  }

  lemma TextFieldBytes(e: Endian, f: Field)
    requires TextField(f) && IsText(f.value.b.code)
    ensures FieldBytes(e, f) == [f.code, 1, f.value.b.code, 0] + TextBytes(e, f.value.b.s)
  {
    hide TextBytes;
    var lead := [f.code, 1, f.value.b.code, 0];
    PadAfterLead(f.value.b.code);
    assert FieldLead(f) == lead + Zeros(0) == lead;
  }

  /** A field array cut around the string of its field `i`. */
  lemma ArrayParts(e: Endian, fs: seq<Field>, i: nat)
    requires i < |fs| && TextField(fs[i]) && IsText(fs[i].value.b.code)
    ensures var f, rest := fs[i], fs[i + 1..];
      FieldArray(e, fs) == Before(e, fs[..i]) + [f.code, 1, f.value.b.code, 0] + TextBytes(e, f.value.b.s)
        + Gap(f.value.b.s, |rest| == 0) + FieldArray(e, rest)
  {
    hide FieldBytes, FieldArray, Before, TextBytes, IsText;
    var f, rest := fs[i], fs[i + 1..];
    assert fs[i..] == [f] + rest && fs == fs[..i] + fs[i..];
    ArraySplit(e, fs[..i], fs[i..]);
    FieldArrayCons(e, f, rest);
    TextFieldBytes(e, f);
    FieldArrayNonEmpty(e, rest);
    var b, lead, s, r := Before(e, fs[..i]), [f.code, 1, f.value.b.code, 0], TextBytes(e, f.value.b.s), FieldArray(e, rest);
    if |rest| == 0 {
      assert fs[i..] == [f] && r == [];
      assert b + (lead + s) == b + lead + s + [] + r;
    } else {
      var g := Zeros(Pad(|f.value.b.s| + 9, 8));
      assert b + ((lead + s) + g + r) == b + lead + s + g + r;
    }
  }

  lemma PadFormula(n: nat)
    ensures (8 - n % 8) % 8 == Pad(n, 8)
  {
  }

  /** The contents of a field array cut around one string. */
  function Parts(before: bytes, lead: bytes, e: Endian, s: bytes, rest: bytes): bytes {
    before + lead + TextBytes(e, s) + Gap(s, |rest| == 0) + rest
  }

  /** Where the pieces of a message lie when its array is cut around one string. */
  lemma PartsLayout(front: bytes, before: bytes, lead: bytes, e: Endian, s: bytes, rest: bytes, tail: bytes, raw: bytes)
    requires |front| == 16 && |lead| == 4
    requires raw == front + Parts(before, lead, e, s, rest) + tail
    ensures var pos, end := 20 + |before|, 16 + |Parts(before, lead, e, s, rest)|;
      end == pos + |s| + 5 + |Gap(s, |rest| == 0)| + |rest| <= |raw|
      && raw[..12] == front[..12] && raw[16..pos] == before + lead && Holds(raw, pos, TextBytes(e, s))
      && raw[end - |rest|..end] == rest && raw[end..] == tail
  {
    hide Pad, TextBytes, Gap;
    var text, gap := TextBytes(e, s), Gap(s, |rest| == 0);
    var p := Parts(before, lead, e, s, rest);
    HoldsParts(raw, 0, front + p, tail);
    HoldsParts(raw, 0, front, p);
    HoldsParts(raw, 16, before + lead + text + gap, rest);
    HoldsParts(raw, 16, before + lead + text, gap);
    HoldsParts(raw, 16, before + lead, text);
    assert raw[..12] == raw[..16][..12];
  }

  lemma TextLength(e: Endian, s: bytes, raw: bytes, pos: nat)
    requires |s| < TWO32 && Holds(raw, pos, TextBytes(e, s))
    ensures ReadU32(e, raw, pos) == |s|
  {
    hide U32, ReadU32, TextBytes;
    HoldsText(e, raw, pos, s);
    HoldsU32(e, raw, pos, |s|);
  }

  lemma PartsLengths(before: bytes, lead: bytes, e: Endian, s: bytes, rest: bytes)
    ensures |Parts(before, lead, e, s, rest)|
      == |before| + |lead| + |s| + 5 + (if |rest| == 0 then 0 else Pad(|s| + 9, 8)) + |rest|
  {
  }

  lemma PartsBehind(x: bytes, before: bytes, lead: bytes, e: Endian, s: bytes, gap: bytes, rest: bytes)
    requires gap == Gap(s, |rest| == 0)
    ensures x + (before + lead) + TextBytes(e, s) + gap + rest == x + Parts(before, lead, e, s, rest)
  {
  }

  /** The next field starts before the end of the array exactly when there is one. */
  lemma NextField(before: nat, s: nat, rest: nat, end: nat)
    requires Aligned(before, 8)
    requires end == 16 + before + 4 + s + 5 + (if rest == 0 then 0 else Pad(s + 9, 8)) + rest
    ensures var pos := 20 + before;
      Pad(pos + s + 5, 8) == Pad(s + 9, 8)
      && (Align(pos + s + 5, 8) < end <==> rest > 0) && (rest > 0 ==> Align(pos + s + 5, 8) == end - rest)
  {
    AlignedSum(16, before, 8);
    PadShift(16 + before, s + 9, 8);
  }

  /** Splicing on bytes already cut into parts. */
  lemma SpliceParts(front: bytes, before: bytes, lead: bytes, e: Endian, s: bytes, rest: bytes, pad: bytes, body: bytes, value: bytes)
    requires |front| == 16 && Aligned(|before|, 8) && |lead| == 4 && |s| < TWO32
    requires |pad| == Pad(16 + |Parts(before, lead, e, s, rest)|, 8)
    ensures var was, now := Parts(before, lead, e, s, rest), Parts(before, lead, e, value, rest);
      Splice(front + was + (pad + body), e, 16 + |was|, 20 + |before|, value)
      == Ok(front[..12] + U32(e, |now|) + now + Zeros(Pad(16 + |now|, 8)) + body)
  {
    hide U32, ReadU32, Aligned, Align, Pad, TextBytes, Parts, Holds, Splice, Zeros, Gap;
    var was, now := Parts(before, lead, e, s, rest), Parts(before, lead, e, value, rest);
    var raw, end, pos := front + was + (pad + body), 16 + |was|, 20 + |before|;
    PartsLayout(front, before, lead, e, s, rest, pad + body, raw);
    TextLength(e, s, raw, pos);
    PartsLengths(before, lead, e, s, rest);
    PartsLengths(before, lead, e, value, rest);
    NextField(|before|, |s|, |rest|, end);
    NextField(|before|, |value|, |rest|, 16 + |now|);
    var newPad := if |rest| > 0 then Pad(pos + |value| + 5, 8) else 0;
    AlignIs(end, |pad|);
    SpliceIs(raw, e, end, pos, value, |s|, Align(pos + |s| + 5, 8), newPad, |now|);
    U32Wraps(e, |now|);
    assert raw[end + |pad|..] == body by {
      assert raw[end..][|pad|..] == body;
    }
    assert (if |rest| > 0 then raw[end - |rest|..end] else []) == rest;
    GapIs(|before|, value, |rest| == 0);
    PartsBehind(front[..12] + U32(e, |now|), before, lead, e, value, Zeros(newPad), rest);
  }

  lemma AlignIs(n: nat, p: nat)
    requires p == Pad(n, 8)
    ensures Align(n, 8) == n + p
  {
  }

  lemma GapIs(before: nat, value: bytes, last: bool)
    requires Aligned(before, 8)
    ensures Gap(value, last) == Zeros(if last then 0 else Pad(20 + before + |value| + 5, 8))
  {
    AlignedSum(16, before, 8);
    PadShift(16 + before, |value| + 9, 8);
  }

  /** The splice, once the old length and the paddings are known. */
  lemma SpliceIs(raw: bytes, e: Endian, end: nat, pos: nat, value: bytes, n: nat, next: nat, newPad: nat, newLen: nat)
    requires 16 <= pos && 16 <= end && pos + 4 <= |raw| && end <= |raw| && Align(end, 8) <= |raw|
    requires ReadU32(e, raw, pos) == n && next == Align(pos + n + 5, 8)
    requires newPad == if next < end then Pad(pos + |value| + 5, 8) else 0
    requires newLen == (end - 16) + (|value| + 5 + newPad) - (if next < end then next - pos else n + 5)
    ensures Splice(raw, e, end, pos, value) ==
      Ok(raw[..12] + U32(e, newLen % TWO32) + raw[16..pos] + TextBytes(e, value) + Zeros(newPad)
         + (if next < end then raw[next..end] else []) + Zeros(Pad(16 + newLen, 8)) + raw[Align(end, 8)..])
  {
    hide U32, ReadU32, Pad, TextBytes, Zeros;
    PadFormula(16 + newLen);
  }

  // ----- main results -----

  lemma FoundAndSpliced(m: Msg, code: byte, value: bytes)
    requires Fits(m) && Editable(m.fields, code) && FirstIndex(m.fields, code) < |m.fields|
    ensures var i := FirstIndex(m.fields, code);
      Splice(Encode(m), m.e, 16 + ArrayLen(m), 20 + |Before(m.e, m.fields[..i])|, value) == Ok(Encode(Edited(m, code, value)))
  {
    hide U32, FieldArray, Before, TextBytes, Gap, Splice, FirstIndex, Pad, ValidText, Front;
    var i := FirstIndex(m.fields, code);
    var f, rest := m.fields[i], m.fields[i + 1..];
    var m' := Edited(m, code, value);
    var f' := m'.fields[i];
    var b, lead, r := Before(m.e, m.fields[..i]), [code, 1, f.value.b.code, 0], FieldArray(m.e, rest);
    assert m'.fields[..i] == m.fields[..i] && m'.fields[i + 1..] == rest;
    ArrayParts(m.e, m.fields, i);
    ArrayParts(m.e, m'.fields, i);
    FieldArrayNonEmpty(m.e, rest);
    BeforeAligned(m.e, m.fields[..i]);
    assert FieldArray(m.e, m.fields) == Parts(b, lead, m.e, f.value.b.s, r);
    assert FieldArray(m.e, m'.fields) == Parts(b, lead, m.e, value, r);
    SpliceParts(Front(m), b, lead, m.e, f.value.b.s, r, m.pad, m.body, value);
    assert Encode(m) == Front(m) + FieldArray(m.e, m.fields) + (m.pad + m.body);
    FrontLayout(m);
    FrontLayout(m');
    assert Front(m')[..12] == Front(m)[..12];
    assert Front(m') == Front(m')[..12] + Front(m')[12..16];
  }

  lemma BeforeAligned(e: Endian, fs: seq<Field>)
    ensures Aligned(|Before(e, fs)|, 8)
  {
  }

  /** In-place editing is decode, replace, encode - for every message, byte
      order and value - except that an 8-aligned field in front hides the
      target, and then the bytes stay as they are. */
  lemma EditRefines(m: Msg, code: byte, value: bytes)
    requires Fits(m) && Editable(m.fields, code)
    ensures Rewritten(Encode(m), m.e, code, value) ==
      Ok(Encode(if Blocked(m.fields, code) then m else Edited(m, code, value)))
  {
    hide FieldArray, Before, Splice, FirstIndex, Encode, FindField, Blocked, ValidFields, Rewritten;
    var raw := Encode(m);
    RewrittenByScan(m, code, value);
    FieldArrayNonEmpty(m.e, m.fields);
    if |m.fields| > 0 {
      Layout(m);
      AlignedSame(16);
      FindsField(m.e, m.fields, raw, 16 + ArrayLen(m), 16, 16, code);
      if FirstIndex(m.fields, code) < |m.fields| {
        FoundAndSpliced(m, code, value);
      }
      NotBlockedWithout(m.fields, code);
    } else {
      FindEnds(raw, m.e, 16, code);
      NotBlockedWithout(m.fields, code);
    }
  }

  lemma NotBlockedWithout(fs: seq<Field>, code: byte)
    ensures FirstIndex(fs, code) == |fs| ==> !Blocked(fs, code)
  {
    hide FirstIndex;
  }

  /** What the edit of an encoded message does, by what its scan found. */
  lemma RewrittenByScan(m: Msg, code: byte, value: bytes)
    requires Fits(m)
    ensures var raw, end := Encode(m), 16 + ArrayLen(m);
      var scan := FindField(raw, m.e, end, 16, code);
      Rewritten(raw, m.e, code, value) ==
      if scan.Found? then Splice(raw, m.e, end, scan.at, value) else if scan.Crash? then Panic else Ok(raw)
  {
    hide FieldArray, Encode, FindField, Splice, ReadU32, ValidFields;
    PrologueOf(m);
  }

  // ----- no message makes the edit panic -----

  /** One turn of the scan on an encoded field, whatever its value. */
  lemma SafeTurn(e: Endian, f: Field, raw: bytes, end: nat, pos: nat, p: nat, want: byte)
    requires ValidField(f) && Align(pos, 8) == p && Holds(raw, p, FieldBytes(e, f))
    requires p + |FieldBytes(e, f)| <= end <= |raw|
    ensures f.code == want || WideField(f) ==> !FindField(raw, e, end, pos, want).Crash?
    ensures f.code != want && !WideField(f) ==>
      FindField(raw, e, end, pos, want) == FindField(raw, e, end, p + |FieldBytes(e, f)|, want)
  {
    hide FieldBytes, ScanField, WideField, Pad, Align;
    AlignedSame(p);
    ScanFrom(raw, e, end, pos, p, want);
    if f.value.Plain? {
      ScansPlain(e, f, raw, end, p, want);
    } else {
      ScansVariant(e, f, raw, end, p, want);
    }
  }

  lemma {:induction false} ScanStaysInside(e: Endian, fs: seq<Field>, raw: bytes, end: nat, pos: nat, p: nat, want: byte)
    requires ValidFields(fs) && |fs| > 0 && Align(pos, 8) == p
    requires Holds(raw, p, FieldArray(e, fs)) && p + |FieldArray(e, fs)| == end
    ensures !FindField(raw, e, end, pos, want).Crash?
    decreases |fs|
  {
    hide FieldBytes, FieldArray, FindField, ValidField, WideField, Pad, Zeros;
    var f, rest := fs[0], fs[1..];
    var w := FieldBytes(e, f);
    assert fs == [f] + rest;
    FieldArrayCons(e, f, rest);
    if |rest| == 0 {
      assert fs == [f];
      SafeTurn(e, f, raw, end, pos, p, want);
      FindEnds(raw, e, end, want);
    } else {
      HoldsParts(raw, p, Padded(w, 8), FieldArray(e, rest));
      HoldsParts(raw, p, w, Zeros(Pad(|w|, 8)));
      SafeTurn(e, f, raw, end, pos, p, want);
      ShiftAlign(p, |w|, 8);
      AlignedSum(p, Align(|w|, 8), 8);
      ScanStaysInside(e, rest, raw, end, p + |w|, p + Align(|w|, 8), want);
    }
  }

  lemma SpliceStaysInside(raw: bytes, e: Endian, end: nat, pos: nat, value: bytes)
    requires |raw| >= 16 && pos >= 16 && end >= 16 && Align(end, 8) <= |raw|
    ensures !Splice(raw, e, end, pos, value).Panic?
    ensures Splice(raw, e, end, pos, value).Ok? ==> |Splice(raw, e, end, pos, value).value| >= 16
  {
    hide ReadU32, U32, Pad, TextBytes, Zeros;
  }

  /** Whatever field is edited, of whatever type, the edit of a message does
      not run out of its bytes. */
  lemma EditNeverPanics(m: Msg, code: byte, value: bytes)
    requires Fits(m)
    ensures var r := Rewritten(Encode(m), m.e, code, value);
      !r.Panic? && (r.Ok? ==> |r.value| >= 16)
  {
    hide FieldArray, Encode, ScanField, ReadU32, ValidFields, Splice, FindField;
    var raw := Encode(m);
    PrologueOf(m);
    Layout(m);
    FieldArrayNonEmpty(m.e, m.fields);
    var end := 16 + ArrayLen(m);
    AlignedSame(16);
    if |m.fields| > 0 {
      ScanStaysInside(m.e, m.fields, raw, end, 16, 16, code);
    } else {
      FindEnds(raw, m.e, end, code);
    }
    if FindField(raw, m.e, end, 16, code).Found? {
      SpliceStaysInside(raw, m.e, end, FindField(raw, m.e, end, 16, code).at, value);
    }
  }
}
