/** Body edits refine edits of the abstract message, and what the builders
    write reads back. */
module BodyProofs {
  import opened Wire
  import Utf8
  import opened Message
  import opened MessageProofs
  import opened FakeNames
  import opened HeaderRewrite
  import opened HeaderRewriteProofs
  import opened HeaderEdits
  import opened Bodies
  import opened MatchRules

  // ----- replacing the body -----

  lemma BodyStartOf(m: Msg)
    requires Fits(m)
    ensures var raw := Encode(m);
      |raw| >= 16 && BodyStart(raw, m.e) == 16 + ArrayLen(m) + |m.pad| <= |raw| && raw[BodyStart(raw, m.e)..] == m.body
  {
    hide Encode, FieldArray, ReadU32, Front, Pad, ValidFields;
    PrologueOf(m);
    Layout(m);
    SmallRemainder(ArrayLen(m));
  }

  /** Replacing the body bytes is replacing the body: header, padding and
      everything else stay. */
  lemma RebuildRefines(m: Msg, body: bytes)
    requires Fits(m)
    ensures Rebuilt(Encode(m), m.e, body) == Ok(Encode(m.(body := body)))
  {
    hide FieldArray, ReadU32, U32, Front, Pad, ValidFields, BodyStart, Marker;
    var raw, m' := Encode(m), m.(body := body);
    BodyStartOf(m);
    Layout(m);
    FrontLayout(m);
    FrontLayout(m');
    var start, a := BodyStart(raw, m.e), FieldArray(m.e, m.fields);
    assert raw[..4] == Front(m)[..4] by { assert raw[..16][..4] == raw[..4]; }
    assert raw[8..16] == Front(m)[8..12] + Front(m)[12..16] by { assert raw[..16][8..] == raw[8..16]; }
    assert raw[8..start] == raw[8..16] + a + m.pad;
    assert Front(m') == Front(m')[..4] + Front(m')[4..8] + Front(m')[8..12] + Front(m')[12..16];
    RebuildAssoc(Front(m')[..4], Front(m')[4..8], Front(m')[8..12], Front(m')[12..16], a, m.pad, body);
  }

  lemma RebuildAssoc(a: bytes, b: bytes, c: bytes, d: bytes, f: bytes, p: bytes, body: bytes)
    ensures a + b + ((c + d) + f + p) + body == (a + b + c + d) + f + p + body
  {
  }

  /** Builds the message with another body. Nothing but the body and its length
      changes, whatever message the bytes encode; bytes too short to have a
      body end in a panic. */
  method RebuildMessageWithBody(raw: bytes, e: Endian, newBody: bytes) returns (r: Outcome<bytes>)
    ensures forall m: Msg :: Fits(m) && raw == Encode(m) && e == m.e ==> r == Ok(Encode(m.(body := newBody)))
    ensures r == Rebuilt(raw, e, newBody)
  {
    hide Encode, Fits, U32, ReadU32, Pad;
    forall m: Msg | Fits(m) && raw == Encode(m) && e == m.e ensures Rebuilt(raw, e, newBody) == Ok(Encode(m.(body := newBody))) {
      RebuildRefines(m, newBody);
    }
    if |raw| < 16 {
      return Panic;
    }
    var bodyStart := BodyStart(raw, e);
    if bodyStart > |raw| {
      return Panic;
    }
    var newRaw := raw[..4];
    newRaw := newRaw + U32(e, |newBody|);
    newRaw := newRaw + raw[8..bodyStart];
    newRaw := newRaw + newBody;
    return Ok(newRaw);
  }

  /** Header edits and body edits do not disturb each other: in either order
      they give the encoding of the message with both values replaced, and the
      router accepts those bytes exactly when both sizes are within limits. */
  lemma EditsCommute(m: Msg, code: byte, value: bytes, body: bytes)
    requires Fits(m) && Editable(m.fields, code) && !Blocked(m.fields, code)
    requires |body| < TWO32 && Fits(Edited(m, code, value))
    ensures var both := Edited(m, code, value).(body := body);
      var header, edited := Rewritten(Encode(m), m.e, code, value), Rebuilt(Encode(m), m.e, body);
      header.Ok? && edited.Ok? && Rebuilt(header.value, m.e, body) == Ok(Encode(both))
      && Rewritten(edited.value, m.e, code, value) == Ok(Encode(both))
      && (WithinLimits(both) <==> Whole(Encode(both)))
  {
    hide Rewritten, Rebuilt, Encode, FirstIndex, Blocked, ValidFields, FieldArray;
    var m' := m.(body := body);
    EditRefines(m, code, value);
    RebuildRefines(m, body);
    EditedBody(m, code, value, body);
    EditRefines(m', code, value);
    RebuildRefines(Edited(m, code, value), body);
    PrologueAccepts(Edited(m, code, value).(body := body));
    PrologueOf(Edited(m, code, value).(body := body));
  }

  lemma EditedBody(m: Msg, code: byte, value: bytes, body: bytes)
    requires Editable(m.fields, code)
    ensures Edited(m.(body := body), code, value) == Edited(m, code, value).(body := body)
  {
  }

  // ----- reading the first string -----

  lemma BodyStringOf(m: Msg, s: bytes, rest: bytes)
    requires Fits(m) && m.body == TextBytes(m.e, s) + rest && |s| < TWO32
    ensures BodyString(Encode(m), m.e) == Ok(Utf8.Lossy(s))
    ensures |Encode(m)| >= 16 && ExtractName(Encode(m), m.e) == if Utf8.Valid(s) then Some(s) else None
  {
    hide Encode, FieldArray, Fits, TextBytes, BodyStart, BodyString, ExtractName, Utf8.Valid, Utf8.Lossy;
    var raw := Encode(m);
    BodyStartOf(m);
    TextInFront(raw, BodyStart(raw, m.e), TextBytes(m.e, s), rest);
    TextAtStart(raw, m.e, s);
  }

  lemma TextInFront(raw: bytes, start: nat, front: bytes, rest: bytes)
    requires start <= |raw| && raw[start..] == front + rest
    ensures Holds(raw, start, front)
  {
    assert Holds(raw, start, front + rest);
    HoldsParts(raw, start, front, rest);
  }

  lemma TextAtStart(raw: bytes, e: Endian, s: bytes)
    requires |raw| >= 16 && |s| < TWO32 && Holds(raw, BodyStart(raw, e), TextBytes(e, s))
    ensures BodyString(raw, e) == Ok(Utf8.Lossy(s)) && ExtractName(raw, e) == if Utf8.Valid(s) then Some(s) else None
  {
    hide ReadU32, U32, BodyStart, Utf8.Valid, Utf8.Lossy, TextBytes, Holds;
    var start := BodyStart(raw, e);
    TextLength(e, s, raw, start);
    TextSlice(e, s, raw, start);
  }

  lemma TextSlice(e: Endian, s: bytes, raw: bytes, at: nat)
    requires Holds(raw, at, TextBytes(e, s))
    ensures at + 4 + |s| < |raw| && raw[at + 4..at + 4 + |s|] == s
  {
    hide TextBytes;
    HoldsText(e, raw, at, s);
  }

  lemma FakeOfText(s: bytes, b: Bus)
    requires ValidText(s) && |s| + 2 < TWO32
    ensures ValidText(ToFake(s, b)) && |ToFake(s, b)| < TWO32 && |ToFake(s, b)| <= |s| + 2
  {
    hide Utf8.Valid;
    if IsUnique(s) {
      FakeNameShape(s, b);
    }
  }

  /** A reply that carries a name reaches the client with that name under the
      prefix of its bus and nothing else changed. */
  lemma SingleNameRewrites(m: Msg, s: bytes, source: Bus)
    requires Fits(m) && m.body == TextBytes(m.e, s) && ValidText(s) && |s| < TWO32
    ensures SingleNameResponse(Encode(m), m.e, source) == Ok(Encode(m.(body := TextBytes(m.e, ToFake(s, source)))))
  {
    hide Encode, FieldArray, ReadU32, TextBytes, Utf8.Valid, Utf8.Lossy, Rebuilt, BodyString;
    assert m.body == TextBytes(m.e, s) + [];
    BodyStringOf(m, s, []);
    Utf8.LossyOnValid(s);
    RebuildRefines(m, TextBytes(m.e, ToFake(s, source)));
    assert m.(body := m.body) == m;
  }

  /** A request that names a connection reaches its bus with the real name. */
  lemma UniqueNameRestores(m: Msg, f: bytes)
    requires Fits(m) && m.body == TextBytes(m.e, f) && ValidText(f) && |f| < TWO32
    ensures UniqueNameRequest(Encode(m), m.e) ==
      Ok(Encode(if FromFake(f).None? then m else m.(body := TextBytes(m.e, FromFake(f).value.0))))
  {
    hide Encode, FieldArray, ReadU32, TextBytes, Utf8.Valid, Utf8.Lossy, Rebuilt, BodyString, FromFake;
    assert m.body == TextBytes(m.e, f) + [];
    BodyStringOf(m, f, []);
    Utf8.LossyOnValid(f);
    if FromFake(f).Some? {
      RebuildRefines(m, TextBytes(m.e, FromFake(f).value.0));
    }
  }

  // ----- several strings -----

  predicate ValidNames(names: seq<bytes>) {
    forall i :: 0 <= i < |names| ==> ValidText(names[i]) && |names[i]| < TWO32
  }

  lemma TextsCons(e: Endian, s: bytes, rest: seq<bytes>)
    ensures Texts(e, [s]) == TextBytes(e, s)
    ensures |rest| > 0 ==> Texts(e, [s] + rest) == Padded(TextBytes(e, s), 4) + Texts(e, rest)
  {
    hide TextBytes;
    assert ([s] + rest)[1..] == rest;
    assert TextItems(e, [s] + rest)[1..] == TextItems(e, rest);
  }

  lemma {:induction false} TextsDecode(e: Endian, names: seq<bytes>, bs: bytes, at: nat)
    requires ValidNames(names) && |names| > 0 && Aligned(at, 4)
    requires Holds(bs, at, Texts(e, names)) && at + |Texts(e, names)| == |bs|
    ensures at < |bs| && DecodeTexts(e, bs, at) == Some(names)
    decreases |names|
  {
    hide TextBytes, Texts, DecodeText, ValidText;
    var s, rest := names[0], names[1..];
    var w := TextBytes(e, s);
    assert names == [s] + rest;
    TextsCons(e, s, rest);
    if |rest| == 0 {
      assert names == [s];
      TextComplete(e, s, bs, at);
    } else {
      HoldsParts(bs, at, Padded(w, 4), Texts(e, rest));
      HoldsParts(bs, at, w, Zeros(Pad(|w|, 4)));
      HoldsZeros(bs, at + |w|, Pad(|w|, 4));
      TextComplete(e, s, bs, at);
      ShiftAlign(at, |w|, 4);
      AlignedSum(at, Align(|w|, 4), 4);
      TextsDecode(e, rest, bs, at + Align(|w|, 4));
    }
  }

  lemma TextsEmpty(e: Endian, names: seq<bytes>)
    ensures |Texts(e, names)| == 0 <==> |names| == 0
  {
    hide TextBytes;
    if |names| > 0 {
      TextsCons(e, names[0], names[1..]);
      assert names == [names[0]] + names[1..];
      assert |names| == 1 ==> names == [names[0]];
    }
  }

  /** An array of strings reads back, whatever follows it. */
  lemma StringArrayDecodes(e: Endian, names: seq<bytes>, rest: bytes)
    requires ValidNames(names) && |Texts(e, names)| < TWO32
    ensures DecodeStringArray(e, StringArray(e, names) + rest) == Some(names)
  {
    hide Texts, U32, ReadU32, DecodeTexts, ValidNames;
    var t := Texts(e, names);
    var bs := StringArray(e, names) + rest;
    HoldsParts(bs, 0, U32(e, |t|) + t, rest);
    HoldsParts(bs, 0, U32(e, |t|), t);
    HoldsU32(e, bs, 0, |t|);
    TextsEmpty(e, names);
    if |names| > 0 {
      TextsDecode(e, names, t, 0);
    }
  }

  lemma ParsesStringArray(m: Msg, names: seq<bytes>)
    requires Fits(m) && ValidNames(names) && m.body == StringArray(m.e, names) && |Texts(m.e, names)| < TWO32
    ensures |Encode(m)| >= 16 && ParseStringArray(Encode(m), m.e) == names
  {
    hide Encode, FieldArray, ReadU32, U32, BodyStart, Texts, DecodeStringArray, ValidNames;
    BodyStartOf(m);
    StringArrayDecodes(m.e, names, []);
    assert m.body + [] == m.body;
  }

  /** A list of owners reaches the client with every unique name under the prefix. */
  lemma StringArrayRewrites(m: Msg, names: seq<bytes>, source: Bus)
    requires Fits(m) && ValidNames(names) && m.body == StringArray(m.e, names) && |Texts(m.e, names)| < TWO32
    ensures StringArrayResponse(Encode(m), m.e, source) == Ok(Encode(m.(body := StringArray(m.e, FakeAll(names, source)))))
  {
    hide Encode, FieldArray, StringArray, Rebuilt, ParseStringArray, Texts, ValidNames;
    ParsesStringArray(m, names);
    RebuildRefines(m, StringArray(m.e, FakeAll(names, source)));
    if |names| == 0 {
      assert FakeAll(names, source) == names;
      assert m.(body := m.body) == m;
    }
  }

  lemma NextTextHolds(e: Endian, s: bytes, bs: bytes, at: nat)
    requires ValidText(s) && |s| < TWO32 && Holds(bs, at, Zeros(Pad(at, 4)) + TextBytes(e, s))
    ensures NextText(e, bs, at) == Some((s, Align(at, 4) + |s| + 5))
  {
    hide TextBytes, ValidText, DecodeText;
    HoldsParts(bs, at, Zeros(Pad(at, 4)), TextBytes(e, s));
    HoldsZeros(bs, at, Pad(at, 4));
    TextComplete(e, s, bs, Align(at, 4));
  }

  lemma ThreeTexts(e: Endian, a: bytes, b: bytes, c: bytes)
    ensures Texts(e, [a, b, c]) == Padded(TextBytes(e, a), 4) + (Padded(TextBytes(e, b), 4) + TextBytes(e, c))
  {
    hide Texts, TextBytes;
    TextsCons(e, a, [b, c]);
    TextsCons(e, b, [c]);
    TextsCons(e, c, []);
    assert [a] + [b, c] == [a, b, c] && [b] + [c] == [b, c];
  }

  lemma ThreeDecode(e: Endian, a: bytes, b: bytes, c: bytes)
    requires ValidNames([a, b, c])
    ensures DecodeThree(e, Texts(e, [a, b, c])) == Some((a, b, c))
  {
    hide Texts, TextBytes, NextText, ValidText, Pad, Holds;
    var bs := Texts(e, [a, b, c]);
    assert [a, b, c][0] == a && [a, b, c][1] == b && [a, b, c][2] == c;
    ThreeHold(e, a, b, c);
    var first := |a| + 5;
    var second := Align(first, 4) + |b| + 5;
    NextTextHolds(e, a, bs, 0);
    NextTextHolds(e, b, bs, first);
    NextTextHolds(e, c, bs, second);
    PadFour(0);
  }

  lemma ThreeHold(e: Endian, a: bytes, b: bytes, c: bytes)
    ensures var bs, first := Texts(e, [a, b, c]), |a| + 5;
      var second := Align(first, 4) + |b| + 5;
      Holds(bs, 0, Zeros(Pad(0, 4)) + TextBytes(e, a)) && Holds(bs, first, Zeros(Pad(first, 4)) + TextBytes(e, b))
      && Holds(bs, second, Zeros(Pad(second, 4)) + TextBytes(e, c))
  {
    hide Texts, TextBytes, Pad;
    var bs := Texts(e, [a, b, c]);
    var ta, tb, tc := TextBytes(e, a), TextBytes(e, b), TextBytes(e, c);
    var za, zb := Zeros(Pad(|ta|, 4)), Zeros(Pad(|tb|, 4));
    ThreeTexts(e, a, b, c);
    PadFour(0);
    PadShift(Align(|ta|, 4), |tb|, 4);
    assert bs == (Zeros(0) + ta) + ((za + tb) + (zb + tc));
    HoldsWhole(bs);
    HoldsParts(bs, 0, Zeros(0) + ta, (za + tb) + (zb + tc));
    HoldsParts(bs, |ta|, za + tb, zb + tc);
  }

  lemma HoldsWhole(bs: bytes)
    ensures Holds(bs, 0, bs)
  {
  }

  lemma PadFour(n: nat)
    requires Aligned(n, 4)
    ensures Pad(n, 4) == 0
  {
  }

  /** NameOwnerChanged reaches the client with both owners under the prefix of
      the bus and the changed name as it was. */
  lemma NameOwnerChangedRewrites(m: Msg, name: bytes, was: bytes, now: bytes, source: Bus)
    requires Fits(m) && ValidNames([name, was, now]) && m.body == Texts(m.e, [name, was, now])
    ensures NameOwnerChanged(Encode(m), m.e, source) ==
      Ok(Encode(m.(body := Texts(m.e, [name, ToFake(was, source), ToFake(now, source)]))))
  {
    hide Encode, FieldArray, Texts, Rebuilt, BodyStart, DecodeThree, ValidNames, ToFake;
    BodyStartOf(m);
    ThreeDecode(m.e, name, was, now);
    TextsEmpty(m.e, [name, was, now]);
    RebuildRefines(m, Texts(m.e, [name, ToFake(was, source), ToFake(now, source)]));
  }

  // ----- what is read, and what is left alone -----

  lemma {:induction false} TextsSound(e: Endian, bs: bytes, at: nat)
    requires at < |bs| && Aligned(at, 4) && DecodeTexts(e, bs, at).Some?
    ensures var names := DecodeTexts(e, bs, at).value;
      |names| > 0 && ValidNames(names) && Holds(bs, at, Texts(e, names)) && at + |Texts(e, names)| == |bs|
    decreases |bs| - at
  {
    hide TextBytes, Texts, DecodeText, ValidText, Pad, Holds, Align;
    TextSound(e, bs, at);
    var (s, end) := DecodeText(e, bs, at).value;
    if end == |bs| {
      TextsCons(e, s, []);
    } else {
      var next := Align(end, 4);
      TextsSound(e, bs, next);
      var rest := DecodeTexts(e, bs, next).value;
      TextsCons(e, s, rest);
      GapInTexts(e, s, bs, at);
      HoldsParts(bs, at, TextBytes(e, s), Zeros(Pad(|s| + 5, 4)));
      HoldsParts(bs, at, Padded(TextBytes(e, s), 4), Texts(e, rest));
      assert DecodeTexts(e, bs, at).value == [s] + rest;
    }
  }

  lemma GapInTexts(e: Endian, s: bytes, bs: bytes, at: nat)
    requires Aligned(at, 4)
    ensures var end := at + |s| + 5;
      Align(end, 4) == at + Align(|s| + 5, 4) && Align(end, 4) == end + Pad(|s| + 5, 4) && Aligned(Align(end, 4), 4)
      && |Padded(TextBytes(e, s), 4)| == Align(|s| + 5, 4) && |Padded(TextBytes(e, s), 4)| == |s| + 5 + Pad(|s| + 5, 4)
      && Padded(TextBytes(e, s), 4) == TextBytes(e, s) + Zeros(Pad(|s| + 5, 4))
    ensures var end := at + |s| + 5;
      Align(end, 4) <= |bs| && AllZero(bs[end..Align(end, 4)]) ==> Holds(bs, end, Zeros(Pad(|s| + 5, 4)))
  {
    hide TextBytes;
    var end := at + |s| + 5;
    ShiftAlign(at, |s| + 5, 4);
    PadShift(at, |s| + 5, 4);
    HoldsZeros(bs, end, Pad(|s| + 5, 4));
  }

  /** A list of names is read if and only if the body starts with it as an
      array of proper strings. */
  lemma StringArrayExactly(e: Endian, bs: bytes, names: seq<bytes>)
    ensures DecodeStringArray(e, bs) == Some(names) <==>
      ValidNames(names) && |Texts(e, names)| < TWO32 && StringArray(e, names) <= bs
  {
    hide Texts, U32, ReadU32, DecodeTexts, ValidNames, Holds;
    if ValidNames(names) && |Texts(e, names)| < TWO32 && StringArray(e, names) <= bs {
      var rest := bs[|StringArray(e, names)|..];
      assert bs == StringArray(e, names) + rest;
      StringArrayDecodes(e, names, rest);
    }
    if DecodeStringArray(e, bs) == Some(names) {
      var n := ReadU32(e, bs, 0);
      if n == 0 {
        TextsEmpty(e, []);
        NoNames();
      } else {
        TextsSound(e, bs[4..4 + n], 0);
        HoldsAll(bs[4..4 + n], Texts(e, names));
      }
      WriteRead(e, bs, 0);
      assert bs[..4 + n] == bs[0..4] + bs[4..4 + n];
    }
  }

  lemma NoNames()
    ensures ValidNames([])
  {
  }

  lemma HoldsAll(bs: bytes, v: bytes)
    requires Holds(bs, 0, v) && |v| == |bs|
    ensures bs == v
  {
  }

  /** Three strings are read if and only if the body starts with them. */
  lemma ThreeExactly(e: Endian, bs: bytes, a: bytes, b: bytes, c: bytes)
    ensures DecodeThree(e, bs) == Some((a, b, c)) <==> ValidNames([a, b, c]) && Texts(e, [a, b, c]) <= bs
  {
    hide Texts, TextBytes, NextText, ValidText, Pad, Holds, Align;
    assert [a, b, c][0] == a && [a, b, c][1] == b && [a, b, c][2] == c;
    var first := |a| + 5;
    var second := Align(first, 4) + |b| + 5;
    PadFour(0);
    ThreeHoldExactly(e, bs, a, b, c);
    NextTextExactly(e, bs, 0, a);
    NextTextExactly(e, bs, first, b);
    NextTextExactly(e, bs, second, c);
    if DecodeThree(e, bs) == Some((a, b, c)) {
      NextTextEnds(e, bs, 0);
      NextTextEnds(e, bs, first);
      NextTextEnds(e, bs, second);
    }
  }

  lemma NextTextEnds(e: Endian, bs: bytes, at: nat)
    ensures NextText(e, bs, at).Some? ==> NextText(e, bs, at).value.1 == Align(at, 4) + |NextText(e, bs, at).value.0| + 5
  {
    hide ReadU32, ValidText, Align;
  }

  lemma NextTextExactly(e: Endian, bs: bytes, at: nat, s: bytes)
    ensures NextText(e, bs, at) == Some((s, Align(at, 4) + |s| + 5)) <==>
      ValidText(s) && |s| < TWO32 && Holds(bs, at, Zeros(Pad(at, 4)) + TextBytes(e, s))
  {
    hide TextBytes, ValidText, DecodeText, Pad, Zeros, Holds;
    HoldsParts(bs, at, Zeros(Pad(at, 4)), TextBytes(e, s));
    HoldsZeros(bs, at, Pad(at, 4));
    if ValidText(s) && |s| < TWO32 && Holds(bs, at, Zeros(Pad(at, 4)) + TextBytes(e, s)) {
      NextTextHolds(e, s, bs, at);
    }
    if NextText(e, bs, at) == Some((s, Align(at, 4) + |s| + 5)) {
      TextSound(e, bs, Align(at, 4));
    }
  }

  lemma ThreeHoldExactly(e: Endian, bs: bytes, a: bytes, b: bytes, c: bytes)
    ensures var first := |a| + 5;
      var second := Align(first, 4) + |b| + 5;
      Texts(e, [a, b, c]) <= bs <==>
      Holds(bs, 0, Zeros(Pad(0, 4)) + TextBytes(e, a)) && Holds(bs, first, Zeros(Pad(first, 4)) + TextBytes(e, b))
      && Holds(bs, second, Zeros(Pad(second, 4)) + TextBytes(e, c))
  {
    hide Texts, TextBytes, Pad, Holds;
    var ta, tb, tc := TextBytes(e, a), TextBytes(e, b), TextBytes(e, c);
    var za, zb := Zeros(Pad(|ta|, 4)), Zeros(Pad(|tb|, 4));
    ThreeTexts(e, a, b, c);
    PadFour(0);
    PadShift(Align(|ta|, 4), |tb|, 4);
    assert Texts(e, [a, b, c]) == (Zeros(0) + ta) + ((za + tb) + (zb + tc));
    PrefixHolds(bs, Texts(e, [a, b, c]));
    HoldsParts(bs, 0, Zeros(0) + ta, (za + tb) + (zb + tc));
    HoldsParts(bs, |ta|, za + tb, zb + tc);
  }

  lemma PrefixHolds(bs: bytes, v: bytes)
    ensures v <= bs <==> Holds(bs, 0, v)
  {
  }

  /** What the two readers of a body's first string make of any body. */
  lemma BodyStringExactly(m: Msg)
    requires Fits(m)
    ensures var raw, n := Encode(m), |m.body|;
      |raw| >= 16
      && (n == 0 ==> BodyString(raw, m.e) == Err && ExtractName(raw, m.e) == None)
      && (0 < n < 4 ==> BodyString(raw, m.e) == Panic && ExtractName(raw, m.e) == None)
      && (n >= 4 && 4 + ReadU32(m.e, m.body, 0) > n ==> BodyString(raw, m.e) == Err && ExtractName(raw, m.e) == None)
      && (n >= 4 && 4 + ReadU32(m.e, m.body, 0) <= n ==>
            var s := m.body[4..4 + ReadU32(m.e, m.body, 0)];
            BodyString(raw, m.e) == Ok(Utf8.Lossy(s)) && ExtractName(raw, m.e) == if Utf8.Valid(s) then Some(s) else None)
  {
    hide Encode, Fits, BodyStart, ReadU32, Utf8.Valid, Utf8.Lossy;
    BodyStartOf(m);
    var raw := Encode(m);
    var start := BodyStart(raw, m.e);
    assert |raw| == start + |raw[start..]|;
    if |m.body| >= 4 {
      ReadInTail(m.e, raw, start);
      assert forall k :: 4 <= k <= |m.body| ==> raw[start..][4..k] == raw[start + 4..start + k];
    }
  }

  lemma ReadInTail(e: Endian, b: bytes, at: nat)
    requires at + 4 <= |b|
    ensures ReadU32(e, b[at..], 0) == ReadU32(e, b, at)
  {
  }

  /** Bodies that do not hold what they should are left as they are, and so are
      names and rules without anything to rewrite. */
  lemma LeftAlone(m: Msg, b: Bus)
    requires Fits(m)
    ensures var raw := Encode(m);
      |raw| >= 16
      && (BodyString(raw, m.e).Err? ==>
            SingleNameResponse(raw, m.e, b) == Ok(raw) && MatchRuleBody(raw, m.e) == Ok(raw) && UniqueNameRequest(raw, m.e) == Err)
      && (BodyString(raw, m.e).Ok? && !IsUnique(BodyString(raw, m.e).value) ==> SingleNameResponse(raw, m.e, b) == Ok(raw))
      && (BodyString(raw, m.e).Ok? && FromFake(BodyString(raw, m.e).value).None? ==> UniqueNameRequest(raw, m.e) == Ok(raw))
      && (DecodeStringArray(m.e, m.body).None? ==> StringArrayResponse(raw, m.e, b) == Ok(raw))
      && (DecodeThree(m.e, m.body).None? ==> NameOwnerChanged(raw, m.e, b) == Ok(raw))
  {
    hide Encode, Fits, BodyStart, ReadU32, BodyString, FromFake, ToFake, FirstSender, Split, DecodeThree, DecodeStringArray,
      RewriteMatchRuleSender, Texts, StringArray, TextBytes, IsUnique;
    BodyStartOf(m);
  }

  /** A match rule whose sender has no prefix is sent as the client wrote it. */
  lemma RuleLeftAlone(m: Msg)
    requires Fits(m) && BodyString(Encode(m), m.e).Ok?
    requires var sender := FirstSender(Split(BodyString(Encode(m), m.e).value, COMMA)); sender.None? || FromFake(sender.value).None?
    ensures MatchRuleBody(Encode(m), m.e) == Ok(Encode(m))
  {
    hide Encode, Fits, BodyString, FromFake, FirstSender, Split;
  }

  // ----- merged ListNames replies -----

  function FirstAt(xs: seq<bytes>, x: bytes): (i: nat)
    ensures i <= |xs| && x !in xs[..i] && (i < |xs| ==> xs[i] == x)
  {
    if |xs| == 0 || xs[0] == x then 0 else
      var i := FirstAt(xs[1..], x) + 1;
      assert xs[..i] == [xs[0]] + xs[1..][..i - 1];
      i
  }

  lemma FirstAtIs(xs: seq<bytes>, x: bytes, i: nat)
    requires i < |xs| && xs[i] == x && x !in xs[..i]
    ensures FirstAt(xs, x) == i
  {
  }

  lemma FirstAtGrows(init: seq<bytes>, last: bytes, x: bytes)
    requires x in init || x == last
    ensures FirstAt(init + [last], x) == if x in init then FirstAt(init, x) else |init|
    ensures x in init ==> FirstAt(init, x) < |init|
  {
    var xs, j := init + [last], FirstAt(init, x);
    if x in init {
      assert init[..|init|] == init;
      assert xs[..j] == init[..j];
      FirstAtIs(xs, x, j);
    } else {
      assert xs[..|init|] == init;
      FirstAtIs(xs, x, |init|);
    }
  }

  /** `Dedup` keeps exactly the names there were, each once, in the order of
      first occurrence. */
  lemma {:induction false} DedupOrder(xs: seq<bytes>)
    ensures forall x :: x in Dedup(xs) <==> x in xs
    ensures forall i, j :: 0 <= i < j < |Dedup(xs)| ==> FirstAt(xs, Dedup(xs)[i]) < FirstAt(xs, Dedup(xs)[j])
    decreases |xs|
  {
    if |xs| > 0 {
      var init, last := xs[..|xs| - 1], xs[|xs| - 1];
      assert xs == init + [last];
      var d := Dedup(xs);
      DedupOrder(init);
      forall i, j | 0 <= i < j < |d| ensures FirstAt(xs, d[i]) < FirstAt(xs, d[j]) {
        FirstAtGrows(init, last, d[i]);
        FirstAtGrows(init, last, d[j]);
        assert i < |Dedup(init)| ==> d[i] == Dedup(init)[i] && d[i] in init;
        assert j < |Dedup(init)| ==> d[j] == Dedup(init)[j] && d[j] in init;
        if j < |Dedup(init)| {
          assert FirstAt(init, Dedup(init)[i]) < FirstAt(init, Dedup(init)[j]);
        }
      }
    }
  }

  /** The merged list: every sandbox name and every host name under its
      prefix, none twice, sandbox names first; and a unique name of one bus
      is never taken for a name of the other. */
  lemma MergeKeepsEveryName(host: seq<bytes>, sandbox: seq<bytes>)
    ensures var all := FakeAll(sandbox, Sandbox) + FakeAll(host, Host);
      forall i, j :: 0 <= i < j < |Merged(host, sandbox)| ==>
        FirstAt(all, Merged(host, sandbox)[i]) < FirstAt(all, Merged(host, sandbox)[j])
    ensures forall x :: x in Merged(host, sandbox) <==>
      (exists s :: s in sandbox && ToFake(s, Sandbox) == x) || (exists h :: h in host && ToFake(h, Host) == x)
    ensures forall s, h :: s in sandbox && h in host && (IsUnique(s) || IsUnique(h)) ==> ToFake(s, Sandbox) != ToFake(h, Host)
  {
    hide Dedup, ToFake, IsUnique;
    var a, b := FakeAll(sandbox, Sandbox), FakeAll(host, Host);
    DedupOrder(a + b);
    forall x ensures x in a <==> exists s :: s in sandbox && ToFake(s, Sandbox) == x {
      if s :| s in sandbox && ToFake(s, Sandbox) == x {
        var i :| 0 <= i < |sandbox| && sandbox[i] == s;
        assert a[i] == x;
      }
    }
    forall x ensures x in b <==> exists h :: h in host && ToFake(h, Host) == x {
      if h :| h in host && ToFake(h, Host) == x {
        var i :| 0 <= i < |host| && host[i] == h;
        assert b[i] == x;
      }
    }
    forall s, h | s in sandbox && h in host && (IsUnique(s) || IsUnique(h)) ensures ToFake(s, Sandbox) != ToFake(h, Host) {
      FakeNamesDistinct(s, h, Sandbox, Host);
      FakeNamesDistinct(h, s, Host, Sandbox);
    }
  }

  lemma ReplyFields(serial: u32)
    ensures var f, g := Field(FIELD_REPLY_SERIAL, Plain(Word(CODE_U, serial))), Field(FIELD_SIGNATURE, Plain(Signature(Ascii("as"))));
      ValidFields([f] + [g]) && Collect([f] + [g]) == NO_FIELDS.(replySerial := Some(serial), signature := Some(Ascii("as")))
  {
    hide Utf8.Valid;
    var f, g := Field(FIELD_REPLY_SERIAL, Plain(Word(CODE_U, serial))), Field(FIELD_SIGNATURE, Plain(Signature(Ascii("as"))));
    Utf8.AsciiInFront(Ascii("as"), []);
    assert Ascii("as") + [] == Ascii("as");
    EmptyIsValid();
    assert Collect([f]) == Assign(NO_FIELDS, f) by { assert [f][..0] == []; }
    assert ([f] + [g])[..1] == [f];
  }

  lemma EmptyIsValid()
    ensures Utf8.Valid([])
  {
  }

  lemma ReplyLength(e: Endian, serial: u32)
    ensures var f, g := Field(FIELD_REPLY_SERIAL, Plain(Word(CODE_U, serial))), Field(FIELD_SIGNATURE, Plain(Signature(Ascii("as"))));
      |FieldArray(e, [f] + [g])| == 16
  {
    hide FieldArray, FieldBytes, LeadLen, Pad, Align;
    var f, g := Field(FIELD_REPLY_SERIAL, Plain(Word(CODE_U, serial))), Field(FIELD_SIGNATURE, Plain(Signature(Ascii("as"))));
    FieldArrayCons(e, f, [g]);
    FieldArrayCons(e, g, []);
    ReplyLeads(f.value, g.value);
    AlignedSame(8);
  }

  lemma ReplyLeads(f: Value, g: Value)
    requires f.Plain? && CodeOf(f.b) == CODE_U && g.Plain? && CodeOf(g.b) == CODE_G
    ensures LeadLen(f) == 4 && LeadLen(g) == 4
  {
    hide LeadLen;
    PlainLeadLen(f);
    PlainLeadLen(g);
  }

  /** `raw` is a method return for the request with this serial, of signature
      `as`, with these names. */
  predicate RepliesWith(raw: bytes, e: Endian, serial: u32, names: seq<bytes>) {
    Whole(raw) && HeaderOf(raw).kind == MethodReturn && HeaderOf(raw).endian == e
    && HeaderOf(raw).flags == 1 && HeaderOf(raw).serial == (serial + 1000000) % 0x1_0000_0000
    && HeaderOf(raw).fields == NO_FIELDS.(replySerial := Some(serial), signature := Some(Ascii("as")))
    && ParseStringArray(raw, e) == names
  }

  /** The reply built for a merged ListNames reads back. */
  lemma ListNamesReplyReadsBack(request: Message, names: seq<bytes>)
    requires ValidNames(names) && 4 + |Texts(request.header.endian, names)| <= MAX_MESSAGE_SIZE
    ensures RepliesWith(ListNamesReply(request, names), request.header.endian, request.header.serial, names)
  {
    hide Encode, FieldArray, Texts, Whole, ParseStringArray, ValidNames, Decodes, Decode, ValidFields, Collect, Utf8.Valid;
    var e, serial := request.header.endian, request.header.serial;
    var m := MethodReturnMsg(e, serial, StringArray(e, names), Some(Ascii("as")));
    ReplyFields(serial);
    ReplyLength(e, serial);
    HeaderOfEncoded(m);
    ParsesStringArray(m, names);
  }

  // ----- merged names are valid names -----

  predicate ShortNames(names: seq<bytes>, bound: nat) {
    forall i :: 0 <= i < |names| ==> ValidText(names[i]) && |names[i]| <= bound
  }

  lemma {:induction false} DecodedTextsShort(e: Endian, bs: bytes, at: nat)
    requires at < |bs| && DecodeTexts(e, bs, at).Some?
    ensures ShortNames(DecodeTexts(e, bs, at).value, |bs|)
    decreases |bs| - at
  {
    hide ValidText, DecodeText;
    TextSound(e, bs, at);
    var (s, end) := DecodeText(e, bs, at).value;
    TextInside(e, bs, at);
    if end != |bs| {
      DecodedTextsShort(e, bs, Align(end, 4));
    }
  }

  lemma TextInside(e: Endian, bs: bytes, at: nat)
    requires at <= |bs| && DecodeText(e, bs, at).Some?
    ensures |DecodeText(e, bs, at).value.0| <= |bs|
  {
  }

  /** Whatever a bus sends, the names read from it are proper strings. */
  lemma ParsedNamesShort(raw: bytes, e: Endian)
    requires |raw| >= 16
    ensures ShortNames(ParseStringArray(raw, e), |raw|)
  {
    hide ReadU32, DecodeTexts, BodyStart, ValidText;
    var start := BodyStart(raw, e);
    if start < |raw| && DecodeStringArray(e, raw[start..]).Some? {
      var bs := raw[start..];
      if ReadU32(e, bs, 0) > 0 {
        DecodedTextsShort(e, bs[4..4 + ReadU32(e, bs, 0)], 0);
      }
    }
  }

  lemma MergedNamesValid(host: seq<bytes>, sandbox: seq<bytes>, bound: nat)
    requires ShortNames(host, bound) && ShortNames(sandbox, bound) && bound + 2 < TWO32
    ensures ValidNames(Merged(host, sandbox))
  {
    hide Merged, ValidText, ToFake;
    var merged := Merged(host, sandbox);
    MergeKeepsEveryName(host, sandbox);
    forall i | 0 <= i < |merged| ensures ValidText(merged[i]) && |merged[i]| < TWO32 {
      assert merged[i] in merged;
      if s :| s in sandbox && ToFake(s, Sandbox) == merged[i] {
        FakeOfText(s, Sandbox);
      } else {
        var h :| h in host && ToFake(h, Host) == merged[i];
        FakeOfText(h, Host);
      }
    }
  }
}
