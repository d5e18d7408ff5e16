/** The definitions of this model in the numbers of the wire format and the
    texts of the protocol, without the names that the model gives to them. */
module Spelled {
  import opened Wire
  import opened Message
  import opened MessageProofs
  import opened HeaderRewrite
  import opened HeaderRewriteProofs
  import opened Bodies
  import opened BodyProofs
  import opened HelloCall

  // ----- numbers -----

  /** Four bytes as a number, lowest byte first or last. */
  function Number(lowFirst: bool, b: bytes, at: nat): nat
    requires at + 4 <= |b|
  {
    var b0: int, b1: int, b2: int, b3: int := b[at], b[at + 1], b[at + 2], b[at + 3];
    if lowFirst then b0 + 256 * b1 + 65536 * b2 + 16777216 * b3 else b3 + 256 * b2 + 65536 * b1 + 16777216 * b0
  }

  function FourBytes(lowFirst: bool, n: nat): (r: bytes)
    ensures |r| == 4
  {
    var b := [n % 256, n / 256 % 256, n / 65536 % 256, n / 16777216 % 256];
    if lowFirst then b else [b[3], b[2], b[1], b[0]]
  }

  lemma NumbersSpelled(lowFirst: bool, n: nat, b: bytes, at: nat)
    requires at + 4 <= |b|
    ensures var e := if lowFirst then Little else Big;
      U32(e, n) == FourBytes(lowFirst, n) && ReadU32(e, b, at) == Number(lowFirst, b, at)
  {
  }

  lemma LimitsSpelled()
    ensures MAX_MESSAGE_SIZE == 67108864 && MIN_HEADER_SIZE == 16 && TWO32 == 4294967296
  {
  }

  // ----- the first sixteen bytes -----

  /** Which sixteen bytes start a message: "l" or "B", version 1, and lengths
      of at most 64 MiB; and what they say. */
  lemma PrologueSpelled(head: bytes)
    requires |head| >= 16
    ensures var low := head[0] == 108;
      ParsePrologue(head).Ok? <==>
      (head[0] == 108 || head[0] == 66) && head[3] == 1 && Number(low, head, 4) <= 67108864 && Number(low, head, 12) <= 67108864
    ensures !ParsePrologue(head).Ok? ==> ParsePrologue(head) == Err
    ensures ParsePrologue(head).Ok? ==>
      var p, low := ParsePrologue(head).value, head[0] == 108;
      (p.endian == if low then Little else Big) && p.flags == head[2]
      && p.bodyLen == Number(low, head, 4) && p.serial == Number(low, head, 8) && p.arrayLen == Number(low, head, 12)
    ensures ParsePrologue(head).Ok? ==>
      ParsePrologue(head).value.kind ==
      if head[1] == 1 then MethodCall else if head[1] == 2 then MethodReturn else if head[1] == 3 then Error
      else if head[1] == 4 then Signal else Invalid
  {
  }

  /** A message is sixteen bytes, the array, zero to seven bytes up to a
      multiple of eight, and the body. */
  lemma LengthSpelled(head: bytes)
    requires |head| >= 16 && ParsePrologue(head).Ok?
    ensures var p, n := ParsePrologue(head).value, 16 + Number(head[0] == 108, head, 12);
      p.HeaderEnd() == n && p.Padding() < 8 && (n + p.Padding()) % 8 == 0
      && p.TotalLen() == n + p.Padding() + Number(head[0] == 108, head, 4)
  {
    hide Number;
    NumbersSpelled(head[0] == 108, 0, head, 4);
    NumbersSpelled(head[0] == 108, 0, head, 12);
    PadEight(16 + ParsePrologue(head).value.arrayLen);
  }

  lemma PadEight(n: nat)
    ensures Pad(n, 8) < 8 && (n + Pad(n, 8)) % 8 == 0
  {
    assert Aligned(n + Pad(n, 8), 8);
  }

  lemma FrontSpelled(m: Msg)
    ensures var low := m.e.Little?;
      Front(m) == [if low then 108 else 66, m.kind, m.flags, 1] + FourBytes(low, |m.body|) + FourBytes(low, m.serial)
        + FourBytes(low, |FieldArray(m.e, m.fields)|)
  {
    hide FieldArray, FourBytes, U32;
    assert |Zeros(4)| == 4;
    NumbersSpelled(m.e.Little?, |m.body|, Zeros(4), 0);
    NumbersSpelled(m.e.Little?, m.serial, Zeros(4), 0);
    NumbersSpelled(m.e.Little?, |FieldArray(m.e, m.fields)|, Zeros(4), 0);
  }

  // ----- header fields -----

  /** Sizes and alignments of the basic types, by type code: strings "s" and
      "o", four-byte "u", "i", "b" and "h", two-byte "n" and "q", eight-byte
      "x", "t" and "d", one byte "y", signature "g". */
  lemma TypesSpelled(code: byte)
    ensures IsText(code) <==> code == 115 || code == 111
    ensures IsWord(code) <==> code == 117 || code == 105 || code == 98 || code == 104
    ensures FixedSize(code) ==
      if code == 110 || code == 113 then 2 else if code == 120 || code == 116 || code == 100 then 8
      else if code == 121 then 1 else 0
    ensures ValueAlign(code) ==
      if code in [115, 111, 117, 105, 98, 104, 97] then 4 else if code in [110, 113] then 2
      else if code in [120, 116, 100, 40, 123] then 8 else 1
    ensures WideField(Field(0, Plain(Fixed(code, [])))) <==> code == 120 || code == 116 || code == 100
    ensures CodeOf(Signature([])) == 103
  {
  }

  lemma TextSpelled(low: bool, s: bytes)
    ensures TextBytes(if low then Little else Big, s) == FourBytes(low, |s|) + s + [0]
  {
    hide U32, FourBytes;
    NumbersSpelled(low, |s|, [0, 0, 0, 0], 0);
  }

  lemma PlainSpelled(e: Endian, code: byte, b: Basic)
    ensures FieldBytes(e, Field(code, Plain(b))) ==
      [code, 1, CodeOf(b), 0] + Zeros(Pad(4, ValueAlign(CodeOf(b)))) + BasicBytes(e, b)
  {
    hide BasicBytes, Pad, Zeros;
  }

  lemma NothingBetween(a: bytes, b: bytes)
    ensures a + Zeros(0) + b == a + b
  {
  }

  /** The bytes of a string field ("s" or "o"): code, signature, string. */
  lemma TextFieldSpelled(low: bool, code: byte, kind: byte, s: bytes)
    requires kind == 115 || kind == 111
    ensures FieldBytes(if low then Little else Big, Field(code, Plain(Text(kind, s)))) ==
      [code, 1, kind, 0] + (FourBytes(low, |s|) + s + [0])
  {
    hide FieldBytes, FourBytes, TextBytes;
    TextFieldBytes(if low then Little else Big, Field(code, Plain(Text(kind, s))));
    TextSpelled(low, s);
  }

  /** The bytes of a four-byte field ("u", "i", "b" or "h"). */
  lemma WordFieldSpelled(low: bool, code: byte, kind: byte, n: u32)
    requires kind == 117 || kind == 105 || kind == 98 || kind == 104
    ensures FieldBytes(if low then Little else Big, Field(code, Plain(Word(kind, n)))) == [code, 1, kind, 0] + FourBytes(low, n)
  {
    hide FieldBytes, U32, FourBytes, Pad, Zeros;
    PlainSpelled(if low then Little else Big, code, Word(kind, n));
    NumbersSpelled(low, n, [0, 0, 0, 0], 0);
    PadsSpelled();
    NothingBetween([code, 1, kind, 0], FourBytes(low, n));
  }

  /** The bytes of a signature field. */
  lemma SignatureFieldSpelled(e: Endian, code: byte, s: bytes)
    requires |s| < 256
    ensures FieldBytes(e, Field(code, Plain(Signature(s)))) == [code, 1, 103, 0] + ([|s|] + s + [0])
  {
    hide FieldBytes, Pad, Zeros;
    PlainSpelled(e, code, Signature(s));
    PadsSpelled();
    assert [|s| % 256] == [|s|];
    NothingBetween([code, 1, 103, 0], [|s|] + s + [0]);
  }

  /** The bytes of the other fields: eight-byte values stand on a multiple of eight. */
  lemma FixedFieldSpelled(e: Endian, code: byte, kind: byte, data: bytes)
    ensures kind == 120 || kind == 116 || kind == 100 ==>
      FieldBytes(e, Field(code, Plain(Fixed(kind, data)))) == [code, 1, kind, 0] + [0, 0, 0, 0] + data
    ensures kind == 110 || kind == 113 || kind == 121 ==>
      FieldBytes(e, Field(code, Plain(Fixed(kind, data)))) == [code, 1, kind, 0] + data
  {
    hide FieldBytes, Pad, Zeros;
    PlainSpelled(e, code, Fixed(kind, data));
    PadsSpelled();
    ZerosSpelled();
    NothingBetween([code, 1, kind, 0], data);
  }

  lemma ZerosSpelled()
    ensures Zeros(4) == [0, 0, 0, 0] && Zeros(1) == [0] && Zeros(0) == []
  {
  }

  /** A string wrapped in another variant. */
  lemma NestedFieldSpelled(low: bool, code: byte, s: bytes)
    ensures FieldBytes(if low then Little else Big, Field(code, Variant(Text(115, s)))) ==
      [code, 1, 118, 0, 1, 115, 0] + [0] + (FourBytes(low, |s|) + s + [0])
  {
    hide FourBytes, TextBytes, Pad, Zeros;
    TextSpelled(low, s);
    PadsSpelled();
    ZerosSpelled();
  }

  lemma PadsSpelled()
    ensures Pad(4, 8) == 4 && Pad(4, 4) == 0 && Pad(4, 2) == 0 && Pad(4, 1) == 0 && Pad(7, 4) == 1
  {
  }

  /** What a field does to the parsed header, by its number: 1 path, 2
      interface, 3 member, 5 reply serial, 6 destination, 7 sender, 8
      signature, 9 number of descriptors. */
  lemma EntriesSpelled(acc: HeaderFields, s: bytes, n: u32)
    ensures Assign(acc, Field(1, Plain(Text(111, s)))) == acc.(path := Some(s))
    ensures Assign(acc, Field(2, Plain(Text(115, s)))) == acc.(iface := Some(s))
    ensures Assign(acc, Field(3, Plain(Text(115, s)))) == acc.(member := Some(s))
    ensures Assign(acc, Field(5, Plain(Word(117, n)))) == acc.(replySerial := Some(n))
    ensures Assign(acc, Field(6, Plain(Text(115, s)))) == acc.(destination := Some(s))
    ensures Assign(acc, Field(7, Plain(Text(115, s)))) == acc.(sender := Some(s))
    ensures Assign(acc, Field(8, Plain(Signature(s)))) == acc.(signature := Some(s))
    ensures Assign(acc, Field(9, Plain(Word(117, n)))) == acc.(unixFds := Some(n))
  {
  }

  predicate IsStr(v: Value) { v.Plain? && v.b.Text? && v.b.code == 115 }
  predicate IsNum(v: Value) { v.Plain? && v.b.Word? && v.b.code == 117 }

  /** Fields of the wrong type: 1 and 8 are passed over, the others forget what
      came before. Fields of any other number are passed over. */
  lemma WrongTypesSpelled(acc: HeaderFields, v: Value, code: byte)
    ensures !(v.Plain? && v.b.Text? && v.b.code == 111) ==> Assign(acc, Field(1, v)) == acc
    ensures !(v.Plain? && v.b.Signature?) ==> Assign(acc, Field(8, v)) == acc
    ensures !IsStr(v) ==> Assign(acc, Field(2, v)) == acc.(iface := None) && Assign(acc, Field(3, v)) == acc.(member := None)
    ensures !IsStr(v) ==> Assign(acc, Field(6, v)) == acc.(destination := None) && Assign(acc, Field(7, v)) == acc.(sender := None)
    ensures !IsNum(v) ==> Assign(acc, Field(5, v)) == acc.(replySerial := None) && Assign(acc, Field(9, v)) == acc.(unixFds := None)
    ensures code !in [1, 2, 3, 5, 6, 7, 8, 9] ==> Assign(acc, Field(code, v)) == acc
  {
  }

  /** One message with every field, and the header that must come of it. */
  lemma HeaderSpelled(p: bytes, i: bytes, m: bytes, n: u32, d: bytes, s: bytes, g: bytes, u: u32)
    ensures var fs := [Field(1, Plain(Text(111, p))), Field(2, Plain(Text(115, i))), Field(3, Plain(Text(115, m))),
                       Field(5, Plain(Word(117, n))), Field(6, Plain(Text(115, d))), Field(7, Plain(Text(115, s))),
                       Field(8, Plain(Signature(g))), Field(9, Plain(Word(117, u)))];
      Collect(fs) == HeaderFields(Some(p), Some(i), Some(m), Some(n), Some(d), Some(s), Some(g), Some(u))
  {
    hide Assign;
    var a, b, c, f := Field(1, Plain(Text(111, p))), Field(2, Plain(Text(115, i))), Field(3, Plain(Text(115, m))), Field(5, Plain(Word(117, n)));
    var h, j, k, l := Field(6, Plain(Text(115, d))), Field(7, Plain(Text(115, s))), Field(8, Plain(Signature(g))), Field(9, Plain(Word(117, u)));
    var none := HeaderFields(None, None, None, None, None, None, None, None);
    EntriesSpelled(none, p, n);
    CollectMore([], a);
    var h1 := none.(path := Some(p));
    EntriesSpelled(h1, i, n);
    CollectMore([a], b);
    var h2 := h1.(iface := Some(i));
    EntriesSpelled(h2, m, n);
    CollectMore([a, b], c);
    var h3 := h2.(member := Some(m));
    EntriesSpelled(h3, m, n);
    CollectMore([a, b, c], f);
    var h4 := h3.(replySerial := Some(n));
    EntriesSpelled(h4, d, n);
    CollectMore([a, b, c, f], h);
    var h5 := h4.(destination := Some(d));
    EntriesSpelled(h5, s, n);
    CollectMore([a, b, c, f, h], j);
    var h6 := h5.(sender := Some(s));
    EntriesSpelled(h6, g, n);
    CollectMore([a, b, c, f, h, j], k);
    var h7 := h6.(signature := Some(g));
    EntriesSpelled(h7, g, u);
    CollectMore([a, b, c, f, h, j, k], l);
    assert [] + [a] == [a] && [a] + [b] == [a, b] && [a, b] + [c] == [a, b, c] && [a, b, c] + [f] == [a, b, c, f];
    assert [a, b, c, f] + [h] == [a, b, c, f, h] && [a, b, c, f, h] + [j] == [a, b, c, f, h, j];
    assert [a, b, c, f, h, j] + [k] == [a, b, c, f, h, j, k] && [a, b, c, f, h, j, k] + [l] == [a, b, c, f, h, j, k, l];
  }

  lemma CollectMore(fs: seq<Field>, f: Field)
    ensures Collect(fs + [f]) == Assign(Collect(fs), f)
    ensures Collect([]) == HeaderFields(None, None, None, None, None, None, None, None)
  {
    hide Assign;
    assert (fs + [f])[..|fs|] == fs;
  }

  // ----- whole messages -----

  /** The padding between array and body, and between fields. */
  lemma ArraySpelled(e: Endian, f: Field, rest: seq<Field>)
    ensures FieldArray(e, []) == [] && FieldArray(e, [f]) == FieldBytes(e, f)
    ensures |rest| > 0 ==>
      FieldArray(e, [f] + rest) == FieldBytes(e, f) + Zeros(Pad(|FieldBytes(e, f)|, 8)) + FieldArray(e, rest)
  {
    hide FieldBytes;
    FieldArrayCons(e, f, rest);
  }

  /** Some fixed bytes, a text, and the zeros behind it. */
  function Piece(lead: bytes, s: bytes, zeros: bytes): bytes { lead + s + zeros }

  function HelloBytes(): bytes {
    [108, 1, 0, 1, 0, 0, 0, 0, 1, 0, 0, 0, 109, 0, 0, 0]
    + (Piece([1, 1, 111, 0, 21, 0, 0, 0], Ascii("/org/freedesktop/DBus"), [0, 0, 0])
       + (Piece([2, 1, 115, 0, 20, 0, 0, 0], Ascii("org.freedesktop.DBus"), [0, 0, 0, 0])
          + (Piece([3, 1, 115, 0, 5, 0, 0, 0], Ascii("Hello"), [0, 0, 0])
             + Piece([6, 1, 115, 0, 20, 0, 0, 0], Ascii("org.freedesktop.DBus"), [0]))))
    + [0, 0, 0]
  }

  lemma PaddingsSpelled()
    ensures Zeros(Pad(30, 8)) == [0, 0] && Zeros(Pad(29, 8)) == [0, 0, 0] && Zeros(Pad(14, 8)) == [0, 0]
    ensures Zeros(Pad(125, 8)) == [0, 0, 0] && Zeros(Pad(8, 8)) == [] && Zeros(Pad(32, 8)) == []
    ensures FourBytes(true, 21) == [21, 0, 0, 0] && FourBytes(true, 20) == [20, 0, 0, 0] && FourBytes(true, 5) == [5, 0, 0, 0]
    ensures FourBytes(true, 0) == [0, 0, 0, 0] && FourBytes(true, 1) == [1, 0, 0, 0] && FourBytes(true, 109) == [109, 0, 0, 0]
  {
  }

  lemma PieceSpelled(code: bytes, length: bytes, s: bytes, pad: bytes)
    ensures code + (length + s + [0]) + pad == Piece(code + length, s, [0] + pad)
  {
  }

  lemma FourFieldsSpelled(p: bytes, d: bytes, h: bytes)
    requires |p| == 21 && |d| == 20 && |h| == 5
    ensures FieldArray(Little, [Field(1, Plain(Text(111, p))), Field(2, Plain(Text(115, d))), Field(3, Plain(Text(115, h))),
                                Field(6, Plain(Text(115, d)))]) ==
      Piece([1, 1, 111, 0, 21, 0, 0, 0], p, [0, 0, 0]) + (Piece([2, 1, 115, 0, 20, 0, 0, 0], d, [0, 0, 0, 0])
      + (Piece([3, 1, 115, 0, 5, 0, 0, 0], h, [0, 0, 0]) + Piece([6, 1, 115, 0, 20, 0, 0, 0], d, [0])))
  {
    hide FieldArray, FieldBytes, Pad, FourBytes, Zeros, Piece;
    var a, b := Field(1, Plain(Text(111, p))), Field(2, Plain(Text(115, d)));
    var c, f := Field(3, Plain(Text(115, h))), Field(6, Plain(Text(115, d)));
    assert [a] + [b, c, f] == [a, b, c, f] && [b] + [c, f] == [b, c, f] && [c] + [f] == [c, f];
    ArraySpelled(Little, a, [b, c, f]);
    ArraySpelled(Little, b, [c, f]);
    ArraySpelled(Little, c, [f]);
    ArraySpelled(Little, f, []);
    TextFieldSpelled(true, 1, 111, p);
    TextFieldSpelled(true, 2, 115, d);
    TextFieldSpelled(true, 3, 115, h);
    TextFieldSpelled(true, 6, 115, d);
    PaddingsSpelled();
    PieceSpelled([1, 1, 111, 0], [21, 0, 0, 0], p, [0, 0]);
    PieceSpelled([2, 1, 115, 0], [20, 0, 0, 0], d, [0, 0, 0]);
    PieceSpelled([3, 1, 115, 0], [5, 0, 0, 0], h, [0, 0]);
    PieceSpelled([6, 1, 115, 0], [20, 0, 0, 0], d, []);
    EndsEmpty([6, 1, 115, 0] + ([20, 0, 0, 0] + d + [0]));
    LeadsSpelled();
  }

  lemma LeadsSpelled()
    ensures [1, 1, 111, 0] + [21, 0, 0, 0] == [1, 1, 111, 0, 21, 0, 0, 0] && [2, 1, 115, 0] + [20, 0, 0, 0] == [2, 1, 115, 0, 20, 0, 0, 0]
    ensures [3, 1, 115, 0] + [5, 0, 0, 0] == [3, 1, 115, 0, 5, 0, 0, 0] && [6, 1, 115, 0] + [20, 0, 0, 0] == [6, 1, 115, 0, 20, 0, 0, 0]
    ensures [0] + [0, 0] == [0, 0, 0] && [0] + [0, 0, 0] == [0, 0, 0, 0] && [0] + [] == [0]
    ensures [108, 1, 0, 1] + [0, 0, 0, 0] + [1, 0, 0, 0] + [109, 0, 0, 0] == [108, 1, 0, 1, 0, 0, 0, 0, 1, 0, 0, 0, 109, 0, 0, 0]
  {
  }

  lemma EndsEmpty(s: bytes)
    ensures s + [] == s
  {
  }

  lemma HelloFieldsSpelled()
    ensures var p, d, h := Ascii("/org/freedesktop/DBus"), Ascii("org.freedesktop.DBus"), Ascii("Hello");
      |p| == 21 && |d| == 20 && |h| == 5
      && HelloMsg().fields == [Field(1, Plain(Text(111, p))), Field(2, Plain(Text(115, d))), Field(3, Plain(Text(115, h))),
                               Field(6, Plain(Text(115, d)))]
  {
    hide FieldArray;
  }

  /** The Hello call, byte for byte. */
  lemma HelloSpelled()
    ensures Encode(HelloMsg()) == HelloBytes()
  {
    hide FieldArray, Pad, FourBytes, Zeros, HelloMsg;
    var p, d, h := Ascii("/org/freedesktop/DBus"), Ascii("org.freedesktop.DBus"), Ascii("Hello");
    HelloFieldsSpelled();
    FourFieldsSpelled(p, d, h);
    FrontSpelled(HelloMsg());
    PaddingsSpelled();
    HelloRest();
    LeadsSpelled();
    EndsEmpty(HelloBytes());
    assert |FieldArray(Little, HelloMsg().fields)| == 109;
  }

  lemma HelloRest()
    ensures var m := HelloMsg();
      m.e == Little && m.kind == 1 && m.flags == 0 && m.serial == 1 && m.body == [] && m.pad == Zeros(Pad(16 + |FieldArray(Little, m.fields)|, 8))
  {
    hide FieldArray;
  }

  /** The reply that ends a merged listing, byte for byte up to its body: a
      return (2) that expects no reply (1), with the serial of the request plus
      a million, for that request (field 5), of signature "as" (field 8). */
  lemma ReplySpelled(low: bool, serial: u32, body: bytes)
    ensures Encode(MethodReturnMsg(if low then Little else Big, serial, body, Some(Ascii("as")))) ==
      ([if low then 108 else 66, 2, 1, 1] + FourBytes(low, |body|) + FourBytes(low, (serial + 1000000) % 4294967296) + FourBytes(low, 16))
      + (([5, 1, 117, 0] + FourBytes(low, serial)) + [8, 1, 103, 0, 2, 97, 115, 0]) + body
  {
    hide FieldArray, FourBytes, Front, MethodReturnMsg, Zeros, Pad;
    var e := if low then Little else Big;
    var m := MethodReturnMsg(e, serial, body, Some(Ascii("as")));
    ReplyParts(e, serial, body);
    ReplyArraySpelled(low, serial);
    FrontSpelled(m);
    PaddingsSpelled();
    EndsEmpty(Front(m) + FieldArray(e, m.fields));
  }

  lemma ReplyParts(e: Endian, serial: u32, body: bytes)
    ensures var m := MethodReturnMsg(e, serial, body, Some(Ascii("as")));
      m.e == e && m.kind == 2 && m.flags == 1 && m.serial == (serial + 1000000) % 4294967296 && m.body == body
      && m.fields == [Field(5, Plain(Word(117, serial))), Field(8, Plain(Signature([97, 115])))]
      && m.pad == Zeros(Pad(16 + |FieldArray(e, m.fields)|, 8))
  {
    hide FieldArray, Zeros, Pad;
    assert Ascii("as") == [97, 115];
  }

  lemma ReplyArraySpelled(low: bool, serial: u32)
    ensures var a := FieldArray(if low then Little else Big, [Field(5, Plain(Word(117, serial))), Field(8, Plain(Signature([97, 115])))]);
      |a| == 16 && a == ([5, 1, 117, 0] + FourBytes(low, serial)) + [8, 1, 103, 0, 2, 97, 115, 0]
  {
    hide FieldArray, FieldBytes, FourBytes, Pad, Zeros;
    var e := if low then Little else Big;
    var f, g := Field(5, Plain(Word(117, serial))), Field(8, Plain(Signature([97, 115])));
    assert [f] + [g] == [f, g];
    ArraySpelled(e, f, [g]);
    ArraySpelled(e, g, []);
    WordFieldSpelled(low, 5, 117, serial);
    SignatureFieldSpelled(e, 8, [97, 115]);
    assert [8, 1, 103, 0] + ([2] + [97, 115] + [0]) == [8, 1, 103, 0, 2, 97, 115, 0];
    PaddingsSpelled();
    EndsEmpty([5, 1, 117, 0] + FourBytes(low, serial));
  }

  /** Strings in an array stand on multiples of four; its length is in front. */
  lemma StringsSpelled(low: bool, s: bytes, t: bytes)
    ensures var e := if low then Little else Big;
      Texts(e, []) == [] && Texts(e, [s]) == FourBytes(low, |s|) + s + [0]
      && Texts(e, [s, t]) == (FourBytes(low, |s|) + s + [0]) + Zeros((4 - (|s| + 5) % 4) % 4) + (FourBytes(low, |t|) + t + [0])
  {
    hide TextBytes, FourBytes, Texts;
    var e := if low then Little else Big;
    TextsCons(e, s, [t]);
    TextsCons(e, t, []);
    TextsEmpty(e, []);
    TextSpelled(low, s);
    TextSpelled(low, t);
    assert [s] + [t] == [s, t];
  }

  lemma StringArraySpelled(low: bool, names: seq<bytes>)
    ensures var e := if low then Little else Big;
      StringArray(e, names) == FourBytes(low, |Texts(e, names)|) + Texts(e, names)
  {
    hide FourBytes, U32, Texts;
    NumbersSpelled(low, |Texts(if low then Little else Big, names)|, [0, 0, 0, 0], 0);
  }

  // ----- the scan of the header -----

  /** How far the scan steps over a value, by type, on any bytes: strings,
      signatures, numbers, arrays; anything else stops it. */
  lemma StepsSpelled(low: bool, raw: bytes, end: nat, pos: nat, sig: byte)
    requires pos + 4 <= end && pos + 4 <= |raw|
    ensures var e := if low then Little else Big;
      SkipValue(raw, e, end, pos, sig) ==
      if sig == 115 || sig == 111 then Next(pos + 4 + Number(low, raw, pos) + 1)
      else if sig == 103 then Next(pos + 1 + raw[pos] + 1)
      else if sig in [117, 105, 98, 104] then Next(pos + 4)
      else if sig in [110, 113] then Next(pos + 2)
      else if sig in [120, 116, 100] then Next(pos + 8)
      else if sig == 121 then Next(pos + 1)
      else if sig == 97 then Next(pos + 4 + Number(low, raw, pos))
      else if sig == 118 then SkipVariant(raw, e, end, pos)
      else Stop
  {
    hide Number, SkipVariant;
    NumbersSpelled(low, 0, raw, pos);
  }

  /** Values that do not fit in front of the end stop it too. */
  lemma ShortStepsSpelled(raw: bytes, e: Endian, end: nat, pos: nat)
    requires end <= |raw|
    ensures pos + 4 > end ==>
      SkipValue(raw, e, end, pos, 115) == Stop && SkipValue(raw, e, end, pos, 111) == Stop && SkipValue(raw, e, end, pos, 97) == Stop
    ensures pos >= end ==> SkipValue(raw, e, end, pos, 103) == Stop && SkipValue(raw, e, end, pos, 118) == Stop
  {
  }

  /** The alignment of a value by the first code of its signature. */
  function AlignmentOf(code: byte): alignment {
    if code in [115, 111, 117, 105, 98, 104, 97] then 4 else if code in [110, 113] then 2
    else if code in [120, 116, 100, 40, 123] then 8 else 1
  }

  /** One turn of the scan, on any bytes and for signatures of any length: the
      value stands behind the signature and its NUL, aligned for the first code;
      the code that says how to step over it is read again, as far in front of
      the aligned value as the signature is long, and one. */
  lemma ScanSpelled(raw: bytes, e: Endian, end: nat, pos: nat, want: byte)
    requires pos % 8 == 0 && pos + 2 <= end <= |raw| && pos + 16 <= |raw|
    ensures var len := raw[pos + 1];
      var at := Align(pos + 3 + len, AlignmentOf(if len == 0 then 0 else raw[pos + 2]));
      ScanField(raw, e, end, pos, want) ==
      if raw[pos] == want then Found(at) else SkipValue(raw, e, end, at, if len == 0 then 0 else raw[at - len - 1])
  {
    hide SkipValue, ValueAlign, AlignmentOf, Align, SigByte;
    var len := raw[pos + 1];
    var code := if len == 0 then 0 else raw[pos + 2];
    AlignmentSpelled(code);
    AlignedAlready(pos);
    SignatureRead(raw, pos + 1 + 1 + len + 1, len);
    SignatureRead(raw, Align(pos + 1 + 1 + len + 1, ValueAlign(code)), len);
  }

  lemma SignatureRead(raw: bytes, pos: nat, len: nat)
    requires pos > len && (len > 0 ==> pos - len - 1 < |raw|)
    ensures SigByte(raw, pos, len) == Some(if len == 0 then 0 else raw[pos - len - 1])
  {
  }

  lemma AlignmentSpelled(code: byte)
    ensures ValueAlign(code) == AlignmentOf(code)
  {
  }

  lemma AlignedAlready(pos: nat)
    requires pos % 8 == 0
    ensures Align(pos, 8) == pos
  {
  }

  /** Nested variants: a basic type inside is stepped over like a plain one
      where it stands; anything else, another variant too, stops the scan. */
  lemma VariantStepsSpelled(raw: bytes, e: Endian, end: nat, pos: nat)
    requires pos < end <= |raw|
    ensures var len := raw[pos];
      SkipVariant(raw, e, end, pos) ==
      if pos + len + 2 > end || len == 0 || raw[pos + 1] in [97, 118] then Stop
      else SkipValue(raw, e, end, Align(pos + len + 2, AlignmentOf(raw[pos + 1])), raw[pos + 1])
  {
    hide ValueAlign, AlignmentOf, SkipText, Align;
    var code := if raw[pos] > 0 && pos + 1 < |raw| then raw[pos + 1] else 0;
    AlignmentSpelled(code);
  }

  /** Behind the bytes there are - the array claims more than was received -
      what has to be read panics, and so does the message about an unknown type
      that shows the sixteen bytes in front. */
  lemma PastTheEndSpelled(raw: bytes, e: Endian, end: nat, pos: nat, sig: byte)
    requires pos >= |raw| && pos + 4 <= end
    ensures SkipValue(raw, e, end, pos, sig) ==
      if sig in [115, 111, 97, 103, 118] then Crash
      else if sig in [117, 105, 98, 104] then Next(pos + 4)
      else if sig in [110, 113] then Next(pos + 2)
      else if sig in [120, 116, 100] then Next(pos + 8)
      else if sig == 121 then Next(pos + 1)
      else if pos > |raw| + 16 then Crash else Stop
  {
  }

  /** A field with no room for its signature ends the scan. */
  lemma ShortFieldSpelled(raw: bytes, e: Endian, end: nat, pos: nat, want: byte)
    requires pos % 8 == 0 && end <= |raw| && pos + 1 >= end
    ensures ScanField(raw, e, end, pos, want) == Stop
  {
    hide SkipValue, ValueAlign;
    AlignedAlready(pos);
  }

  /** A name that starts where no length fits any more is an error. */
  lemma ShortSpliceSpelled(raw: bytes, e: Endian, end: nat, pos: nat, value: bytes)
    requires |raw| >= 16 && pos >= 16 && end >= 16 && pos + 4 > |raw|
    ensures Splice(raw, e, end, pos, value) == Err
  {
  }
}
