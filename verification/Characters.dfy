/** What the byte checks mean in characters: UTF-8 is the encoding of Unicode
    scalar values, white space is a list of code points. */
module Characters {
  import opened Wire
  import Utf8
  import Message
  import MatchRules

  /** A Unicode scalar value: a code point that is no surrogate. */
  predicate Scalar(cp: nat) { cp < 0xD800 || 0xE000 <= cp < 0x110000 }

  function Encoded(cp: nat): (r: bytes)
    requires Scalar(cp)
    ensures 1 <= |r| <= 4
  {
    if cp < 0x80 then [cp]
    else if cp < 0x800 then [0xC0 + cp / 64, 0x80 + cp % 64]
    else if cp < 0x10000 then [0xE0 + cp / 4096, 0x80 + cp / 64 % 64, 0x80 + cp % 64]
    else [0xF0 + cp / 262144, 0x80 + cp / 4096 % 64, 0x80 + cp / 64 % 64, 0x80 + cp % 64]
  }

  function EncodedAll(cps: seq<nat>): bytes
    requires forall i :: 0 <= i < |cps| ==> Scalar(cps[i])
  {
    if |cps| == 0 then [] else Encoded(cps[0]) + EncodedAll(cps[1..])
  }

  predicate Scalars(cps: seq<nat>) { forall i :: 0 <= i < |cps| ==> Scalar(cps[i]) }

  lemma HeadOfTwo(cp: nat, s: bytes)
    requires 0x80 <= cp < 0x800 && |s| >= 2 && s[0] == 0xC0 + cp / 64 && s[1] == 0x80 + cp % 64
    ensures Utf8.Head(s) == (true, 2)
  {
  }

  lemma HeadOfThree(cp: nat, s: bytes)
    requires 0x800 <= cp < 0x10000 && Scalar(cp) && |s| >= 3
    requires s[0] == 0xE0 + cp / 4096 && s[1] == 0x80 + cp / 64 % 64 && s[2] == 0x80 + cp % 64
    ensures Utf8.Head(s) == (true, 3)
  {
    LeadOfThree(cp / 64);
    Sixteenth(cp);
  }

  lemma Sixteenth(cp: nat)
    requires 0x800 <= cp < 0x10000 && Scalar(cp)
    ensures cp / 4096 == cp / 64 / 64 && 32 <= cp / 64 < 1024 && !(864 <= cp / 64 < 896)
  {
  }

  lemma LeadOfThree(q: nat)
    requires 32 <= q < 1024 && !(864 <= q < 896)
    ensures q / 64 < 16 && (q / 64 == 0 ==> q % 64 >= 32) && (q / 64 == 13 ==> q % 64 < 32)
  {
  }

  lemma HeadOfFour(cp: nat, s: bytes)
    requires 0x10000 <= cp < 0x110000 && |s| >= 4
    requires s[0] == 0xF0 + cp / 262144 && s[1] == 0x80 + cp / 4096 % 64 && s[2] == 0x80 + cp / 64 % 64 && s[3] == 0x80 + cp % 64
    ensures Utf8.Head(s) == (true, 4)
  {
    LeadOfFour(cp / 4096);
    Quarter(cp);
  }

  lemma Quarter(cp: nat)
    requires 0x10000 <= cp < 0x110000
    ensures cp / 262144 == cp / 4096 / 64 && 16 <= cp / 4096 < 272
  {
  }

  lemma LeadOfFour(q: nat)
    requires 16 <= q < 272
    ensures q / 64 < 5 && (q / 64 == 0 ==> q % 64 >= 16) && (q / 64 == 4 ==> q % 64 < 16)
  {
  }

  /** Whatever follows, the checks see the whole encoded character. */
  lemma HeadOfEncoded(cp: nat, rest: bytes)
    requires Scalar(cp)
    ensures Utf8.Head(Encoded(cp) + rest) == (true, |Encoded(cp)|)
  {
    hide Utf8.Head;
    var s := Encoded(cp) + rest;
    if cp < 0x80 {
      OneByteHead(s);
    } else if cp < 0x800 {
      HeadOfTwo(cp, s);
    } else if cp < 0x10000 {
      HeadOfThree(cp, s);
    } else {
      HeadOfFour(cp, s);
    }
  }

  lemma OneByteHead(s: bytes)
    requires |s| > 0 && s[0] < 0x80
    ensures Utf8.Head(s) == (true, 1)
  {
  }

  /** The character at the front of a checked string. */
  lemma HeadIsEncoded(s: bytes) returns (cp: nat)
    requires |s| > 0 && Utf8.Head(s).0
    ensures Scalar(cp) && Encoded(cp) == s[..Utf8.Head(s).1]
  {
    var n := Utf8.Head(s).1;
    var b0: int := s[0];
    if n == 1 {
      cp := b0;
    } else if n == 2 {
      cp := TwoBytes(b0, s[1]);
    } else if n == 3 {
      cp := ThreeBytes(b0, s[1], s[2]);
    } else {
      cp := FourBytes(b0, s[1], s[2], s[3]);
    }
  }

  lemma TwoBytes(b0: int, b1: int) returns (cp: nat)
    requires 0xC2 <= b0 < 0xE0 && 0x80 <= b1 < 0xC0
    ensures 0x80 <= cp < 0x800 && Encoded(cp) == [b0, b1]
  {
    cp := 64 * (b0 - 0xC0) + (b1 - 0x80);
  }

  lemma ThreeBytes(b0: int, b1: int, b2: int) returns (cp: nat)
    requires 0xE0 <= b0 < 0xF0 && 0x80 <= b1 < 0xC0 && 0x80 <= b2 < 0xC0
    requires (b0 == 0xE0 ==> b1 >= 0xA0) && (b0 == 0xED ==> b1 < 0xA0)
    ensures 0x800 <= cp < 0x10000 && Scalar(cp) && Encoded(cp) == [b0, b1, b2]
    ensures cp == 4096 * (b0 - 0xE0) + 64 * (b1 - 0x80) + (b2 - 0x80)
  {
    cp := 4096 * (b0 - 0xE0) + 64 * (b1 - 0x80) + (b2 - 0x80);
    assert cp / 64 == 64 * (b0 - 0xE0) + (b1 - 0x80);
  }

  lemma FourBytes(b0: int, b1: int, b2: int, b3: int) returns (cp: nat)
    requires 0xF0 <= b0 < 0xF5 && 0x80 <= b1 < 0xC0 && 0x80 <= b2 < 0xC0 && 0x80 <= b3 < 0xC0
    requires (b0 == 0xF0 ==> b1 >= 0x90) && (b0 == 0xF4 ==> b1 < 0x90)
    ensures 0x10000 <= cp < 0x110000 && Encoded(cp) == [b0, b1, b2, b3]
  {
    cp := 262144 * (b0 - 0xF0) + 4096 * (b1 - 0x80) + 64 * (b2 - 0x80) + (b3 - 0x80);
    assert cp / 64 == 4096 * (b0 - 0xF0) + 64 * (b1 - 0x80) + (b2 - 0x80);
    assert cp / 4096 == 64 * (b0 - 0xF0) + (b1 - 0x80);
    assert cp / 262144 == b0 - 0xF0;
  }

  lemma {:induction false} EncodedIsValid(cps: seq<nat>)
    requires Scalars(cps)
    ensures Utf8.Valid(EncodedAll(cps))
    decreases |cps|
  {
    hide Encoded, Utf8.Head;
    if |cps| > 0 {
      var first, rest := Encoded(cps[0]), EncodedAll(cps[1..]);
      EncodedIsValid(cps[1..]);
      HeadOfEncoded(cps[0], rest);
      assert (first + rest)[|first|..] == rest;
    }
  }

  /** A byte string passes the check if and only if it is the UTF-8 encoding of
      some sequence of Unicode scalar values. */
  lemma {:induction false} ValidExactly(s: bytes)
    ensures Utf8.Valid(s) <==> exists cps :: Scalars(cps) && EncodedAll(cps) == s
    decreases |s|
  {
    hide Encoded, Utf8.Head;
    if Utf8.Valid(s) {
      if |s| == 0 {
        assert Scalars([]) && EncodedAll([]) == s;
      } else {
        var n := Utf8.Head(s).1;
        var cp := HeadIsEncoded(s);
        ValidExactly(s[n..]);
        var cps :| Scalars(cps) && EncodedAll(cps) == s[n..];
        assert ([cp] + cps)[1..] == cps;
        assert s == s[..n] + s[n..];
        assert Scalars([cp] + cps) && EncodedAll([cp] + cps) == s;
      }
    }
    if cps :| Scalars(cps) && EncodedAll(cps) == s {
      EncodedIsValid(cps);
    }
  }

  /** Text in a message: any characters but NUL. */
  lemma TextExactly(s: bytes)
    ensures Message.ValidText(s) <==> 0 !in s && exists cps :: Scalars(cps) && EncodedAll(cps) == s
  {
    hide Utf8.Valid, EncodedAll;
    ValidExactly(s);
  }

  /** Repaired text always passes the check. */
  lemma {:induction false} LossyIsValid(s: bytes)
    ensures Utf8.Valid(Utf8.Lossy(s))
    decreases |s|
  {
    hide Utf8.Head;
    if |s| > 0 {
      var n := Utf8.Head(s).1;
      var front := if Utf8.Head(s).0 then s[..n] else [0xEF, 0xBF, 0xBD];
      LossyIsValid(s[n..]);
      var cp := if Utf8.Head(s).0 then 0 else 0xFFFD;
      if Utf8.Head(s).0 {
        cp := HeadIsEncoded(s);
      } else {
        assert Encoded(0xFFFD) == front;
      }
      HeadOfEncoded(cp, Utf8.Lossy(s[n..]));
      assert (front + Utf8.Lossy(s[n..]))[|front|..] == Utf8.Lossy(s[n..]);
    }
  }

  // ----- broken text -----

  /** These bytes start the encoding of some character. */
  ghost predicate Starts(s: bytes) { exists cp :: Scalar(cp) && s <= Encoded(cp) }

  lemma StartOfThree(b0: int, b1: int)
    requires 0xE0 <= b0 < 0xF0 && 0x80 <= b1 < 0xC0 && (b0 == 0xE0 ==> b1 >= 0xA0) && (b0 == 0xED ==> b1 < 0xA0)
    ensures Starts([b0]) && Starts([b0, b1])
  {
    var cp := ThreeBytes(b0, b1, 0x80);
    assert [b0, b1] <= Encoded(cp) && [b0] <= Encoded(cp);
  }

  lemma StartOfFour(b0: int, b1: int, b2: int)
    requires 0xF0 <= b0 < 0xF5 && 0x80 <= b1 < 0xC0 && 0x80 <= b2 < 0xC0 && (b0 == 0xF0 ==> b1 >= 0x90) && (b0 == 0xF4 ==> b1 < 0x90)
    ensures Starts([b0, b1]) && Starts([b0, b1, b2])
  {
    var cp := FourBytes(b0, b1, b2, 0x80);
    assert [b0, b1] <= Encoded(cp) && [b0, b1, b2] <= Encoded(cp);
  }

  /** One byte more than what is taken for broken starts no character. */
  lemma NoLongerStart(s: bytes, k: nat)
    requires |s| > 0 && Utf8.Head(s) == (false, k) && k < |s|
    ensures !Starts(s[..k + 1])
  {
    hide Encoded, Scalar;
    forall cp | Scalar(cp) ensures !(s[..k + 1] <= Encoded(cp)) {
      var t := Encoded(cp);
      HeadOfEncoded(cp, []);
      assert t + [] == t;
      if s[..k + 1] <= t {
        assert forall i :: 0 <= i <= k ==> t[i] == s[i];
        assert false;
      }
    }
  }

  /** What is taken for broken: where no character starts, the longest run of
      bytes that could have been the start of one, and at least one byte. */
  lemma BrokenExactly(s: bytes)
    requires |s| > 0
    ensures Utf8.Head(s).0 <==> exists cp :: Scalar(cp) && Encoded(cp) <= s
    ensures var k := Utf8.Head(s).1;
      !Utf8.Head(s).0 ==> (k == 1 || Starts(s[..k])) && (k < |s| ==> !Starts(s[..k + 1]))
  {
    hide Utf8.Head;
    var (good, k) := Utf8.Head(s);
    if good {
      var cp := HeadIsEncoded(s);
      assert Encoded(cp) <= s;
    } else {
      if k > 1 {
        BrokenStarts(s, k);
      }
      if k < |s| {
        NoLongerStart(s, k);
      }
    }
    if cp :| Scalar(cp) && Encoded(cp) <= s {
      HeadOfEncoded(cp, s[|Encoded(cp)|..]);
      assert s == Encoded(cp) + s[|Encoded(cp)|..];
    }
  }

  lemma BrokenStarts(s: bytes, k: nat)
    requires |s| > 0 && Utf8.Head(s) == (false, k) && k > 1
    ensures Starts(s[..k])
  {
    hide Starts;
    if k == 2 {
      assert s[..2] == [s[0], s[1]];
      if s[0] < 0xF0 {
        StartOfThree(s[0], s[1]);
      } else {
        StartOfFour(s[0], s[1], 0x80);
      }
    } else {
      assert s[..3] == [s[0], s[1], s[2]];
      StartOfFour(s[0], s[1], s[2]);
    }
  }

  /** Repairing keeps what is good and puts U+FFFD for each broken part. */
  lemma {:induction false} LossySpelled(cps: seq<nat>, s: bytes)
    requires Scalars(cps)
    ensures Utf8.Lossy(EncodedAll(cps) + s) == EncodedAll(cps) + Utf8.Lossy(s)
    ensures |s| > 0 && !Utf8.Head(s).0 ==> Utf8.Lossy(s) == [239, 191, 189] + Utf8.Lossy(s[Utf8.Head(s).1..])
    ensures Utf8.Lossy([]) == []
    decreases |cps|
  {
    hide Encoded, Utf8.Head;
    if |cps| == 0 {
      assert EncodedAll(cps) + s == s;
      assert EncodedAll(cps) + Utf8.Lossy(s) == Utf8.Lossy(s);
    } else {
      var first, rest := Encoded(cps[0]), EncodedAll(cps[1..]);
      LossySpelled(cps[1..], s);
      HeadOfEncoded(cps[0], rest + s);
      var all := first + (rest + s);
      assert EncodedAll(cps) + s == all && all[..|first|] == first && all[|first|..] == rest + s;
      assert first + (rest + Utf8.Lossy(s)) == EncodedAll(cps) + Utf8.Lossy(s);
    }
  }

  // ----- white space -----

  /** The code points with the Unicode property White_Space. */
  predicate WhiteSpace(cp: nat) {
    9 <= cp <= 13 || cp == 0x20 || cp == 0x85 || cp == 0xA0 || cp == 0x1680 || 0x2000 <= cp <= 0x200A
    || cp == 0x2028 || cp == 0x2029 || cp == 0x202F || cp == 0x205F || cp == 0x3000
  }

  /** Trimming takes exactly the encodings of white space. */
  lemma SpaceExactly(c: bytes)
    ensures MatchRules.IsSpace(c) <==> exists cp :: WhiteSpace(cp) && Encoded(cp) == c
  {
    if MatchRules.IsSpace(c) {
      if |c| == 1 {
        assert WhiteSpace(c[0]) && Encoded(c[0]) == c;
      } else if |c| == 2 {
        assert WhiteSpace(c[1]) && Encoded(c[1]) == c;
      } else {
        var cp := ThreeBytes(c[0], c[1], c[2]);
        assert WhiteSpace(cp) && Encoded(cp) == c;
      }
    }
    if cp :| WhiteSpace(cp) && Encoded(cp) == c {
      SpaceEncoded(cp);
    }
  }

  lemma SpaceEncoded(cp: nat)
    requires WhiteSpace(cp)
    ensures MatchRules.IsSpace(Encoded(cp))
  {
  }
}
