/** UTF-8 as Rust checks it (`str::from_utf8`) and repairs it
    (`String::from_utf8_lossy`). A Rust `String` is modelled by its bytes. */
module Utf8 {
  import opened Wire

  /** Length announced by a lead byte; 0 when no sequence starts with it. */
  function Width(b: byte): nat {
    if b < 0x80 then 1 else if 0xC2 <= b < 0xE0 then 2 else if 0xE0 <= b < 0xF0 then 3
    else if 0xF0 <= b < 0xF5 then 4 else 0
  }

  predicate Continues(b: byte) { 0x80 <= b < 0xC0 }

  /** The second byte also rules out overlong forms, surrogates and values past U+10FFFF. */
  predicate SecondFits(lead: byte, b: byte) {
    Continues(b) && (lead == 0xE0 ==> b >= 0xA0) && (lead == 0xED ==> b < 0xA0)
    && (lead == 0xF0 ==> b >= 0x90) && (lead == 0xF4 ==> b < 0x90)
  }

  /** (whether a character starts here, how many bytes it or the broken part takes) */
  function Head(s: bytes): (r: (bool, nat))
    requires |s| > 0
    ensures 1 <= r.1 <= |s|
  {
    var w := Width(s[0]);
    if w <= 1 then (w == 1, 1)
    else if |s| < 2 || !SecondFits(s[0], s[1]) then (false, 1)
    else if w == 2 then (true, 2)
    else if |s| < 3 || !Continues(s[2]) then (false, 2)
    else if w == 3 then (true, 3)
    else if |s| < 4 || !Continues(s[3]) then (false, 3)
    else (true, 4)
  }

  predicate Valid(s: bytes) {
    |s| == 0 || (Head(s).0 && Valid(s[Head(s).1..]))
  }

  /** Every broken part becomes U+FFFD. */
  function Lossy(s: bytes): bytes {
    if |s| == 0 then []
    else (if Head(s).0 then s[..Head(s).1] else [0xEF, 0xBF, 0xBD]) + Lossy(s[Head(s).1..])
  }

  /** Repairing changes nothing exactly when there is nothing to repair. */
  lemma {:induction false} LossyOnValid(s: bytes)
    requires Valid(s)
    ensures Lossy(s) == s
  {
    if |s| > 0 {
      LossyOnValid(s[Head(s).1..]);
      assert s == s[..Head(s).1] + s[Head(s).1..];
    }
  }

  /** ASCII in front neither helps nor hurts. */
  lemma {:induction false} AsciiInFront(a: bytes, s: bytes)
    requires forall i :: 0 <= i < |a| ==> a[i] < 0x80
    ensures Valid(a + s) == Valid(s)
  {
    if |a| == 0 {
      assert a + s == s;
    } else {
      assert (a + s)[1..] == a[1..] + s;
      AsciiInFront(a[1..], s);
    }
  }
}
