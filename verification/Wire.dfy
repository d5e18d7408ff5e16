/** Bytes, byte orders and alignment: the vocabulary of the D-Bus wire format
    (D-Bus Specification 0.43, section "Marshaling (Wire Format)"). */
module Wire {

  type byte = b: int | 0 <= b < 256
  type bytes = seq<byte>
  type u32 = n: int | 0 <= n < 0x1_0000_0000
  type alignment = a: int | a == 1 || a == 2 || a == 4 || a == 8 witness 1

  const TWO32 := 0x1_0000_0000

  datatype Option<+T> = None | Some(value: T)

  /** What a fallible Rust function does: return a value, return an error, or
      panic on an index that is out of bounds. */
  datatype Outcome<+T> = Ok(value: T) | Err | Panic

  datatype Endian = Little | Big

  /** The ASCII bytes of a literal. */
  function Ascii(s: string): (r: bytes)
    requires forall i :: 0 <= i < |s| ==> s[i] as int < 128
    ensures |r| == |s|
  {
    seq(|s|, i requires 0 <= i < |s| => s[i] as int)
  }

  // ----- 32-bit integers -----

  /** The four bytes of `n as u32`. */
  function U32(e: Endian, n: nat): (r: bytes)
    ensures |r| == 4
  {
    var b0, b1, b2, b3 := n % 256, n / 0x100 % 256, n / 0x1_0000 % 256, n / 0x100_0000 % 256;
    if e.Little? then [b0, b1, b2, b3] else [b3, b2, b1, b0]
  }

  function Digits(b0: int, b1: int, b2: int, b3: int): int {
    b0 + 0x100 * b1 + 0x1_0000 * b2 + 0x100_0000 * b3
  }

  function ReadU32(e: Endian, b: bytes, at: nat): u32
    requires at + 4 <= |b|
  {
    if e.Little? then Digits(b[at], b[at + 1], b[at + 2], b[at + 3])
    else Digits(b[at + 3], b[at + 2], b[at + 1], b[at])
  }

  lemma ReadWrite(e: Endian, n: nat, b: bytes, at: nat)
    requires at + 4 <= |b| && b[at..at + 4] == U32(e, n)
    ensures ReadU32(e, b, at) == n % TWO32
  {
    var w := U32(e, n);
    assert b[at] == w[0] && b[at + 1] == w[1] && b[at + 2] == w[2] && b[at + 3] == w[3];
    DigitsOf(n);
  }

  lemma DigitsOf(n: nat)
    ensures Digits(n % 256, n / 0x100 % 256, n / 0x1_0000 % 256, n / 0x100_0000 % 256) == n % TWO32
  {
    var q1 := n / 0x100;
    var q2 := q1 / 0x100;
    var q3 := q2 / 0x100;
    Quotients(n);
    assert n == 0x100 * q1 + n % 0x100 && q1 == 0x100 * q2 + q1 % 0x100 && q2 == 0x100 * q3 + q2 % 0x100;
    Remainder32(q3 / 0x100, Digits(n % 0x100, q1 % 0x100, q2 % 0x100, q3 % 0x100));
  }

  lemma Quotients(n: nat)
    ensures n / 0x100 / 0x100 == n / 0x1_0000 && n / 0x1_0000 / 0x100 == n / 0x100_0000
  {
  }

  lemma Remainder32(q: int, r: int)
    requires 0 <= r < TWO32
    ensures (TWO32 * q + r) % TWO32 == r
  {
  }

  lemma OfDigits(b0: byte, b1: byte, b2: byte, b3: byte)
    ensures var n := Digits(b0, b1, b2, b3);
      n % 256 == b0 && n / 0x100 % 256 == b1 && n / 0x1_0000 % 256 == b2 && n / 0x100_0000 % 256 == b3
  {
    var n := Digits(b0, b1, b2, b3);
    assert n / 0x100 == b1 + 0x100 * b2 + 0x1_0000 * b3;
    assert n / 0x1_0000 == b2 + 0x100 * b3;
    assert n / 0x100_0000 == b3;
  }

  lemma WriteRead(e: Endian, b: bytes, at: nat)
    requires at + 4 <= |b|
    ensures U32(e, ReadU32(e, b, at)) == b[at..at + 4]
  {
    if e.Little? {
      OfDigits(b[at], b[at + 1], b[at + 2], b[at + 3]);
    } else {
      OfDigits(b[at + 3], b[at + 2], b[at + 1], b[at]);
    }
  }

  lemma U32Wraps(e: Endian, n: nat)
    ensures U32(e, n % TWO32) == U32(e, n)
  {
    DigitsOf(n);
    OfDigits(n % 256, n / 0x100 % 256, n / 0x1_0000 % 256, n / 0x100_0000 % 256);
  }

  // ----- alignment -----

  predicate Aligned(n: nat, a: alignment) { Rest(n, a) == 0 }

  /** `n % a` */
  function Rest(n: nat, a: alignment): (r: nat)
    ensures r < a
  {
    if a == 8 then n % 8 else if a == 4 then n % 4 else if a == 2 then n % 2 else 0
  }

  lemma Remainders(q: int, r: int)
    ensures 0 <= r < 8 ==> (8 * q + r) % 8 == r
    ensures 0 <= r < 4 ==> (4 * q + r) % 4 == r
    ensures 0 <= r < 2 ==> (2 * q + r) % 2 == r
  {
  }

  lemma RestSum(m: nat, n: nat, a: alignment)
    ensures Rest(m + n, a) == if Rest(m, a) + Rest(n, a) < a then Rest(m, a) + Rest(n, a) else Rest(m, a) + Rest(n, a) - a
  {
    if a == 8 {
      Remainders(m / 8 + n / 8, m % 8 + n % 8);
      Remainders(m / 8 + n / 8 + 1, m % 8 + n % 8 - 8);
    } else if a == 4 {
      Remainders(m / 4 + n / 4, m % 4 + n % 4);
      Remainders(m / 4 + n / 4 + 1, m % 4 + n % 4 - 4);
    } else if a == 2 {
      Remainders(m / 2 + n / 2, m % 2 + n % 2);
      Remainders(m / 2 + n / 2 + 1, m % 2 + n % 2 - 2);
    }
  }

  /** Bytes of padding after `n` bytes, up to the next multiple of `a`:
      `(a - n % a) % a`. */
  function Pad(n: nat, a: alignment): (p: nat)
    ensures p < a && Aligned(n + p, a)
  {
    var p := if Rest(n, a) == 0 then 0 else a - Rest(n, a);
    RestSum(n, p, a);
    assert Rest(p, a) == p;
    p
  }

  function Align(n: nat, a: alignment): (r: nat)
    ensures n <= r < n + a && Aligned(r, a)
  {
    n + Pad(n, a)
  }

  function Zeros(n: nat): (z: bytes)
    ensures |z| == n
  {
    seq(n, _ => 0)
  }

  predicate AllZero(s: bytes) {
    forall i :: 0 <= i < |s| ==> s[i] == 0
  }

  lemma ZerosOnly(s: bytes)
    ensures AllZero(s) <==> s == Zeros(|s|)
  {
  }

  lemma AlignedSum(m: nat, n: nat, a: alignment)
    requires Aligned(m, a)
    ensures Aligned(m + n, a) == Aligned(n, a)
  {
    RestSum(m, n, a);
  }

  /** What is aligned to eight bytes is aligned to any smaller boundary. */
  lemma AlignedToAll(p: nat, a: alignment)
    requires Aligned(p, 8)
    ensures Aligned(p, a)
  {
    assert p == 8 * (p / 8);
    Remainders(p / 8 * 2, 0);
    Remainders(p / 8 * 4, 0);
  }

  lemma PadShift(p: nat, n: nat, a: alignment)
    requires Aligned(p, a)
    ensures Pad(p + n, a) == Pad(n, a)
  {
    RestSum(p, n, a);
  }

  // ----- arrays: items separated by padding -----

  function Padded(s: bytes, a: alignment): (r: bytes)
    ensures |r| == Align(|s|, a)
  {
    s + Zeros(Pad(|s|, a))
  }

  /** Array contents: every item but the last is followed by padding. */
  function Join(items: seq<bytes>, a: alignment): bytes {
    if |items| == 0 then [] else if |items| == 1 then items[0]
    else Padded(items[0], a) + Join(items[1..], a)
  }

  function PaddedAll(items: seq<bytes>, a: alignment): (r: bytes)
    ensures Aligned(|r|, a)
  {
    if |items| == 0 then [] else
      AlignedSum(|Padded(items[0], a)|, |PaddedAll(items[1..], a)|, a);
      Padded(items[0], a) + PaddedAll(items[1..], a)
  }

  lemma {:induction false} JoinSplit(left: seq<bytes>, right: seq<bytes>, a: alignment)
    requires |right| > 0
    ensures Join(left + right, a) == PaddedAll(left, a) + Join(right, a)
  {
    if |left| == 0 {
      assert left + right == right;
      assert PaddedAll(left, a) + Join(right, a) == Join(right, a);
    } else {
      assert (left + right)[1..] == left[1..] + right;
      JoinSplit(left[1..], right, a);
      var h, m, t := Padded(left[0], a), PaddedAll(left[1..], a), Join(right, a);
      assert h + (m + t) == (h + m) + t;
    }
  }
}
