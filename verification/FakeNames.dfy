/** Fake unique names: a bus prefix that tells the client's names for the
    connections of the two buses apart. */
module FakeNames {
  import opened Wire
  import Utf8

  datatype Bus = Host | Sandbox

  const COLON: byte := 58
  const HOST_PREFIX: bytes := [58, 104, 46]     // ":h."
  const SANDBOX_PREFIX: bytes := [58, 115, 46]  // ":s."

  predicate IsUnique(name: bytes) { |name| > 0 && name[0] == COLON }

  function FakePrefix(bus: Bus): bytes {
    match bus case Host => HOST_PREFIX case Sandbox => SANDBOX_PREFIX
  }

  function BusOfFake(name: bytes): Option<Bus> {
    if HOST_PREFIX <= name then Some(Host) else if SANDBOX_PREFIX <= name then Some(Sandbox) else None
  }

  function ToFake(name: bytes, source: Bus): bytes {
    if !IsUnique(name) then name else FakePrefix(source) + name[1..]
  }

  function FromFake(fake: bytes): Option<(bytes, Bus)> {
    var bus := BusOfFake(fake);
    if bus.None? then None else Some(([COLON] + fake[|FakePrefix(bus.value)|..], bus.value))
  }

  /** The two directions are inverse: `f` is the client's name for the
      connection `n` of `b` exactly when undoing `f` gives `n` and `b`. */
  lemma FakeNameRoundTrip(n: bytes, b: Bus, f: bytes)
    ensures FromFake(f) == Some((n, b)) <==> IsUnique(n) && ToFake(n, b) == f
  {
    if |f| >= 3 {
      assert f == f[..3] + f[3..];
    }
    if IsUnique(n) && ToFake(n, b) == f {
      var p := FakePrefix(b);
      assert f[..3] == p && f[3..] == n[1..];
      assert f[1] == p[1];
      assert n == [COLON] + n[1..];
    }
  }

  /** Well-known names pass both ways unchanged, and no name of one bus is
      ever presented like a name of the other. */
  lemma FakeNamesDistinct(m: bytes, n: bytes, a: Bus, b: Bus)
    ensures !IsUnique(n) ==> ToFake(n, b) == n && FromFake(n).None?
    ensures IsUnique(m) == IsUnique(ToFake(m, a))
    ensures IsUnique(m) && ToFake(m, a) == ToFake(n, b) ==> m == n && a == b
  {
    FakeNameRoundTrip(m, a, ToFake(m, a));
    FakeNameRoundTrip(n, b, ToFake(n, b));
  }

  lemma FakeNameShape(n: bytes, b: Bus)
    requires IsUnique(n)
    ensures |ToFake(n, b)| == |n| + 2
    ensures Utf8.Valid(ToFake(n, b)) == Utf8.Valid(n)
    ensures 0 in ToFake(n, b) <==> 0 in n
  {
    assert n == [COLON] + n[1..];
    Utf8.AsciiInFront([COLON], n[1..]);
    Utf8.AsciiInFront(FakePrefix(b), n[1..]);
    assert 0 in n <==> 0 in n[1..];
  }
}
