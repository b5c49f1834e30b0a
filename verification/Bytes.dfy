/** Bytes, fixed-width big-endian integers and the byte order that both the Go and
    the JavaScript side of the program rely on. */
module Bytes {

  type byte = x: int | 0 <= x < 256

  const TWO32: nat := 0x1_0000_0000
  const TWO64: nat := 0x1_0000_0000_0000_0000

  type u64 = x: int | 0 <= x < TWO64

  function Zeros(n: nat): seq<byte> { seq(n, _ => 0) }

  /** An ASCII text as bytes. */
  function OfString(s: string): (b: seq<byte>)
    ensures |b| == |s| && forall i :: 0 <= i < |s| && s[i] < 128 as char ==> b[i] == s[i] as int
  {
    seq(|s|, i requires 0 <= i < |s| => s[i] as int % 256)
  }

  /** Whole multiples of t do not change the remainder by t. */
  lemma {:induction false} AddMultiples(y: nat, k: nat, t: nat)
    requires t > 0
    ensures (y + k * t) % t == y % t
  {
    if k > 0 {
      AddMultiples(y, k - 1, t);
      assert y + k * t == y + (k - 1) * t + t;
      AddOnce(y + (k - 1) * t, t);
    }
  }

  lemma AddOnce(x: nat, t: nat)
    requires t > 0
    ensures (x + t) % t == x % t
  {
    var q, r := x / t, x % t;
    assert x + t == (q + 1) * t + r;
    DivUnique(x + t, q + 1, r, t);
  }

  lemma DivUnique(x: nat, q: nat, r: nat, t: nat)
    requires x == q * t + r && r < t
    ensures x % t == r && x / t == q
  {
    Carry(q, r, x / t, x % t, t);
    Carry(x / t, x % t, q, r, t);
  }

  function Pow2(n: nat): (p: nat)
    ensures p > 0
  {
    if n == 0 then 1 else 2 * Pow2(n - 1)
  }

  function Pow256(w: nat): (p: nat)
    ensures p > 0
  {
    if w == 0 then 1 else 256 * Pow256(w - 1)
  }

  /** The low `w` bytes of `v`, most significant first. */
  function BE(v: nat, w: nat): (s: seq<byte>)
    ensures |s| == w
  {
    if w == 0 then [] else BE(v / 256, w - 1) + [v % 256]
  }

  function FromBE(s: seq<byte>): (v: nat)
    ensures v < Pow256(|s|)
  {
    if s == [] then 0 else FromBE(s[..|s| - 1]) * 256 + s[|s| - 1]
  }

  lemma Widths()
    ensures Pow256(1) == 256
    ensures Pow256(2) == 0x1_0000
    ensures Pow256(4) == TWO32
    ensures Pow256(8) == TWO64
  {
    assert Pow256(3) == 256 * Pow256(2);
    assert Pow256(4) == 256 * Pow256(3);
    assert Pow256(5) == 256 * Pow256(4);
    assert Pow256(6) == 256 * Pow256(5);
    assert Pow256(7) == 256 * Pow256(6);
    assert Pow256(8) == 256 * Pow256(7);
  }

  lemma {:induction false} Pow256Monotone(a: nat, b: nat)
    requires a <= b
    ensures Pow256(a) <= Pow256(b)
  {
    if a < b { Pow256Monotone(a, b - 1); }
  }

  /** Writing an integer that fits and reading it back. */
  lemma {:induction false} ReadWritten(v: nat, w: nat)
    requires v < Pow256(w)
    ensures FromBE(BE(v, w)) == v
  {
    if w > 0 {
      ReadWritten(v / 256, w - 1);
      assert BE(v, w)[..w - 1] == BE(v / 256, w - 1);
    }
  }

  /** Reading bytes and writing them back. */
  lemma {:induction false} WriteRead(s: seq<byte>)
    ensures BE(FromBE(s), |s|) == s
  {
    if s != [] {
      var front, d := s[..|s| - 1], s[|s| - 1];
      WriteRead(front);
      LastDigit(FromBE(front), d);
      assert s == front + [d];
    }
  }

  lemma LastDigit(x: nat, d: byte)
    ensures (x * 256 + d) / 256 == x && (x * 256 + d) % 256 == d
  {}

  lemma FromBEInjective(a: seq<byte>, b: seq<byte>)
    requires |a| == |b| && FromBE(a) == FromBE(b)
    ensures a == b
  {
    WriteRead(a);
    WriteRead(b);
  }

  /** A longer field splits at any byte into a high and a low part. */
  lemma {:induction false} FromBEConcat(a: seq<byte>, b: seq<byte>)
    ensures FromBE(a + b) == FromBE(a) * Pow256(|b|) + FromBE(b)
  {
    if b == [] {
      assert a + b == a;
    } else {
      var c, d := b[..|b| - 1], b[|b| - 1];
      FromBEConcat(a, c);
      assert (a + b)[..|a + b| - 1] == a + c;
      Shifted(FromBE(a), Pow256(|c|), FromBE(c), d);
    }
  }

  lemma Shifted(x: nat, p: nat, z: nat, d: nat)
    ensures (x * p + z) * 256 + d == x * (256 * p) + (z * 256 + d)
  {}

  lemma {:induction false} LeadingZeros(n: nat, s: seq<byte>)
    ensures FromBE(seq(n, _ => 0) + s) == FromBE(s)
  {
    var z: seq<byte> := seq(n, _ => 0);
    if n == 0 {
      assert z + s == s;
    } else {
      var y: seq<byte> := seq(n - 1, _ => 0);
      assert z == [0] + y;
      assert z + s == [0] + (y + s);
      FromBEConcat([0], y + s);
      assert FromBE([0]) == 0;
      LeadingZeros(n - 1, s);
    }
  }

  /** bytes.Compare(a, b) < 0. */
  predicate Less(a: seq<byte>, b: seq<byte>)
  {
    b != [] && (a == [] || a[0] < b[0] || (a[0] == b[0] && Less(a[1..], b[1..])))
  }

  /** On equal lengths the byte order is the order of the integers they spell. */
  lemma {:induction false} LessIsNumeric(a: seq<byte>, b: seq<byte>)
    requires |a| == |b|
    ensures Less(a, b) <==> FromBE(a) < FromBE(b)
  {
    if a != [] {
      HeadDecides(a[0], a[1..], b[0], b[1..]);
      assert a == [a[0]] + a[1..] && b == [b[0]] + b[1..];
      LessIsNumeric(a[1..], b[1..]);
    }
  }

  lemma HeadDecides(x: byte, a: seq<byte>, y: byte, b: seq<byte>)
    requires |a| == |b|
    ensures FromBE([x] + a) < FromBE([y] + b) <==> x < y || (x == y && FromBE(a) < FromBE(b))
  {
    FromBEConcat([x], a);
    FromBEConcat([y], b);
    assert FromBE([x]) == x && FromBE([y]) == y;
    Carry(x, FromBE(a), y, FromBE(b), Pow256(|a|));
  }

  lemma Carry(x: nat, u: nat, y: nat, v: nat, p: nat)
    requires u < p && v < p
    ensures x * p + u < y * p + v <==> x < y || (x == y && u < v)
  {
    if x < y {
      assert (x + 1) * p <= y * p;
    } else if y < x {
      assert (y + 1) * p <= x * p;
    }
  }
}
