/** Lowercase hexadecimal text (encoding/hex, and bytesToHex/hexToBytes in web/ensrec.js). */
module Hex {
  import opened Bytes

  const PREFIX: seq<byte> := [0x30, 0x78]  // "0x"

  predicate IsHexDigit(c: byte)
  {
    0x30 <= c <= 0x39 || 0x61 <= c <= 0x66 || 0x41 <= c <= 0x46
  }

  /** A digit as the writers print it. */
  predicate IsLowerDigit(c: byte) { 0x30 <= c <= 0x39 || 0x61 <= c <= 0x66 }

  function Digit(n: nat): (c: byte)
    requires n < 16
    ensures IsLowerDigit(c)
  {
    if n < 10 then 0x30 + n else 0x61 + (n - 10)
  }

  function Value(c: byte): (n: nat)
    requires IsHexDigit(c)
    ensures n < 16
  {
    if c <= 0x39 then c - 0x30 else if c <= 0x46 then c - 0x41 + 10 else c - 0x61 + 10
  }

  function Encode(b: seq<byte>): (s: seq<byte>)
    ensures |s| == 2 * |b|
    ensures forall i :: 0 <= i < |s| ==> IsLowerDigit(s[i])
  {
    if b == [] then [] else [Digit(b[0] / 16), Digit(b[0] % 16)] + Encode(b[1..])
  }

  predicate IsHex(s: seq<byte>)
  {
    |s| % 2 == 0 && forall i :: 0 <= i < |s| ==> IsHexDigit(s[i])
  }

  function Decode(s: seq<byte>): (b: seq<byte>)
    requires IsHex(s)
    ensures 2 * |b| == |s|
  {
    if s == [] then [] else [Value(s[0]) * 16 + Value(s[1])] + Decode(s[2..])
  }

  function Lower(c: byte): byte { if 0x41 <= c <= 0x5a then c + 32 else c }

  function LowerAll(s: seq<byte>): (r: seq<byte>)
    ensures |r| == |s| && forall i :: 0 <= i < |s| ==> r[i] == Lower(s[i])
  {
    seq(|s|, i requires 0 <= i < |s| => Lower(s[i]))
  }

  lemma {:induction false} DecodeOfEncode(b: seq<byte>)
    ensures IsHex(Encode(b)) && Decode(Encode(b)) == b
  {
    if b != [] {
      DecodeOfEncode(b[1..]);
      assert Encode(b)[2..] == Encode(b[1..]);
      assert b == [b[0]] + b[1..];
    }
  }

  lemma DigitOfValue(c: byte)
    requires IsHexDigit(c)
    ensures Digit(Value(c)) == Lower(c)
  {}

  lemma PairDecodes(c: byte, d: byte)
    requires IsHexDigit(c) && IsHexDigit(d)
    ensures var x := Value(c) * 16 + Value(d);
      0 <= x < 256 && Digit(x / 16) == Lower(c) && Digit(x % 16) == Lower(d)
  {
    var v, w := Value(c), Value(d);
    assert (v * 16 + w) / 16 == v && (v * 16 + w) % 16 == w;
    DigitOfValue(c);
    DigitOfValue(d);
  }

  lemma LowerFront(s: seq<byte>)
    requires |s| >= 2
    ensures LowerAll(s) == [Lower(s[0]), Lower(s[1])] + LowerAll(s[2..])
  {}

  /** Re-encoding lowercases: the text is fixed by the bytes, its case is not. */
  lemma {:induction false} EncodeOfDecode(s: seq<byte>)
    requires IsHex(s)
    ensures Encode(Decode(s)) == LowerAll(s)
  {
    if s != [] {
      EncodeOfDecode(s[2..]);
      PairDecodes(s[0], s[1]);
      LowerFront(s);
      assert Decode(s)[1..] == Decode(s[2..]);
    }
  }

  lemma LowerIsLower(s: seq<byte>)
    requires forall i :: 0 <= i < |s| ==> !(0x41 <= s[i] <= 0x5a)
    ensures LowerAll(s) == s
  {}

  lemma {:induction false} EncodeConcat(a: seq<byte>, b: seq<byte>)
    ensures Encode(a + b) == Encode(a) + Encode(b)
  {
    if a == [] {
      assert a + b == b;
    } else {
      EncodeConcat(a[1..], b);
      assert (a + b)[1..] == a[1..] + b;
    }
  }

  /** Text order of lowercase hex is byte order: '0'..'9' sort below 'a'..'f'. */
  lemma {:induction false} OrderKept(a: seq<byte>, b: seq<byte>)
    requires |a| == |b|
    ensures Less(Encode(a), Encode(b)) <==> Less(a, b)
  {
    if a != [] {
      OrderKept(a[1..], b[1..]);
      PairOrder(a[0], b[0], Encode(a[1..]), Encode(b[1..]));
    }
  }

  lemma PairOrder(x: byte, y: byte, s: seq<byte>, t: seq<byte>)
    ensures Less([Digit(x / 16), Digit(x % 16)] + s, [Digit(y / 16), Digit(y % 16)] + t)
            <==> x < y || (x == y && Less(s, t))
  {
    var u, w := [Digit(x / 16), Digit(x % 16)] + s, [Digit(y / 16), Digit(y % 16)] + t;
    assert u[1..][1..] == s && w[1..][1..] == t;
    assert u[1..][0] == Digit(x % 16) && w[1..][0] == Digit(y % 16);
    assert forall m: nat, n: nat :: m < 16 && n < 16 ==> (Digit(m) < Digit(n) <==> m < n);
    assert x == 16 * (x / 16) + x % 16 && y == 16 * (y / 16) + y % 16;
    assert Less(u, w) <==> x / 16 < y / 16 || (x / 16 == y / 16 && Less(u[1..], w[1..]));
    assert Less(u[1..], w[1..]) <==> x % 16 < y % 16 || (x % 16 == y % 16 && Less(s, t));
  }

  /** The digits are the usual ones. */
  lemma DigitIs(n: nat)
    requires n < 16
    ensures Digit(n) == OfString("0123456789abcdef")[n]
    ensures Value(Digit(n)) == n
  {
    var s := "0123456789abcdef";
    assert s[n] as int == if n < 10 then 0x30 + n else 0x61 + n - 10;
  }

  /** Digits in either case, and nothing else. */
  lemma HexDigits(c: byte)
    ensures IsHexDigit(c) <==>
      'a' as int <= c <= 'f' as int || 'A' as int <= c <= 'F' as int || '0' as int <= c <= '9' as int
  {}

  /** Lower-casing changes the twenty-six capitals and nothing else. */
  lemma Lowers(c: byte)
    ensures 'A' as int <= c <= 'Z' as int ==> Lower(c) == c - 'A' as int + 'a' as int
    ensures !('A' as int <= c <= 'Z' as int) ==> Lower(c) == c
  {}

  /** Two digits a byte, high half first. */
  lemma {:induction false} EncodeLayout(b: seq<byte>, i: nat)
    requires i < |b|
    ensures Encode(b)[2 * i] == OfString("0123456789abcdef")[b[i] / 16]
    ensures Encode(b)[2 * i + 1] == OfString("0123456789abcdef")[b[i] % 16]
  {
    if i == 0 {
      DigitIs(b[0] / 16);
      DigitIs(b[0] % 16);
    } else {
      EncodeLayout(b[1..], i - 1);
    }
  }
}
