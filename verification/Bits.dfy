/** Bitwise operators on non-negative integers, from their binary digits. */
module Bits {
  import opened Bytes

  function Or(a: nat, b: nat): nat
    decreases a + b
  {
    if a == 0 then b else if b == 0 then a
    else 2 * Or(a / 2, b / 2) + (if a % 2 == 1 || b % 2 == 1 then 1 else 0)
  }

  function And(a: nat, b: nat): nat
  {
    if a == 0 || b == 0 then 0
    else 2 * And(a / 2, b / 2) + (if a % 2 == 1 && b % 2 == 1 then 1 else 0)
  }

  lemma {:induction false} OrFits(a: nat, b: nat, w: nat)
    requires a < Pow2(w) && b < Pow2(w)
    ensures Or(a, b) < Pow2(w)
  {
    if a > 0 && b > 0 { OrFits(a / 2, b / 2, w - 1); }
  }

  /** Setting the lowest bit. */
  lemma OrOne(a: nat)
    ensures Or(a, 1) == if a % 2 == 0 then a + 1 else a
  {
    if a > 0 { assert Or(a / 2, 0) == a / 2; }
  }

  /** Taking the low three bits. */
  lemma AndSeven(a: nat)
    ensures And(a, 7) == a % 8
  {
    assert a / 2 / 2 / 2 == a / 8;
    assert And(a, 7) == 2 * And(a / 2, 3) + a % 2;
    assert And(a / 2, 3) == 2 * And(a / 4, 1) + a / 2 % 2;
    assert And(a / 4, 1) == a / 4 % 2;
  }

  predicate Digit(a: nat, e: nat) { And(a, Pow2(e)) != 0 }

  lemma DigitStep(a: nat, e: nat)
    ensures Digit(a, e) <==> if e == 0 then a % 2 == 1 else Digit(a / 2, e - 1)
  {
    if a > 0 && e > 0 { assert Pow2(e) / 2 == Pow2(e - 1); }
    if a > 0 && e == 0 { assert And(a / 2, 0) == 0; }
  }

  lemma {:induction false} OrDigit(a: nat, e: nat, f: nat)
    ensures Digit(Or(a, Pow2(e)), f) <==> Digit(a, f) || e == f
    decreases f
  {
    var o := Or(a, Pow2(e));
    DigitStep(o, f);
    DigitStep(a, f);
    if e == 0 {
      OrOne(a);
      if f > 0 { assert o / 2 == a / 2; }
    } else {
      assert Pow2(e) / 2 == Pow2(e - 1) && Pow2(e) % 2 == 0;
      assert o / 2 == Or(a / 2, Pow2(e - 1)) && o % 2 == a % 2;
      if f > 0 { OrDigit(a / 2, e - 1, f - 1); }
    }
  }

  /** A number below 2^w is determined by its first w digits. */
  lemma {:induction false} DigitsDetermine(a: nat, b: nat, w: nat)
    requires a < Pow2(w) && b < Pow2(w)
    requires forall e: nat :: e < w ==> (Digit(a, e) <==> Digit(b, e))
    ensures a == b
  {
    if w > 0 {
      forall e: nat | e < w - 1 ensures Digit(a / 2, e) <==> Digit(b / 2, e) {
        DigitStep(a, e + 1);
        DigitStep(b, e + 1);
      }
      DigitsDetermine(a / 2, b / 2, w - 1);
      DigitStep(a, 0);
      DigitStep(b, 0);
      assert Digit(a, 0) <==> Digit(b, 0);
    }
  }

  // ---------------------------------------------------------------- bitmaps

  lemma Powers()
    ensures Pow2(1) == 2 && Pow2(2) == 4 && Pow2(3) == 8 && Pow2(4) == 16
    ensures Pow2(5) == 32 && Pow2(6) == 64 && Pow2(7) == 128 && Pow2(8) == 256
  {
    assert Pow2(3) == 8;
    assert Pow2(5) == 4 * Pow2(3);
    assert Pow2(7) == 4 * Pow2(5);
  }

  /** 0x80 >> j. */
  function Mask(j: nat): (b: byte)
    requires j < 8
    ensures b == Pow2(7 - j)
  {
    Powers();
    0x80 / Pow2(j)
  }

  /** Bit p of a bitmap, most significant first within each byte. */
  predicate BitSet(bits: seq<byte>, p: nat)
    requires p < 8 * |bits|
  {
    And(bits[p / 8], Mask(p % 8)) != 0
  }

  /** bits[p/8] |= 0x80 >> (p%8). */
  function SetBit(bits: seq<byte>, p: nat): (r: seq<byte>)
    requires p < 8 * |bits|
    ensures |r| == |bits|
  {
    OrByte(bits[p / 8], Mask(p % 8));
    bits[p / 8 := Or(bits[p / 8], Mask(p % 8))]
  }

  lemma OrByte(a: byte, b: byte)
    ensures Or(a, b) < 256
  {
    Powers();
    OrFits(a, b, 8);
  }

  lemma SetBitSets(bits: seq<byte>, p: nat, q: nat)
    requires p < 8 * |bits| && q < 8 * |bits|
    ensures BitSet(SetBit(bits, p), q) <==> BitSet(bits, q) || p == q
  {
    if p / 8 == q / 8 {
      OrDigit(bits[p / 8], 7 - p % 8, 7 - q % 8);
      assert p == q <==> p % 8 == q % 8;
    }
  }

  /** Bitmaps of one length with the same bits set are the same bytes. */
  lemma BitsDetermine(a: seq<byte>, b: seq<byte>)
    requires |a| == |b|
    requires forall p: nat :: p < 8 * |a| ==> (BitSet(a, p) <==> BitSet(b, p))
    ensures a == b
  {
    Powers();
    forall i | 0 <= i < |a| ensures a[i] == b[i] {
      forall e: nat | e < 8 ensures Digit(a[i], e) <==> Digit(b[i], e) {
        var p := 8 * i + (7 - e);
        assert p / 8 == i && p % 8 == 7 - e;
        assert BitSet(a, p) <==> BitSet(b, p);
      }
      DigitsDetermine(a[i], b[i], 8);
    }
  }

  lemma {:induction false} DigitMeaning(a: nat, e: nat)
    ensures Digit(a, e) <==> a / Pow2(e) % 2 == 1
  {
    DigitStep(a, e);
    if e > 0 {
      DigitMeaning(a / 2, e - 1);
      HalveTwice(a, Pow2(e - 1));
    }
  }

  lemma HalveTwice(a: nat, p: nat)
    requires p > 0
    ensures a / 2 / p == a / (2 * p)
  {
    var h, q, r := a / 2, a / 2 / p, a / 2 % p;
    assert h == q * p + r;
    assert a == q * (2 * p) + (2 * r + a % 2);
    DivUnique(a, q, 2 * r + a % 2, 2 * p);
  }

  /** Bit p is the digit of weight 2^(7 - p % 8) of byte p / 8: most significant first. */
  lemma BitMeaning(bits: seq<byte>, p: nat)
    requires p < 8 * |bits|
    ensures BitSet(bits, p) <==> bits[p / 8] / Pow2(7 - p % 8) % 2 == 1
  {
    DigitMeaning(bits[p / 8], 7 - p % 8);
  }
}
