/** The Bloom filter (internal/hintfilter/bloom.go). */
module Bloom {
  import opened Bytes
  import opened Bits

  const MAX_BITS: nat := 0x80_0000  // maxBloomBits: 8 << 20

  /** A bit count newBloom and bloomFromBytes accept. */
  predicate GoodSize(m: nat): (good: bool)
    ensures good ==> m > 0 && m % 8 == 0 && 8 * (m / 8) == m
  {
    m != 0 && m % 64 == 0 && m <= MAX_BITS
  }

  /** The i-th bit a key selects: uint32 arithmetic, then the remainder by m. */
  function Probe(key: u64, i: nat, m: nat): (p: nat)
    requires m > 0
    ensures p < m
  {
    var h1, h2 := key % TWO32, key / TWO32;
    (h1 + i * Or(h2, 1) % TWO32) % TWO32 % m
  }

  /** In plain arithmetic: start at the low half of the key and walk by the high half made
      odd, modulo 2^32, then take the remainder by m. */
  lemma ProbeWalks(key: u64, i: nat, m: nat)
    requires m > 0
    ensures var high := key / 0x1_0000_0000;
      var stride := if high % 2 == 0 then high + 1 else high;
      Probe(key, i, m) == (key + i * stride) % 0x1_0000_0000 % m
  {
    var high := key / TWO32;
    OrOne(high);
    var x := i * Or(high, 1);
    AddMultiples(key % TWO32 + x % TWO32, x / TWO32 + high, TWO32);
    assert key + x == key % TWO32 + x % TWO32 + (x / TWO32 + high) * TWO32;
  }

  /** One of `keys` selects bit p. */
  ghost predicate Probed(keys: seq<u64>, k: nat, m: nat, p: nat)
    requires m > 0
  {
    exists key, i: nat :: key in keys && i < k && Probe(key, i, m) == p
  }

  /** The bitmap after the first `k` probes of `key`. */
  function AddKey(bits: seq<byte>, key: u64, k: nat, m: nat): (r: seq<byte>)
    requires 0 < m <= 8 * |bits|
    ensures |r| == |bits|
  {
    if k == 0 then bits else SetBit(AddKey(bits, key, k - 1, m), Probe(key, k - 1, m))
  }

  /** The bitmap of a list of keys, added in order. */
  function Bitmap(keys: seq<u64>, k: nat, m: nat): (r: seq<byte>)
    requires m > 0 && m % 8 == 0
    ensures |r| == m / 8
  {
    if keys == [] then Zeros(m / 8)
    else AddKey(Bitmap(keys[..|keys| - 1], k, m), keys[|keys| - 1], k, m)
  }

  predicate Member(bits: seq<byte>, key: u64, k: nat, m: nat)
    requires 0 < m <= 8 * |bits|
  {
    forall i: nat :: i < k ==> BitSet(bits, Probe(key, i, m))
  }

  // ---------------------------------------------------------------- what the bits mean

  lemma {:induction false} AddKeyBits(bits: seq<byte>, key: u64, k: nat, m: nat, p: nat)
    requires 0 < m <= 8 * |bits| && p < 8 * |bits|
    ensures BitSet(AddKey(bits, key, k, m), p) <==>
              BitSet(bits, p) || exists i: nat :: i < k && Probe(key, i, m) == p
  {
    if k > 0 {
      AddKeyBits(bits, key, k - 1, m, p);
      SetBitSets(AddKey(bits, key, k - 1, m), Probe(key, k - 1, m), p);
      if Probe(key, k - 1, m) != p {
        assert forall i: nat :: i < k && Probe(key, i, m) == p ==> i < k - 1;
      }
    }
  }

  /** A bit is set exactly when some key probes it. */
  lemma {:induction false} BitmapBits(keys: seq<u64>, k: nat, m: nat, p: nat)
    requires m > 0 && m % 8 == 0 && p < m
    ensures BitSet(Bitmap(keys, k, m), p) <==> Probed(keys, k, m, p)
  {
    if keys == [] {
      assert !BitSet(Zeros(m / 8), p);
    } else {
      var rest, key := keys[..|keys| - 1], keys[|keys| - 1];
      assert keys == rest + [key];
      BitmapBits(rest, k, m, p);
      AddKeyBits(Bitmap(rest, k, m), key, k, m, p);
      if Probed(keys, k, m, p) {
        var y, i: nat :| y in keys && i < k && Probe(y, i, m) == p;
        assert y == key || (y in rest && Probed(rest, k, m, p));
      }
    }
  }

  /** So the bitmap depends only on the set of keys, not on order or repetition. */
  lemma BitmapOfSet(a: seq<u64>, b: seq<u64>, k: nat, m: nat)
    requires m > 0 && m % 8 == 0
    requires forall x :: x in a <==> x in b
    ensures Bitmap(a, k, m) == Bitmap(b, k, m)
  {
    forall p: nat | p < m
      ensures BitSet(Bitmap(a, k, m), p) <==> BitSet(Bitmap(b, k, m), p)
    {
      BitmapBits(a, k, m, p);
      BitmapBits(b, k, m, p);
    }
    BitsDetermine(Bitmap(a, k, m), Bitmap(b, k, m));
  }

  /** Adding a key never turns a yes into a no. */
  lemma AddKeepsMembers(bits: seq<byte>, added: u64, key: u64, k: nat, m: nat)
    requires 0 < m <= 8 * |bits| && Member(bits, key, k, m)
    ensures Member(AddKey(bits, added, k, m), key, k, m)
  {
    forall i: nat | i < k ensures BitSet(AddKey(bits, added, k, m), Probe(key, i, m)) {
      AddKeyBits(bits, added, k, m, Probe(key, i, m));
    }
  }

  /** Exactly what a yes means: every bit the key probes is probed by some key added. */
  lemma MemberExactly(keys: seq<u64>, key: u64, k: nat, m: nat)
    requires m > 0 && m % 8 == 0
    ensures Member(Bitmap(keys, k, m), key, k, m) <==>
              forall i: nat :: i < k ==> Probed(keys, k, m, Probe(key, i, m))
  {
    forall i: nat | i < k
      ensures BitSet(Bitmap(keys, k, m), Probe(key, i, m)) <==> Probed(keys, k, m, Probe(key, i, m))
    {
      BitmapBits(keys, k, m, Probe(key, i, m));
    }
  }

  /** No false negatives. */
  lemma KeysAreMembers(keys: seq<u64>, key: u64, k: nat, m: nat)
    requires m > 0 && m % 8 == 0 && key in keys
    ensures Member(Bitmap(keys, k, m), key, k, m)
  {
    forall i: nat | i < k ensures BitSet(Bitmap(keys, k, m), Probe(key, i, m)) {
      BitmapBits(keys, k, m, Probe(key, i, m));
      assert Probed(keys, k, m, Probe(key, i, m));
    }
  }

  // ---------------------------------------------------------------- the program

  class BloomFilter {
    const bits: array<byte>
    const m: nat
    const k: nat

    ghost predicate Valid() { m > 0 && bits.Length == m / 8 && 8 * bits.Length == m }

    /** The literal in newBloom: m/8 zero bytes. */
    constructor (m: nat, k: nat)
      requires GoodSize(m)
      ensures Valid() && fresh(bits) && this.m == m && this.k == k && bits[..] == Zeros(m / 8)
    {
      bits := new byte[m / 8](_ => 0);
      this.m, this.k := m, k;
    }

    method Add(key: u64)
      requires Valid()
      modifies bits
      ensures bits[..] == AddKey(old(bits[..]), key, k, m)
    {
      var i := 0;
      while i < k
        invariant i <= k
        invariant bits[..] == AddKey(old(bits[..]), key, i, m)
      {
        var p := Probe(key, i, m);
        OrByte(bits[p / 8], Mask(p % 8));
        bits[p / 8] := Or(bits[p / 8], Mask(p % 8));
        i := i + 1;
      }
    }

    method Contains(key: u64) returns (yes: bool)
      requires Valid()
      ensures yes <==> Member(bits[..], key, k, m)
    {
      var i := 0;
      while i < k
        invariant i <= k
        invariant forall j: nat :: j < i ==> BitSet(bits[..], Probe(key, j, m))
      {
        var p := Probe(key, i, m);
        if And(bits[p / 8], Mask(p % 8)) == 0 {
          assert !BitSet(bits[..], Probe(key, i, m));
          return false;
        }
        i := i + 1;
      }
      yes := true;
    }
  }

  /** newBloom. `k` is the probe count its sizing rule chose. */
  method NewBloom(keys: seq<u64>, m: nat, k: nat) returns (ok: bool, bits: seq<byte>)
    ensures ok <==> GoodSize(m)
    ensures ok ==> bits == Bitmap(keys, k, m)
  {
    bits := [];
    if !GoodSize(m) { return false, bits; }
    var b := new BloomFilter(m, k);
    var n := 0;
    while n < |keys|
      invariant n <= |keys| && fresh(b.bits)
      invariant b.bits[..] == Bitmap(keys[..n], k, m)
    {
      b.Add(keys[n]);
      assert keys[..n + 1][..n] == keys[..n];
      n := n + 1;
    }
    assert keys[..|keys|] == keys;
    return true, b.bits[..];
  }
}
