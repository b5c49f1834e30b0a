/** The browser's .xorf writer (web/hints.js) and its agreement with the Go one. */
module HintWriter {
  import opened Bytes
  import opened Bits
  import opened Bloom
  import opened Filters
  import opened Sorting
  import opened Codec

  // ---------------------------------------------------------------- JavaScript numbers

  const TWO31: nat := 0x8000_0000

  function ToUint32(x: int): nat { x % TWO32 }

  function ToInt32(x: int): (r: int)
    ensures -0x8000_0000 <= r < 0x8000_0000 && r % 0x1_0000_0000 == x % 0x1_0000_0000
  {
    if x % TWO32 >= TWO31 then x % TWO32 - TWO32 else x % TWO32
  }

  /** x | y: on 32-bit patterns, the result signed. */
  function JsOr(x: int, y: int): int { ToInt32(Or(ToUint32(x), ToUint32(y))) }

  /** Math.imul. */
  function Imul(x: int, y: int): int { ToInt32(ToUint32(x) * ToUint32(y)) }

  /** bloomProbe. */
  function JsProbe(key: u64, i: nat, m: nat): nat
    requires m > 0
  {
    var h1 := key % TWO32;
    var h2 := JsOr(key / TWO32 % TWO32, 1);
    ToUint32(h1 + Imul(i, h2)) % m
  }

  lemma SignWashesOut(h: nat, x: nat)
    ensures ToUint32(h + ToInt32(x)) == (h + x % TWO32) % TWO32
  {
    var r := x % TWO32;
    if r >= TWO31 { assert (h + r - TWO32) % TWO32 == (h + r) % TWO32; }
  }

  lemma PatternKept(x: nat)
    requires x < TWO32
    ensures ToUint32(ToInt32(x)) == x
  {}

  lemma StepsAgree(h: nat, i: nat, w: nat)
    requires i < TWO32 && w < TWO32
    ensures ToUint32(h + Imul(i, ToInt32(w))) == (h + i * w % TWO32) % TWO32
  {
    PatternKept(w);
    assert ToUint32(i) == i;
    SignWashesOut(h, i * w);
  }

  /** The signed Math.imul probe is Go's uint32 probe, for every key and index. */
  lemma ProbesAgree(key: u64, i: nat, m: nat)
    requires m > 0 && i < TWO32
    ensures JsProbe(key, i, m) == Probe(key, i, m)
  {
    var h2 := key / TWO32;
    HighHalf(key, h2);
    StepsAgree(key % TWO32, i, Or(h2, 1));
  }

  lemma HighHalf(key: u64, h2: nat)
    requires h2 == key / TWO32
    ensures h2 % TWO32 == h2 && Or(h2, 1) < TWO32 && JsOr(h2 % TWO32, 1) == ToInt32(Or(h2, 1))
  {
    OrOne(h2);
    assert h2 < TWO32;
  }

  // ---------------------------------------------------------------- bloomAdd

  method BloomAdd(bitmap: array<byte>, key: u64, k: nat, m: nat)
    requires 0 < m <= 8 * bitmap.Length && k < TWO32
    modifies bitmap
    ensures bitmap[..] == AddKey(old(bitmap[..]), key, k, m)
  {
    var i := 0;
    while i < k
      invariant i <= k
      invariant bitmap[..] == AddKey(old(bitmap[..]), key, i, m)
    {
      ProbesAgree(key, i, m);
      var p := JsProbe(key, i, m);
      AndSeven(p);
      OrByte(bitmap[p / 8], Mask(p % 8));
      bitmap[p / 8] := Or(bitmap[p / 8], Mask(And(p, 7)));
      i := i + 1;
    }
  }

  // ---------------------------------------------------------------- buildHint

  /** Both writers record the same key count. */
  lemma SameCount(keys: seq<u64>)
    ensures |Distinct(keys)| == |Canonical(keys, Lt)|
  {
    CanonicalCount(keys);
    SizeOfSet(Distinct(keys));
    assert Elements(Distinct(keys)) == Elements(keys);
  }

  const KIND_INTEROP: byte := 3

  function HintMeta(m: nat): Meta { Meta(false, 0, KIND_INTEROP, -1, 0, m, []) }

  /** The same hint as the Go side would hold it. */
  function Hint(keys: seq<u64>, m: nat, k: nat): Filter
    requires GoodSize(m) && |keys| < TWO64
  {
    CanonicalShort(keys);
    var canon := Canonical(keys, Lt);
    Filter(HintMeta(m), |canon|, Bitset(m, k, Bitmap(canon, k, m)))
  }

  /** out.set(bytes, at), where everything below `at` is already written. */
  method Put(out: array<byte>, at: nat, bytes: seq<byte>) returns (next: nat)
    requires at + |bytes| <= out.Length
    modifies out
    ensures next == at + |bytes| && out[..next] == old(out[..at]) + bytes
  {
    next := at + |bytes|;
    forall i | 0 <= i < |bytes| { out[at + i] := bytes[i]; }
  }

  /** The header writes of buildHint, field after field. */
  method PutHeader(out: array<byte>, structure: byte, kind: byte, chain: nat, epoch: nat, to: nat, count: nat)
    returns (next: nat)
    requires out.Length >= 42
    modifies out
    ensures next == 42
    ensures out[..42] == Header(0, structure, chain, kind, epoch, to, 0) + BE(count, 8)
  {
    next := Put(out, 0, MAGIC);
    next := Put(out, 4, [VERSION, 0, structure]);
    next := Put(out, 7, BE(chain, 8));
    next := Put(out, 15, [kind]);
    next := Put(out, 16, BE(epoch, 8));
    next := Put(out, 24, BE(to, 8));
    next := Put(out, 32, BE(0, 2));
    next := Put(out, 34, BE(count, 8));
  }

  /** The bitmap loop of buildHint. */
  method BuildBitmap(uniq: seq<u64>, m: nat, k: nat) returns (bits: seq<byte>)
    requires GoodSize(m) && k < 256
    ensures bits == Bitmap(uniq, k, m)
  {
    var bitmap := new byte[m / 8](_ => 0);
    var n := 0;
    while n < |uniq|
      invariant n <= |uniq| && bitmap[..] == Bitmap(uniq[..n], k, m)
    {
      BloomAdd(bitmap, uniq[n], k, m);
      assert uniq[..n + 1][..n] == uniq[..n];
      n := n + 1;
    }
    assert uniq[..|uniq|] == uniq;
    bits := bitmap[..];
  }

  /** buildHint: the bytes it writes are Encode of the matching Bloom filter. */
  method BuildHint(keys: seq<u64>, m: nat, k: nat) returns (out: seq<byte>)
    requires GoodSize(m) && k < 256 && |keys| < TWO64
    ensures out == Written(Hint(keys, m, k))
  {
    var uniq := Distinct(keys);
    var bitmap := BuildBitmap(uniq, m, k);
    SameHint(keys, k, m);
    var a := new byte[34 + 8 + 5 + |bitmap|](_ => 0);
    var at := PutHeader(a, BLOOM, KIND_INTEROP, 0, Unsigned(-1), 0, |uniq|);
    at := Put(a, at, BE(m, 4));
    at := Put(a, at, [k]);
    at := Put(a, at, bitmap);
    out := a[..];
    assert out == a[..at];
    HintFile(m, k, |uniq|, bitmap);
  }

  lemma SameHint(keys: seq<u64>, k: nat, m: nat)
    requires GoodSize(m)
    ensures Bitmap(Distinct(keys), k, m) == Bitmap(Canonical(keys, Lt), k, m)
    ensures |Distinct(keys)| == |Canonical(keys, Lt)|
  {
    LtTotal();
    CanonicalCorrect(keys, Lt);
    BitmapOfSet(Distinct(keys), Canonical(keys, Lt), k, m);
    SameCount(keys);
  }

  lemma HintFile(m: nat, k: byte, count: u64, bits: seq<byte>)
    ensures Written(Filter(HintMeta(m), count, Bitset(m, k, bits)))
         == Header(0, BLOOM, 0, KIND_INTEROP, TWO64 - 1, 0, 0) + BE(count, 8) + BE(m, 4) + [k] + bits
  {
    var f := Filter(HintMeta(m), count, Bitset(m, k, bits));
    assert BE(k, 1) == [k];
    assert PartsOf(f) == Parts(0, BLOOM, 0, KIND_INTEROP, TWO64 - 1, 0, [], count, BE(m, 4) + [k] + bits);
    Flatten(Header(0, BLOOM, 0, KIND_INTEROP, TWO64 - 1, 0, 0), BE(count, 8), BE(m, 4), [k], bits);
  }

  lemma Flatten(a: seq<byte>, b: seq<byte>, c: seq<byte>, d: seq<byte>, e: seq<byte>)
    ensures a + ([] + (b + (c + d + e))) == a + b + c + d + e
  {}

  /** Byte for byte: given one size and one probe count, the browser's file is the file
      the Go side builds and encodes from the same keys, however they were listed, unless
      the Go side is refused the memory. */
  lemma WritersAgree(lib: Library, goKeys: seq<u64>, jsKeys: seq<u64>, m: nat, room: nat)
    requires GoodSize(m) && |goKeys| < TWO64 && |jsKeys| < TWO64 && goKeys != []
    requires forall x :: x in goKeys <==> x in jsKeys
    ensures Built(lib, goKeys, BLOOM, HintMeta(m)).Ok?
    ensures var hint := Hint(jsKeys, m, lib.bloomK(m, |Distinct(jsKeys)|));
      Encoded(Built(lib, goKeys, BLOOM, HintMeta(m)).value, room)
        == if Granted(0, hint.count, room) then Ok(Written(hint)) else Err(Panics)
  {
    LtTotal();
    CanonicalOfSet(goKeys, jsKeys, Lt);
    SameCount(jsKeys);
  }

  /** The browser's file, byte by byte: XORF, version 1, no flags, a Bloom bitmap, no single
      chain, kind 3, epoch -1, no block, no descriptor, then the number of distinct keys,
      the size, the probe count and the bitmap, in which a bit is set exactly when some key
      probes it. */
  lemma HintLayout(keys: seq<u64>, m: nat, k: nat)
    requires GoodSize(m) && 1 <= k < 256 && |keys| < TWO64
    ensures var b := Written(Hint(keys, m, k));
      && |b| == 47 + m / 8
      && b[..4] == OfString("XORF") && b[4] == 1 && b[5] == 0 && b[6] == 3
      && FromBE(b[7..15]) == 0 && b[15] == 3 && FromBE(b[16..24]) == 0xffff_ffff_ffff_ffff
      && FromBE(b[24..32]) == 0 && FromBE(b[32..34]) == 0
      && FromBE(b[34..42]) == |Elements(keys)| && FromBE(b[42..46]) == m && b[46] == k
      && forall p: nat :: p < m ==> (BitSet(b[47..], p) <==> Probed(keys, k, m, p))
  {
    var f := Hint(keys, m, k);
    var b := Written(f);
    CanonicalCount(keys);
    HeaderLayout(f);
    BodyLayout(f.payload, f.count);
    HintBody(b, m, k, f.payload.bits);
    forall p: nat | p < m ensures BitSet(b[47..], p) <==> Probed(keys, k, m, p) {
      BitmapBits(Canonical(keys, Lt), k, m, p);
      SameProbes(keys, k, m, p);
    }
  }

  lemma HintBody(b: seq<byte>, m: nat, k: nat, bits: seq<byte>)
    requires |b| >= 42 && |b[42..]| == 5 + |bits|
    requires FromBE(b[42..][..4]) == m && b[42..][4] == k && b[42..][5..] == bits
    ensures |b| == 47 + |bits| && FromBE(b[42..46]) == m && b[46] == k && b[47..] == bits
  {
    assert b[42..][..4] == b[42..46] && b[42..][5..] == b[47..];
  }

  lemma SameProbes(keys: seq<u64>, k: nat, m: nat, p: nat)
    requires m > 0
    ensures Probed(Canonical(keys, Lt), k, m, p) <==> Probed(keys, k, m, p)
  {
    LtTotal();
    CanonicalCorrect(keys, Lt);
  }
}
