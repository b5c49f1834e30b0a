/** Hand-written ABI encoding, once in Go (internal/ens/ens.go) and once in JavaScript
    (web/ensrec.js): the tuple layout of the "Formal Specification of the Encoding"
    section of the Solidity ABI specification. */
module Abi {
  import opened Bytes
  import Hex

  /** pad32: n rounded up to whole words. */
  function Pad32(n: nat): (p: nat)
    ensures n <= p < n + 32 && p % 32 == 0
  {
    (n + 31) / 32 * 32
  }

  /** The first n of a list of byte strings, one after the other. */
  function Cat(parts: seq<seq<byte>>, n: nat): seq<byte>
    requires n <= |parts|
  {
    if n == 0 then [] else Cat(parts, n - 1) + parts[n - 1]
  }

  lemma {:induction false} PartSplits(parts: seq<seq<byte>>, i: nat, n: nat) returns (post: seq<byte>)
    requires i < n <= |parts|
    ensures Cat(parts, n) == Cat(parts, i) + parts[i] + post
  {
    if i == n - 1 {
      post := [];
    } else {
      var rest := PartSplits(parts, i, n - 1);
      post := rest + parts[n - 1];
      assert Cat(parts, i) + parts[i] + rest + parts[n - 1] == Cat(parts, i) + parts[i] + post;
    }
  }

  /** `x` is what `t` holds from position `o` on. */
  predicate Sits(t: seq<byte>, o: nat, x: seq<byte>)
  {
    o + |x| <= |t| && t[o..o + |x|] == x
  }

  lemma Middle(pre: seq<byte>, x: seq<byte>, post: seq<byte>)
    ensures Sits(pre + x + post, |pre|, x)
  {}

  lemma {:induction false} EvenParts(parts: seq<seq<byte>>, n: nat)
    requires n <= |parts| && forall i :: 0 <= i < |parts| ==> |parts[i]| == 32
    ensures |Cat(parts, n)| == 32 * n
  {
    if n > 0 { EvenParts(parts, n - 1); }
  }

  // ---------------------------------------------------------------- the layout

  datatype Arg = Static(word: seq<byte>) | Dynamic(bytes: seq<byte>)

  predicate Words(args: seq<Arg>)
  {
    forall i :: 0 <= i < |args| && args[i].Static? ==> |args[i].word| == 32
  }

  /** A dynamic argument's tail: length word, bytes, zeros to the next word. */
  function Tail(a: Arg): seq<byte>
  {
    if a.Static? then [] else BE(|a.bytes|, 32) + a.bytes + Zeros(Pad32(|a.bytes|) - |a.bytes|)
  }

  function Tails(args: seq<Arg>): seq<seq<byte>>
  {
    seq(|args|, i requires 0 <= i < |args| => Tail(args[i]))
  }

  /** Where the i-th argument's tail begins, counted from the start of the tuple. */
  function Offset(args: seq<Arg>, i: nat): nat
    requires i <= |args|
  {
    32 * |args| + |Cat(Tails(args), i)|
  }

  function Head(args: seq<Arg>, i: nat): seq<byte>
    requires i < |args|
  {
    if args[i].Static? then args[i].word else BE(Offset(args, i), 32)
  }

  function Heads(args: seq<Arg>): seq<seq<byte>>
  {
    seq(|args|, i requires 0 <= i < |args| => Head(args, i))
  }

  function Tuple(args: seq<Arg>): seq<byte>
  {
    Cat(Heads(args), |args|) + Cat(Tails(args), |args|)
  }

  // ---------------------------------------------------------------- reading a tuple back

  lemma HeadPlaced(heads: seq<seq<byte>>, i: nat, rest: seq<byte>)
    requires i < |heads| && forall k :: 0 <= k < |heads| ==> |heads[k]| == 32
    ensures |Cat(heads, |heads|)| == 32 * |heads|
    ensures Sits(Cat(heads, |heads|) + rest, 32 * i, heads[i])
  {
    EvenParts(heads, |heads|);
    EvenParts(heads, i);
    var post := PartSplits(heads, i, |heads|);
    var pre, h := Cat(heads, i), heads[i];
    assert pre + h + post + rest == pre + h + (post + rest);
    Middle(pre, h, post + rest);
  }

  lemma Associate(a: seq<byte>, b: seq<byte>, c: seq<byte>, d: seq<byte>)
    ensures a + (b + c + d) == a + b + c + d
  {}

  lemma TailPlaced(front: seq<byte>, tails: seq<seq<byte>>, i: nat)
    requires i < |tails|
    ensures Sits(front + Cat(tails, |tails|), |front| + |Cat(tails, i)|, tails[i])
  {
    var post := PartSplits(tails, i, |tails|);
    var pre, x := Cat(tails, i), tails[i];
    Associate(front, pre, x, post);
    Middle(front + pre, x, post);
  }

  lemma HeadsWide(args: seq<Arg>)
    requires Words(args)
    ensures forall k :: 0 <= k < |args| ==> |Heads(args)[k]| == 32
  {
    forall k | 0 <= k < |args| ensures |Heads(args)[k]| == 32 { HeadWidth(args, k); }
  }

  /** Each head sits in its slot, and each tail where its offset says. */
  lemma TupleHead(args: seq<Arg>, i: nat)
    requires Words(args) && i < |args|
    ensures Sits(Tuple(args), 32 * i, Head(args, i))
  {
    HeadsWide(args);
    HeadPlaced(Heads(args), i, Cat(Tails(args), |args|));
  }

  lemma TupleTail(args: seq<Arg>, i: nat)
    requires Words(args) && i < |args|
    ensures Sits(Tuple(args), Offset(args, i), Tail(args[i]))
  {
    HeadsWide(args);
    EvenParts(Heads(args), |args|);
    TailPlaced(Cat(Heads(args), |args|), Tails(args), i);
  }

  lemma HeadWidth(args: seq<Arg>, k: nat)
    requires Words(args) && k < |args|
    ensures |Head(args, k)| == 32
  {}

  lemma TailReads(b: seq<byte>)
    ensures var t := Tail(Dynamic(b));
      |t| == 32 + Pad32(|b|) && Sits(t, 0, BE(|b|, 32)) && Sits(t, 32, b)
  {
    var w, z := BE(|b|, 32), Zeros(Pad32(|b|) - |b|);
    Middle(w, b, z);
    assert [] + w + (b + z) == w + b + z;
    Middle([], w, b + z);
  }

  /** Following the i-th head of `t` leads to `b`. */
  predicate Reads(t: seq<byte>, i: nat, b: seq<byte>)
  {
    && |t| >= 32 * i + 32
    && var o := FromBE(t[32 * i..32 * i + 32]);
       Sits(t, o, BE(|b|, 32)) && Sits(t, o + 32, b)
  }

  /** Every head offset points at its argument's length word, and following it gives the
      argument: what any ABI reader will see. */
  lemma ArgumentReads(args: seq<Arg>, i: nat)
    requires Words(args) && i < |args| && |Tuple(args)| < TWO64
    ensures args[i].Static? ==> Sits(Tuple(args), 32 * i, args[i].word)
    ensures args[i].Dynamic? ==> Reads(Tuple(args), i, args[i].bytes)
  {
    TupleHead(args, i);
    if args[i].Dynamic? {
      TupleTail(args, i);
      TailReads(args[i].bytes);
      Followed(Tuple(args), i, Offset(args, i), args[i].bytes, Tail(args[i]));
    }
  }

  /** Behind each dynamic argument there are zeros to the end of its last word, and the tuple
      is a whole number of words, no longer than its heads and tails. */
  lemma ArgumentPadded(args: seq<Arg>, i: nat)
    requires Words(args) && i < |args| && args[i].Dynamic? && |Tuple(args)| < TWO64
    ensures var t, n := Tuple(args), |args[i].bytes|;
      var o := Offset(args, i) + 32 + n;
      && (forall k :: o <= k < Offset(args, i) + 32 + Pad32(n) ==> k < |t| && t[k] == 0)
      && Offset(args, i + 1) == Offset(args, i) + 32 + Pad32(n)
      && Offset(args, 0) == 32 * |args| && |t| == Offset(args, |args|)
  {
    TupleTail(args, i);
    TailReads(args[i].bytes);
    PaddedWithin(Tuple(args), Offset(args, i), args[i].bytes);
    HeadsWide(args);
    EvenParts(Heads(args), |args|);
  }

  lemma PaddedWithin(t: seq<byte>, o: nat, b: seq<byte>)
    requires Sits(t, o, Tail(Dynamic(b)))
    ensures forall k :: o + 32 + |b| <= k < o + 32 + Pad32(|b|) ==> k < |t| && t[k] == 0
  {
    var tail := Tail(Dynamic(b));
    forall k | o + 32 + |b| <= k < o + 32 + Pad32(|b|) ensures k < |t| && t[k] == 0 {
      assert t[o..o + |tail|][k - o] == tail[k - o];
    }
  }

  lemma Followed(t: seq<byte>, i: nat, o: nat, b: seq<byte>, tail: seq<byte>)
    requires |t| < TWO64 && Sits(t, 32 * i, BE(o, 32)) && Sits(t, o, tail)
    requires Sits(tail, 0, BE(|b|, 32)) && Sits(tail, 32, b)
    ensures Reads(t, i, b)
  {
    WordReads(o);
    SitsWithin(t, o, tail, 0, BE(|b|, 32));
    SitsWithin(t, o, tail, 32, b);
  }

  lemma SitsWithin(t: seq<byte>, o: nat, part: seq<byte>, p: nat, x: seq<byte>)
    requires Sits(t, o, part) && Sits(part, p, x)
    ensures Sits(t, o + p, x)
  {
    forall k | 0 <= k < |part| ensures t[o + k] == part[k] { assert t[o..o + |part|][k] == part[k]; }
  }

  lemma WordReads(n: nat)
    requires n < TWO64
    ensures FromBE(BE(n, 32)) == n
  {
    Widths();
    Pow256Monotone(8, 32);
    ReadWritten(n, 32);
  }

  // ---------------------------------------------------------------- the Go writer

  /** common.LeftPadBytes(uint64Bytes(n), 32). */
  function GoWord(n: nat): seq<byte> { Zeros(24) + BE(n, 8) }

  lemma {:induction false} PadLeft(n: nat, w: nat, a: nat)
    requires n < Pow256(w)
    ensures BE(n, a + w) == Zeros(a) + BE(n, w)
    decreases w, a
  {
    if w > 0 {
      PadLeft(n / 256, w - 1, a);
    } else if a > 0 {
      PadLeft(0, 0, a - 1);
      assert Zeros(a) == Zeros(a - 1) + [0];
    }
  }

  lemma GoWordIsWord(n: nat)
    requires n < TWO64
    ensures GoWord(n) == BE(n, 32)
  {
    Widths();
    PadLeft(n, 8, 24);
  }

  /** encodeBytes. */
  function GoBytes(b: seq<byte>): seq<byte>
  {
    GoWord(|b|) + b + (if |b| % 32 != 0 then Zeros(32 - |b| % 32) else [])
  }

  /** The calldata `resolve` sends. */
  function GoResolve(sel: seq<byte>, dns: seq<byte>, inner: seq<byte>): seq<byte>
  {
    sel + GoWord(0x40) + GoWord(64 + 32 + Pad32(|dns|)) + GoBytes(dns) + GoBytes(inner)
  }

  /** encodeNodeString. */
  function GoNodeString(sel: seq<byte>, node: seq<byte>, key: seq<byte>): seq<byte>
  {
    sel + node + GoWord(0x40) + GoBytes(key)
  }

  lemma GoBytesIsTail(b: seq<byte>)
    requires |b| < TWO64
    ensures GoBytes(b) == Tail(Dynamic(b))
    ensures |Tail(Dynamic(b))| == 32 + Pad32(|b|)
  {
    GoWordIsWord(|b|);
    GapForms(|b|);
  }

  lemma GapForms(n: nat)
    ensures Pad32(n) - n == if n % 32 != 0 then 32 - n % 32 else 0
  {}

  lemma Unfold2(a: Arg, b: Arg)
    ensures Tuple([a, b]) == Head([a, b], 0) + Head([a, b], 1) + (Tail(a) + Tail(b))
    ensures Offset([a, b], 0) == 64 && Offset([a, b], 1) == 64 + |Tail(a)|
  {
    var args := [a, b];
    CatTwo(Tails(args));
    CatTwo(Heads(args));
  }

  lemma CatTwo(parts: seq<seq<byte>>)
    requires |parts| == 2
    ensures Cat(parts, 0) == [] && Cat(parts, 1) == parts[0] && Cat(parts, 2) == parts[0] + parts[1]
  {
    assert Cat(parts, 1) == [] + parts[0];
  }

  /** Go's resolve calldata is the selector and the specified layout of two byte strings. */
  lemma ResolveLayout(sel: seq<byte>, x: seq<byte>, y: seq<byte>)
    requires |x| + 200 < TWO64 && |y| < TWO64
    ensures GoResolve(sel, x, y) == sel + Tuple([Dynamic(x), Dynamic(y)])
  {
    var o := 64 + 32 + Pad32(|x|);
    ResolveTuple(x, y, o);
    Assembled(sel, GoWord(0x40), GoWord(o), GoBytes(x), GoBytes(y), GoResolve(sel, x, y),
              Tuple([Dynamic(x), Dynamic(y)]));
  }

  lemma ResolveTuple(x: seq<byte>, y: seq<byte>, o: nat)
    requires |x| + 200 < TWO64 && |y| < TWO64 && o == 64 + 32 + Pad32(|x|)
    ensures Tuple([Dynamic(x), Dynamic(y)]) == GoWord(0x40) + GoWord(o) + (GoBytes(x) + GoBytes(y))
  {
    GoBytesIsTail(x);
    GoBytesIsTail(y);
    GoWordIsWord(0x40);
    GoWordIsWord(o);
    Unfold2(Dynamic(x), Dynamic(y));
  }

  /** Go's text and data calldata, likewise, of a node and a string. */
  lemma NodeStringLayout(sel: seq<byte>, node: seq<byte>, key: seq<byte>)
    requires |node| == 32 && |key| < TWO64
    ensures GoNodeString(sel, node, key) == sel + Tuple([Static(node), Dynamic(key)])
  {
    GoBytesIsTail(key);
    GoWordIsWord(0x40);
    Unfold2(Static(node), Dynamic(key));
    assert sel + node + GoWord(0x40) + GoBytes(key) == sel + (node + GoWord(0x40) + ([] + GoBytes(key)));
  }

  lemma Assembled(
    a: seq<byte>, b: seq<byte>, c: seq<byte>, d: seq<byte>, e: seq<byte>, whole: seq<byte>, tuple: seq<byte>)
    requires whole == a + b + c + d + e && tuple == b + c + (d + e)
    ensures whole == a + tuple
  {}

  // ---------------------------------------------------------------- the JavaScript writer

  /** BigInt(n).toString(16). */
  function ToHex(n: nat): (s: seq<byte>)
    ensures s != []
  {
    if n < 16 then [Hex.Digit(n)] else ToHex(n / 16) + [Hex.Digit(n % 16)]
  }

  /** s.padStart(n, '0'). */
  function PadStart(s: seq<byte>, n: nat): seq<byte>
  {
    if |s| >= n then s else seq(n - |s|, _ => 0x30) + s
  }

  function JsWord(n: nat): seq<byte> { PadStart(ToHex(n), 64) }

  /** tail: the length word and the bytes in a buffer rounded up to words, in hex. */
  function JsTail(bytes: seq<byte>): seq<byte>
  {
    JsWord(|bytes|) + Hex.Encode(bytes + Zeros(Pad32(|bytes|) - |bytes|))
  }

  datatype Item = Fixed(hexWord: seq<byte>) | Sized(bytes: seq<byte>)

  function JsHeadOf(item: Item, offset: nat): seq<byte>
  {
    if item.Sized? then JsWord(offset) else item.hexWord
  }

  function JsTailOf(item: Item): seq<byte>
  {
    if item.Sized? then JsTail(item.bytes) else []
  }

  lemma HeadStep(item: Item, args: seq<Arg>, i: nat)
    requires i < |args| && Same(item, args[i]) && Offset(args, i) < TWO64
    ensures Hex.Encode(Cat(Heads(args), i + 1))
         == Hex.Encode(Cat(Heads(args), i)) + JsHeadOf(item, Offset(args, i))
  {
    JsWordIsWord(Offset(args, i));
    Hex.EncodeConcat(Cat(Heads(args), i), Head(args, i));
  }

  lemma TailStep(item: Item, args: seq<Arg>, i: nat)
    requires i < |args| && Same(item, args[i]) && |Tail(args[i])| < TWO64
    ensures Hex.Encode(Cat(Tails(args), i + 1)) == Hex.Encode(Cat(Tails(args), i)) + JsTailOf(item)
    ensures Offset(args, i + 1) == Offset(args, i) + |JsTailOf(item)| / 2
  {
    if item.Sized? { TailReads(item.bytes); JsTailIsTail(item.bytes); }
    Hex.EncodeConcat(Cat(Tails(args), i), Tail(args[i]));
  }

  lemma OffsetFits(args: seq<Arg>, i: nat)
    requires Words(args) && i < |args|
    ensures Offset(args, i) + |Tail(args[i])| <= |Tuple(args)|
  {
    TupleTail(args, i);
  }

  ghost function HeadsHex(args: seq<Arg>, i: nat): seq<byte>
    requires i <= |args|
  {
    Hex.Encode(Cat(Heads(args), i))
  }

  ghost function TailsHex(args: seq<Arg>, i: nat): seq<byte>
    requires i <= |args|
  {
    Hex.Encode(Cat(Tails(args), i))
  }

  lemma TupleHex(args: seq<Arg>)
    ensures HeadsHex(args, |args|) + TailsHex(args, |args|) == Hex.Encode(Tuple(args))
  {
    Hex.EncodeConcat(Cat(Heads(args), |args|), Cat(Tails(args), |args|));
  }

  /** The first i items are written, and the offset has come as far. */
  ghost predicate Written(args: seq<Arg>, i: nat, head: seq<byte>, tails: seq<byte>, offset: int)
  {
    i <= |args| && head == HeadsHex(args, i) && tails == TailsHex(args, i) && offset == Offset(args, i)
  }

  lemma ItemStep(item: Item, args: seq<Arg>, i: nat, head: seq<byte>, tails: seq<byte>, offset: int)
    requires Written(args, i, head, tails, offset)
    requires Words(args) && i < |args| && Same(item, args[i]) && |Tuple(args)| < TWO64
    ensures offset >= 0
    ensures Written(args, i + 1, head + JsHeadOf(item, offset), tails + JsTailOf(item),
                    offset + |JsTailOf(item)| / 2)
  {
    OffsetFits(args, i);
    HeadStep(item, args, i);
    TailStep(item, args, i);
  }

  /** encodeDynamic: heads and tails accumulate as hex while the offset runs along. */
  method EncodeDynamic(items: seq<Item>, ghost args: seq<Arg>) returns (out: seq<byte>)
    requires |args| == |items| && Words(args) && |Tuple(args)| < TWO64
    requires forall i :: 0 <= i < |items| ==> Same(items[i], args[i])
    ensures out == Hex.Encode(Tuple(args))
  {
    var head, tails := [], [];
    var offset := |items| * 32;
    for i := 0 to |items|
      invariant Written(args, i, head, tails, offset)
    {
      ItemStep(items[i], args, i, head, tails, offset);
      var t := JsTailOf(items[i]);
      head, tails, offset := head + JsHeadOf(items[i], offset), tails + t, offset + |t| / 2;
    }
    TupleHex(args);
    out := head + tails;
  }

  /** An item of the JavaScript call is the hex of an argument. */
  predicate Same(item: Item, arg: Arg)
  {
    match item
    case Fixed(h) => arg.Static? && h == Hex.Encode(arg.word)
    case Sized(b) => arg == Dynamic(b)
  }

  /** Hex of exactly k digits. */
  function FixedHex(n: nat, k: nat): (s: seq<byte>)
    ensures |s| == k
  {
    if k == 0 then [] else FixedHex(n / 16, k - 1) + [Hex.Digit(n % 16)]
  }

  lemma {:induction false} HexOfBE(n: nat, w: nat)
    ensures Hex.Encode(BE(n, w)) == FixedHex(n, 2 * w)
  {
    if w > 0 {
      HexOfBE(n / 256, w - 1);
      var x: byte := n % 256;
      Hex.EncodeConcat(BE(n / 256, w - 1), [x]);
      assert [x][1..] == [];
      assert Hex.Encode([x]) == [Hex.Digit(x / 16), Hex.Digit(x % 16)];
      assert n / 16 / 16 == n / 256 && x / 16 == n / 16 % 16 && x % 16 == n % 16;
      var lo := FixedHex(n, 2 * w);
      assert lo == FixedHex(n / 16, 2 * w - 1) + [Hex.Digit(n % 16)];
      assert FixedHex(n / 16, 2 * w - 1) == FixedHex(n / 256, 2 * w - 2) + [Hex.Digit(n / 16 % 16)];
    }
  }

  function Pow16(k: nat): nat { if k == 0 then 1 else 16 * Pow16(k - 1) }

  lemma {:induction false} PadIsFixed(n: nat, k: nat)
    requires k >= 1 && n < Pow16(k)
    ensures |ToHex(n)| <= k && PadStart(ToHex(n), k) == FixedHex(n, k)
  {
    if n < 16 {
      ZeroHex(k - 1);
    } else {
      PadIsFixed(n / 16, k - 1);
      assert PadStart(ToHex(n), k) == PadStart(ToHex(n / 16), k - 1) + [Hex.Digit(n % 16)];
    }
  }

  lemma {:induction false} ZeroHex(k: nat)
    ensures FixedHex(0, k) == seq(k, _ => 0x30)
  {
    if k > 0 { ZeroHex(k - 1); }
  }

  lemma {:induction false} Pow16Is256(w: nat)
    ensures Pow16(2 * w) == Pow256(w)
  {
    if w > 0 { Pow16Is256(w - 1); assert Pow16(2 * w) == 16 * (16 * Pow16(2 * w - 2)); }
  }

  lemma WordHex(n: nat)
    requires n < Pow256(32)
    ensures JsWord(n) == Hex.Encode(BE(n, 32))
  {
    Pow16Is256(32);
    PadIsFixed(n, 64);
    HexOfBE(n, 32);
  }

  lemma JsWordIsWord(n: nat)
    requires n < TWO64
    ensures JsWord(n) == Hex.Encode(BE(n, 32))
  {
    Widths();
    Pow256Monotone(8, 32);
    WordHex(n);
  }

  lemma JsTailIsTail(b: seq<byte>)
    requires |b| < TWO64
    ensures JsTail(b) == Hex.Encode(Tail(Dynamic(b)))
  {
    var z := Zeros(Pad32(|b|) - |b|);
    JsWordIsWord(|b|);
    Hex.EncodeConcat(BE(|b|, 32), b + z);
    assert BE(|b|, 32) + (b + z) == BE(|b|, 32) + b + z;
  }

  // ---------------------------------------------------------------- the two agree

  /** hexToBytes of a 0x-prefixed text. */
  function HexToBytes(s: seq<byte>): seq<byte>
    requires |s| >= 2 && Hex.IsHex(s[2..])
  {
    Hex.Decode(s[2..])
  }

  lemma PrefixedHex(b: seq<byte>)
    ensures var s := Hex.PREFIX + Hex.Encode(b); Hex.IsHex(s[2..]) && HexToBytes(s) == b
  {
    assert (Hex.PREFIX + Hex.Encode(b))[2..] == Hex.Encode(b);
    Hex.DecodeOfEncode(b);
  }

  lemma Prefixed(sel: seq<byte>, t: seq<byte>)
    ensures Hex.PREFIX + Hex.Encode(sel) + Hex.Encode(t) == Hex.PREFIX + Hex.Encode(sel + t)
  {
    Hex.EncodeConcat(sel, t);
  }

  function Load(a: Arg): nat { if a.Dynamic? then |a.bytes| else 0 }

  lemma PairSize(a: Arg, b: Arg)
    requires Words([a, b]) && Load(a) + Load(b) + 500 < TWO64
    ensures |Tuple([a, b])| < TWO64
  {
    Unfold2(a, b);
    if a.Dynamic? { TailReads(a.bytes); }
    if b.Dynamic? { TailReads(b.bytes); }
    assert |Head([a, b], 0)| == 32 && |Head([a, b], 1)| == 32;
  }

  /** encodeResolve(dnsName, inner), both in hex: Go's `resolve` calldata, in hex. */
  method EncodeResolve(selHex: seq<byte>, dnsHex: seq<byte>, innerHex: seq<byte>,
                       ghost sel: seq<byte>, ghost dns: seq<byte>, ghost inner: seq<byte>)
    returns (out: seq<byte>)
    requires selHex == Hex.PREFIX + Hex.Encode(sel)
    requires dnsHex == Hex.PREFIX + Hex.Encode(dns) && innerHex == Hex.PREFIX + Hex.Encode(inner)
    requires |dns| + |inner| + 500 < TWO64
    ensures out == Hex.PREFIX + Hex.Encode(GoResolve(sel, dns, inner))
  {
    PrefixedHex(dns);
    PrefixedHex(inner);
    ResolveLayout(sel, dns, inner);
    PairSize(Dynamic(dns), Dynamic(inner));
    var body := EncodeDynamic([Sized(HexToBytes(dnsHex)), Sized(HexToBytes(innerHex))],
                              [Dynamic(dns), Dynamic(inner)]);
    Prefixed(sel, Tuple([Dynamic(dns), Dynamic(inner)]));
    out := selHex + body;
  }

  lemma NodeWord(node: seq<byte>)
    requires |node| == 32
    ensures JsWord(FromBE(node)) == Hex.Encode(node)
  {
    WordHex(FromBE(node));
    WriteRead(node);
  }

  /** encodeText(node, key): Go's encodeNodeString calldata, in hex. The node goes through
      BigInt and back, which keeps its leading zeros. */
  method EncodeText(selHex: seq<byte>, nodeHex: seq<byte>, key: seq<byte>,
                    ghost sel: seq<byte>, ghost node: seq<byte>)
    returns (out: seq<byte>)
    requires selHex == Hex.PREFIX + Hex.Encode(sel) && nodeHex == Hex.PREFIX + Hex.Encode(node)
    requires |node| == 32 && |key| + 500 < TWO64
    ensures out == Hex.PREFIX + Hex.Encode(GoNodeString(sel, node, key))
  {
    PrefixedHex(node);
    var big := FromBE(HexToBytes(nodeHex));
    NodeWord(node);
    NodeStringLayout(sel, node, key);
    PairSize(Static(node), Dynamic(key));
    var body := EncodeDynamic([Fixed(JsWord(big)), Sized(key)], [Static(node), Dynamic(key)]);
    Prefixed(sel, Tuple([Static(node), Dynamic(key)]));
    out := selHex + body;
  }

  // ---------------------------------------------------------------- decodeBytes

  datatype Decoding = Ok(value: seq<byte>) | Err | Panics

  /** uint256.ok and uint256.v. */
  predicate Small(w: seq<byte>)
    requires |w| == 32
  {
    forall i :: 0 <= i < 24 ==> w[i] == 0
  }

  function Low(w: seq<byte>): nat
    requires |w| == 32
  {
    FromBE(w[24..])
  }

  /** decodeBytes, with its uint64 sums and Go's slice bounds. */
  function DecodedBytes(out: seq<byte>): Decoding
  {
    if |out| == 0 then Ok([])
    else if |out| < 64 || !Small(out[..32]) then Err
    else At(out, Low(out[..32]))
  }

  /** ... from the offset word on ... */
  function At(out: seq<byte>, o: nat): Decoding
  {
    if (o + 32) % TWO64 > |out| then Err
    else if o + 32 > |out| then Panics
    else if !Small(out[o..o + 32]) then Err
    else Take(out, o + 32, Low(out[o..o + 32]))
  }

  /** ... and from the length word on. */
  function Take(out: seq<byte>, start: nat, n: nat): Decoding
    requires start <= |out|
  {
    if (start + n) % TWO64 > |out| then Err
    else if start + n > |out| then Panics
    else Ok(out[start..start + n])
  }

  lemma {:induction false} ZeroIff(s: seq<byte>)
    ensures FromBE(s) == 0 <==> forall i :: 0 <= i < |s| ==> s[i] == 0
  {
    if s != [] {
      ZeroIff(s[..|s| - 1]);
      assert s == s[..|s| - 1] + [s[|s| - 1]];
    }
  }

  /** A word fits exactly when the number it spells does, and then Low is that number. */
  lemma SmallIsSmall(w: seq<byte>)
    requires |w| == 32
    ensures Small(w) <==> FromBE(w) < TWO64
    ensures Small(w) ==> Low(w) == FromBE(w)
  {
    var hi, lo := w[..24], w[24..];
    assert w == hi + lo;
    WordSplits(hi, lo);
    ZeroIff(hi);
    assert Small(w) <==> forall i :: 0 <= i < 24 ==> hi[i] == 0;
    HighPart(FromBE(hi), FromBE(lo));
  }

  lemma WordSplits(hi: seq<byte>, lo: seq<byte>)
    requires |lo| == 8
    ensures FromBE(lo) < TWO64 && FromBE(hi + lo) == FromBE(hi) * TWO64 + FromBE(lo)
  {
    Widths();
    FromBEConcat(hi, lo);
  }

  lemma HighPart(x: nat, y: nat)
    requires y < TWO64
    ensures x * TWO64 + y < TWO64 <==> x == 0
  {}

  lemma TakeMeaning(out: seq<byte>, start: nat, n: nat)
    requires start <= |out| < TWO64 && n < TWO64
    ensures Take(out, start, n) ==
      if start + n <= |out| then Ok(out[start..start + n]) else if start + n >= TWO64 then Panics else Err
  {
    Wraps(start + n);
  }

  /** The value at an offset: in bounds, out of bounds, or past the end of uint64. */
  function Expected(out: seq<byte>, o: nat): Decoding
  {
    if o + 32 > |out| then (if o < TWO64 <= o + 32 then Panics else Err)
    else
      var n := FromBE(out[o..o + 32]);
      if o + 32 + n <= |out| then Ok(out[o + 32..o + 32 + n])
      else if n < TWO64 <= o + 32 + n then Panics else Err
  }

  lemma AtMeaning(out: seq<byte>, o: nat)
    requires 64 <= |out| < TWO64 - 32 && o < TWO64
    ensures At(out, o) == Expected(out, o)
  {
    Wraps(o + 32);
    if o + 32 <= |out| {
      SmallIsSmall(out[o..o + 32]);
      if Small(out[o..o + 32]) { TakeMeaning(out, o + 32, Low(out[o..o + 32])); }
    }
  }

  /** What decodeBytes does, in terms of the numbers its two words spell. */
  lemma DecodedMeaning(out: seq<byte>)
    requires |out| < TWO64 - 32
    ensures DecodedBytes(out) == if |out| == 0 then Ok([]) else if |out| < 64 then Err
                                 else Expected(out, FromBE(out[..32]))
  {
    if |out| >= 64 {
      SmallIsSmall(out[..32]);
      if Small(out[..32]) { AtMeaning(out, Low(out[..32])); }
    }
  }

  /** A return of two words whose offset is 2^64 - 1 passes the guard, and the slice
      expression behind it panics. */
  lemma OffsetPanics()
    ensures DecodedBytes(BE(TWO64 - 1, 32) + Zeros(32)) == Panics
  {
    var out := BE(TWO64 - 1, 32) + Zeros(32);
    assert out[..32] == BE(TWO64 - 1, 32);
    WordReads(TWO64 - 1);
    DecodedMeaning(out);
  }

  lemma Wraps(x: nat)
    requires x < 2 * TWO64
    ensures x % TWO64 == if x < TWO64 then x else x - TWO64
  {}

  lemma TupleOne(a: Arg)
    ensures |Tuple([a])| == |Head([a], 0)| + |Tail(a)|
  {
    var h, t := Heads([a]), Tails([a]);
    assert Cat(h, 1) == [] + h[0] && Cat(t, 1) == [] + t[0];
  }

  /** decodeBytes recovers any abi.encode(bytes) value. */
  lemma DecodeOfEncode(b: seq<byte>)
    requires |b| + 200 < TWO64
    ensures DecodedBytes(Tuple([Dynamic(b)])) == Ok(b)
  {
    TailReads(b);
    TupleOne(Dynamic(b));
    ArgumentReads([Dynamic(b)], 0);
    ReadsDecode(Tuple([Dynamic(b)]), b);
  }

  lemma ReadsDecode(t: seq<byte>, b: seq<byte>)
    requires 64 <= |t| < TWO64 - 32 && Reads(t, 0, b)
    ensures DecodedBytes(t) == Ok(b)
  {
    var o := FirstWord(t, b);
    DecodedMeaning(t);
    BodyReads(t, o, |b|);
  }

  lemma FirstWord(t: seq<byte>, b: seq<byte>) returns (o: nat)
    requires |t| < TWO64 && Reads(t, 0, b)
    ensures o == FromBE(t[..32]) && o + 32 + |b| <= |t|
    ensures FromBE(t[o..o + 32]) == |b| && t[o + 32..o + 32 + |b|] == b
  {
    assert t[32 * 0..32 * 0 + 32] == t[..32];
    o := FromBE(t[..32]);
    WordAt(t, o, |b|);
  }

  lemma WordAt(t: seq<byte>, o: nat, n: nat)
    requires n < TWO64 && Sits(t, o, BE(n, 32))
    ensures o + 32 <= |t| && FromBE(t[o..o + 32]) == n
  {
    WordReads(n);
  }

  lemma BodyReads(t: seq<byte>, o: nat, n: nat)
    requires o + 32 + n <= |t| && FromBE(t[o..o + 32]) == n
    ensures Expected(t, o) == Ok(t[o + 32..o + 32 + n])
  {}
}
