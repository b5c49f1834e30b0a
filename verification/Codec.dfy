/** The .xorf wire format (internal/hintfilter/codec.go). */
module Codec {
  import opened Bytes
  import opened Bloom
  import opened Filters

  const MAGIC: seq<byte> := [0x58, 0x4f, 0x52, 0x46]  // "XORF"
  const VERSION: byte := 1
  const HEADER: nat := 34                             // headerFixed
  const MAX_DESC: nat := 8192

  const TWO63: int := 0x8000_0000_0000_0000

  predicate Int64(e: int) { -TWO63 <= e < TWO63 }

  /** int64 to and from its uint64 bit pattern. */
  function Unsigned(e: int): nat
    requires Int64(e)
  {
    if e < 0 then e + TWO64 else e
  }

  function Signed(u: u64): (e: int)
    ensures Int64(e)
  {
    if u >= TWO63 then u - TWO64 else u
  }

  function StructureOf(p: Payload): byte
  {
    match p case Keys(_) => SORTED case Bitset(_, _, _) => BLOOM case Fuse8(_) => FUSE8
  }

  function Header(flags: byte, structure: byte, chain: nat, kind: byte, epoch: nat, to: nat, descLen: nat):
    (h: seq<byte>)
    ensures |h| == HEADER
  {
    MAGIC + [VERSION, flags, structure] + BE(chain, 8) + [kind] + BE(epoch, 8) + BE(to, 8) + BE(descLen, 2)
  }

  function KeyBytes(keys: seq<u64>): (b: seq<byte>)
    ensures |b| == 8 * |keys|
  {
    if keys == [] then [] else KeyBytes(keys[..|keys| - 1]) + BE(keys[|keys| - 1], 8)
  }

  function FuseHeader(f: Fuse): (h: seq<byte>)
    ensures |h| == 28
  {
    BE(f.seed, 8) + BE(f.segmentLength, 4) + BE(f.segmentLengthMask, 4) + BE(f.segmentCount, 4)
    + BE(f.segmentCountLength, 4) + BE(|f.fingerprints|, 4)
  }

  function Body(p: Payload): seq<byte>
  {
    match p
    case Keys(keys) => KeyBytes(keys)
    case Bitset(m, k, bits) => BE(m, 4) + BE(k, 1) + bits
    case Fuse8(f) => FuseHeader(f) + f.fingerprints
  }

  /** The fields of a file, before the payload is interpreted. */
  datatype Parts = Parts(
    flags: byte, structure: byte, chain: u64, kind: byte, epoch: u64, to: u64,
    desc: seq<byte>, count: u64, body: seq<byte>)

  function File(p: Parts): seq<byte>
  {
    Header(p.flags, p.structure, p.chain, p.kind, p.epoch, p.to, |p.desc|)
    + (p.desc + (BE(p.count, 8) + p.body))
  }

  function PartsOf(f: Filter): Parts
    requires Int64(f.meta.epochId)
  {
    var t := f.meta;
    Parts(if t.blinded then 1 else 0, StructureOf(f.payload), t.chainId, t.kind,
          Unsigned(t.epochId), t.toBlock, t.desc, f.count, Body(f.payload))
  }

  function Written(f: Filter): seq<byte>
    requires Int64(f.meta.epochId)
  {
    File(PartsOf(f))
  }

  /** A sum or product as Go's 64-bit int holds it. */
  function Int(x: int): int { Signed(x % TWO64) }

  /** The capacity Encode asks for: room for eight bytes a key, whatever the structure. */
  function Capacity(descLen: nat, count: u64): int
  {
    Int(HEADER + descLen + 8 + Int(Int(count) * 8))
  }

  /** Whether make grants it. `room` is the most the machine's make ever grants. */
  predicate Granted(descLen: nat, count: u64, room: nat)
  {
    0 <= Capacity(descLen, count) <= room
  }

  /** What Encode returns, or that it panics. */
  function Encoded(f: Filter, room: nat): Result<seq<byte>>
    requires Int64(f.meta.epochId)
  {
    if |f.meta.desc| > MAX_DESC then Err(DescTooLong)
    else if !Granted(|f.meta.desc|, f.count, room) then Err(Panics)
    else Ok(Written(f))
  }

  /** The exact condition, without the conversions: what is asked for, modulo 2^64, is no
      more than make grants. An int never exceeds 2^63 - 1, so neither does `room`. */
  lemma GrantedIff(descLen: nat, count: u64, room: nat)
    requires descLen <= MAX_DESC && room < TWO63
    ensures Granted(descLen, count, room) <==> (HEADER + descLen + 8 + 8 * count) % TWO64 <= room
    ensures HEADER + descLen + 8 + 8 * count <= room ==> Granted(descLen, count, room)
  {
    var x := HEADER + descLen + 8;
    IntProduct(count);
    IntSum(x, 8 * count);
    if x + 8 * count <= room { Unwrapped(x + 8 * count); }
  }

  lemma IntProduct(count: u64)
    ensures Int(Int(count) * 8) == Int(8 * count)
  {
    if Int(count) < 0 { Periodic(Int(count) * 8, 8); }
  }

  lemma IntSum(x: nat, y: int)
    ensures Int(x + Int(y)) == Int(x + y)
  {
    var q := y / TWO64;
    assert y == y % TWO64 + q * TWO64;
    if y % TWO64 < TWO63 {
      Periodic(x + Int(y), q);
    } else {
      Periodic(x + Int(y), q + 1);
    }
  }

  lemma Unwrapped(x: nat)
    requires x < TWO64
    ensures x % TWO64 == x
  {}

  lemma {:induction false} Periodic(x: int, k: int)
    ensures (x + k * TWO64) % TWO64 == x % TWO64
    decreases if k < 0 then -k else k
  {
    if k > 0 {
      Periodic(x, k - 1);
      OneMore(x + (k - 1) * TWO64);
    } else if k < 0 {
      Periodic(x, k + 1);
      OneMore(x + k * TWO64);
    }
  }

  lemma OneMore(x: int)
    ensures (x + TWO64) % TWO64 == x % TWO64
  {}

  // ---------------------------------------------------------------- Decode

  function ReadKeys(body: seq<byte>, count: nat): (keys: seq<u64>)
    requires |body| == 8 * count
    ensures |keys| == count
  {
    Widths();
    seq(count, i requires 0 <= i < count => ReadKey(body, i))
  }

  function ReadKey(body: seq<byte>, i: nat): u64
    requires 8 * i + 8 <= |body|
  {
    Widths();
    FromBE(body[8 * i..8 * i + 8])
  }

  function ReadPayload(structure: byte, count: nat, body: seq<byte>): Result<Payload>
  {
    if structure == SORTED then
      if |body| != count * 8 % TWO64 then Err(Malformed)
      else if count * 8 >= TWO64 then Err(Panics)  // make: len out of range
      else Ok(Keys(ReadKeys(body, count)))
    else if structure == BLOOM then
      if |body| < 5 then Err(Malformed)
      else
        var m, k, raw := FromBE(body[..4]), body[4], body[5..];
        if !GoodSize(m) || k == 0 || |raw| != m / 8 then Err(Malformed) else Ok(Bitset(m, k, raw))
    else if structure == FUSE8 then
      if |body| < 28 then Err(Malformed)
      else
        var f := Fuse(FromBE(body[..8]), FromBE(body[8..12]), FromBE(body[12..16]),
                      FromBE(body[16..20]), FromBE(body[20..24]), body[28..]);
        if |body[28..]| != FromBE(body[24..28]) then Err(Malformed) else Ok(Fuse8(f))
    else Err(Malformed)
  }

  /** Cut a file into its fields. */
  function Split(b: seq<byte>): Result<Parts>
  {
    if |b| < HEADER || b[..4] != MAGIC || b[4] != VERSION then Err(Malformed)
    else
      var n, rest := FromBE(b[32..34]), b[34..];
      if |rest| < n + 8 then Err(Malformed)
      else
        Widths();
        Ok(Parts(b[5], b[6], FromBE(b[7..15]), b[15], FromBE(b[16..24]), FromBE(b[24..32]),
                 rest[..n], FromBE(rest[n..n + 8]), rest[n + 8..]))
  }

  /** What Decode makes of a file. */
  function Decoded(b: seq<byte>): Result<Filter>
  {
    match Split(b)
    case Err(e) => Err(e)
    case Ok(p) => Interpreted(p)
  }

  function Interpreted(p: Parts): Result<Filter>
  {
    Assemble(p, ReadPayload(p.structure, p.count, p.body))
  }

  function Assemble(p: Parts, read: Result<Payload>): Result<Filter>
  {
    match read
    case Err(e) => Err(e)
    case Ok(payload) =>
      Ok(Filter(Meta(p.flags % 2 == 1, p.chain, p.kind, Signed(p.epoch), p.to, 0, p.desc), p.count, payload))
  }

  // ---------------------------------------------------------------- slices

  lemma HeaderSlices(flags: byte, structure: byte, chain: nat, kind: byte, epoch: nat, to: nat, descLen: nat,
                     rest: seq<byte>)
    ensures var b := Header(flags, structure, chain, kind, epoch, to, descLen) + rest;
      && b[..4] == MAGIC && b[4] == VERSION && b[5] == flags && b[6] == structure
      && b[7..15] == BE(chain, 8) && b[15] == kind && b[16..24] == BE(epoch, 8)
      && b[24..32] == BE(to, 8) && b[32..34] == BE(descLen, 2) && b[34..] == rest
  {}

  lemma HeaderRebuilds(b: seq<byte>)
    requires |b| >= HEADER && b[..4] == MAGIC && b[4] == VERSION
    ensures b == Header(b[5], b[6], FromBE(b[7..15]), b[15], FromBE(b[16..24]), FromBE(b[24..32]),
                        FromBE(b[32..34])) + b[34..]
  {
    WriteRead(b[7..15]);
    WriteRead(b[16..24]);
    WriteRead(b[24..32]);
    WriteRead(b[32..34]);
  }

  lemma {:induction false} KeyBytesSlice(keys: seq<u64>, i: nat)
    requires i < |keys|
    ensures KeyBytes(keys)[8 * i..8 * i + 8] == BE(keys[i], 8)
  {
    var rest := keys[..|keys| - 1];
    if i < |rest| {
      KeyBytesSlice(rest, i);
      assert KeyBytes(keys)[8 * i..8 * i + 8] == KeyBytes(rest)[8 * i..8 * i + 8];
    }
  }

  lemma KeysReadBack(keys: seq<u64>)
    ensures ReadKeys(KeyBytes(keys), |keys|) == keys
  {
    Widths();
    forall i | 0 <= i < |keys| ensures ReadKey(KeyBytes(keys), i) == keys[i] {
      KeyBytesSlice(keys, i);
      ReadWritten(keys[i], 8);
    }
  }

  /** The keys of a body are those of all but its last eight bytes, and one more. */
  lemma LastKey(front: seq<byte>, word: seq<byte>, n: nat)
    requires |front| == 8 * n && |word| == 8
    ensures var keys := ReadKeys(front + word, n + 1);
      keys[..n] == ReadKeys(front, n) && keys[n] == FromBE(word)
  {
    var body := front + word;
    forall i | 0 <= i < n ensures ReadKey(body, i) == ReadKey(front, i) {
      KeyInFront(front, word, i);
    }
    KeyAtEnd(front, word, n);
  }

  lemma KeyAtEnd(front: seq<byte>, word: seq<byte>, n: nat)
    requires |front| == 8 * n && |word| == 8
    ensures ReadKey(front + word, n) == FromBE(word)
  {
    var o := |front|;
    assert (front + word)[o..o + 8] == word;
  }

  lemma KeyInFront(front: seq<byte>, word: seq<byte>, i: nat)
    requires 8 * i + 8 <= |front|
    ensures ReadKey(front + word, i) == ReadKey(front, i)
  {
    var o := 8 * i;
    assert front[o..o + 8] == (front + word)[o..o + 8];
  }

  lemma {:induction false} KeysWriteBack(body: seq<byte>, count: nat)
    requires |body| == 8 * count
    ensures KeyBytes(ReadKeys(body, count)) == body
  {
    if count > 0 {
      var n := count - 1;
      var front, word := body[..8 * n], body[8 * n..];
      assert body == front + word;
      LastKey(front, word, n);
      KeysWriteBack(front, n);
      WriteRead(word);
    }
  }

  // ---------------------------------------------------------------- round trips

  /** A payload as Build or Decode leaves it, with its header count. */
  predicate PayloadFits(p: Payload, count: nat)
  {
    match p
    case Keys(keys) => count == |keys| && 8 * count < TWO64
    case Bitset(m, k, bits) => GoodSize(m) && 1 <= k < 256 && |bits| == m / 8
    case Fuse8(f) => FuseFits(f)
  }

  predicate Encodable(f: Filter)
  {
    Int64(f.meta.epochId) && |f.meta.desc| <= MAX_DESC && PayloadFits(f.payload, f.count)
  }

  lemma BodyReadsBack(p: Payload, count: nat)
    requires PayloadFits(p, count)
    ensures ReadPayload(StructureOf(p), count, Body(p)) == Ok(p)
  {
    Widths();
    match p
    case Keys(keys) => KeysReadBack(keys);
    case Bitset(m, k, bits) =>
      ReadWritten(m, 4);
      assert Body(p)[..4] == BE(m, 4);
      assert BE(k, 1) == [k];
      assert Body(p)[4] == k && Body(p)[5..] == bits;
    case Fuse8(f) => FuseReadsBack(f);
  }

  lemma FuseReadsBack(f: Fuse)
    requires FuseFits(f)
    ensures ReadPayload(FUSE8, 0, Body(Fuse8(f))) == Ok(Fuse8(f))
  {
    Widths();
    var body := Body(Fuse8(f));
    FuseSlices(f);
    ReadWritten(f.seed, 8);
    ReadWritten(f.segmentLength, 4);
    ReadWritten(f.segmentLengthMask, 4);
    ReadWritten(f.segmentCount, 4);
    ReadWritten(f.segmentCountLength, 4);
    ReadWritten(|f.fingerprints|, 4);
  }

  lemma FuseSlices(f: Fuse)
    ensures var body := FuseHeader(f) + f.fingerprints;
      && body[..8] == BE(f.seed, 8) && body[8..12] == BE(f.segmentLength, 4)
      && body[12..16] == BE(f.segmentLengthMask, 4) && body[16..20] == BE(f.segmentCount, 4)
      && body[20..24] == BE(f.segmentCountLength, 4) && body[24..28] == BE(|f.fingerprints|, 4)
      && body[28..] == f.fingerprints
  {}

  lemma TailSlices(desc: seq<byte>, count: u64, body: seq<byte>)
    ensures var rest, n := desc + (BE(count, 8) + body), |desc|;
      |rest| >= n + 8 && rest[..n] == desc && rest[n..n + 8] == BE(count, 8) && rest[n + 8..] == body
  {}

  lemma FieldsReadBack(p: Parts)
    requires |p.desc| < 0x1_0000
    ensures FromBE(BE(p.chain, 8)) == p.chain && FromBE(BE(p.epoch, 8)) == p.epoch
    ensures FromBE(BE(p.to, 8)) == p.to && FromBE(BE(p.count, 8)) == p.count
    ensures FromBE(BE(|p.desc|, 2)) == |p.desc|
  {
    Widths();
    ReadWritten(p.chain, 8);
    ReadWritten(p.epoch, 8);
    ReadWritten(p.to, 8);
    ReadWritten(p.count, 8);
    ReadWritten(|p.desc|, 2);
  }

  /** A file splits into exactly the fields it was put together from. */
  lemma SplitOfFile(p: Parts)
    requires |p.desc| < 0x1_0000
    ensures Split(File(p)) == Ok(p)
  {
    HeaderSlices(p.flags, p.structure, p.chain, p.kind, p.epoch, p.to, |p.desc|,
                 p.desc + (BE(p.count, 8) + p.body));
    TailSlices(p.desc, p.count, p.body);
    FieldsReadBack(p);
  }

  /** Reading back what was written. Everything but the sizing request comes back; that
      one field of Meta is not in the file. Encode writes it exactly when make grants the
      capacity. */
  lemma DecodeOfEncode(f: Filter, room: nat)
    requires Encodable(f)
    ensures Encoded(f, room) == if Granted(|f.meta.desc|, f.count, room) then Ok(Written(f)) else Err(Panics)
    ensures Decoded(Written(f)) == Ok(f.(meta := f.meta.(bloomBits := 0)))
  {
    SplitOfFile(PartsOf(f));
    PartsInterpret(f);
  }

  lemma PartsInterpret(f: Filter)
    requires Encodable(f)
    ensures Interpreted(PartsOf(f)) == Ok(f.(meta := f.meta.(bloomBits := 0)))
  {
    BodyReadsBack(f.payload, f.count);
    AssembleParts(f);
  }

  lemma AssembleParts(f: Filter)
    requires Int64(f.meta.epochId)
    ensures Assemble(PartsOf(f), Ok(f.payload)) == Ok(f.(meta := f.meta.(bloomBits := 0)))
  {}

  lemma BodyWritesBack(structure: byte, count: nat, body: seq<byte>)
    requires count < TWO64 && ReadPayload(structure, count, body).Ok?
    ensures var p := ReadPayload(structure, count, body).value;
      StructureOf(p) == structure && Body(p) == body && PayloadFits(p, count)
  {
    Widths();
    var p := ReadPayload(structure, count, body).value;
    if structure == SORTED {
      KeysWriteBack(body, count);
    } else if structure == BLOOM {
      WriteRead(body[..4]);
      assert BE(body[4], 1) == [body[4]];
      assert body == body[..4] + [body[4]] + body[5..];
    } else {
      FuseWritesBack(body);
    }
  }

  lemma SevenParts(b: seq<byte>)
    requires |b| >= 28
    ensures b == b[..8] + b[8..12] + b[12..16] + b[16..20] + b[20..24] + b[24..28] + b[28..]
  {}

  lemma FuseWritesBack(body: seq<byte>)
    requires ReadPayload(FUSE8, 0, body).Ok?
    ensures var p := ReadPayload(FUSE8, 0, body).value; Body(p) == body && PayloadFits(p, 0)
  {
    Widths();
    SevenParts(body);
    WriteRead(body[..8]);
    WriteRead(body[8..12]);
    WriteRead(body[12..16]);
    WriteRead(body[16..20]);
    WriteRead(body[20..24]);
    WriteRead(body[24..28]);
  }

  /** And a file that splits is the file of its fields. */
  lemma FileOfSplit(b: seq<byte>)
    requires Split(b).Ok?
    ensures File(Split(b).value) == b
    ensures |Split(b).value.desc| == FromBE(b[32..34]) < 0x1_0000
  {
    Widths();
    var p, rest, n := Split(b).value, b[34..], FromBE(b[32..34]);
    WriteRead(rest[n..n + 8]);
    TailRebuilds(rest, n);
    HeaderRebuilds(b);
  }

  lemma TailRebuilds(rest: seq<byte>, n: nat)
    requires |rest| >= n + 8
    ensures rest == rest[..n] + (rest[n..n + 8] + rest[n + 8..])
  {}

  lemma InterpretedParts(p: Parts)
    requires Interpreted(p).Ok?
    ensures PartsOf(Interpreted(p).value) == p.(flags := p.flags % 2)
  {
    BodyWritesBack(p.structure, p.count, p.body);
  }

  /** The key count a file claims. */
  function CountIn(b: seq<byte>): u64
    requires Split(b).Ok?
  {
    var at := HEADER + FromBE(b[32..34]);
    Widths();
    FromBE(b[at..at + 8])
  }

  /** Clearing the reserved flag bits leaves a file alone exactly when they are clear. */
  lemma FlagsKept(b: seq<byte>)
    requires Split(b).Ok?
    ensures var p := Split(b).value; File(p.(flags := p.flags % 2)) == b <==> b[5] < 2
  {
    var p := Split(b).value;
    FileOfSplit(b);
    SplitOfFile(p.(flags := p.flags % 2));
  }

  /** Writing back what was read gives the same file exactly when its reserved flag bits
      are clear, its descriptor is one Encode would have allowed, and the count it claims,
      which nothing but a sorted payload is held to, asks for no more than make grants. */
  lemma EncodeOfDecode(b: seq<byte>, room: nat)
    requires Decoded(b).Ok?
    ensures Encoded(Decoded(b).value, room) == Ok(b) <==>
      b[5] < 2 && FromBE(b[32..34]) <= 8192 && Granted(FromBE(b[32..34]), CountIn(b), room)
  {
    FileOfSplit(b);
    InterpretedParts(Split(b).value);
    FlagsKept(b);
    CountIsPart(b);
  }

  lemma CountIsPart(b: seq<byte>)
    requires Split(b).Ok?
    ensures CountIn(b) == Split(b).value.count
  {
    var n := FromBE(b[32..34]);
    assert b[34..][n..n + 8] == b[34 + n..34 + n + 8];
  }

  /** A sorted file is held to its count, so wherever the file itself fits it is granted. */
  lemma SortedIsGranted(b: seq<byte>, room: nat)
    requires Decoded(b).Ok? && b[6] == SORTED && FromBE(b[32..34]) <= MAX_DESC
    requires |b| <= room < TWO63
    ensures Granted(FromBE(b[32..34]), CountIn(b), room)
  {
    CountIsPart(b);
    GrantedIff(FromBE(b[32..34]), CountIn(b), room);
    SortedLength(b);
  }

  lemma SortedLength(b: seq<byte>)
    requires Decoded(b).Ok? && b[6] == SORTED
    ensures |b| == HEADER + FromBE(b[32..34]) + 8 + 8 * Split(b).value.count
  {
    var p := Split(b).value;
    assert |p.body| == |b| - HEADER - FromBE(b[32..34]) - 8;
    BodyWritesBack(p.structure, p.count, p.body);
  }

  /** The smallest Bloom filter, claiming any number of keys. */
  function Smallest(count: u64): (f: Filter)
    ensures Encodable(f)
  {
    Filter(Meta(false, 1, 0, -1, 0, 0, []), count, Bitset(64, 1, Zeros(8)))
  }

  /** A file of the smallest filter is accepted whatever count it claims, and what was read
      is refused by Encode exactly when the capacity is. */
  lemma SmallestReadsBack(count: u64, room: nat)
    ensures Decoded(Written(Smallest(count))) == Ok(Smallest(count))
    ensures Split(Written(Smallest(count))).Ok? && CountIn(Written(Smallest(count))) == count
    ensures Encoded(Smallest(count), room).Err? <==> !Granted(0, count, room)
  {
    var f := Smallest(count);
    SplitOfFile(PartsOf(f));
    CountIsPart(Written(f));
    DecodeOfEncode(f, room);
  }

  const HUGE: u64 := 0x1000_0000_0000_0000  // 2^60

  lemma HugeIsRefused(room: nat)
    ensures !Granted(0, HUGE, room)
  {
    assert Int(HUGE) == HUGE;
    assert HUGE * 8 == TWO63;
    assert Int(TWO63) == TWO63 - TWO64;
    assert HEADER + 0 + 8 + (TWO63 - TWO64) < 0;
  }

  /** A Bloom file that claims 2^60 keys: accepted, and Encode panics on what was read, on
      every machine. */
  lemma HugeCountPanics(room: nat) returns (b: seq<byte>)
    ensures Decoded(b).Ok? && CountIn(b) == HUGE
    ensures Encoded(Decoded(b).value, room) == Err(Panics)
  {
    b := Written(Smallest(HUGE));
    SmallestReadsBack(HUGE, room);
    HugeIsRefused(room);
  }

  /** Exactly when Decode panics: a sorted file that claims so many keys that eight times
      their number wraps around to the length of what it holds. */
  lemma DecodePanicsIff(b: seq<byte>)
    ensures Decoded(b) == Err(Panics) <==>
      && Split(b).Ok? && b[6] == 2 && CountIn(b) >= 0x2000_0000_0000_0000
      && |b| - 42 - FromBE(b[32..34]) == 8 * CountIn(b) % 0x1_0000_0000_0000_0000
  {
    if Split(b).Ok? { CountIsPart(b); }
  }

  /** A file with the second flag bit set: accepted, and written back without it. */
  lemma FlagBitIsLost(room: nat) returns (b: seq<byte>)
    requires 1000 <= room < TWO63
    ensures Decoded(b).Ok? && b[5] == 2
    ensures Encoded(Decoded(b).value, room).Ok? && Encoded(Decoded(b).value, room).value != b
  {
    var f := Smallest(1);
    var p := PartsOf(f).(flags := 2);
    b := File(p);
    SplitOfFile(p);
    PartsInterpret(f);
    assert Interpreted(p) == Interpreted(PartsOf(f));
    GrantedIff(0, 1, room);
    SplitOfFile(PartsOf(f));
  }

  /** Every filter Build returns can be encoded and read back, given the memory for it. */
  lemma BuiltIsEncodable(lib: Library, keys: seq<u64>, structure: byte, meta: Meta, room: nat)
    requires 8 * |keys| < TWO64 && lib.Sound() && Int64(meta.epochId) && |meta.desc| <= MAX_DESC
    requires Built(lib, keys, structure, meta).Ok?
    ensures Encodable(Built(lib, keys, structure, meta).value)
    ensures HEADER + |meta.desc| + 8 + 8 * |keys| <= room < TWO63 ==>
      Granted(|meta.desc|, Built(lib, keys, structure, meta).value.count, room)
  {
    CanonicalShort(keys);
    if room < TWO63 { GrantedIff(|meta.desc|, Built(lib, keys, structure, meta).value.count, room); }
  }

  /** No false negatives end to end: build, encode, decode, ask. Encode returns a file
      exactly when make grants the capacity, and it does where the keys themselves fit. */
  lemma NoFalseNegatives(lib: Library, keys: seq<u64>, structure: byte, meta: Meta, room: nat, key: u64)
    requires 8 * |keys| < TWO64 && lib.Sound() && Int64(meta.epochId) && |meta.desc| <= MAX_DESC
    requires Built(lib, keys, structure, meta).Ok? && key in keys
    ensures var f := Built(lib, keys, structure, meta).value;
      var file := Encoded(f, room);
      && (file.Ok? <==> Granted(|meta.desc|, f.count, room))
      && (HEADER + |meta.desc| + 8 + 8 * |keys| <= room < TWO63 ==> file.Ok?)
      && (file.Ok? ==> Decoded(file.value).Ok? && Askable(Decoded(file.value).value.payload)
                       && Has(lib, Decoded(file.value).value, key))
  {
    var f := Built(lib, keys, structure, meta).value;
    BuiltIsEncodable(lib, keys, structure, meta, room);
    DecodeOfEncode(f, room);
    BuiltContains(lib, keys, structure, meta, key);
  }

  // ---------------------------------------------------------------- where the fields lie

  /** The fixed header, byte by byte. */
  lemma HeaderLayout(f: Filter)
    requires Encodable(f)
    ensures var b, t := Written(f), f.meta;
      && |b| >= 42 + |t.desc|
      && b[..4] == OfString("XORF") && b[4] == 1 && b[5] == (if t.blinded then 1 else 0)
      && b[6] == (match f.payload case Fuse8(_) => 1 case Keys(_) => 2 case Bitset(_, _, _) => 3)
      && FromBE(b[7..15]) == t.chainId && b[15] == t.kind
      && FromBE(b[16..24]) == (if t.epochId >= 0 then t.epochId else 0x1_0000_0000_0000_0000 + t.epochId)
      && FromBE(b[24..32]) == t.toBlock && FromBE(b[32..34]) == |t.desc|
      && b[34..34 + |t.desc|] == t.desc && FromBE(b[34 + |t.desc|..42 + |t.desc|]) == f.count
      && b[42 + |t.desc|..] == Body(f.payload)
  {
    var p := PartsOf(f);
    HeaderSlices(p.flags, p.structure, p.chain, p.kind, p.epoch, p.to, |p.desc|,
                 p.desc + (BE(p.count, 8) + p.body));
    TailSlices(p.desc, p.count, p.body);
    FieldsReadBack(p);
    RestSlices(Written(f), |p.desc|);
    MagicSpelled();
  }

  lemma MagicSpelled()
    ensures MAGIC == OfString("XORF")
  {}

  lemma RestSlices(b: seq<byte>, n: nat)
    requires |b| >= 42 + n
    ensures b[34..][..n] == b[34..34 + n] && b[34..][n..n + 8] == b[34 + n..42 + n] && b[34..][n + 8..] == b[42 + n..]
  {}

  /** The payloads, field by field. */
  lemma BodyLayout(p: Payload, count: nat)
    requires PayloadFits(p, count)
    ensures var d := Body(p);
      match p
      case Keys(keys) =>
        |d| == 8 * |keys| && forall i :: 0 <= i < |keys| ==> FromBE(d[8 * i..8 * i + 8]) == keys[i]
      case Bitset(m, k, bits) =>
        |d| == 5 + |bits| && FromBE(d[..4]) == m && d[4] == k && d[5..] == bits
      case Fuse8(f) =>
        && |d| == 28 + |f.fingerprints|
        && FromBE(d[..8]) == f.seed && FromBE(d[8..12]) == f.segmentLength
        && FromBE(d[12..16]) == f.segmentLengthMask && FromBE(d[16..20]) == f.segmentCount
        && FromBE(d[20..24]) == f.segmentCountLength && FromBE(d[24..28]) == |f.fingerprints|
        && d[28..] == f.fingerprints
  {
    Widths();
    match p
    case Keys(keys) =>
      forall i | 0 <= i < |keys| ensures FromBE(KeyBytes(keys)[8 * i..8 * i + 8]) == keys[i] {
        KeyBytesSlice(keys, i);
        ReadWritten(keys[i], 8);
      }
    case Bitset(m, k, bits) =>
      ReadWritten(m, 4);
      assert BE(k, 1) == [k];
      assert Body(p)[..4] == BE(m, 4);
    case Fuse8(f) =>
      FuseSlices(f);
      ReadWritten(f.seed, 8);
      ReadWritten(f.segmentLength, 4);
      ReadWritten(f.segmentLengthMask, 4);
      ReadWritten(f.segmentCount, 4);
      ReadWritten(f.segmentCountLength, 4);
      ReadWritten(|f.fingerprints|, 4);
  }

  // ---------------------------------------------------------------- the program

  /** Encode: append field by field, and the keys in a loop. */
  method Encode(f: Filter, room: nat) returns (r: Result<seq<byte>>)
    requires Int64(f.meta.epochId)
    ensures r == Encoded(f, room)
  {
    var t := f.meta;
    if |t.desc| > MAX_DESC { return Err(DescTooLong); }
    if !Granted(|t.desc|, f.count, room) { return Err(Panics); }
    var out := AppendHeader(t, StructureOf(f.payload));
    out := out + t.desc;
    out := out + BE(f.count, 8);
    out := AppendPayload(out, f.payload);
    Reassociated(t, f);
    r := Ok(out);
  }

  /** The fixed header, one append a field. */
  method AppendHeader(t: Meta, structure: byte) returns (out: seq<byte>)
    requires Int64(t.epochId)
    ensures out == Header(if t.blinded then 1 else 0, structure, t.chainId, t.kind,
                          Unsigned(t.epochId), t.toBlock, |t.desc|)
  {
    out := MAGIC;
    out := out + [VERSION];
    var flags: byte := 0;
    if t.blinded { flags := 1; }
    out := out + [flags, structure];
    out := out + BE(t.chainId, 8);
    out := out + [t.kind];
    out := out + BE(Unsigned(t.epochId), 8);
    out := out + BE(t.toBlock, 8);
    out := out + BE(|t.desc|, 2);
  }

  /** The payload of each structure. */
  method AppendPayload(start: seq<byte>, p: Payload) returns (out: seq<byte>)
    ensures out == start + Body(p)
  {
    out := start;
    match p {
      case Keys(keys) =>
        var i := 0;
        while i < |keys|
          invariant i <= |keys| && out == start + KeyBytes(keys[..i])
        {
          assert keys[..i + 1][..i] == keys[..i];
          out := out + BE(keys[i], 8);
          i := i + 1;
        }
        assert keys[..|keys|] == keys;
      case Bitset(m, k, bits) =>
        out := out + BE(m, 4);
        out := out + BE(k, 1);
        out := out + bits;
      case Fuse8(fuse) =>
        out := out + BE(fuse.seed, 8);
        out := out + BE(fuse.segmentLength, 4);
        out := out + BE(fuse.segmentLengthMask, 4);
        out := out + BE(fuse.segmentCount, 4);
        out := out + BE(fuse.segmentCountLength, 4);
        out := out + BE(|fuse.fingerprints|, 4);
        out := out + fuse.fingerprints;
    }
  }

  lemma Reassociated(t: Meta, f: Filter)
    requires Int64(t.epochId) && t == f.meta
    ensures Header(if t.blinded then 1 else 0, StructureOf(f.payload), t.chainId, t.kind,
                   Unsigned(t.epochId), t.toBlock, |t.desc|)
            + t.desc + BE(f.count, 8) + Body(f.payload) == Written(f)
  {
    Regroup(Header(if t.blinded then 1 else 0, StructureOf(f.payload), t.chainId, t.kind,
                   Unsigned(t.epochId), t.toBlock, |t.desc|), t.desc, BE(f.count, 8), Body(f.payload));
  }

  lemma Regroup(a: seq<byte>, b: seq<byte>, c: seq<byte>, d: seq<byte>)
    ensures a + b + c + d == a + (b + (c + d))
  {}

  /** Decode: check, advance past each field, then read the payload. */
  method Decode(b: seq<byte>) returns (r: Result<Filter>)
    ensures r == Decoded(b)
  {
    if |b| < HEADER || b[..4] != MAGIC || b[4] != VERSION { return Err(Malformed); }
    Widths();
    var rest, descLen := b[HEADER..], FromBE(b[32..34]);
    if |rest| < descLen + 8 { return Err(Malformed); }
    var desc := rest[..descLen];
    rest := rest[descLen..];
    var count: u64 := FromBE(rest[..8]);
    assert b[34..][descLen..descLen + 8] == rest[..8];
    rest := rest[8..];
    assert b[34..][descLen + 8..] == rest;
    var p := DecodePayload(b[6], count, rest);
    if p.Err? { return Err(p.why); }
    r := Ok(Filter(Meta(b[5] % 2 == 1, FromBE(b[7..15]), b[15], Signed(FromBE(b[16..24])),
                        FromBE(b[24..32]), 0, desc), count, p.value));
  }

  /** The payload of each structure, field by field. */
  method DecodePayload(structure: byte, count: u64, body: seq<byte>) returns (p: Result<Payload>)
    ensures p == ReadPayload(structure, count, body)
  {
    var rest := body;
    if structure == SORTED {
      if |rest| != count * 8 % TWO64 { return Err(Malformed); }
      if count * 8 >= TWO64 { return Err(Panics); }
      var keys := DecodeKeys(rest, count);
      return Ok(Keys(keys));
    }
    if structure == BLOOM {
      if |rest| < 5 { return Err(Malformed); }
      p := BloomFromBytes(rest[5..], FromBE(rest[0..4]), rest[4]);
      return;
    }
    if structure != FUSE8 || |rest| < 28 { return Err(Malformed); }
    var seed, length, mask := FromBE(rest[0..8]), FromBE(rest[8..12]), FromBE(rest[12..16]);
    var segments, total := FromBE(rest[16..20]), FromBE(rest[20..24]);
    var fingerprints := FromBE(rest[24..28]);
    rest := rest[28..];
    if |rest| != fingerprints { return Err(Malformed); }
    p := Ok(Fuse8(Fuse(seed, length, mask, segments, total, rest)));
  }

  /** bloomFromBytes. */
  method BloomFromBytes(raw: seq<byte>, m: nat, k: byte) returns (p: Result<Payload>)
    ensures p == if GoodSize(m) && k > 0 && |raw| == m / 8 then Ok(Bitset(m, k, raw)) else Err(Malformed)
  {
    if m == 0 || m % 64 != 0 { return Err(Malformed); }
    if m > MAX_BITS { return Err(Malformed); }
    if k == 0 { return Err(Malformed); }
    if |raw| != m / 8 { return Err(Malformed); }
    p := Ok(Bitset(m, k, raw));
  }

  /** The key loop of Decode. */
  method DecodeKeys(body: seq<byte>, count: nat) returns (keys: seq<u64>)
    requires |body| == 8 * count
    ensures keys == ReadKeys(body, count)
  {
    var a := new u64[count](_ => 0);
    var i := 0;
    while i < count
      invariant i <= count && forall j :: 0 <= j < i ==> a[j] == ReadKey(body, j)
    {
      a[i] := ReadKey(body, i);
      i := i + 1;
    }
    keys := a[..];
  }
}
