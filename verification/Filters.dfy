/** Membership filters over 64-bit keys (internal/hintfilter/filter.go): Build and Contains. */
module Filters {
  import opened Bytes
  import opened Bloom
  import opened Sorting

  datatype Result<T> = Ok(value: T) | Err(why: Problem)
  datatype Problem =
    | Empty | BadBloomSize | FuseFailed | UnknownStructure  // Build
    | DescTooLong                                           // Encode
    | Malformed                                             // Decode
    | Panics                                                // a make the runtime refuses

  /** The Structure codes. Zero asks Build to choose. */
  const AUTO: byte := 0
  const FUSE8: byte := 1
  const SORTED: byte := 2
  const BLOOM: byte := 3
  const AUTO_MAX: nat := 4096  // autoStructureMax

  /** A binary-fuse8 filter as its library exposes it. */
  datatype Fuse = Fuse(
    seed: nat, segmentLength: nat, segmentLengthMask: nat, segmentCount: nat,
    segmentCountLength: nat, fingerprints: seq<byte>)

  predicate FuseFits(f: Fuse)
  {
    && f.seed < TWO64 && f.segmentLength < TWO32 && f.segmentLengthMask < TWO32
    && f.segmentCount < TWO32 && f.segmentCountLength < TWO32 && |f.fingerprints| < TWO32
  }

  /** Code this package calls and does not define: the floating-point sizing rules and
      the fuse8 library, each a deterministic function. */
  datatype Library = Library(
    bloomBits: nat -> nat,
    bloomK: (nat, nat) -> nat,
    fuse: seq<u64> -> Result<Fuse>,
    fuseHas: (Fuse, u64) -> bool)
  {
    /** The clamps the sizing rules state, and no false negatives from the fuse filter. */
    ghost predicate Sound()
    {
      && (forall n :: GoodSize(bloomBits(n)))
      && (forall m, n :: 1 <= bloomK(m, n) <= 24)
      && (forall keys :: fuse(keys).Ok? ==> FuseFits(fuse(keys).value))
      && (forall keys, key :: fuse(keys).Ok? && key in keys ==> fuseHas(fuse(keys).value, key))
    }
  }

  /** Meta without Structure, which the payload already shows. */
  datatype Meta = Meta(
    blinded: bool, chainId: u64, kind: byte, epochId: int, toBlock: u64, bloomBits: nat, desc: seq<byte>)

  datatype Payload =
    | Keys(keys: seq<u64>)
    | Bitset(m: nat, k: nat, bits: seq<byte>)
    | Fuse8(fuse: Fuse)

  datatype Filter = Filter(meta: Meta, count: u64, payload: Payload)

  predicate Lt(a: u64, b: u64) { a < b }

  lemma LtTotal()
    ensures StrictTotalOrder(Lt)
  {}

  // ---------------------------------------------------------------- Build

  function Choose(structure: byte, count: nat): byte
  {
    if structure == AUTO then (if count <= AUTO_MAX then SORTED else FUSE8) else structure
  }

  function MakePayload(lib: Library, keys: seq<u64>, structure: byte, bloomBits: nat): Result<Payload>
  {
    var s := Choose(structure, |keys|);
    if s == SORTED then Ok(Keys(keys))
    else if s == BLOOM then
      var m := if bloomBits == 0 then lib.bloomBits(|keys|) else bloomBits;
      var k := lib.bloomK(m, |keys|);
      if GoodSize(m) then Ok(Bitset(m, k, Bitmap(keys, k, m))) else Err(BadBloomSize)
    else if s == FUSE8 then
      (match lib.fuse(keys) case Ok(f) => Ok(Fuse8(f)) case Err(_) => Err(FuseFailed))
    else Err(UnknownStructure)
  }

  /** What Build returns for a list of keys: everything hangs on their canonical list. */
  function Built(lib: Library, keys: seq<u64>, structure: byte, meta: Meta): Result<Filter>
    requires |keys| < TWO64
  {
    if keys == [] then Err(Empty)
    else
      var canon := Canonical(keys, Lt);
      CanonicalShort(keys);
      match MakePayload(lib, canon, structure, meta.bloomBits)
      case Err(e) => Err(e)
      case Ok(p) => Ok(Filter(meta, |canon|, p))
  }

  lemma CanonicalShort(keys: seq<u64>)
    ensures |Canonical(keys, Lt)| <= |keys|
  {}

  /** Build is a function of the set of keys. */
  lemma BuiltOfSet(lib: Library, a: seq<u64>, b: seq<u64>, structure: byte, meta: Meta)
    requires |a| < TWO64 && |b| < TWO64
    requires forall x :: x in a <==> x in b
    ensures Built(lib, a, structure, meta) == Built(lib, b, structure, meta)
  {
    LtTotal();
    CanonicalOfSet(a, b, Lt);
    if a == [] {
      if b != [] { Inhabited(b); assert false; }
    } else {
      assert a[0] in b;
    }
  }

  // ---------------------------------------------------------------- how many keys

  ghost function Elements(s: seq<u64>): set<u64> { set x | x in s }

  lemma {:induction false} SizeOfSet(s: seq<u64>)
    requires NoRepeats(s)
    ensures |Elements(s)| == |s|
  {
    if s != [] {
      var t, x := s[..|s| - 1], s[|s| - 1];
      SizeOfSet(t);
      assert x !in t;
      assert s == t + [x];
      assert Elements(s) == Elements(t) + {x};
    }
  }

  lemma CanonicalCount(keys: seq<u64>)
    ensures |Canonical(keys, Lt)| == |Elements(keys)|
    ensures NoRepeats(Canonical(keys, Lt)) && Elements(Canonical(keys, Lt)) == Elements(keys)
  {
    LtTotal();
    CanonicalCorrect(keys, Lt);
    var b := Canonical(keys, Lt);
    forall i, j | 0 <= i < j < |b| ensures b[i] != b[j] { assert Lt(b[i], b[j]); }
    SizeOfSet(b);
    assert Elements(b) == Elements(keys);
  }

  /** What a structure code asks for: 2 the sorted list, 3 a Bloom bitmap of the size asked
      for or else of the size the sizing rule gives the distinct keys, 1 fuse8; 0 the sorted
      list up to 4096 distinct keys and fuse8 beyond; any other code is refused. The filter
      counts the distinct keys. */
  lemma BuiltShape(lib: Library, keys: seq<u64>, structure: byte, meta: Meta)
    requires |keys| < TWO64
    ensures var r, n := Built(lib, keys, structure, meta), |Elements(keys)|;
      && (keys == [] <==> r == Err(Empty))
      && (r.Ok? ==> r.value.count == n && r.value.meta == meta)
      && (r.Ok? && r.value.payload.Keys? <==> keys != [] && (structure == 2 || (structure == 0 && n <= 4096)))
      && (r.Ok? && r.value.payload.Fuse8? ==> structure == 1 || (structure == 0 && n > 4096))
      && (r.Ok? && r.value.payload.Bitset? ==> structure == 3)
      && (keys != [] && structure > 3 <==> r == Err(UnknownStructure))
      && (keys != [] && structure == 3 ==>
            var m := if meta.bloomBits == 0 then lib.bloomBits(n) else meta.bloomBits;
            if m > 0 && m % 64 == 0 && m <= 8388608
            then r.Ok? && r.value.payload.Bitset? && r.value.payload.m == m && r.value.payload.k == lib.bloomK(m, n)
            else r == Err(BadBloomSize))
      && (keys != [] && (structure == 1 || (structure == 0 && n > 4096)) ==>
            if lib.fuse(Canonical(keys, Lt)).Ok? then r.Ok? && r.value.payload == Fuse8(lib.fuse(Canonical(keys, Lt)).value)
            else r == Err(FuseFailed))
  {
    CanonicalCount(keys);
  }

  /** The effect of sort.Slice on a slice of keys. */
  method SortKeys(a: array<u64>)
    modifies a
    ensures a[..] == StableSort(old(a[..]), Lt)
  {
    var s := StableSort(a[..], Lt);
    forall i | 0 <= i < a.Length { a[i] := s[i]; }
    assert a[..] == s;
  }

  /** The compaction loop: keep each key that differs from the last one kept. */
  method Compact(keys: array<u64>) returns (n: nat)
    modifies keys
    ensures n <= keys.Length
    ensures keys[..n] == Dedupe(old(keys[..]))
  {
    n := 0;
    var i := 0;
    ghost var was := keys[..];
    while i < keys.Length
      invariant n <= i <= keys.Length
      invariant forall j :: i <= j < keys.Length ==> keys[j] == was[j]
      invariant keys[..n] == Dedupe(was[..i])
    {
      var k := keys[i];
      DedupeStep(was, i);
      assert i > 0 ==> keys[..n][n - 1] == was[i - 1];
      if i == 0 || k != keys[n - 1] {
        ghost var kept := keys[..n];
        keys[n] := k;
        assert keys[..n + 1] == kept + [k];
        n := n + 1;
      }
      i := i + 1;
    }
    assert was[..i] == was;
  }

  /** Build: sorts and compacts the caller's slice in place, then picks a structure. */
  method Build(lib: Library, keys: array<u64>, structure: byte, meta: Meta) returns (r: Result<Filter>)
    requires keys.Length < TWO64
    modifies keys
    ensures r == Built(lib, old(keys[..]), structure, meta)
  {
    if keys.Length == 0 { return Err(Empty); }
    ghost var given := keys[..];
    SortKeys(keys);
    var n := Compact(keys);
    var canon := keys[..n];
    assert canon == Canonical(given, Lt);
    var s := Choose(structure, |canon|);
    var p: Payload;
    if s == SORTED {
      p := Keys(canon);
    } else if s == BLOOM {
      var m := if meta.bloomBits == 0 then lib.bloomBits(|canon|) else meta.bloomBits;
      var k := lib.bloomK(m, |canon|);
      var ok, bits := NewBloom(canon, m, k);
      if !ok { return Err(BadBloomSize); }
      p := Bitset(m, k, bits);
    } else if s == FUSE8 {
      var fuse := lib.fuse(canon);
      if fuse.Err? { return Err(FuseFailed); }
      p := Fuse8(fuse.value);
    } else {
      return Err(UnknownStructure);
    }
    r := Ok(Filter(meta, |canon|, p));
  }

  // ---------------------------------------------------------------- Contains

  /** A payload Contains can be asked about. */
  predicate Askable(p: Payload)
  {
    p.Bitset? ==> 0 < p.m <= 8 * |p.bits|
  }

  predicate Has(lib: Library, f: Filter, key: u64)
    requires Askable(f.payload)
  {
    match f.payload
    case Keys(keys) => key in keys
    case Bitset(m, k, bits) => Member(bits, key, k, m)
    case Fuse8(fuse) => lib.fuseHas(fuse, key)
  }

  /** sort.Search for the first key at or above the one asked for. */
  method Search(keys: seq<u64>, key: u64) returns (at: nat)
    ensures at <= |keys|
    ensures Ascending(keys, Lt) ==>
      (forall i :: 0 <= i < at ==> keys[i] < key) && (forall i :: at <= i < |keys| ==> keys[i] >= key)
  {
    var i, j := 0, |keys|;
    while i < j
      invariant 0 <= i <= j <= |keys|
      invariant Ascending(keys, Lt) ==>
        (forall x :: 0 <= x < i ==> keys[x] < key) && (forall x :: j <= x < |keys| ==> keys[x] >= key)
    {
      var h := (i + j) / 2;
      assert Ascending(keys, Lt) ==> forall x :: 0 <= x < h ==> Lt(keys[x], keys[h]);
      assert Ascending(keys, Lt) ==> forall x :: h < x < |keys| ==> Lt(keys[h], keys[x]);
      if keys[h] < key { i := h + 1; } else { j := h; }
    }
    at := i;
  }

  /** Contains. On an ascending key list, which is what Build leaves, it is exact. */
  method Contains(lib: Library, f: Filter, key: u64) returns (yes: bool)
    requires Askable(f.payload)
    ensures (f.payload.Keys? ==> Ascending(f.payload.keys, Lt)) ==> (yes <==> Has(lib, f, key))
    ensures yes ==> Has(lib, f, key)
  {
    match f.payload
    case Keys(keys) =>
      var at := Search(keys, key);
      yes := at < |keys| && keys[at] == key;
    case Bitset(m, k, bits) =>
      var i := 0;
      while i < k
        invariant i <= k && forall j: nat :: j < i ==> Bits.BitSet(bits, Probe(key, j, m))
      {
        if !Bits.BitSet(bits, Probe(key, i, m)) { return false; }
        i := i + 1;
      }
      yes := true;
    case Fuse8(fuse) => yes := lib.fuseHas(fuse, key);
  }

  lemma PayloadHas(lib: Library, keys: seq<u64>, structure: byte, bloomBits: nat, key: u64)
    requires lib.Sound() && MakePayload(lib, keys, structure, bloomBits).Ok? && key in keys
    ensures var p := MakePayload(lib, keys, structure, bloomBits).value;
      Askable(p) && forall meta, count :: Has(lib, Filter(meta, count, p), key)
  {
    var p := MakePayload(lib, keys, structure, bloomBits).value;
    if p.Bitset? { KeysAreMembers(keys, key, p.k, p.m); }
  }

  /** No false negatives, and an exact answer from the sorted structure. */
  lemma BuiltContains(lib: Library, keys: seq<u64>, structure: byte, meta: Meta, key: u64)
    requires |keys| < TWO64 && lib.Sound() && Built(lib, keys, structure, meta).Ok?
    ensures var f := Built(lib, keys, structure, meta).value;
      && Askable(f.payload)
      && (key in keys ==> Has(lib, f, key))
      && (f.payload.Keys? ==> Ascending(f.payload.keys, Lt) && (Has(lib, f, key) <==> key in keys))
  {
    LtTotal();
    CanonicalCorrect(keys, Lt);
    var canon := Canonical(keys, Lt);
    assert keys[0] in canon;
    PayloadHas(lib, canon, structure, meta.bloomBits, keys[0]);
    if key in keys { PayloadHas(lib, canon, structure, meta.bloomBits, key); }
  }
}
