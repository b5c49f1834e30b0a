/** What filter keys are derived from (internal/hintfilter/key.go), the chain-address
    form they share with internal/ens, and the index filter (index.go, FromIndex). */
module Keys {
  import opened Bytes
  import opened Filters
  import opened Codec

  type address = a: seq<byte> | |a| == 20
    witness [0, 0, 0, 0, 0, 0, 0, 0, 0, 0, 0, 0, 0, 0, 0, 0, 0, 0, 0, 0]

  // ---------------------------------------------------------------- ERC-7930

  /** A chain id in as few big-endian bytes as it takes; zero takes one. */
  function Minimal(c: nat): (r: seq<byte>)
    ensures r != [] && (c != 0 ==> r[0] != 0)
  {
    if c < 256 then [c] else Minimal(c / 256) + [c % 256]
  }

  lemma {:induction false} MinimalReads(c: nat)
    ensures FromBE(Minimal(c)) == c
  {
    if c < 256 {
      assert FromBE([]) == 0 && [c][..0] == [];
    } else {
      MinimalReads(c / 256);
      assert Minimal(c)[..|Minimal(c)| - 1] == Minimal(c / 256);
    }
  }

  lemma {:induction false} MinimalLength(c: nat, w: nat)
    requires w >= 1 && c < Pow256(w)
    ensures |Minimal(c)| <= w
  {
    if c >= 256 { MinimalLength(c / 256, w - 1); }
  }

  /** Bytes without a leading zero are the minimal form of what they spell. */
  lemma {:induction false} MinimalUnique(r: seq<byte>)
    requires r != [] && (r[0] != 0 || |r| == 1)
    ensures Minimal(FromBE(r)) == r
  {
    var front, b := r[..|r| - 1], r[|r| - 1];
    assert r == front + [b];
    if front == [] {
      assert FromBE(front) == 0;
    } else {
      MinimalUnique(front);
      LeadingDigit(front);
      LastDigit(FromBE(front), b);
      assert FromBE(r) == FromBE(front) * 256 + b;
    }
  }

  lemma {:induction false} LeadingDigit(r: seq<byte>)
    requires r != [] && r[0] != 0
    ensures FromBE(r) > 0
  {
    if |r| > 1 { LeadingDigit(r[..|r| - 1]); }
  }

  /** c >> 8i. */
  function Shift(c: nat, i: nat): nat { if i == 0 then c else Shift(c, i - 1) / 256 }

  lemma {:induction false} ShiftFits(c: nat, w: nat, i: nat)
    requires i <= w && c < Pow256(w)
    ensures Shift(c, i) < Pow256(w - i)
  {
    if i > 0 { ShiftFits(c, w, i - 1); }
  }

  /** The loop of Interop7930: high byte first, leading zeros skipped. */
  method ChainReference(chainId: u64) returns (ref: seq<byte>)
    ensures ref == Minimal(chainId)
  {
    ref := [];
    var i := 8;
    Widths();
    ShiftFits(chainId, 8, 8);
    while i > 0
      invariant 0 <= i <= 8
      invariant ref == if Shift(chainId, i) == 0 then [] else Minimal(Shift(chainId, i))
    {
      i := i - 1;
      var b: byte := Shift(chainId, i) % 256;
      if |ref| > 0 || b != 0 { ref := ref + [b]; }
    }
    if |ref| == 0 { ref := [0]; }
  }

  function ChainPart(chainId: u64): seq<byte>
  {
    Widths();
    MinimalLength(chainId, 8);
    [0x00, 0x01, 0x00, 0x00, |Minimal(chainId)|] + Minimal(chainId)
  }

  function Interop7930(chainId: u64, a: address): seq<byte>
  {
    ChainPart(chainId) + [20] + a
  }

  /** The preimage names one chain and one contract. */
  lemma InteropInjective(c1: u64, a1: address, c2: u64, a2: address)
    requires Interop7930(c1, a1) == Interop7930(c2, a2)
    ensures c1 == c2 && a1 == a2
  {
    var s, t := Interop7930(c1, a1), Interop7930(c2, a2);
    var n := |Minimal(c1)|;
    assert s[4] == n && t[4] == |Minimal(c2)|;
    assert s[5..5 + n] == Minimal(c1) && t[5..5 + n] == Minimal(c2);
    assert s[6 + n..] == a1 && t[6 + n..] == a2;
    MinimalReads(c1);
    MinimalReads(c2);
  }

  /** ERC-7930 byte by byte: version 1, an EVM chain, the chain id in as few bytes as it
      takes, then the contract. */
  lemma InteropLayout(c: u64, a: address)
    ensures var s := Interop7930(c, a);
      && |s| >= 27 && s[0] == 0 && s[1] == 1 && s[2] == 0 && s[3] == 0
      && 1 <= s[4] <= 8 && |s| == 26 + s[4]
      && FromBE(s[5..5 + s[4]]) == c && (c != 0 ==> s[5] != 0) && (c == 0 ==> s[4] == 1)
      && s[5 + s[4]] == 20 && s[6 + s[4]..] == a
  {
    Widths();
    MinimalLength(c, 8);
    MinimalReads(c);
    InteropSlices(Minimal(c), a, Interop7930(c, a));
  }

  lemma InteropSlices(ref: seq<byte>, a: address, s: seq<byte>)
    requires 1 <= |ref| <= 8 && s == [0x00, 0x01, 0x00, 0x00, |ref|] + ref + [20] + a
    ensures |s| == 26 + |ref| && s[0] == 0 && s[1] == 1 && s[2] == 0 && s[3] == 0 && s[4] == |ref|
    ensures s[5..5 + |ref|] == ref && s[5] == ref[0] && s[5 + |ref|] == 20 && s[6 + |ref|..] == a
  {}

  // ---------------------------------------------------------------- DecodeChainID

  datatype ChainResult = Chain(id: u64) | NotAChain

  predicate ChainRecord(b: seq<byte>)
  {
    && |b| >= 6 && b[..4] == [0x00, 0x01, 0x00, 0x00]
    && 1 <= b[4] <= 8 && |b| >= 6 + b[4] && b[5 + b[4]] == 0
    && FromBE(b[5..5 + b[4]]) != 0
  }

  function ChainIdOf(b: seq<byte>): ChainResult
  {
    if !ChainRecord(b) then NotAChain
    else
      var ref := b[5..5 + b[4]];
      Widths();
      Pow256Monotone(|ref|, 8);
      Chain(FromBE(ref))
  }

  lemma NextByte(ref: seq<byte>, i: nat)
    requires i < |ref| <= 8
    ensures FromBE(ref[..i + 1]) == FromBE(ref[..i]) * 256 + ref[i] < TWO64
    ensures FromBE(ref[..i]) * 256 % TWO64 == FromBE(ref[..i]) * 256
  {
    assert ref[..i + 1][..i] == ref[..i];
    Widths();
    Pow256Monotone(i + 1, 8);
  }

  /** DecodeChainID, with its shift-and-or loop in uint64. */
  method DecodeChainID(b: seq<byte>) returns (r: ChainResult)
    ensures r == ChainIdOf(b)
  {
    if |b| < 6 || b[0] != 0x00 || b[1] != 0x01 || b[2] != 0x00 || b[3] != 0x00 { return NotAChain; }
    var refLen := b[4];
    if refLen == 0 || refLen > 8 || |b| < 5 + refLen + 1 { return NotAChain; }
    var ref, id, i := b[5..5 + refLen], 0, 0;
    Widths();
    while i < |ref|
      invariant i <= |ref| && id == FromBE(ref[..i]) < TWO64
    {
      NextByte(ref, i);
      id := id * 256 % TWO64 + ref[i];
      i := i + 1;
    }
    assert ref[..|ref|] == ref;
    if b[5 + refLen] != 0 || id == 0 { return NotAChain; }
    r := Chain(id);
  }

  /** Exactly which records name a chain: version 1, EVM, a reference of one to eight bytes,
      not all zero, and a zero-length account; and which chain that is. */
  lemma ChainIdExactly(b: seq<byte>)
    ensures ChainIdOf(b).Chain? <==>
      && |b| >= 6 && b[0] == 0 && b[1] == 1 && b[2] == 0 && b[3] == 0
      && 1 <= b[4] <= 8 && |b| >= 6 + b[4] && b[5 + b[4]] == 0
      && exists j :: 5 <= j < 5 + b[4] && b[j] != 0
    ensures ChainIdOf(b).Chain? ==> ChainIdOf(b).id == FromBE(b[5..5 + b[4]])
  {
    if |b| >= 6 {
      var n: int := b[4];
      if |b| >= 5 + n { NonZeroWithin(b, 5, n); }
    }
  }

  lemma NonZeroWithin(b: seq<byte>, o: int, n: int)
    requires 0 <= o && 0 <= n && o + n <= |b|
    ensures FromBE(b[o..o + n]) != 0 <==> exists j :: o <= j < o + n && b[j] != 0
  {
    var ref := b[o..o + n];
    NonZero(ref);
    assert forall j :: 0 <= j < |ref| ==> ref[j] == b[o + j];
    assert forall j :: o <= j < o + n ==> b[j] == ref[j - o];
  }

  lemma {:induction false} NonZero(r: seq<byte>)
    ensures FromBE(r) != 0 <==> exists j :: 0 <= j < |r| && r[j] != 0
  {
    if r != [] {
      NonZero(r[..|r| - 1]);
      assert r == r[..|r| - 1] + [r[|r| - 1]];
    }
  }

  /** The chain part of any contract's address, closed with an empty account, decodes
      back to its chain, for every chain id but the one that is no chain. */
  lemma ChainPartDecodes(chainId: u64, a: address)
    ensures var n := |ChainPart(chainId)|;
      ChainIdOf(Interop7930(chainId, a)[..n] + [0]) == if chainId == 0 then NotAChain else Chain(chainId)
  {
    var part := ChainPart(chainId);
    assert Interop7930(chainId, a)[..|part|] == part;
    var b := part + [0];
    assert b[..4] == [0x00, 0x01, 0x00, 0x00];
    assert b[4] == |Minimal(chainId)| <= 8 by { Widths(); MinimalLength(chainId, 8); }
    assert b[5..5 + b[4]] == Minimal(chainId) && b[5 + b[4]] == 0;
    MinimalReads(chainId);
  }

  /** An accepted record is the canonical one exactly when its reference has no leading
      zero and nothing follows the empty account. */
  lemma RecordCanonicalIff(b: seq<byte>)
    requires ChainIdOf(b).Chain?
    ensures ChainPart(ChainIdOf(b).id) + [0] == b <==> b[5] != 0 && |b| == 6 + b[4]
  {
    var ref := b[5..5 + b[4]];
    var part := ChainPart(FromBE(ref));
    if b[5] != 0 {
      MinimalUnique(ref);
      PartIsFront(b, ref);
      if |b| == 6 + b[4] { assert b == b[..5 + b[4]] + [0]; }
    } else {
      assert (part + [0])[5] == Minimal(FromBE(ref))[0] != 0;
    }
  }

  lemma PartIsFront(b: seq<byte>, ref: seq<byte>)
    requires ChainRecord(b) && ref == b[5..5 + b[4]] && Minimal(FromBE(ref)) == ref && FromBE(ref) < TWO64
    ensures ChainPart(FromBE(ref)) == b[..5 + b[4]]
  {
    var head: seq<byte> := [0x00, 0x01, 0x00, 0x00, |ref|];
    assert b[..5] == b[..4] + [b[4]];
    assert b[..5] == head;
    assert b[..5 + b[4]] == b[..5] + ref;
  }

  // ---------------------------------------------------------------- subkeys and keys

  /** "evmscan/xorf/v1" */
  const DOMAIN: seq<byte> :=
    [0x65, 0x76, 0x6d, 0x73, 0x63, 0x61, 0x6e, 0x2f, 0x78, 0x6f, 0x72, 0x66, 0x2f, 0x76, 0x31]
  const KIND_ACCOUNT_TOKEN: byte := 2

  function SubkeyPreimage(secret: seq<byte>, chainId: u64, kind: byte): seq<byte>
  {
    secret + (DOMAIN + BE(chainId, 8) + [kind])
  }

  /** Secrets of any length, chains and kinds never share a subkey preimage. */
  lemma SubkeyPreimageInjective(s1: seq<byte>, c1: u64, k1: byte, s2: seq<byte>, c2: u64, k2: byte)
    requires SubkeyPreimage(s1, c1, k1) == SubkeyPreimage(s2, c2, k2)
    ensures s1 == s2 && c1 == c2 && k1 == k2
  {
    var t1, t2 := DOMAIN + BE(c1, 8) + [k1], DOMAIN + BE(c2, 8) + [k2];
    var p, q := SubkeyPreimage(s1, c1, k1), SubkeyPreimage(s2, c2, k2);
    assert |s1| == |s2|;
    assert p[..|s1|] == s1 && q[..|s1|] == s2 && p[|s1|..] == t1 && q[|s1|..] == t2;
    assert t1[15..23] == BE(c1, 8) && t2[15..23] == BE(c2, 8) && t1[23] == k1 && t2[23] == k2;
    Widths();
    ReadWritten(c1, 8);
    ReadWritten(c2, 8);
  }

  /** The subkey preimage, byte by byte: the secret, the domain, the chain, the kind. */
  lemma SubkeyLayout(secret: seq<byte>, chainId: u64, kind: byte)
    ensures var s, n := SubkeyPreimage(secret, chainId, kind), |secret|;
      && |s| == n + 24 && s[..n] == secret && s[n..n + 15] == OfString("evmscan/xorf/v1")
      && FromBE(s[n + 15..n + 23]) == chainId && s[n + 23] == kind
  {
    var s, n := SubkeyPreimage(secret, chainId, kind), |secret|;
    assert DOMAIN == OfString("evmscan/xorf/v1");
    assert s[n..n + 15] == DOMAIN && s[n + 15..n + 23] == BE(chainId, 8);
    Widths();
    ReadWritten(chainId, 8);
  }

  /** keccak256, whatever it computes: thirty-two bytes of each input. */
  type Hash = seq<byte> -> seq<byte>

  ghost predicate IsHash(h: Hash) { forall s :: |h(s)| == 32 }

  function PairKey(h: Hash, subkey: seq<byte>, account: address, token: address): u64
    requires |h(subkey + account + token)| == 32
  {
    Widths();
    FromBE(h(subkey + account + token)[..8])
  }

  /** A key is the first eight bytes of the hash of subkey, account and token, in that order. */
  lemma PairKeyIs(h: Hash, subkey: seq<byte>, account: address, token: address)
    requires |h(subkey + account + token)| == 32
    ensures BE(PairKey(h, subkey, account, token), 8) == h(subkey + account + token)[..8]
  {
    WriteRead(h(subkey + account + token)[..8]);
  }

  // ---------------------------------------------------------------- FromIndex

  datatype AccountAssets = AccountAssets(account: address, assets: seq<address>)

  ghost predicate HasPair(sets: seq<AccountAssets>, account: address, token: address)
  {
    exists i :: 0 <= i < |sets| && sets[i].account == account && token in sets[i].assets
  }

  function SetKeys(h: Hash, sub: seq<byte>, account: address, assets: seq<address>): seq<u64>
    requires IsHash(h)
  {
    if assets == [] then []
    else SetKeys(h, sub, account, assets[..|assets| - 1]) + [PairKey(h, sub, account, assets[|assets| - 1])]
  }

  function IndexKeys(h: Hash, sub: seq<byte>, sets: seq<AccountAssets>): seq<u64>
    requires IsHash(h)
  {
    if sets == [] then []
    else
      var last := sets[|sets| - 1];
      IndexKeys(h, sub, sets[..|sets| - 1]) + SetKeys(h, sub, last.account, last.assets)
  }

  lemma {:induction false} SetKeysMembers(h: Hash, sub: seq<byte>, account: address, assets: seq<address>, x: u64)
    requires IsHash(h)
    ensures x in SetKeys(h, sub, account, assets) <==>
              exists t: address :: t in assets && PairKey(h, sub, account, t) == x
  {
    if assets != [] {
      var rest, a := assets[..|assets| - 1], assets[|assets| - 1];
      SetKeysMembers(h, sub, account, rest, x);
      assert assets == rest + [a];
    }
  }

  /** The keys are the hashes of the pairs, nothing more and nothing less. */
  lemma {:induction false} IndexKeysMembers(h: Hash, sub: seq<byte>, sets: seq<AccountAssets>, x: u64)
    requires IsHash(h)
    ensures x in IndexKeys(h, sub, sets) <==>
              exists a: address, t: address :: HasPair(sets, a, t) && PairKey(h, sub, a, t) == x
  {
    if sets != [] {
      var rest, s := sets[..|sets| - 1], sets[|sets| - 1];
      IndexKeysMembers(h, sub, rest, x);
      SetKeysMembers(h, sub, s.account, s.assets, x);
      assert sets == rest + [s];
      forall a: address, t: address
        ensures HasPair(sets, a, t) <==> HasPair(rest, a, t) || (a == s.account && t in s.assets)
      {
        PairsOneMore(rest, s, a, t);
      }
    }
  }

  lemma PairsOneMore(rest: seq<AccountAssets>, s: AccountAssets, a: address, t: address)
    ensures HasPair(rest + [s], a, t) <==> HasPair(rest, a, t) || (a == s.account && t in s.assets)
  {
    var sets := rest + [s];
    if HasPair(rest, a, t) {
      var i :| 0 <= i < |rest| && rest[i].account == a && t in rest[i].assets;
      assert sets[i] == rest[i];
    }
    assert sets[|rest|] == s;
  }

  /** What FromIndex publishes: the filter and its bytes. (The manifest's timestamp is
      the one thing about a build that is not a function of the index.) */
  function Indexed(lib: Library, h: Hash, chainId: u64, sets: seq<AccountAssets>, toBlock: u64, room: nat):
    Result<(Filter, seq<byte>)>
    requires IsHash(h) && |IndexKeys(h, h(SubkeyPreimage([], chainId, KIND_ACCOUNT_TOKEN)), sets)| < TWO64
  {
    if sets == [] then Err(Empty)
    else
      var keys := IndexKeys(h, h(SubkeyPreimage([], chainId, KIND_ACCOUNT_TOKEN)), sets);
      match Built(lib, keys, AUTO, Meta(false, chainId, KIND_ACCOUNT_TOKEN, -1, toBlock, 0, []))
      case Err(e) => Err(e)
      case Ok(f) =>
        match Encoded(f, room)
        case Err(e) => Err(e)
        case Ok(b) => Ok((f, b))
  }

  /** A rebuilt index filter can be compared with a committed digest: two snapshots with
      the same (account, asset) pairs publish the same filter and the same bytes,
      whatever the order, grouping and repetition of accounts and assets. */
  lemma IndexedOfPairs(
    lib: Library, h: Hash, chainId: u64, a: seq<AccountAssets>, b: seq<AccountAssets>, toBlock: u64,
    room: nat)
    requires IsHash(h)
    requires |IndexKeys(h, h(SubkeyPreimage([], chainId, KIND_ACCOUNT_TOKEN)), a)| < TWO64
    requires |IndexKeys(h, h(SubkeyPreimage([], chainId, KIND_ACCOUNT_TOKEN)), b)| < TWO64
    requires forall x: address, t: address :: HasPair(a, x, t) <==> HasPair(b, x, t)
    ensures Indexed(lib, h, chainId, a, toBlock, room) == Indexed(lib, h, chainId, b, toBlock, room)
  {
    var sub := h(SubkeyPreimage([], chainId, KIND_ACCOUNT_TOKEN));
    var ka, kb := IndexKeys(h, sub, a), IndexKeys(h, sub, b);
    forall x: u64 ensures x in ka <==> x in kb {
      IndexKeysMembers(h, sub, a, x);
      IndexKeysMembers(h, sub, b, x);
    }
    BuiltOfSet(lib, ka, kb, AUTO, Meta(false, chainId, KIND_ACCOUNT_TOKEN, -1, toBlock, 0, []));
    assert a == [] ==> ka == [];
    assert b == [] ==> kb == [];
  }

  /** The subkey of a chain's index: no secret, kind 2. */
  function IndexSubkey(h: Hash, chainId: u64): seq<byte>
  {
    h(OfString("evmscan/xorf/v1") + BE(chainId, 8) + [2])
  }

  lemma IndexSubkeyIs(h: Hash, chainId: u64)
    ensures h(SubkeyPreimage([], chainId, KIND_ACCOUNT_TOKEN)) == IndexSubkey(h, chainId)
  {
    assert DOMAIN == OfString("evmscan/xorf/v1");
    assert SubkeyPreimage([], chainId, KIND_ACCOUNT_TOKEN) == OfString("evmscan/xorf/v1") + BE(chainId, 8) + [2];
  }

  /** What is published: a plain filter of kind 2 for the chain and the block, in no epoch,
      that holds the key of every indexed pair, and its file; an index without pairs is
      refused as empty. */
  lemma IndexedMeaning(
    lib: Library, h: Hash, chainId: u64, sets: seq<AccountAssets>, toBlock: u64, room: nat, a: address, t: address)
    requires IsHash(h) && lib.Sound()
    requires |IndexKeys(h, h(SubkeyPreimage([], chainId, KIND_ACCOUNT_TOKEN)), sets)| < TWO64
    ensures var r := Indexed(lib, h, chainId, sets, toBlock, room);
      && (r.Ok? ==>
            && r.value.0.meta == Meta(false, chainId, 2, -1, toBlock, 0, []) && r.value.1 == Written(r.value.0)
            && Askable(r.value.0.payload)
            && (HasPair(sets, a, t) ==> Has(lib, r.value.0, PairKey(h, IndexSubkey(h, chainId), a, t))))
      && ((forall x: address, y: address :: !HasPair(sets, x, y)) ==> r == Err(Empty))
  {
    var sub := h(SubkeyPreimage([], chainId, KIND_ACCOUNT_TOKEN));
    var keys := IndexKeys(h, sub, sets);
    IndexSubkeyIs(h, chainId);
    var key := PairKey(h, sub, a, t);
    IndexKeysMembers(h, sub, sets, key);
    if Indexed(lib, h, chainId, sets, toBlock, room).Ok? {
      BuiltContains(lib, keys, AUTO, Meta(false, chainId, KIND_ACCOUNT_TOKEN, -1, toBlock, 0, []), key);
    }
    if forall x: address, y: address :: !HasPair(sets, x, y) {
      if keys != [] { IndexKeysMembers(h, sub, sets, keys[0]); assert false; }
    }
  }

  /** FromIndex: collect the keys, then Build and Encode. */
  method FromIndex(lib: Library, h: Hash, chainId: u64, sets: seq<AccountAssets>, toBlock: u64, room: nat)
    returns (r: Result<(Filter, seq<byte>)>)
    requires IsHash(h) && |IndexKeys(h, h(SubkeyPreimage([], chainId, KIND_ACCOUNT_TOKEN)), sets)| < TWO64
    ensures r == Indexed(lib, h, chainId, sets, toBlock, room)
  {
    if |sets| == 0 { return Err(Empty); }
    var sub := h(SubkeyPreimage([], chainId, KIND_ACCOUNT_TOKEN));
    var keys := CollectKeys(h, sub, sets);
    var a := new u64[|keys|](n requires 0 <= n < |keys| => keys[n]);
    assert a[..] == keys;
    var f := Build(lib, a, AUTO, Meta(false, chainId, KIND_ACCOUNT_TOKEN, -1, toBlock, 0, []));
    if f.Err? { return Err(f.why); }
    var e := Encode(f.value, room);
    if e.Err? { return Err(e.why); }
    r := Ok((f.value, e.value));
  }

  /** The append loop over accounts and assets. */
  method CollectKeys(h: Hash, sub: seq<byte>, sets: seq<AccountAssets>) returns (keys: seq<u64>)
    requires IsHash(h)
    ensures keys == IndexKeys(h, sub, sets)
  {
    keys := [];
    for i := 0 to |sets|
      invariant keys == IndexKeys(h, sub, sets[..i])
    {
      keys := AppendSet(keys, h, sub, sets[i].account, sets[i].assets);
      assert sets[..i + 1][..i] == sets[..i];
    }
    assert sets[..|sets|] == sets;
  }

  /** Its inner loop. */
  method AppendSet(start: seq<u64>, h: Hash, sub: seq<byte>, account: address, assets: seq<address>)
    returns (keys: seq<u64>)
    requires IsHash(h)
    ensures keys == start + SetKeys(h, sub, account, assets)
  {
    keys := start;
    for j := 0 to |assets|
      invariant keys == start + SetKeys(h, sub, account, assets[..j])
    {
      assert assets[..j + 1][..j] == assets[..j];
      keys := keys + [PairKey(h, sub, account, assets[j])];
    }
    assert assets[..|assets|] == assets;
  }
}
