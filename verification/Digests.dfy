/** The byte strings signed and hashed for verdicts (internal/api/verdictsig.go) and for
    asset commitments (internal/api/assetsig.go): sort, then serialise. */
module Digests {
  import opened Bytes
  import opened Sorting
  import opened Keys
  import opened Contracts

  // ---------------------------------------------------------------- fixed-width records

  function Flat(records: seq<seq<byte>>): seq<byte>
  {
    if records == [] then [] else Flat(records[..|records| - 1]) + records[|records| - 1]
  }

  ghost predicate Wide(records: seq<seq<byte>>, w: nat)
  {
    forall i :: 0 <= i < |records| ==> |records[i]| == w
  }

  lemma {:induction false} FlatLength(records: seq<seq<byte>>, w: nat)
    requires Wide(records, w)
    ensures |Flat(records)| == |records| * w
  {
    if records != [] {
      var n := |records|;
      FlatLength(records[..n - 1], w);
      assert n * w == (n - 1) * w + w;
    }
  }

  /** Records of one positive width can be told apart in the concatenation. */
  lemma {:induction false} FlatInjective(a: seq<seq<byte>>, b: seq<seq<byte>>, w: nat)
    requires w > 0 && Wide(a, w) && Wide(b, w) && Flat(a) == Flat(b)
    ensures a == b
  {
    FlatLength(a, w);
    FlatLength(b, w);
    SameCount(|a|, |b|, w);
    if a != [] {
      var s, t, x, y := a[..|a| - 1], b[..|b| - 1], a[|a| - 1], b[|b| - 1];
      FlatLength(s, w);
      FlatLength(t, w);
      assert Flat(a)[..|Flat(s)|] == Flat(s) && Flat(b)[..|Flat(s)|] == Flat(t);
      assert Flat(a)[|Flat(s)|..] == x && Flat(b)[|Flat(s)|..] == y;
      FlatInjective(s, t, w);
      assert a == s + [x] && b == t + [y];
    }
  }

  lemma SameCount(m: nat, n: nat, w: nat)
    requires w > 0 && m * w == n * w
    ensures m == n
  {
    assert (m - n) * w == 0;
  }

  /** Record i lies where the records before it end. */
  lemma {:induction false} FlatAt(records: seq<seq<byte>>, w: nat, i: nat)
    requires Wide(records, w) && i < |records|
    ensures var o := |Flat(records[..i])|;
      o + w <= |Flat(records)| && Flat(records)[o..o + w] == records[i]
  {
    var front, n := records[..|records| - 1], |records| - 1;
    if i < n {
      FlatAt(front, w, i);
      assert front[..i] == records[..i] && front[i] == records[i];
      InFront(Flat(front), records[n], |Flat(front[..i])|, w);
    } else {
      AtEnd(Flat(front), records[n]);
    }
  }

  lemma InFront(a: seq<byte>, b: seq<byte>, o: nat, w: nat)
    requires o + w <= |a|
    ensures (a + b)[o..o + w] == a[o..o + w]
  {}

  lemma AtEnd(a: seq<byte>, b: seq<byte>)
    ensures (a + b)[|a|..|a| + |b|] == b
  {}

  // ---------------------------------------------------------------- verdicts

  type int8 = w: int | -128 <= w < 128

  datatype Verdict = Verdict(addr: address, weight: int8)

  predicate ByAddress(v: Verdict, w: Verdict) { Below(v.addr, w.addr) }

  predicate ByBoth(v: Verdict, w: Verdict)
  {
    Below(v.addr, w.addr) || (v.addr == w.addr && v.weight < w.weight)
  }

  lemma VerdictOrders()
    ensures StrictWeakOrder(ByAddress) && StrictTotalOrder(ByBoth)
    ensures forall v, w :: Ties(ByAddress, v, w) <==> v.addr == w.addr
  {
    BelowTotal();
  }

  /** The address and the weight as a two's-complement byte. */
  function Record(v: Verdict): seq<byte> { v.addr + [v.weight % 256] }

  function Records(vs: seq<Verdict>): (r: seq<seq<byte>>)
    ensures |r| == |vs| && forall i :: 0 <= i < |r| ==> r[i] == Record(vs[i])
  {
    seq(|vs|, i requires 0 <= i < |vs| => Record(vs[i]))
  }

  /** What verdictDigest hashes. */
  function VerdictPreimage(pairs: seq<Verdict>): seq<byte>
  {
    Flat(Records(StableSort(pairs, ByAddress)))
  }

  method VerdictBuffer(pairs: seq<Verdict>) returns (buf: seq<byte>)
    ensures buf == VerdictPreimage(pairs)
  {
    var sorted := StableSort(pairs, ByAddress);
    buf := [];
    for i := 0 to |sorted|
      invariant buf == Flat(Records(sorted)[..i])
    {
      assert Records(sorted)[..i + 1][..i] == Records(sorted)[..i];
      buf := buf + Record(sorted[i]);
    }
    assert Records(sorted)[..|sorted|] == Records(sorted);
  }

  lemma RecordInjective(v: Verdict, w: Verdict)
    requires Record(v) == Record(w)
    ensures v == w
  {
    assert Record(v)[..20] == v.addr && Record(w)[..20] == w.addr;
    assert Record(v)[20] == v.weight % 256 && Record(w)[20] == w.weight % 256;
  }

  lemma RecordsInjective(a: seq<Verdict>, b: seq<Verdict>)
    ensures Flat(Records(a)) == Flat(Records(b)) ==> a == b
  {
    if Flat(Records(a)) == Flat(Records(b)) {
      FlatInjective(Records(a), Records(b), 21);
      assert |a| == |b|;
      forall i | 0 <= i < |a| ensures a[i] == b[i] {
        assert Records(a)[i] == Records(b)[i];
        RecordInjective(a[i], b[i]);
      }
    }
  }

  /** The preimage determines the verdicts up to order, whatever the list. */
  lemma PreimageDetermines(p: seq<Verdict>, q: seq<Verdict>)
    ensures VerdictPreimage(p) == VerdictPreimage(q) ==> multiset(p) == multiset(q)
  {
    VerdictOrders();
    RecordsInjective(StableSort(p, ByAddress), StableSort(q, ByAddress));
    StableSortCorrect(p, ByAddress);
    StableSortCorrect(q, ByAddress);
  }

  /** No address carries two different weights. */
  ghost predicate Settled(p: seq<Verdict>)
  {
    forall v, w :: v in p && w in p && v.addr == w.addr ==> v == w
  }

  lemma SettledSortsTotally(p: seq<Verdict>)
    requires Settled(p)
    ensures Sorted(StableSort(p, ByAddress), ByBoth)
  {
    VerdictOrders();
    StableSortCorrect(p, ByAddress);
    var s := StableSort(p, ByAddress);
    forall i, j | 0 <= i < j < |s| ensures !ByBoth(s[j], s[i]) {
      assert s[i] in multiset(s) && s[j] in multiset(s);
      assert s[i] in p && s[j] in p;
      assert !ByAddress(s[j], s[i]);
    }
  }

  lemma SettledPermutes(p: seq<Verdict>, q: seq<Verdict>)
    requires Settled(p) && multiset(p) == multiset(q)
    ensures VerdictPreimage(p) == VerdictPreimage(q)
  {
    VerdictOrders();
    assert Settled(q) by {
      forall v, w | v in q && w in q && v.addr == w.addr ensures v == w {
        assert v in multiset(q) && w in multiset(q);
        assert v in p && w in p;
      }
    }
    SettledSortsTotally(p);
    SettledSortsTotally(q);
    StableSortCorrect(p, ByAddress);
    StableSortCorrect(q, ByAddress);
    TotalSortUnique(StableSort(p, ByAddress), StableSort(q, ByAddress), ByBoth);
  }

  /** Lists whose classes differ somewhere have different preimages. */
  lemma ClassesShow(p: seq<Verdict>, q: seq<Verdict>, y: Verdict)
    requires Class(p, y, ByAddress) != Class(q, y, ByAddress)
    ensures VerdictPreimage(p) != VerdictPreimage(q)
  {
    VerdictOrders();
    StableSortCorrect(p, ByAddress);
    StableSortCorrect(q, ByAddress);
    RecordsInjective(StableSort(p, ByAddress), StableSort(q, ByAddress));
  }

  lemma ToFront(p: seq<Verdict>, e: Verdict) returns (q: seq<Verdict>)
    requires e in p
    ensures multiset(q) == multiset(p) && q != [] && q[0] == e
  {
    var i :| 0 <= i < |p| && p[i] == e;
    q := [e] + (p[..i] + p[i + 1..]);
    assert p == p[..i] + [e] + p[i + 1..];
  }

  /** A conflicting entry moved to the front is a permutation with another preimage. */
  lemma ConflictShows(p: seq<Verdict>, v: Verdict, w: Verdict) returns (q: seq<Verdict>)
    requires v in p && w in p && v.addr == w.addr && v != w
    ensures multiset(q) == multiset(p) && VerdictPreimage(p) != VerdictPreimage(q)
  {
    VerdictOrders();
    ClassMembers(p, v, ByAddress);
    var first := Class(p, v, ByAddress)[0];
    var e := if first == v then w else v;
    SameClass(p, v, e);
    q := ToFront(p, e);
    assert Ties(ByAddress, e, e);
    assert Class(q, e, ByAddress)[0] == e;
    ClassesShow(p, q, e);
  }

  lemma {:induction false} SameClass(p: seq<Verdict>, v: Verdict, e: Verdict)
    requires v.addr == e.addr
    ensures Class(p, v, ByAddress) == Class(p, e, ByAddress)
  {
    if p != [] { SameClass(p[1..], v, e); }
  }

  /** Every permutation of a list signs the same digest exactly when no address in it
      carries two weights. */
  lemma OrderIrrelevantIff(p: seq<Verdict>)
    ensures (forall q :: multiset(q) == multiset(p) ==> VerdictPreimage(q) == VerdictPreimage(p))
            <==> Settled(p)
  {
    if Settled(p) {
      forall q | multiset(q) == multiset(p) ensures VerdictPreimage(q) == VerdictPreimage(p) {
        SettledPermutes(p, q);
      }
    } else {
      var v, w :| v in p && w in p && v.addr == w.addr && v != w;
      var q := ConflictShows(p, v, w);
    }
  }

  /** One address with two weights: the two orders of the list sign different digests. */
  lemma TwoWeightsDiffer(a: address)
    ensures var p, q := [Verdict(a, 1), Verdict(a, -1)], [Verdict(a, -1), Verdict(a, 1)];
      multiset(p) == multiset(q) && VerdictPreimage(p) != VerdictPreimage(q)
  {
    var up, down := Verdict(a, 1), Verdict(a, -1);
    VerdictOrders();
    assert Ties(ByAddress, up, up) && Ties(ByAddress, up, down);
    assert Class([up, down], up, ByAddress)[0] == up;
    assert Class([down, up], up, ByAddress)[0] == down;
    ClassesShow([up, down], [down, up], up);
  }

  /** On lists with distinct addresses, equal preimages are exactly permutations. */
  lemma VerdictsCanonical(p: seq<Verdict>, q: seq<Verdict>)
    requires forall i, j :: 0 <= i < j < |p| ==> p[i].addr != p[j].addr
    ensures VerdictPreimage(p) == VerdictPreimage(q) <==> multiset(p) == multiset(q)
  {
    PreimageDetermines(p, q);
    if multiset(p) == multiset(q) {
      assert Settled(p);
      SettledPermutes(p, q);
    }
  }

  /** At `o` lie twenty bytes of address and the weight in two's complement. */
  predicate VerdictAt(pre: seq<byte>, o: nat, addr: address, weight: int8)
  {
    && o + 21 <= |pre| && pre[o..o + 20] == addr
    && pre[o + 20] == (if weight >= 0 then weight else 256 + weight)
  }

  /** Where everything lies: record i is twenty-one bytes, the address of the i-th smallest
      entry and its weight, 0x01 for +1 and 0xff for -1. */
  lemma VerdictLayout(p: seq<Verdict>, i: nat)
    requires i < |p|
    ensures var v := StableSort(p, ByAddress)[i]; VerdictAt(VerdictPreimage(p), 21 * i, v.addr, v.weight)
    ensures |VerdictPreimage(p)| == 21 * |p|
    ensures StableSort(p, ByAddress)[i].weight == 1 ==> VerdictPreimage(p)[21 * i + 20] == 0x01
    ensures StableSort(p, ByAddress)[i].weight == -1 ==> VerdictPreimage(p)[21 * i + 20] == 0xff
  {
    var s := StableSort(p, ByAddress);
    RecordAt(s, i, 21 * i);
    RecordParts(Flat(Records(s)), 21 * i, s[i]);
  }

  lemma RecordAt(s: seq<Verdict>, i: nat, o: nat)
    requires i < |s| && o == 21 * i
    ensures var t := Flat(Records(s)); |t| == 21 * |s| && o + 21 <= |t| && t[o..o + 21] == Record(s[i])
  {
    RecordsWide(s);
    FlatAt(Records(s), 21, i);
    FlatLength(Records(s)[..i], 21);
    FlatLength(Records(s), 21);
  }

  lemma RecordsWide(s: seq<Verdict>)
    ensures Wide(Records(s), 21)
  {}

  lemma RecordParts(pre: seq<byte>, o: nat, v: Verdict)
    requires o + 21 <= |pre| && pre[o..o + 21] == Record(v)
    ensures VerdictAt(pre, o, v.addr, v.weight)
  {
    Within(pre, o, Record(v), 20);
    TwosComplement(v.weight);
  }

  lemma TwosComplement(w: int8)
    ensures w % 256 == if w >= 0 then w else 256 + w
  {}

  /** A part of what lies at `o` lies there too. */
  lemma Within(t: seq<byte>, o: nat, r: seq<byte>, n: nat)
    requires n < |r| && o + |r| <= |t| && t[o..o + |r|] == r
    ensures t[o..o + n] == r[..n] && t[o + n] == r[n] && t[o + n..o + |r|] == r[n..]
  {
    forall k | 0 <= k < |r| ensures t[o + k] == r[k] { assert t[o..o + |r|][k] == r[k]; }
  }

  /** The order of the records is that of the addresses as numbers. */
  lemma VerdictsAscend(p: seq<Verdict>, i: nat, j: nat)
    requires i < j < |p|
    ensures var s := StableSort(p, ByAddress); FromBE(s[i].addr) <= FromBE(s[j].addr)
  {
    VerdictOrders();
    StableSortCorrect(p, ByAddress);
    var s := StableSort(p, ByAddress);
    LessIsNumeric(s[j].addr, s[i].addr);
    assert !ByAddress(s[j], s[i]);
  }

  // ---------------------------------------------------------------- asset commitments

  datatype Item = Item(chain: u64, asset: address)

  predicate ByChain(x: Item, y: Item)
  {
    if x.chain != y.chain then x.chain < y.chain else Below(x.asset, y.asset)
  }

  lemma ByChainTotal()
    ensures StrictTotalOrder(ByChain)
  {
    BelowTotal();
  }

  function ItemRecord(x: Item): seq<byte> { BE(x.chain, 8) + x.asset }

  function ItemRecords(xs: seq<Item>): (r: seq<seq<byte>>)
    ensures |r| == |xs| && forall i :: 0 <= i < |r| ==> r[i] == ItemRecord(xs[i])
  {
    seq(|xs|, i requires 0 <= i < |xs| => ItemRecord(xs[i]))
  }

  /** What assetCommitDigest hashes. */
  function AssetPreimage(items: seq<Item>): seq<byte>
  {
    Flat(ItemRecords(StableSort(items, ByChain)))
  }

  method AssetBuffer(items: seq<Item>) returns (buf: seq<byte>)
    ensures buf == AssetPreimage(items)
  {
    var sorted := StableSort(items, ByChain);
    buf := [];
    for i := 0 to |sorted|
      invariant buf == Flat(ItemRecords(sorted)[..i])
    {
      assert ItemRecords(sorted)[..i + 1][..i] == ItemRecords(sorted)[..i];
      buf := buf + BE(sorted[i].chain, 8) + sorted[i].asset;
    }
    assert ItemRecords(sorted)[..|sorted|] == ItemRecords(sorted);
  }

  lemma ItemRecordInjective(x: Item, y: Item)
    requires ItemRecord(x) == ItemRecord(y)
    ensures x == y
  {
    assert ItemRecord(x)[..8] == BE(x.chain, 8) && ItemRecord(y)[..8] == BE(y.chain, 8);
    assert ItemRecord(x)[8..] == x.asset && ItemRecord(y)[8..] == y.asset;
    Widths();
    ReadWritten(x.chain, 8);
    ReadWritten(y.chain, 8);
  }

  /** Equal preimages are exactly permutations, for every list. */
  lemma AssetsCanonical(a: seq<Item>, b: seq<Item>)
    ensures AssetPreimage(a) == AssetPreimage(b) <==> multiset(a) == multiset(b)
  {
    ByChainTotal();
    StableSortCorrect(a, ByChain);
    StableSortCorrect(b, ByChain);
    var s, t := StableSort(a, ByChain), StableSort(b, ByChain);
    if multiset(a) == multiset(b) { TotalSortUnique(s, t, ByChain); }
    ItemRecordsInjective(s, t);
  }

  lemma ItemRecordsInjective(s: seq<Item>, t: seq<Item>)
    ensures Flat(ItemRecords(s)) == Flat(ItemRecords(t)) ==> s == t
  {
    if Flat(ItemRecords(s)) == Flat(ItemRecords(t)) {
      FlatInjective(ItemRecords(s), ItemRecords(t), 28);
      forall i | 0 <= i < |s| ensures s[i] == t[i] {
        assert ItemRecords(s)[i] == ItemRecords(t)[i];
        ItemRecordInjective(s[i], t[i]);
      }
    }
  }

  /** Where everything lies: the i-th record is twenty-eight bytes, the chain of the i-th
      smallest item as eight bytes and its contract. */
  lemma AssetLayout(a: seq<Item>, i: nat)
    requires i < |a|
    ensures var pre, x := AssetPreimage(a), StableSort(a, ByChain)[i];
      && |pre| == 28 * |a|
      && FromBE(pre[28 * i..28 * i + 8]) == x.chain && pre[28 * i + 8..28 * i + 28] == x.asset
  {
    var s := StableSort(a, ByChain);
    var o := 28 * i;
    ItemAt(s, i, o);
    ItemParts(Flat(ItemRecords(s)), o, s[i]);
  }

  lemma ItemAt(s: seq<Item>, i: nat, o: nat)
    requires i < |s| && o == 28 * i
    ensures var t := Flat(ItemRecords(s)); |t| == 28 * |s| && o + 28 <= |t| && t[o..o + 28] == ItemRecord(s[i])
  {
    ItemsWide(s);
    FlatAt(ItemRecords(s), 28, i);
    FlatLength(ItemRecords(s)[..i], 28);
    FlatLength(ItemRecords(s), 28);
  }

  lemma ItemsWide(s: seq<Item>)
    ensures Wide(ItemRecords(s), 28)
  {}

  lemma ItemParts(pre: seq<byte>, o: nat, x: Item)
    requires o + 28 <= |pre| && pre[o..o + 28] == ItemRecord(x)
    ensures FromBE(pre[o..o + 8]) == x.chain && pre[o + 8..o + 28] == x.asset
  {
    var r := ItemRecord(x);
    Within(pre, o, r, 8);
    assert r[..8] == BE(x.chain, 8) && r[8..] == x.asset;
    Widths();
    ReadWritten(x.chain, 8);
  }

  /** The order of the records is by chain, then by contract as a number. */
  lemma AssetsAscend(a: seq<Item>, i: nat, j: nat)
    requires i < j < |a|
    ensures var s := StableSort(a, ByChain);
      s[i].chain < s[j].chain || (s[i].chain == s[j].chain && FromBE(s[i].asset) <= FromBE(s[j].asset))
  {
    ByChainTotal();
    StableSortCorrect(a, ByChain);
    var s := StableSort(a, ByChain);
    LessIsNumeric(s[j].asset, s[i].asset);
    assert !ByChain(s[j], s[i]);
  }
}
