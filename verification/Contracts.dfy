/** The evmscan.contracts record: written and read in Go (internal/ens/hintname.go over
    internal/ccip/ccip.go) and in JavaScript (web/ensrec.js). */
module Contracts {
  import opened Bytes
  import opened Sorting
  import opened Text
  import opened Wrappers
  import opened Keys
  import Hex

  const COMMA: byte := 0x2c

  // ---------------------------------------------------------------- SortedUnique

  predicate Below(a: address, b: address) { Less(a, b) }

  lemma BelowTotal()
    ensures StrictTotalOrder(Below)
  {
    forall x: address, y: address ensures Below(x, y) <==> FromBE(x) < FromBE(y) { LessIsNumeric(x, y); }
    forall x: address, y: address | x != y ensures Below(x, y) || Below(y, x) {
      if FromBE(x) == FromBE(y) { FromBEInjective(x, y); assert false; }
    }
  }

  /** The compaction loop: skip each element equal to the one before it. */
  method Compact(out: array<address>) returns (n: nat)
    modifies out
    ensures n <= out.Length && out[..n] == Dedupe(old(out[..]))
  {
    n := 0;
    ghost var was := out[..];
    for i := 0 to out.Length
      invariant n <= i
      invariant forall j :: 0 <= j < out.Length && i - 1 <= j ==> out[j] == was[j]
      invariant out[..n] == Dedupe(was[..i])
    {
      DedupeStep(was, i);
      if i > 0 && out[i] == out[i - 1] { continue; }
      ghost var kept := out[..n];
      out[n] := out[i];
      assert out[..n + 1] == kept + [was[i]];
      n := n + 1;
    }
    assert was[..out.Length] == was;
  }

  /** SortedUnique: sort a copy, then compact it in place. */
  method SortedUnique(assets: seq<address>) returns (r: seq<address>)
    ensures r == Canonical(assets, Below)
  {
    var sorted := StableSort(assets, Below);
    var out := new address[|sorted|](i requires 0 <= i < |sorted| => sorted[i]);
    assert out[..] == sorted;
    var n := Compact(out);
    r := out[..n];
  }

  // ---------------------------------------------------------------- JoinContracts, SplitContracts

  /** strings.ToLower(a.Hex()). */
  function AddressText(a: address): seq<byte> { Hex.PREFIX + Hex.Encode(a) }

  function Texts(assets: seq<address>): (r: seq<seq<byte>>)
    ensures |r| == |assets| && forall i :: 0 <= i < |r| ==> r[i] == AddressText(assets[i])
  {
    seq(|assets|, i requires 0 <= i < |assets| => AddressText(assets[i]))
  }

  function Joined(assets: seq<address>): seq<byte>
  {
    Join(Texts(Canonical(assets, Below)), COMMA)
  }

  /** JoinContracts. */
  method JoinContracts(assets: seq<address>) returns (text: seq<byte>)
    ensures text == Joined(assets)
  {
    var sorted := SortedUnique(assets);
    var parts: seq<seq<byte>> := [];
    for i := 0 to |sorted|
      invariant |parts| == i && forall j :: 0 <= j < i ==> parts[j] == AddressText(sorted[j])
    {
      parts := parts + [AddressText(sorted[i])];
    }
    assert parts == Texts(sorted);
    text := Join(parts, COMMA);
  }

  function Strip(s: seq<byte>): seq<byte>
  {
    if |s| >= 2 && s[0] == 0x30 && (s[1] == 0x78 || s[1] == 0x58) then s[2..] else s
  }

  /** common.IsHexAddress: forty hex digits, with or without 0x. */
  predicate IsHexAddress(s: seq<byte>) { |Strip(s)| == 40 && Hex.IsHex(Strip(s)) }

  /** common.HexToAddress. */
  function AddressOf(s: seq<byte>): address
    requires IsHexAddress(s)
  {
    Hex.Decode(Strip(s))
  }

  function ReadParts(parts: seq<seq<byte>>): Result<seq<address>>
  {
    if parts == [] then Ok([])
    else
      var p := Trim(Go, parts[|parts| - 1]);
      match ReadParts(parts[..|parts| - 1])
      case Err => Err
      case Ok(front) => if IsHexAddress(p) then Ok(front + [AddressOf(p)]) else Err
  }

  function SplitText(text: seq<byte>): Result<seq<address>>
  {
    var t := Trim(Go, text);
    if t == [] then Ok([]) else ReadParts(Split(t, COMMA))
  }

  /** SplitContracts. */
  method SplitContracts(text: seq<byte>) returns (r: Result<seq<address>>)
    ensures r == SplitText(text)
  {
    var t := Trim(Go, text);
    if t == [] { return Ok([]); }
    var parts, i := Split(t, COMMA), 0;
    var out: seq<address> := [];
    while i < |parts|
      invariant i <= |parts| && ReadParts(parts[..i]) == Ok(out)
    {
      var p := Trim(Go, parts[i]);
      ReadStep(parts, i, out);
      if !IsHexAddress(p) { return Err; }
      out := out + [AddressOf(p)];
      i := i + 1;
    }
    assert parts[..i] == parts;
    r := Ok(out);
  }

  /** What the next entry decides. */
  lemma ReadStep(parts: seq<seq<byte>>, i: nat, out: seq<address>)
    requires i < |parts| && ReadParts(parts[..i]) == Ok(out)
    ensures var p := Trim(Go, parts[i]);
      if IsHexAddress(p) then ReadParts(parts[..i + 1]) == Ok(out + [AddressOf(p)]) else ReadParts(parts).Err?
  {
    assert parts[..i + 1][..i] == parts[..i];
    if !IsHexAddress(Trim(Go, parts[i])) { ReadFails(parts, i + 1); }
  }

  lemma {:induction false} ReadFails(parts: seq<seq<byte>>, i: nat)
    requires i <= |parts| && ReadParts(parts[..i]).Err?
    ensures ReadParts(parts).Err?
  {
    if i < |parts| {
      assert parts[..|parts| - 1][..i] == parts[..i];
      ReadFails(parts[..|parts| - 1], i);
    } else {
      assert parts[..i] == parts;
    }
  }

  lemma AddressTextReads(a: address)
    ensures SolidEdges(AddressText(a))
    ensures IsHexAddress(AddressText(a)) && AddressOf(AddressText(a)) == a
    ensures COMMA !in AddressText(a)
  {
    var t := AddressText(a);
    assert t[2..] == Hex.Encode(a);
    assert Hex.IsLowerDigit(t[41]) by { assert t[41] == Hex.Encode(a)[39]; }
    Hex.DecodeOfEncode(a);
  }

  lemma ReadOneMore(parts: seq<seq<byte>>, front: seq<address>, a: address)
    requires ReadParts(parts) == Ok(front)
    ensures ReadParts(parts + [AddressText(a)]) == Ok(front + [a])
  {
    AddressTextReads(a);
    TrimKeeps(Go, AddressText(a));
    var all := parts + [AddressText(a)];
    assert all[..|all| - 1] == parts;
  }

  lemma TextsSnoc(front: seq<address>, a: address)
    ensures Texts(front + [a]) == Texts(front) + [AddressText(a)]
  {}

  lemma {:induction false} TextsRead(assets: seq<address>)
    ensures ReadParts(Texts(assets)) == Ok(assets)
    ensures Free(Texts(assets), COMMA)
  {
    if assets != [] {
      var front, a := assets[..|assets| - 1], assets[|assets| - 1];
      assert assets == front + [a];
      TextsRead(front);
      TextsSnoc(front, a);
      ReadOneMore(Texts(front), front, a);
      AddressTextReads(a);
    }
  }

  lemma JoinedEnds(assets: seq<address>)
    requires assets != []
    ensures var t := Join(Texts(assets), COMMA);
      SolidEdges(t)
  {
    var texts := Texts(assets);
    var t := Join(texts, COMMA);
    if |assets| == 1 {
      assert t == AddressText(assets[0]);
      assert t[41] == Hex.Encode(assets[0])[39];
    } else {
      JoinedEnds(assets[1..]);
      assert texts[1..] == Texts(assets[1..]);
      assert t[|t| - 1] == Join(texts[1..], COMMA)[|Join(texts[1..], COMMA)| - 1];
    }
  }

  /** Reading the record back gives the set in strictly ascending order. */
  lemma SplitOfJoin(assets: seq<address>)
    ensures SplitText(Joined(assets)) == Ok(Canonical(assets, Below))
    ensures Ascending(Canonical(assets, Below), Below)
    ensures forall a :: a in Canonical(assets, Below) <==> a in assets
  {
    BelowTotal();
    CanonicalCorrect(assets, Below);
    var canon := Canonical(assets, Below);
    TextsRead(canon);
    if canon != [] {
      JoinedEnds(canon);
      TrimKeeps(Go, Joined(assets));
      Text.SplitOfJoin(Texts(canon), COMMA);
    }
  }

  /** So what was listed comes back exactly when it was listed in strictly ascending order. */
  lemma SplitUndoesJoinIff(assets: seq<address>)
    ensures SplitText(Joined(assets)) == Ok(assets) <==> Ascending(assets, Below)
  {
    BelowTotal();
    SplitOfJoin(assets);
    if Ascending(assets, Below) { AscendingUnique(Canonical(assets, Below), assets, Below); }
  }

  /** A list with a repetition is one that does not come back. */
  lemma RepetitionIsLost(a: address)
    ensures SplitText(Joined([a, a])).Ok? && SplitText(Joined([a, a])) != Ok([a, a])
  {
    SplitUndoesJoinIff([a, a]);
    SplitOfJoin([a, a]);
    BelowTotal();
    assert !Below(a, a);
    assert [a, a][0] == a && [a, a][1] == a;
  }

  /** The record is one canonical string: it depends only on the set and determines it. */
  lemma RecordIsCanonical(a: seq<address>, b: seq<address>)
    ensures Joined(a) == Joined(b) <==> forall x: address :: x in a <==> x in b
  {
    BelowTotal();
    SplitOfJoin(a);
    SplitOfJoin(b);
    if forall x: address :: x in a <==> x in b { CanonicalOfSet(a, b, Below); }
  }

  // ---------------------------------------------------------------- the browser's writer

  /** /^0x[0-9a-fA-F]{40}$/ */
  predicate Matches(s: seq<byte>)
  {
    |s| == 42 && s[..2] == Hex.PREFIX && Hex.IsHex(s[2..])
  }

  type text42 = s: seq<byte> | |s| == 42
    witness [0, 0, 0, 0, 0, 0, 0, 0, 0, 0, 0, 0, 0, 0, 0, 0, 0, 0, 0, 0, 0,
             0, 0, 0, 0, 0, 0, 0, 0, 0, 0, 0, 0, 0, 0, 0, 0, 0, 0, 0, 0, 0]

  /** The default sort order on equally long ASCII strings. */
  predicate TextBelow(a: text42, b: text42) { Less(a, b) }

  lemma TextBelowTotal()
    ensures StrictTotalOrder(TextBelow)
  {
    forall x: text42, y: text42 ensures TextBelow(x, y) <==> FromBE(x) < FromBE(y) { LessIsNumeric(x, y); }
    forall x: text42, y: text42 | x != y ensures TextBelow(x, y) || TextBelow(y, x) {
      if FromBE(x) == FromBE(y) { FromBEInjective(x, y); assert false; }
    }
  }

  function AddressIn(s: seq<byte>): address
    requires Matches(s)
  {
    Hex.Decode(s[2..])
  }

  function Addresses(texts: seq<seq<byte>>): (r: seq<address>)
    requires forall i :: 0 <= i < |texts| ==> Matches(texts[i])
    ensures |r| == |texts| && forall i :: 0 <= i < |r| ==> r[i] == AddressIn(texts[i])
  {
    seq(|texts|, i requires 0 <= i < |texts| => AddressIn(texts[i]))
  }

  lemma LoweredIsText(s: seq<byte>)
    requires Matches(s)
    ensures Hex.LowerAll(s) == AddressText(AddressIn(s))
  {
    Hex.EncodeOfDecode(s[2..]);
    assert s == Hex.PREFIX + s[2..];
    assert Hex.LowerAll(s) == Hex.PREFIX + Hex.LowerAll(s[2..]);
  }

  lemma TextOrder(a: address, b: address)
    ensures Less(AddressText(a), AddressText(b)) <==> Less(a, b)
    ensures AddressText(a) == AddressText(b) ==> a == b
  {
    Hex.OrderKept(a, b);
    var s, t := AddressText(a), AddressText(b);
    assert s[1..][1..] == Hex.Encode(a) && t[1..][1..] == Hex.Encode(b);
    assert s[1..][0] == 0x78 && t[1..][0] == 0x78;
    Hex.DecodeOfEncode(a);
    Hex.DecodeOfEncode(b);
  }

  function Narrow(texts: seq<seq<byte>>): (r: seq<text42>)
    requires forall i :: 0 <= i < |texts| ==> |texts[i]| == 42
    ensures r == texts
  {
    seq(|texts|, i requires 0 <= i < |texts| => texts[i])
  }

  lemma TextMembers(assets: seq<address>, x: seq<byte>)
    ensures x in Texts(assets) <==> exists a: address :: a in assets && AddressText(a) == x
  {
    if x in Texts(assets) {
      var i :| 0 <= i < |assets| && Texts(assets)[i] == x;
      assert assets[i] in assets && AddressText(assets[i]) == x;
    }
    if a: address :| a in assets && AddressText(a) == x {
      var i :| 0 <= i < |assets| && assets[i] == a;
      assert Texts(assets)[i] == x;
    }
  }

  lemma TextsAscend(assets: seq<address>)
    requires Ascending(assets, Below)
    ensures Ascending(Narrow(Texts(assets)), TextBelow)
  {
    var b := Narrow(Texts(assets));
    forall i, j | 0 <= i < j < |b| ensures TextBelow(b[i], b[j]) {
      assert Below(assets[i], assets[j]);
      TextOrder(assets[i], assets[j]);
    }
  }

  /** Sorting the texts is sorting the addresses. */
  lemma TextsSort(assets: seq<address>)
    ensures Canonical(Narrow(Texts(assets)), TextBelow) == Texts(Canonical(assets, Below))
  {
    BelowTotal();
    TextBelowTotal();
    var canon := Canonical(assets, Below);
    CanonicalCorrect(assets, Below);
    CanonicalCorrect(Narrow(Texts(assets)), TextBelow);
    TextsAscend(canon);
    forall x: text42 ensures x in Narrow(Texts(assets)) <==> x in Narrow(Texts(canon)) {
      TextMembers(assets, x);
      TextMembers(canon, x);
    }
    AscendingUnique(Canonical(Narrow(Texts(assets)), TextBelow), Narrow(Texts(canon)), TextBelow);
  }

  /** Entries as JoinContracts writes them: 0x and forty lower-case digits, no padding, in
      strictly ascending order. */
  predicate CanonicalEntries(parts: seq<seq<byte>>)
  {
    && (forall i :: 0 <= i < |parts| ==> Matches(parts[i]) && Hex.LowerAll(parts[i]) == parts[i])
    && (forall i, j :: 0 <= i < j < |parts| ==> Less(parts[i], parts[j]))
  }

  lemma TextsAreCanonical(assets: seq<address>)
    requires Ascending(assets, Below)
    ensures CanonicalEntries(Texts(assets))
  {
    var parts := Texts(assets);
    forall i | 0 <= i < |parts| ensures Matches(parts[i]) && Hex.LowerAll(parts[i]) == parts[i] {
      TextMatches(assets[i]);
      LoweredIsText(parts[i]);
      TextRoundTrip(assets[i]);
    }
    forall i, j | 0 <= i < j < |parts| ensures Less(parts[i], parts[j]) {
      assert Below(assets[i], assets[j]);
      TextOrder(assets[i], assets[j]);
    }
  }

  lemma TextRoundTrip(a: address)
    ensures Matches(AddressText(a)) && AddressIn(AddressText(a)) == a
  {
    TextMatches(a);
    assert AddressText(a)[2..] == Hex.Encode(a);
    Hex.DecodeOfEncode(a);
  }

  /** Canonical entries are the texts of an ascending list. */
  lemma CanonicalAreTexts(parts: seq<seq<byte>>)
    requires CanonicalEntries(parts)
    ensures Texts(Addresses(parts)) == parts && Ascending(Addresses(parts), Below)
  {
    var v := Addresses(parts);
    forall i | 0 <= i < |parts| ensures AddressText(v[i]) == parts[i] { LoweredIsText(parts[i]); }
    forall i, j | 0 <= i < j < |v| ensures Below(v[i], v[j]) {
      assert Less(parts[i], parts[j]);
      TextOrder(v[i], v[j]);
    }
  }

  /** A record is read and written back unchanged exactly when it is empty or its entries
      are canonical. */
  lemma JoinUndoesSplitIff(text: seq<byte>)
    ensures (SplitText(text).Ok? && Joined(SplitText(text).value) == text)
            <==> text == [] || CanonicalEntries(Split(text, COMMA))
  {
    if SplitText(text).Ok? && Joined(SplitText(text).value) == text && text != [] {
      var v := SplitText(text).value;
      SplitOfJoin(v);
      TextsRead(Canonical(v, Below));
      Text.SplitOfJoin(Texts(Canonical(v, Below)), COMMA);
      TextsAreCanonical(Canonical(v, Below));
    }
    if CanonicalEntries(Split(text, COMMA)) {
      var v := Addresses(Split(text, COMMA));
      CanonicalAreTexts(Split(text, COMMA));
      JoinOfSplit(text, COMMA);
      SplitOfJoin(v);
      BelowTotal();
      AscendingUnique(Canonical(v, Below), v, Below);
    }
  }

  /** formatContracts: lower-case, make unique, sort as strings, join. It refuses exactly
      the lists with a non-address in them, and otherwise writes Go's record. */
  method FormatContracts(addrs: seq<seq<byte>>) returns (r: Result<seq<byte>>)
    ensures r.Ok? <==> forall i :: 0 <= i < |addrs| ==> Matches(addrs[i])
    ensures r.Ok? ==> r.value == Joined(Addresses(addrs))
  {
    var lowered: seq<text42> := [];
    var i := 0;
    while i < |addrs|
      invariant i <= |addrs| && |lowered| == i
      invariant forall j :: 0 <= j < i ==> Matches(addrs[j]) && lowered[j] == Hex.LowerAll(addrs[j])
    {
      if !Matches(addrs[i]) { return Err; }
      lowered := lowered + [Hex.LowerAll(addrs[i])];
      i := i + 1;
    }
    ghost var assets := Addresses(addrs);
    forall j | 0 <= j < |addrs| ensures lowered[j] == AddressText(assets[j]) { LoweredIsText(addrs[j]); }
    assert lowered == Narrow(Texts(assets));
    var seen := Distinct(lowered);
    var sorted := StableSort(seen, TextBelow);
    TextBelowTotal();
    DistinctThenSort(lowered, TextBelow);
    TextsSort(assets);
    r := Ok(Join(sorted, COMMA));
  }

  // ---------------------------------------------------------------- the browser's reader

  function JsParts(parts: seq<seq<byte>>): Result<seq<text42>>
  {
    if parts == [] then Ok([])
    else
      var p := Trim(Js, parts[|parts| - 1]);
      match JsParts(parts[..|parts| - 1])
      case Err => Err
      case Ok(front) => if Matches(p) then Ok(front + [Hex.LowerAll(p)]) else Err
  }

  /** parseContracts: every entry must be an address; repeats are dropped, order is kept. */
  function JsParsed(text: seq<byte>): Result<seq<text42>>
  {
    var t := Trim(Js, text);
    if t == [] then Ok([])
    else match JsParts(Split(t, COMMA)) case Err => Err case Ok(all) => Ok(Distinct(all))
  }

  /** Every entry, trimmed, begins with a lower-case 0x. */
  predicate AllPrefixed(parts: seq<seq<byte>>)
  {
    forall i :: 0 <= i < |parts| ==> Prefixed(Trim(Js, parts[i]))
  }

  predicate Prefixed(p: seq<byte>) { |p| >= 2 && p[..2] == Hex.PREFIX }

  /** Go and JavaScript see the same padding around every entry. */
  predicate TrimmedAlike(parts: seq<seq<byte>>)
  {
    forall i :: 0 <= i < |parts| ==> Trim(Go, parts[i]) == Trim(Js, parts[i])
  }

  lemma MatchesIff(p: seq<byte>)
    ensures Matches(p) <==> IsHexAddress(p) && Prefixed(p)
    ensures Matches(p) ==> Hex.LowerAll(p) == AddressText(AddressOf(p))
  {
    if Prefixed(p) { assert p[0] == Hex.PREFIX[0] && p[1] == Hex.PREFIX[1]; assert Strip(p) == p[2..]; }
    if Matches(p) { LoweredIsText(p); }
  }

  lemma {:induction false} PartsAgree(parts: seq<seq<byte>>)
    requires TrimmedAlike(parts)
    ensures JsParts(parts).Ok? <==> ReadParts(parts).Ok? && AllPrefixed(parts)
    ensures JsParts(parts).Ok? ==> JsParts(parts).value == Texts(ReadParts(parts).value)
  {
    if parts != [] {
      var front, q := parts[..|parts| - 1], parts[|parts| - 1];
      assert parts == front + [q];
      PartsAgree(front);
      MatchesIff(Trim(Js, q));
    }
  }

  lemma {:induction false} DistinctTexts(assets: seq<address>)
    ensures Distinct(Narrow(Texts(assets))) == Texts(Distinct(assets))
  {
    if assets != [] {
      var front, a := assets[..|assets| - 1], assets[|assets| - 1];
      DistinctTexts(front);
      assert Narrow(Texts(assets))[..|assets| - 1] == Narrow(Texts(front));
      var d := Distinct(front);
      if a in d {
        var i :| 0 <= i < |d| && d[i] == a;
        assert Texts(d)[i] == AddressText(a);
      } else if AddressText(a) in Texts(d) {
        var i :| 0 <= i < |d| && Texts(d)[i] == AddressText(a);
        TextOrder(d[i], a);
        assert false;
      }
    }
  }

  /** An entry either side reads trims to solid edges. */
  lemma AddressIsSolid(p: seq<byte>)
    requires IsHexAddress(p)
    ensures SolidEdges(p)
  {
    var h := Strip(p);
    assert Hex.IsHexDigit(h[0]) && Hex.IsHexDigit(h[39]);
    assert h[39] == p[|p| - 1];
  }

  lemma {:induction false} GoEntries(parts: seq<seq<byte>>, i: nat)
    requires ReadParts(parts).Ok? && i < |parts|
    ensures SolidEdges(Trim(Go, parts[i]))
  {
    if i < |parts| - 1 { GoEntries(parts[..|parts| - 1], i); } else { AddressIsSolid(Trim(Go, parts[i])); }
  }

  lemma {:induction false} JsEntries(parts: seq<seq<byte>>, i: nat)
    requires JsParts(parts).Ok? && i < |parts|
    ensures SolidEdges(Trim(Js, parts[i]))
  {
    if i < |parts| - 1 {
      JsEntries(parts[..|parts| - 1], i);
    } else {
      MatchesIff(Trim(Js, parts[i]));
      AddressIsSolid(Trim(Js, parts[i]));
    }
  }

  lemma GoReadsSolid(text: seq<byte>)
    requires SplitText(text).Ok?
    ensures Trim(Go, text) == [] || SolidEdges(Trim(Go, text))
  {
    var t := Trim(Go, text);
    if t != [] {
      var parts := Split(t, COMMA);
      Trimmed(Go, text);
      SplitEdges(t, COMMA);
      GoEntries(parts, 0);
      GoEntries(parts, |parts| - 1);
      FrontIsSolid(Go, t, parts[0]);
      BackIsSolid(Go, t, parts[|parts| - 1]);
    }
  }

  lemma JsReadsSolid(text: seq<byte>)
    requires JsParsed(text).Ok?
    ensures Trim(Js, text) == [] || SolidEdges(Trim(Js, text))
  {
    var t := Trim(Js, text);
    if t != [] {
      var parts := Split(t, COMMA);
      Trimmed(Js, text);
      SplitEdges(t, COMMA);
      JsEntries(parts, 0);
      JsEntries(parts, |parts| - 1);
      FrontIsSolid(Js, t, parts[0]);
      BackIsSolid(Js, t, parts[|parts| - 1]);
    }
  }

  /** Go and JavaScript see the same padding, around the record and around its entries. */
  predicate SamePadding(text: seq<byte>)
  {
    && Trim(Go, text) == Trim(Js, text)
    && (Trim(Go, text) != [] ==> TrimmedAlike(Split(Trim(Go, text), COMMA)))
  }

  lemma BothReadAlike(text: seq<byte>)
    requires SplitText(text).Ok? && JsParsed(text).Ok?
    ensures SamePadding(text)
  {
    GoReadsSolid(text);
    JsReadsSolid(text);
    TrimsAgree(text);
    var t := Trim(Go, text);
    if t != [] {
      var parts := Split(t, COMMA);
      forall i | 0 <= i < |parts| ensures Trim(Go, parts[i]) == Trim(Js, parts[i]) {
        GoEntries(parts, i);
        JsEntries(parts, i);
        TrimsAgree(parts[i]);
      }
    }
  }

  /** Whatever both sides read they read alike, except that the browser drops repeats. Of
      the records Go reads, the browser reads exactly those whose entries all carry a
      lower-case 0x and whose padding is white space to both; of those the browser reads,
      Go reads exactly the ones with such padding. */
  lemma ReadersAgree(text: seq<byte>)
    ensures SplitText(text).Ok? ==>
      (JsParsed(text).Ok? <==> SamePadding(text) && (Trim(Js, text) == [] || AllPrefixed(Split(Trim(Js, text), COMMA))))
    ensures JsParsed(text).Ok? ==> (SplitText(text).Ok? <==> SamePadding(text))
    ensures SplitText(text).Ok? && JsParsed(text).Ok? ==>
      JsParsed(text).value == Texts(Distinct(SplitText(text).value))
  {
    if SplitText(text).Ok? && JsParsed(text).Ok? { BothReadAlike(text); }
    var t := Trim(Js, text);
    if SamePadding(text) && t != [] {
      PartsAgree(Split(t, COMMA));
      if JsParsed(text).Ok? { DistinctTexts(SplitText(text).value); }
    }
  }

  lemma TextMatches(a: address)
    ensures Trim(Js, AddressText(a)) == AddressText(a) && Matches(AddressText(a))
  {
    AddressTextReads(a);
    TrimKeeps(Js, AddressText(a));
    assert AddressText(a)[2..] == Hex.Encode(a);
  }

  lemma {:induction false} TextsMatch(assets: seq<address>)
    ensures JsParts(Texts(assets)).Ok?
  {
    if assets != [] {
      var front, a := assets[..|assets| - 1], assets[|assets| - 1];
      assert assets == front + [a];
      TextsMatch(front);
      TextsSnoc(front, a);
      assert Texts(assets)[..|front|] == Texts(front);
      TextMatches(a);
    }
  }

  lemma AscendingIsDistinct(assets: seq<address>)
    requires Ascending(assets, Below)
    ensures Distinct(assets) == assets
  {
    BelowTotal();
    assert NoRepeats(assets) by {
      forall i, j | 0 <= i < j < |assets| ensures assets[i] != assets[j] { assert Below(assets[i], assets[j]); }
    }
    DistinctKeeps(assets);
  }

  lemma JoinedReadsInJs(assets: seq<address>)
    ensures JsParsed(Joined(assets)).Ok?
  {
    var canon := Canonical(assets, Below);
    if canon != [] {
      JoinedEnds(canon);
      TrimKeeps(Js, Joined(assets));
      TextsRead(canon);
      Text.SplitOfJoin(Texts(canon), COMMA);
      TextsMatch(canon);
    }
  }

  /** The record either side writes, read in the browser: the set, ascending. */
  lemma ParseOfFormat(assets: seq<address>)
    ensures JsParsed(Joined(assets)) == Ok(Texts(Canonical(assets, Below)))
  {
    SplitOfJoin(assets);
    JoinedReadsInJs(assets);
    ReadersAgree(Joined(assets));
    AscendingIsDistinct(Canonical(assets, Below));
  }

  lemma OneRecord(a: address)
    ensures Joined([a]) == AddressText(a) && Canonical([a], Below) == [a]
  {
    assert StableSort([a][1..], Below) == [];
    assert StableSort([a], Below) == [a];
    assert Texts([a]) == [AddressText(a)];
  }

  lemma OneTextReads(a: address)
    ensures SplitText(AddressText(a)) == Ok([a]) && JsParsed(AddressText(a)) == Ok([AddressText(a)])
  {
    OneRecord(a);
    SplitOfJoin([a]);
    ParseOfFormat([a]);
    assert Texts([a]) == [AddressText(a)];
  }

  /** The readers see nothing but what their own trimming leaves. */
  lemma OnlyTrimmed(x: seq<byte>, y: seq<byte>)
    ensures Trim(Go, x) == Trim(Go, y) ==> SplitText(x) == SplitText(y)
    ensures Trim(Js, x) == Trim(Js, y) ==> JsParsed(x) == JsParsed(y)
  {}

  /** Padding that is white space to one side only: U+0085 before an address is read by Go
      and refused by the browser, U+FEFF the other way round. */
  lemma PaddingDivides(a: address)
    ensures SplitText(NEXT_LINE + AddressText(a)) == Ok([a]) && JsParsed(NEXT_LINE + AddressText(a)).Err?
    ensures JsParsed(BYTE_ORDER_MARK + AddressText(a)) == Ok([AddressText(a)])
    ensures SplitText(BYTE_ORDER_MARK + AddressText(a)).Err?
  {
    var t := AddressText(a);
    AddressTextReads(a);
    OneTextReads(a);
    NextLineIsGos(t);
    MarkIsJss(t);
    TrimKeeps(Go, t);
    TrimKeeps(Js, t);
    OnlyTrimmed(NEXT_LINE + t, t);
    OnlyTrimmed(BYTE_ORDER_MARK + t, t);
    ReadersAgree(NEXT_LINE + t);
    ReadersAgree(BYTE_ORDER_MARK + t);
  }

  // ---------------------------------------------------------------- what each reader accepts

  /** An entry Go reads: forty hex digits, bare or behind 0x or 0X. */
  lemma AddressForms(s: seq<byte>)
    ensures var d := if |s| == 42 && s[0] == '0' as int && (s[1] == 'x' as int || s[1] == 'X' as int) then s[2..] else s;
      && (IsHexAddress(s) <==> |d| == 40 && forall i :: 0 <= i < 40 ==> Hex.IsHexDigit(d[i]))
      && (IsHexAddress(s) ==> Hex.Encode(AddressOf(s)) == Hex.LowerAll(d))
  {
    if IsHexAddress(s) { Hex.EncodeOfDecode(Strip(s)); }
    if |s| == 40 { assert forall i :: 0 <= i < 40 ==> s[..][i] == s[i]; assert |s| >= 2; }
  }

  lemma {:induction false} ReadPartsExactly(parts: seq<seq<byte>>)
    ensures ReadParts(parts).Ok? <==> forall i :: 0 <= i < |parts| ==> IsHexAddress(Trim(Go, parts[i]))
    ensures ReadParts(parts).Ok? ==>
      && |ReadParts(parts).value| == |parts|
      && forall i :: 0 <= i < |parts| ==> ReadParts(parts).value[i] == AddressOf(Trim(Go, parts[i]))
  {
    if parts != [] {
      var front, q := parts[..|parts| - 1], parts[|parts| - 1];
      assert parts == front + [q];
      ReadPartsExactly(front);
    }
  }

  /** SplitContracts exactly: an empty text is no address; any other is read entry by entry
      between its commas, in order, repeats and all, if every entry is an address. */
  lemma SplitExactly(text: seq<byte>)
    ensures var t := Trim(Go, text);
      var parts := Split(t, ',' as int);
      && (SplitText(text).Ok? <==> t == [] || forall i :: 0 <= i < |parts| ==> IsHexAddress(Trim(Go, parts[i])))
      && (t == [] ==> SplitText(text) == Ok([]))
      && (t != [] && SplitText(text).Ok? ==>
            && |SplitText(text).value| == |parts|
            && forall i :: 0 <= i < |parts| ==> SplitText(text).value[i] == AddressOf(Trim(Go, parts[i])))
  {
    var t := Trim(Go, text);
    assert ',' as int == COMMA;
    assert Split(t, ',' as int) == Split(t, COMMA);
    ReadPartsExactly(Split(t, COMMA));
  }

  /** The record's own spelling. */
  lemma RecordSpelled(a: address)
    ensures AddressText(a) == OfString("0x") + Hex.Encode(a) && [COMMA] == OfString(",")
    ensures forall s: seq<byte> :: Matches(s) <==>
      |s| == 42 && s[..2] == OfString("0x") && forall i :: 0 <= i < 40 ==> Hex.IsHexDigit(s[2..][i])
  {
    assert Hex.PREFIX == OfString("0x");
  }
}
