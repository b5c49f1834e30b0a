/** The names an account's hints are served under (internal/ens/hintname.go), for ASCII
    names: NFC and Unicode lower-casing are library code that leaves ASCII alone. */
module HintNames {
  import opened Bytes
  import opened Text
  import opened Wrappers
  import Hex
  import WireNames
  import Keys

  const DOT: byte := WireNames.DOT
  const HINTS: seq<byte> := [0x68, 0x69, 0x6e, 0x74, 0x73]  // "hints"
  const MAX_NAME: nat := 512

  // ---------------------------------------------------------------- decimal

  predicate IsDigit(c: byte) { 0x30 <= c <= 0x39 }

  predicate AllDigits(s: seq<byte>) { forall i :: 0 <= i < |s| ==> IsDigit(s[i]) }

  /** %d. */
  function Decimal(n: nat): (s: seq<byte>)
    ensures s != [] && AllDigits(s)
  {
    if n < 10 then [0x30 + n] else Decimal(n / 10) + [0x30 + n % 10]
  }

  /** The number a digit string spells, unbounded. */
  function Value(s: seq<byte>): nat
    requires AllDigits(s)
  {
    if s == [] then 0 else Value(s[..|s| - 1]) * 10 + (s[|s| - 1] - 0x30)
  }

  /** parseDecimal: uint64 arithmetic over at most twenty digits. */
  function ParsedDecimal(s: seq<byte>): Result<u64>
  {
    if s == [] || |s| > 20 || !AllDigits(s) then Err else Ok(Value(s) % TWO64)
  }

  lemma {:induction false} ValueOfDecimal(n: nat)
    ensures Value(Decimal(n)) == n
  {
    if n < 10 {
      assert Decimal(n)[..0] == [];
    } else {
      ValueOfDecimal(n / 10);
      assert Decimal(n)[..|Decimal(n)| - 1] == Decimal(n / 10);
    }
  }

  function Pow10(w: nat): nat { if w == 0 then 1 else 10 * Pow10(w - 1) }

  lemma {:induction false} DecimalLength(n: nat, w: nat)
    requires w >= 1 && n < Pow10(w)
    ensures |Decimal(n)| <= w
  {
    if n >= 10 { DecimalLength(n / 10, w - 1); }
  }

  lemma TwentyDigits()
    ensures Pow10(20) == 100_000_000_000_000_000_000
  {
    assert Pow10(5) == 100_000;
    assert Pow10(8) == 1000 * Pow10(5);
    assert Pow10(11) == 1000 * Pow10(8);
    assert Pow10(14) == 1000 * Pow10(11);
    assert Pow10(17) == 1000 * Pow10(14);
    assert Pow10(20) == 1000 * Pow10(17);
  }

  /** Every uint64 survives printing and parsing. */
  lemma DecimalRoundTrip(n: u64)
    ensures ParsedDecimal(Decimal(n)) == Ok(n)
  {
    TwentyDigits();
    DecimalLength(n, 20);
    ValueOfDecimal(n);
  }

  /** Twenty digits can spell more than a uint64 holds; parseDecimal gives the number
      spelled exactly when it fits. */
  lemma ParsedExactIff(s: seq<byte>)
    requires ParsedDecimal(s).Ok?
    ensures ParsedDecimal(s).value == Value(s) <==> Value(s) < TWO64
  {}

  /** Twenty nines are read as another number. */
  lemma TwentyNines(s: seq<byte>)
    requires |s| == 20 && forall i :: 0 <= i < 20 ==> s[i] == 0x39
    ensures ParsedDecimal(s).Ok? && ParsedDecimal(s).value != Value(s)
    ensures ParsedDecimal(s) == Ok(7_766_279_631_452_241_919)
  {
    NinesSpell(s);
    TwentyDigits();
    assert 99_999_999_999_999_999_999 == 5 * TWO64 + 7_766_279_631_452_241_919;
  }

  lemma {:induction false} NinesSpell(s: seq<byte>)
    requires forall i :: 0 <= i < |s| ==> s[i] == 0x39
    ensures AllDigits(s) && Value(s) == Pow10(|s|) - 1
  {
    if s != [] { NinesSpell(s[..|s| - 1]); }
  }

  method ParseDecimal(s: seq<byte>) returns (r: Result<u64>)
    ensures r == ParsedDecimal(s)
  {
    if |s| == 0 || |s| > 20 { return Err; }
    var v, i := 0, 0;
    while i < |s|
      invariant i <= |s| && AllDigits(s[..i]) && v == Value(s[..i]) % TWO64
    {
      if s[i] < 0x30 || s[i] > 0x39 { return Err; }
      assert s[..i + 1][..i] == s[..i];
      WrapStep(Value(s[..i]), s[i] - 0x30);
      v := (v * 10 + (s[i] - 0x30)) % TWO64;
      i := i + 1;
    }
    assert s[..|s|] == s;
    r := Ok(v);
  }

  lemma WrapStep(x: nat, d: nat)
    ensures (x % TWO64 * 10 + d) % TWO64 == (x * 10 + d) % TWO64
  {
    var q := x / TWO64;
    assert x * 10 + d == x % TWO64 * 10 + d + q * 10 * TWO64;
    DropMultiples(x % TWO64 * 10 + d, q * 10);
  }

  lemma {:induction false} DropMultiples(y: nat, k: nat)
    ensures (y + k * TWO64) % TWO64 == y % TWO64
  {
    if k > 0 {
      DropMultiples(y, k - 1);
      assert y + k * TWO64 == y + (k - 1) * TWO64 + TWO64;
    }
  }

  // ---------------------------------------------------------------- Normalize

  /** unicode.IsSpace and unicode.IsControl, on ASCII. */
  predicate IsSpace(c: byte) { 0x09 <= c <= 0x0d || c == 0x20 }
  predicate IsControl(c: byte) { c < 0x20 || c == 0x7f }

  predicate AllPlain(s: seq<byte>): (plain: bool)
    ensures plain ==> Ascii(s)
  {
    forall i :: 0 <= i < |s| ==> Solid(s[i])
  }

  predicate Ascii(s: seq<byte>) { forall i :: 0 <= i < |s| ==> s[i] < 0x80 }

  function TrimDot(s: seq<byte>): seq<byte>
  {
    if s != [] && s[|s| - 1] == DOT then s[..|s| - 1] else s
  }

  predicate LabelOk(l: seq<byte>)
  {
    && 1 <= |l| <= 63
    && forall i :: 0 <= i < |l| ==> !IsSpace(l[i]) && !IsControl(l[i])
  }

  function LowerLabels(labels: seq<seq<byte>>): (r: seq<seq<byte>>)
    ensures |r| == |labels|
    ensures forall i :: 0 <= i < |r| ==> r[i] == Hex.LowerAll(labels[i])
  {
    seq(|labels|, i requires 0 <= i < |labels| => Hex.LowerAll(labels[i]))
  }

  function Normalized(name: seq<byte>): Result<seq<byte>>
    requires Ascii(name)
  {
    var s := TrimDot(Trim(Go, name));
    if s == [] || |s| > MAX_NAME then Err
    else
      var labels := Split(s, DOT);
      if forall i :: 0 <= i < |labels| ==> LabelOk(labels[i]) then Ok(Join(LowerLabels(labels), DOT)) else Err
  }

  /** Normalize, label by label. */
  method Normalize(name: seq<byte>) returns (r: Result<seq<byte>>)
    requires Ascii(name)
    ensures r == Normalized(name)
  {
    var s := TrimDot(Trim(Go, name));
    if s == [] || |s| > MAX_NAME { return Err; }
    var labels := Split(s, DOT);
    var out: seq<seq<byte>> := [];
    var i := 0;
    while i < |labels|
      invariant i <= |labels| && |out| == i
      invariant forall j :: 0 <= j < i ==> LabelOk(labels[j]) && out[j] == Hex.LowerAll(labels[j])
    {
      if !LabelOk(labels[i]) { return Err; }
      out := out + [Hex.LowerAll(labels[i])];
      i := i + 1;
    }
    assert out == LowerLabels(labels);
    r := Ok(Join(out, DOT));
  }

  // ---------------------------------------------------------------- hint names

  datatype Named = Named(account: Keys.address, chainId: u64, hasChain: bool) | NotAnAccount

  /** What follows the account label. */
  function Suffix(parent: seq<byte>, chainId: u64, explicitChain: bool): seq<byte>
  {
    var tail := HINTS + [DOT] + parent;
    if explicitChain then Decimal(chainId) + [DOT] + tail else tail
  }

  function HintName(account: Keys.address, parent: seq<byte>, chainId: u64, explicitChain: bool): seq<byte>
  {
    Hex.Encode(account) + [DOT] + Suffix(parent, chainId, explicitChain)
  }

  function TrimHexPrefix(s: seq<byte>): seq<byte>
  {
    if |s| >= 2 && s[0] == 0x30 && s[1] == 0x78 then s[2..] else s
  }

  function ParsedHintName(name: seq<byte>): Named
    requires Ascii(name)
  {
    match Normalized(name)
    case Err => NotAnAccount
    case Ok(norm) => NamedBy(Split(norm, DOT))
  }

  function NamedBy(labels: seq<seq<byte>>): Named
    requires labels != []
  {
    var first := TrimHexPrefix(labels[0]);
    if |first| != 40 || !Hex.IsHex(first) then NotAnAccount
    else
      var account: Keys.address := Hex.Decode(first);
      if |labels| > 1 && ParsedDecimal(labels[1]).Ok?
      then Named(account, ParsedDecimal(labels[1]).value, true)
      else Named(account, 0, false)
  }

  /** A parent whose labels fit the wire and hold no blanks or control characters. */
  predicate ValidParent(parent: seq<byte>)
  {
    && WireNames.Good(Split(parent, DOT))
    && AllPlain(parent)
  }

  // ---------------------------------------------------------------- the gateway path

  function NameLabels(account: Keys.address, parent: seq<byte>, chainId: u64, explicitChain: bool): seq<seq<byte>>
  {
    [Hex.Encode(account)] + ((if explicitChain then [Decimal(chainId)] else []) + ([HINTS] + Split(parent, DOT)))
  }

  lemma NameSplits(account: Keys.address, parent: seq<byte>, chainId: u64, explicitChain: bool)
    ensures Split(HintName(account, parent, chainId, explicitChain), DOT)
         == NameLabels(account, parent, chainId, explicitChain)
  {
    var tail := HINTS + [DOT] + parent;
    SplitFront(HINTS, parent, DOT);
    if explicitChain { SplitFront(Decimal(chainId), tail, DOT); }
    assert DOT !in Hex.Encode(account);
    SplitFront(Hex.Encode(account), Suffix(parent, chainId, explicitChain), DOT);
    assert explicitChain || [] + ([HINTS] + Split(parent, DOT)) == [HINTS] + Split(parent, DOT);
  }

  lemma NamePlain(account: Keys.address, parent: seq<byte>, chainId: u64, explicitChain: bool)
    requires ValidParent(parent)
    ensures AllPlain(HintName(account, parent, chainId, explicitChain))
  {
    var tail := HINTS + [DOT] + parent;
    PlainLabel(HINTS, parent);
    if explicitChain {
      assert forall i :: 0 <= i < |Decimal(chainId)| ==> IsDigit(Decimal(chainId)[i]);
      PlainLabel(Decimal(chainId), tail);
    }
    assert forall i :: 0 <= i < 40 ==> Hex.IsLowerDigit(Hex.Encode(account)[i]);
    PlainLabel(Hex.Encode(account), Suffix(parent, chainId, explicitChain));
  }

  lemma PlainLabel(l: seq<byte>, rest: seq<byte>)
    requires AllPlain(l) && AllPlain(rest)
    ensures AllPlain(l + [DOT] + rest)
  {}

  /** Every byte of a part is a byte of the whole, so parts of a plain text are plain. */
  lemma {:induction false} PartsPlain(s: seq<byte>, i: int)
    requires AllPlain(s) && 0 <= i < |Split(s, DOT)|
    ensures AllPlain(Split(s, DOT)[i])
  {
    if s != [] {
      var rest := Split(s[1..], DOT);
      if s[0] == DOT {
        if i > 0 { PartsPlain(s[1..], i - 1); }
      } else {
        PartsPlain(s[1..], i);
      }
    }
  }

  lemma ChainLabelGood(chainId: u64)
    ensures WireNames.GoodLabel(Decimal(chainId))
  {
    TwentyDigits();
    DecimalLength(chainId, 20);
  }

  lemma NameGood(account: Keys.address, parent: seq<byte>, chainId: u64, explicitChain: bool)
    requires ValidParent(parent)
    ensures WireNames.Good(NameLabels(account, parent, chainId, explicitChain))
  {
    ChainLabelGood(chainId);
    var parts := NameLabels(account, parent, chainId, explicitChain);
    forall i | 0 <= i < |parts| ensures WireNames.GoodLabel(parts[i]) {
      var k := if explicitChain then 3 else 2;
      if i >= k { assert parts[i] == Split(parent, DOT)[i - k]; }
    }
  }

  lemma LastByte(s: seq<byte>)
    requires s != [] && s[|s| - 1] == DOT
    ensures var parts := Split(s, DOT); parts[|parts| - 1] == []
  {
    if |s| > 1 {
      assert s[1..][|s[1..]| - 1] == DOT;
      LastByte(s[1..]);
    } else {
      assert s[1..] == [];
    }
  }

  lemma NothingToTrim(name: seq<byte>)
    requires name != [] && WireNames.Good(Split(name, DOT)) && AllPlain(name)
    ensures TrimDot(Trim(Go, name)) == name
  {
    var labels := Split(name, DOT);
    TrimKeeps(Go, name);
    assert WireNames.GoodLabel(labels[|labels| - 1]);
    if name[|name| - 1] == DOT { LastByte(name); assert false; }
  }

  /** A plain name whose labels all fit normalises to its lower-case self, unless it is
      over the length limit. */
  lemma NormalizedPlain(name: seq<byte>)
    requires name != [] && WireNames.Good(Split(name, DOT)) && AllPlain(name)
    ensures Normalized(name) == if |name| > MAX_NAME then Err else Ok(Join(LowerLabels(Split(name, DOT)), DOT))
  {
    NothingToTrim(name);
    forall i | 0 <= i < |Split(name, DOT)| ensures LabelOk(Split(name, DOT)[i]) {
      PlainLabelOk(name, i);
    }
  }

  lemma PlainLabelOk(name: seq<byte>, i: nat)
    requires WireNames.Good(Split(name, DOT)) && AllPlain(name) && i < |Split(name, DOT)|
    ensures LabelOk(Split(name, DOT)[i])
  {
    PartsPlain(name, i);
    assert WireNames.GoodLabel(Split(name, DOT)[i]);
  }

  /** The gateway path: print a hint name, put it on the wire, read it off, parse it. The
      account, chain id and explicit-chain flag come back exactly when the name is within
      Normalize's length limit; beyond it the name is refused. */
  lemma NameSurvives(account: Keys.address, parent: seq<byte>, chainId: u64, explicitChain: bool)
    requires ValidParent(parent)
    ensures var name := HintName(account, parent, chainId, explicitChain);
      && Ascii(name)
      && WireNames.Decoded(WireNames.Encoded(name)) == Ok(name)
      && ParsedHintName(name) ==
           if |name| > 512 then NotAnAccount
           else Named(account, if explicitChain then chainId else 0, explicitChain)
  {
    var name := HintName(account, parent, chainId, explicitChain);
    NameSplits(account, parent, chainId, explicitChain);
    NamePlain(account, parent, chainId, explicitChain);
    NameGood(account, parent, chainId, explicitChain);
    WireNames.DecodeOfEncode(name);
    NormalizedPlain(name);
    LabelsComeBack(name);
    LabelsName(account, parent, chainId, explicitChain);
  }

  lemma LabelsName(account: Keys.address, parent: seq<byte>, chainId: u64, explicitChain: bool)
    ensures NamedBy(LowerLabels(NameLabels(account, parent, chainId, explicitChain)))
         == Named(account, if explicitChain then chainId else 0, explicitChain)
  {
    var labels := NameLabels(account, parent, chainId, explicitChain);
    var hex := Hex.Encode(account);
    assert labels[0] == hex && Hex.IsLowerDigit(hex[1]);
    Hex.LowerIsLower(hex);
    Hex.DecodeOfEncode(account);
    if explicitChain {
      assert labels[1] == Decimal(chainId);
      assert forall i :: 0 <= i < |labels[1]| ==> IsDigit(labels[1][i]);
      Hex.LowerIsLower(labels[1]);
      DecimalRoundTrip(chainId);
    } else {
      assert labels[1] == HINTS;
      Hex.LowerIsLower(HINTS);
      assert !IsDigit(HINTS[0]);
    }
  }

  /** Lower-casing keeps the label structure. */
  lemma LabelsComeBack(name: seq<byte>)
    ensures Split(Join(LowerLabels(Split(name, DOT)), DOT), DOT) == LowerLabels(Split(name, DOT))
  {
    var labels := Split(name, DOT);
    SplitFree(name, DOT);
    var low := LowerLabels(labels);
    forall i | 0 <= i < |low| ensures DOT !in low[i] {
      assert DOT !in labels[i];
    }
    SplitOfJoin(low, DOT);
  }

  /** The format string: "%s.%d.hints.%s", or without the chain. */
  lemma HintNameIs(account: Keys.address, parent: seq<byte>, chainId: u64, explicitChain: bool)
    ensures HintName(account, parent, chainId, explicitChain)
         == Hex.Encode(account) + OfString(".")
            + (if explicitChain then Decimal(chainId) + OfString(".hints.") else OfString("hints.")) + parent
  {
    Spelled();
    var h, d := Hex.Encode(account), Decimal(chainId);
    if explicitChain {
      assert h + [DOT] + (d + [DOT] + (HINTS + [DOT] + parent)) == h + [DOT] + (d + ([DOT] + HINTS + [DOT])) + parent;
    } else {
      assert h + [DOT] + (HINTS + [DOT] + parent) == h + [DOT] + (HINTS + [DOT]) + parent;
    }
  }

  lemma Spelled()
    ensures OfString(".") == [DOT] && OfString("hints") == HINTS
    ensures OfString("hints.") == HINTS + [DOT] && OfString(".hints.") == [DOT] + HINTS + [DOT]
  {}

  /** Decimal digits are the usual ones, most significant first. */
  lemma DecimalIs(n: nat)
    ensures n < 10 ==> Decimal(n) == [OfString("0123456789")[n]]
    ensures n >= 10 ==> Decimal(n) == Decimal(n / 10) + [OfString("0123456789")[n % 10]]
  {
    var s := OfString("0123456789");
    assert forall d :: 0 <= d < 10 ==> s[d] == 0x30 + d;
  }

  lemma {:induction false} LowerJoins(labels: seq<seq<byte>>)
    ensures Join(LowerLabels(labels), DOT) == Hex.LowerAll(Join(labels, DOT))
  {
    if |labels| == 1 {
      assert LowerLabels(labels) == [Hex.LowerAll(labels[0])];
    } else if labels != [] {
      var rest := labels[1..];
      LowerJoins(rest);
      assert LowerLabels(labels)[1..] == LowerLabels(rest);
      LowerConcat(labels[0], [DOT] + Join(rest, DOT));
      LowerConcat([DOT], Join(rest, DOT));
      assert Hex.LowerAll([DOT]) == [DOT];
      assert labels[0] + [DOT] + Join(rest, DOT) == labels[0] + ([DOT] + Join(rest, DOT));
    }
  }

  lemma LowerConcat(a: seq<byte>, b: seq<byte>)
    ensures Hex.LowerAll(a + b) == Hex.LowerAll(a) + Hex.LowerAll(b)
  {}

  /** A label that passes: one to 63 bytes, none of them a blank or a control character. */
  lemma LabelExactly(l: seq<byte>)
    requires Ascii(l)
    ensures LabelOk(l) <==> 1 <= |l| <= 63 && forall j :: 0 <= j < |l| ==> 0x20 < l[j] != 0x7f
  {}

  /** Normalize exactly: trim, drop one final dot, refuse what is empty, over 512 bytes or has
      a label that does not pass; what is left is lower-cased. */
  lemma NormalizedExactly(name: seq<byte>)
    requires Ascii(name)
    ensures var t := Trim(Go, name);
      var s := if t != [] && t[|t| - 1] == '.' as int then t[..|t| - 1] else t;
      var labels := Split(s, '.' as int);
      && (Normalized(name).Ok? <==> 0 < |s| <= 512 && forall i :: 0 <= i < |labels| ==> LabelOk(labels[i]))
      && (Normalized(name).Ok? ==> Normalized(name).value == Hex.LowerAll(s))
  {
    var t := Trim(Go, name);
    DotTrimmed(t);
    NormalizedFrom(name, TrimDot(t));
  }

  lemma DotTrimmed(t: seq<byte>)
    ensures '.' as int == DOT
    ensures TrimDot(t) == if t != [] && t[|t| - 1] == '.' as int then t[..|t| - 1] else t
  {}

  lemma NormalizedFrom(name: seq<byte>, s: seq<byte>)
    requires Ascii(name) && s == TrimDot(Trim(Go, name))
    ensures var labels := Split(s, DOT);
      && (Normalized(name).Ok? <==> 0 < |s| <= 512 && forall i :: 0 <= i < |labels| ==> LabelOk(labels[i]))
      && (Normalized(name).Ok? ==> Normalized(name).value == Hex.LowerAll(s))
  {
    JoinOfSplit(s, DOT);
    LowerJoins(Split(s, DOT));
  }

  /** ParseHintName exactly: the first label, with or without 0x, is the account's forty
      digits; a second label of one to twenty digits is the chain, modulo 2^64. */
  lemma NamedExactly(labels: seq<seq<byte>>)
    requires labels != []
    ensures var l := labels[0];
      var hex := if |l| >= 2 && l[..2] == OfString("0x") then l[2..] else l;
      var chain := |labels| > 1 && 1 <= |labels[1]| <= 20
                   && forall i :: 0 <= i < |labels[1]| ==> '0' as int <= labels[1][i] <= '9' as int;
      && (NamedBy(labels).Named? <==> |hex| == 40 && forall i :: 0 <= i < 40 ==> Hex.IsHexDigit(hex[i]))
      && (NamedBy(labels).Named? ==>
            && Hex.Encode(NamedBy(labels).account) == Hex.LowerAll(hex)
            && (NamedBy(labels).hasChain <==> chain)
            && NamedBy(labels).chainId == (if chain then Value(labels[1]) % 0x1_0000_0000_0000_0000 else 0))
  {
    var first := TrimHexPrefix(labels[0]);
    PrefixExactly(labels[0]);
    if |first| == 40 && Hex.IsHex(first) { Hex.EncodeOfDecode(first); }
    if |labels| > 1 { DigitsExactly(labels[1]); }
  }

  lemma PrefixExactly(l: seq<byte>)
    ensures TrimHexPrefix(l) == if |l| >= 2 && l[..2] == OfString("0x") then l[2..] else l
  {
    assert OfString("0x") == [0x30, 0x78];
    assert |l| >= 2 ==> l[..2] == [l[0], l[1]];
  }

  lemma DigitsExactly(s: seq<byte>)
    ensures ParsedDecimal(s).Ok? <==>
      1 <= |s| <= 20 && forall i :: 0 <= i < |s| ==> '0' as int <= s[i] <= '9' as int
    ensures ParsedDecimal(s).Ok? ==> ParsedDecimal(s).value == Value(s) % 0x1_0000_0000_0000_0000
  {}

  // ---------------------------------------------------------------- print after parse

  /** The chain label is printed as %d prints it: no leading zero, no more than a uint64. */
  predicate PrintedChain(l: seq<byte>)
  {
    l != [] && AllDigits(l) && (|l| == 1 || l[0] != 0x30) && Value(l) < TWO64
  }

  /** A name laid out as HintName lays it out, with or without a chain label. */
  predicate Printed(name: seq<byte>, hasChain: bool)
  {
    var labels := Split(name, DOT);
    var k := if hasChain then 2 else 1;
    && |labels| > k + 1
    && |labels[0]| == 40 && Hex.IsHex(labels[0]) && Hex.LowerAll(labels[0]) == labels[0]
    && (hasChain ==> PrintedChain(labels[1]))
    && labels[k] == HINTS
  }

  lemma {:induction false} NoLeadingZero(n: nat)
    ensures |Decimal(n)| == 1 || Decimal(n)[0] != 0x30
  {
    if n >= 10 { NoLeadingZero(n / 10); }
  }

  lemma {:induction false} DecimalOfValue(l: seq<byte>)
    requires l != [] && AllDigits(l) && (|l| == 1 || l[0] != 0x30)
    ensures Decimal(Value(l)) == l && (l[0] != 0x30 ==> Value(l) > 0)
  {
    var front, d := l[..|l| - 1], l[|l| - 1] - 0x30;
    assert l == front + [0x30 + d];
    if front != [] {
      DecimalOfValue(front);
      assert Value(l) / 10 == Value(front) && Value(l) % 10 == d;
    } else {
      assert Value(front) == 0;
    }
  }

  lemma PrintsPrinted(account: Keys.address, parent: seq<byte>, chainId: u64, explicitChain: bool)
    ensures Printed(HintName(account, parent, chainId, explicitChain), explicitChain)
  {
    NameSplits(account, parent, chainId, explicitChain);
    var hex := Hex.Encode(account);
    Hex.LowerIsLower(hex);
    Hex.DecodeOfEncode(account);
    NoLeadingZero(chainId);
    ValueOfDecimal(chainId);
  }

  /** Trimming a name cannot reach back past a dot. */
  lemma TrimKeepsFront(pre: seq<byte>, rest: seq<byte>) returns (y: seq<byte>)
    requires pre != [] && Solid(pre[0])
    ensures var s := TrimDot(Trim(Go, pre + [DOT] + rest)); s == pre || s == pre + [DOT] + y
  {
    var t := TrimReaches(pre, rest);
    y := if t != [] && t[|t| - 1] == DOT then t[..|t| - 1] else t;
    DotOff(pre, t);
  }

  lemma TrimReaches(pre: seq<byte>, rest: seq<byte>) returns (t: seq<byte>)
    requires pre != [] && Solid(pre[0])
    ensures Trim(Go, pre + [DOT] + rest) == pre + [DOT] + t
  {
    var name := pre + [DOT] + rest;
    assert name[0] == pre[0] && name[|pre|] == DOT;
    var i, j := TrimIsSlice(Go, name);
    assert i == 0 && j > |pre|;
    t := name[|pre| + 1..j];
  }

  lemma DotOff(pre: seq<byte>, t: seq<byte>)
    ensures TrimDot(pre + [DOT] + t) ==
      if t == [] then pre else pre + [DOT] + (if t[|t| - 1] == DOT then t[..|t| - 1] else t)
  {
    var s := pre + [DOT] + t;
    if t == [] { assert s[..|s| - 1] == pre; }
  }

  /** So the labels in front of it come out of Normalize in lower case, and no others. */
  lemma FrontNormalized(name: seq<byte>, k: nat)
    requires Ascii(name) && Normalized(name).Ok?
    requires k + 1 < |Split(name, DOT)| && Split(name, DOT)[0] != [] && Solid(Split(name, DOT)[0][0])
    ensures var low := Split(Normalized(name).value, DOT);
      |low| > k && forall i :: 0 <= i <= k ==> low[i] == Hex.LowerAll(Split(name, DOT)[i])
  {
    var labels := Split(name, DOT);
    var front, back := labels[..k + 1], labels[k + 1..];
    var pre, s := Join(front, DOT), TrimDot(Trim(Go, name));
    JoinOfSplit(name, DOT);
    JoinConcat(labels, k + 1, DOT);
    SplitFree(name, DOT);
    SplitOfJoin(front, DOT);
    assert pre[0] == front[0][0];
    var y := TrimKeepsFront(pre, Join(back, DOT));
    if s != pre { SplitConcat(pre, y, DOT); }
    assert forall i :: 0 <= i <= k ==> Split(s, DOT)[i] == labels[i];
    LabelsComeBack(s);
  }

  lemma NoHexPrefix(l: seq<byte>)
    requires |l| == 40 && Hex.IsHex(l)
    ensures TrimHexPrefix(l) == l
  {
    assert Hex.IsHexDigit(l[1]);
  }

  lemma ChainPrints(l: seq<byte>)
    requires PrintedChain(l) && ParsedDecimal(Hex.LowerAll(l)).Ok?
    ensures Decimal(ParsedDecimal(Hex.LowerAll(l)).value) == l
  {
    assert forall i :: 0 <= i < |l| ==> IsDigit(l[i]);
    Hex.LowerIsLower(l);
    DecimalOfValue(l);
  }

  /** What a printed name parses to prints its labels. */
  lemma PartsPrint(labels: seq<seq<byte>>, low: seq<seq<byte>>, hasChain: bool)
    requires |labels| >= 2 && |low| >= 2 && low[0] == labels[0] && low[1] == Hex.LowerAll(labels[1])
    requires |labels[0]| == 40 && Hex.IsHex(labels[0]) && Hex.LowerAll(labels[0]) == labels[0]
    requires NamedBy(low).Named? && NamedBy(low).hasChain == hasChain
    requires hasChain ==> PrintedChain(labels[1])
    ensures Hex.Encode(NamedBy(low).account) == labels[0]
    ensures hasChain ==> Decimal(NamedBy(low).chainId) == labels[1]
  {
    NoHexPrefix(labels[0]);
    Hex.EncodeOfDecode(labels[0]);
    if hasChain { ChainPrints(labels[1]); }
  }

  lemma JoinFrom(labels: seq<seq<byte>>, i: nat)
    requires i + 1 < |labels|
    ensures Join(labels[i..], DOT) == labels[i] + [DOT] + Join(labels[i + 1..], DOT)
  {
    assert labels[i..][1..] == labels[i + 1..];
  }

  /** The labels of a printed name, put back together. */
  lemma PrintedJoins(name: seq<byte>, hasChain: bool) returns (parent: seq<byte>)
    requires Printed(name, hasChain)
    ensures var labels := Split(name, DOT);
      var tail := HINTS + [DOT] + parent;
      name == labels[0] + [DOT] + (if hasChain then labels[1] + [DOT] + tail else tail)
  {
    var labels := Split(name, DOT);
    JoinOfSplit(name, DOT);
    JoinFrom(labels, 0);
    JoinFrom(labels, 1);
    if hasChain { JoinFrom(labels, 2); }
    parent := Join(labels[if hasChain then 3 else 2..], DOT);
    assert labels[0..] == labels;
  }

  /** Print after parse. HintName gives a parsed name back, under some parent, exactly when
      the name is laid out as HintName lays names out: its account forty lower-case digits
      without 0x, its chain label, if it has one, without leading zeros and within a
      uint64, then "hints" and a parent. */
  lemma PrintAfterParse(name: seq<byte>)
    requires Ascii(name) && ParsedHintName(name).Named?
    ensures var p := ParsedHintName(name);
      (exists parent :: HintName(p.account, parent, p.chainId, p.hasChain) == name) <==> Printed(name, p.hasChain)
  {
    var p := ParsedHintName(name);
    if parent :| HintName(p.account, parent, p.chainId, p.hasChain) == name {
      PrintsPrinted(p.account, parent, p.chainId, p.hasChain);
    }
    if Printed(name, p.hasChain) {
      var labels := Split(name, DOT);
      assert Hex.IsHexDigit(labels[0][0]);
      FrontNormalized(name, 1);
      PartsPrint(labels, Split(Normalized(name).value, DOT), p.hasChain);
      var parent := PrintedJoins(name, p.hasChain);
      assert HintName(p.account, parent, p.chainId, p.hasChain) == name;
    }
  }

  // ---------------------------------------------------------------- a name too long

  /** n one-letter labels under one more. */
  function Deep(n: nat): (s: seq<byte>)
    ensures |s| == 2 * n + 1
  {
    if n == 0 then [0x61] else [0x61] + [DOT] + Deep(n - 1)
  }

  lemma {:induction false} DeepIsValid(n: nat)
    ensures ValidParent(Deep(n))
  {
    var l: seq<byte> := [0x61];
    if n == 0 {
      SplitFront(l, [], DOT);
    } else {
      DeepIsValid(n - 1);
      SplitFront(l, Deep(n - 1), DOT);
      WireNames.GoodHead(l, Split(Deep(n - 1), DOT));
      OneDeeper(Deep(n - 1));
    }
  }

  lemma OneDeeper(s: seq<byte>)
    requires AllPlain(s)
    ensures AllPlain([0x61] + [DOT] + s)
  {}

  /** Under a valid parent of 513 bytes every account's name prints and none parses. */
  lemma DeepNamesAreRefused(account: Keys.address, chainId: u64, explicitChain: bool)
    ensures ValidParent(Deep(256))
    ensures var name := HintName(account, Deep(256), chainId, explicitChain);
      Ascii(name) && ParsedHintName(name) == NotAnAccount
  {
    DeepIsValid(256);
    NameSurvives(account, Deep(256), chainId, explicitChain);
  }
}
