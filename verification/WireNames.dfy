/** DNS wire names (internal/ens/ens.go, web/ensrec.js): section 3.1 of RFC 1035 as
    ENSIP-10 uses it. */
module WireNames {
  import opened Bytes
  import opened Text
  import opened Wrappers

  const DOT: byte := 0x2e

  type Label = seq<byte>

  /** byte(len(l)) and the label; an empty label is skipped. */
  function WireLabel(l: Label): seq<byte>
  {
    if l == [] then [] else [|l| % 256] + l
  }

  function Wire(labels: seq<Label>): seq<byte>
  {
    if labels == [] then [0] else WireLabel(labels[0]) + Wire(labels[1..])
  }

  function Encoded(name: seq<byte>): seq<byte>
  {
    Wire(Split(name, DOT))
  }

  function Parse(b: seq<byte>): Result<seq<Label>>
  {
    if b == [] then Err
    else
      var n := b[0];
      if n == 0 then (if |b| == 1 then Ok([]) else Err)
      else if n > 63 || 1 + n > |b| then Err
      else
        match Parse(b[1 + n..])
        case Err => Err
        case Ok(rest) => Ok([b[1..1 + n]] + rest)
  }

  function Decoded(b: seq<byte>): Result<seq<byte>>
  {
    match Parse(b) case Err => Err case Ok(labels) => Ok(Join(labels, DOT))
  }

  predicate GoodLabel(l: Label) { 1 <= |l| <= 63 }

  predicate Good(labels: seq<Label>) { forall i :: 0 <= i < |labels| ==> GoodLabel(labels[i]) }

  predicate NoEmpty(labels: seq<Label>) { forall i :: 0 <= i < |labels| ==> labels[i] != [] }

  // ---------------------------------------------------------------- reading what was written

  ghost function Prefixed(labels: seq<Label>, r: Result<seq<Label>>): Result<seq<Label>>
  {
    match r case Err => Err case Ok(rest) => Ok(labels + rest)
  }

  lemma PrefixedStep(labels: seq<Label>, l: Label, r: Result<seq<Label>>)
    ensures Prefixed(labels, Prefixed([l], r)) == Prefixed(labels + [l], r)
  {
    if r.Ok? { assert labels + ([l] + r.value) == labels + [l] + r.value; }
  }

  lemma ParseCut(b: seq<byte>)
    requires b != []
    ensures var n := b[0];
      Parse(b) ==
        if n == 0 then (if |b| == 1 then Ok([]) else Err)
        else if n > 63 || 1 + n > |b| then Err
        else Prefixed([b[1..1 + n]], Parse(b[1 + n..]))
  {}

  /** What the next length byte decides. */
  lemma ParseAt(b: seq<byte>, i: nat)
    requires i < |b|
    ensures var n := b[i];
      Parse(b[i..]) ==
        if n == 0 then (if i + 1 == |b| then Ok([]) else Err)
        else if n > 63 || i + 1 + n > |b| then Err
        else Prefixed([b[i + 1..i + 1 + n]], Parse(b[i + 1 + n..]))
  {
    var c, n := b[i..], b[i];
    ParseCut(c);
    if n > 0 && i + 1 + n <= |b| {
      assert c[1..1 + n] == b[i + 1..i + 1 + n] && c[1 + n..] == b[i + 1 + n..];
    }
  }

  /** One label off the front of a wire. */
  lemma ParseStep(l: Label, w: seq<byte>)
    requires GoodLabel(l)
    ensures Parse(WireLabel(l) + w) == Prefixed([l], Parse(w))
  {
    var b := WireLabel(l) + w;
    assert b[0] == |l| && b[1..1 + |l|] == l && b[1 + |l|..] == w;
    ParseCut(b);
  }

  lemma {:induction false} ParseOfWire(labels: seq<Label>)
    requires Good(labels)
    ensures Parse(Wire(labels)) == Ok(labels)
  {
    if labels != [] {
      ParseOfWire(labels[1..]);
      ParseStep(labels[0], Wire(labels[1..]));
      assert labels == [labels[0]] + labels[1..];
    }
  }

  /** The name read back from a wire of non-empty labels is the name written. */
  ghost predicate Survives(labels: seq<Label>)
  {
    Parse(Wire(labels)).Ok? && Join(Parse(Wire(labels)).value, DOT) == Join(labels, DOT)
  }

  lemma JoinHead(l: Label, rest: seq<Label>)
    ensures Join([l] + rest, DOT) == if rest == [] then l else l + [DOT] + Join(rest, DOT)
  {
    assert ([l] + rest)[1..] == rest;
  }

  /** A first label that fits leaves the question to the rest. */
  lemma FittingLabel(l: Label, rest: seq<Label>)
    requires GoodLabel(l) && rest != [] && NoEmpty(rest)
    ensures Survives([l] + rest) <==> Survives(rest)
  {
    var labels := [l] + rest;
    assert labels[1..] == rest;
    ParseStep(l, Wire(rest));
    JoinHead(l, rest);
    JoinLong(rest);
    if Parse(Wire(rest)).Ok? {
      var p := Parse(Wire(rest)).value;
      JoinHead(l, p);
      var x, y := Join([l] + p, DOT), Join(labels, DOT);
      assert y[|l| + 1..] == Join(rest, DOT) && |y| > |l|;
      if p != [] { assert x[|l| + 1..] == Join(p, DOT); }
    }
  }

  /** A label over 63 bytes breaks the name: its length byte, truncated, either is
      refused or cuts the label short of where the next dot could be. */
  lemma {:induction false} SurvivesIffGood(labels: seq<Label>)
    requires labels != [] && NoEmpty(labels) && Free(labels, DOT)
    ensures Survives(labels) <==> Good(labels)
  {
    var l, rest := labels[0], labels[1..];
    assert labels == [l] + rest && l != [] && DOT !in l;
    GoodHead(l, rest);
    if |l| > 63 {
      LongLabelBreaks(l, rest);
    } else if rest == [] {
      ParseOfWire(labels);
    } else {
      FittingLabel(l, rest);
      SurvivesIffGood(rest);
    }
  }

  lemma GoodHead(l: Label, rest: seq<Label>)
    ensures Good([l] + rest) <==> GoodLabel(l) && Good(rest)
  {
    var labels := [l] + rest;
    assert labels[0] == l;
    assert forall i :: 0 <= i < |rest| ==> rest[i] == labels[i + 1];
    assert forall i :: 0 < i < |labels| ==> labels[i] == rest[i - 1];
  }

  lemma LongLabelBreaks(l: Label, rest: seq<Label>)
    requires |l| > 63 && DOT !in l
    ensures !Survives([l] + rest)
  {
    assert ([l] + rest)[1..] == rest;
    Truncated(l, |l| % 256, Wire(rest), rest);
  }

  /** A label behind a length byte that is not its length, or is over the limit. */
  lemma Truncated(l: Label, n: byte, w: seq<byte>, rest: seq<Label>)
    requires |l| > 63 && DOT !in l && (n < |l| || n > 63)
    ensures var r := Parse([n] + l + w); r.Ok? ==> Join(r.value, DOT) != Join([l] + rest, DOT)
  {
    var b := [n] + l + w;
    if Parse(b).Ok? {
      var cut, w' := FirstLabel(b);
      assert cut == l[..n] by { assert b[1..1 + n] == cut; }
      CutShort(l, rest, n, Parse(w').value);
    }
  }

  /** A name that breaks inside its first label is another name. */
  lemma CutShort(l: Label, rest: seq<Label>, n: nat, p: seq<Label>)
    requires 0 < n < |l| && DOT !in l
    ensures Join([l[..n]] + p, DOT) != Join([l] + rest, DOT)
  {
    JoinHead(l, rest);
    JoinHead(l[..n], p);
    var x, y := Join([l[..n]] + p, DOT), Join([l] + rest, DOT);
    assert y[n] == l[n] != DOT;
    assert |x| == n || x[n] == DOT;
  }

  lemma JoinLong(labels: seq<Label>)
    requires labels != [] && NoEmpty(labels)
    ensures Join(labels, DOT) != []
  {
    assert labels[0] != [];
  }

  // ---------------------------------------------------------------- empty labels

  /** One byte per label and one per character: what a name and its wire measure. */
  lemma {:induction false} Lengths(labels: seq<Label>)
    requires labels != []
    ensures |Join(labels, DOT)| + 2 >= |Wire(labels)|
    ensures |Join(labels, DOT)| + 2 == |Wire(labels)| <==> NoEmpty(labels)
  {
    if |labels| == 1 {
      assert labels[1..] == [];
    } else {
      Lengths(labels[1..]);
      assert NoEmpty(labels) <==> labels[0] != [] && NoEmpty(labels[1..]) by {
        assert forall i :: 0 < i < |labels| ==> labels[i] == labels[1..][i - 1];
      }
    }
  }

  /** An accepted wire that is not just the terminator begins with a whole label. */
  lemma FirstLabel(b: seq<byte>) returns (l: Label, w: seq<byte>)
    requires Parse(b).Ok? && b != [0]
    ensures GoodLabel(l) && b == [|l|] + l + w && |w| < |b|
    ensures Parse(w).Ok? && Parse(b).value == [l] + Parse(w).value
  {
    ParseCut(b);
    l, w := b[1..1 + b[0]], b[1 + b[0]..];
  }

  lemma GoodStep(b: seq<byte>, l: Label, rest: seq<Label>)
    requires GoodLabel(l) && Good(rest) && b == [|l|] + l + Wire(rest)
    ensures Good([l] + rest) && Wire([l] + rest) == b
  {
    GoodHead(l, rest);
    WireHead(l, rest);
  }

  lemma {:induction false} ParsedIsGood(b: seq<byte>)
    requires Parse(b).Ok?
    ensures Good(Parse(b).value) && Wire(Parse(b).value) == b
  {
    if b != [0] {
      var l, w := FirstLabel(b);
      ParsedIsGood(w);
      GoodStep(b, l, Parse(w).value);
    }
  }

  lemma WireHead(l: Label, rest: seq<Label>)
    requires GoodLabel(l)
    ensures Wire([l] + rest) == [|l|] + l + Wire(rest)
  {
    assert ([l] + rest)[1..] == rest;
  }

  /** DNSDecode undoes DNSEncode exactly on the empty name and on names whose labels are
      all between 1 and 63 bytes long. */
  lemma DecodeOfEncode(name: seq<byte>)
    ensures Decoded(Encoded(name)) == Ok(name) <==> name == [] || Good(Split(name, DOT))
    ensures name != [] && Good(Split(name, DOT)) ==> Parse(Encoded(name)) == Ok(Split(name, DOT))
  {
    var labels := Split(name, DOT);
    JoinOfSplit(name, DOT);
    SplitFree(name, DOT);
    if NoEmpty(labels) {
      SurvivesIffGood(labels);
      if Good(labels) { ParseOfWire(labels); }
    } else {
      Lengths(labels);
      var b := Wire(labels);
      if Parse(b).Ok? && Parse(b).value != [] {
        ParsedIsGood(b);
        Lengths(Parse(b).value);
      }
    }
  }

  /** An accepted wire name is written back byte for byte exactly when none of its labels
      holds a dot. */
  lemma EncodeOfDecode(b: seq<byte>)
    requires Parse(b).Ok?
    ensures Encoded(Decoded(b).value) == b <==> Free(Parse(b).value, DOT)
  {
    var labels := Parse(b).value;
    var name := Join(labels, DOT);
    ParsedIsGood(b);
    if labels == [] {
      var empty: seq<Label> := [[]];
      assert empty[1..] == [] && Wire(empty) == [0];
    } else {
      if Free(labels, DOT) { SplitOfJoin(labels, DOT); }
      if Encoded(name) == b {
        JoinLong(labels);
        DecodeOfEncode(name);
        SplitFree(name, DOT);
      }
    }
  }

  /** The name "." is not the empty name, and comes back as it. */
  lemma LoneDotIsLost()
    ensures Encoded([DOT]) == [0] && Decoded(Encoded([DOT])) == Ok([])
  {
    var empty: Label := [];
    assert [DOT][1..] == empty;
    assert Split([DOT], DOT) == [empty, empty];
    var two, one, none := [empty, empty], [empty], [empty][1..];
    assert two[1..] == one && none == [];
    assert Wire(none) == [0] && Wire(one) == [] + Wire(none) && Wire(two) == [] + Wire(one);
    assert Parse([0]) == Ok([]);
  }

  /** A wire name of one label that is a dot: accepted, and written back as no label. */
  lemma DottedLabelIsLost()
    ensures Parse([1, DOT, 0]) == Ok([[DOT]]) && Decoded([1, DOT, 0]) == Ok([DOT])
    ensures Encoded(Decoded([1, DOT, 0]).value) == [0]
  {
    var b: seq<byte> := [1, DOT, 0];
    assert WireLabel([DOT]) + [0] == b;
    ParseStep([DOT], [0]);
    assert [[DOT]] + [] == [[DOT]];
    assert Parse([0]) == Ok([]) && Join([[DOT]], DOT) == [DOT];
    LoneDotIsLost();
  }

  /** Where label i begins. */
  function At(labels: seq<Label>, i: nat): nat
    requires i <= |labels|
  {
    if i == 0 then 0 else At(labels, i - 1) + 1 + |labels[i - 1]|
  }

  lemma {:induction false} WireLength(labels: seq<Label>)
    requires Good(labels)
    ensures var b := Wire(labels); |b| == At(labels, |labels|) + 1 && b[|b| - 1] == 0
  {
    if labels != [] {
      var l, rest := labels[0], labels[1..];
      assert labels == [l] + rest;
      GoodHead(l, rest);
      WireHead(l, rest);
      AtShift(labels, |labels|);
      WireLength(rest);
    }
  }

  /** Section 3.1 of RFC 1035: a length byte before each label, and a zero byte after the
      last. */
  lemma {:induction false} WireLayout(labels: seq<Label>, i: nat)
    requires Good(labels) && i < |labels|
    ensures Placed(Wire(labels), At(labels, i), labels[i])
  {
    var l, rest := labels[0], labels[1..];
    assert labels == [l] + rest;
    GoodHead(l, rest);
    WireHead(l, rest);
    if i == 0 {
      WireLength(rest);
      FirstPlaced(l, Wire(rest));
    } else {
      WireLayout(rest, i - 1);
      AtShift(labels, i);
      Shifted(l, Wire(rest), At(rest, i - 1), labels[i]);
    }
  }

  /** Label `l` lies at `o`, behind its length, and is not the end. */
  predicate Placed(b: seq<byte>, o: nat, l: Label)
  {
    o + 1 + |l| < |b| && b[o] == |l| && b[o + 1..o + 1 + |l|] == l
  }

  lemma FirstPlaced(l: Label, w: seq<byte>)
    requires |l| < 256 && w != []
    ensures Placed([|l|] + l + w, 0, l)
  {}

  lemma Shifted(l: Label, w: seq<byte>, o: nat, m: Label)
    requires Placed(w, o, m) && |l| < 256
    ensures Placed([|l|] + l + w, o + 1 + |l|, m)
  {
    var b, p := [|l|] + l + w, o + 1 + |l|;
    assert b[p + 1..p + 1 + |m|] == w[o + 1..o + 1 + |m|];
  }

  lemma {:induction false} AtShift(labels: seq<Label>, i: nat)
    requires 0 < i <= |labels|
    ensures At(labels, i) == 1 + |labels[0]| + At(labels[1..], i - 1)
  {
    if i > 1 { AtShift(labels, i - 1); }
  }

  // ---------------------------------------------------------------- the browser's encoder

  function JsWire(labels: seq<Label>): seq<byte>
    requires forall i :: 0 <= i < |labels| ==> |labels[i]| <= 63
  {
    if labels == [] then [0] else [|labels[0]|] + labels[0] + JsWire(labels[1..])
  }

  /** dnsEncode of web/ensrec.js: throws on a long label, keeps an empty one. */
  function JsEncoded(name: seq<byte>): Result<seq<byte>>
  {
    var labels := Split(name, DOT);
    if forall i :: 0 <= i < |labels| ==> |labels[i]| <= 63 then Ok(JsWire(labels)) else Err
  }

  lemma {:induction false} JsWireLonger(labels: seq<Label>)
    requires forall i :: 0 <= i < |labels| ==> |labels[i]| <= 63
    ensures |JsWire(labels)| >= |Wire(labels)|
    ensures JsWire(labels) == Wire(labels) <==> NoEmpty(labels)
    ensures !NoEmpty(labels) ==> |JsWire(labels)| > |Wire(labels)|
  {
    if labels != [] {
      JsWireLonger(labels[1..]);
      assert NoEmpty(labels) <==> labels[0] != [] && NoEmpty(labels[1..]) by {
        assert forall i :: 0 < i < |labels| ==> labels[i] == labels[1..][i - 1];
      }
    }
  }

  /** The two encoders write the same bytes exactly for names whose labels are all between
      1 and 63 bytes long. On the empty name, which does come back, the browser writes an
      empty label that Go skips. */
  lemma EncodersAgreeIff(name: seq<byte>)
    ensures JsEncoded(name) == Ok(Encoded(name)) <==> Good(Split(name, DOT))
  {
    var labels := Split(name, DOT);
    if forall i :: 0 <= i < |labels| ==> |labels[i]| <= 63 { JsWireLonger(labels); }
  }

  // ---------------------------------------------------------------- the program

  /** The wire, once the labels from `i` on are written after `out`. */
  ghost function ToCome(out: seq<byte>, labels: seq<Label>, i: nat): seq<byte>
    requires i <= |labels|
  {
    out + Wire(labels[i..])
  }

  lemma ToComeEnds(out: seq<byte>, labels: seq<Label>)
    ensures ToCome([], labels, 0) == Wire(labels) && ToCome(out, labels, |labels|) == out + [0]
  {
    assert labels[0..] == labels && [] + Wire(labels) == Wire(labels);
  }

  lemma EncodeStep(out: seq<byte>, labels: seq<Label>, i: nat)
    requires i < |labels|
    ensures ToCome(out, labels, i) == ToCome(out + WireLabel(labels[i]), labels, i + 1)
    ensures labels[i] == [] ==> out + WireLabel(labels[i]) == out
  {
    WireFrom(labels, i);
    Regroup(out, WireLabel(labels[i]), Wire(labels[i + 1..]));
  }

  lemma WireFrom(labels: seq<Label>, i: nat)
    requires i < |labels|
    ensures Wire(labels[i..]) == WireLabel(labels[i]) + Wire(labels[i + 1..])
  {
    assert labels[i..][1..] == labels[i + 1..];
  }

  lemma Regroup(a: seq<byte>, b: seq<byte>, c: seq<byte>)
    ensures a + (b + c) == a + b + c
  {}

  /** DNSEncode. */
  method DNSEncode(name: seq<byte>) returns (out: seq<byte>)
    ensures out == Encoded(name)
  {
    out := [];
    var labels, i := Split(name, DOT), 0;
    ToComeEnds(out, labels);
    while i < |labels|
      invariant i <= |labels| && ToCome(out, labels, i) == Wire(labels)
    {
      EncodeStep(out, labels, i);
      var l := labels[i];
      if l != [] { out := out + ([|l| % 256] + l); }
      i := i + 1;
    }
    ToComeEnds(out, labels);
    out := out + [0];
  }

  /** What is still to come of a decoding that has `labels` and stands at `i`. */
  ghost function Rest(b: seq<byte>, i: nat, labels: seq<Label>): Result<seq<Label>>
    requires i <= |b|
  {
    Prefixed(labels, Parse(b[i..]))
  }

  lemma RestAtStart(b: seq<byte>)
    ensures Rest(b, 0, []) == Parse(b)
  {
    assert b[0..] == b;
    if Parse(b).Ok? { assert [] + Parse(b).value == Parse(b).value; }
  }

  lemma RestStep(b: seq<byte>, i: nat, labels: seq<Label>)
    requires i < |b|
    ensures var n := b[i];
      && (n == 0 ==> Rest(b, i, labels) == if i + 1 == |b| then Ok(labels) else Err)
      && (n > 63 || i + 1 + n > |b| ==> n > 0 ==> Rest(b, i, labels) == Err)
      && (1 <= n <= 63 && i + 1 + n <= |b| ==>
            Rest(b, i, labels) == Rest(b, i + 1 + n, labels + [b[i + 1..i + 1 + n]]))
  {
    var n := b[i];
    ParseAt(b, i);
    assert labels + [] == labels;
    if i + 1 + n <= |b| { PrefixedStep(labels, b[i + 1..i + 1 + n], Parse(b[i + 1 + n..])); }
  }

  /** DNSDecode: a cursor over the wire, collecting labels. */
  method DNSDecode(b: seq<byte>) returns (r: Result<seq<byte>>)
    ensures r == Decoded(b)
  {
    var labels: seq<Label> := [];
    var i := 0;
    RestAtStart(b);
    while true
      invariant 0 <= i <= |b|
      invariant Parse(b) == Rest(b, i, labels)
      decreases |b| - i
    {
      if i >= |b| { return Err; }
      var n := b[i];
      RestStep(b, i, labels);
      if n == 0 { break; }
      if n > 63 || i + 1 + n > |b| { return Err; }
      labels := labels + [b[i + 1..i + 1 + n]];
      i := i + 1 + n;
    }
    if i + 1 != |b| { return Err; }
    r := Ok(Join(labels, DOT));
  }
}
