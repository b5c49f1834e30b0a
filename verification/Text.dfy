/** Splitting and joining text on a separator byte, as strings.Split and strings.Join
    (and their JavaScript counterparts) do. Go strings are bytes. */
module Text {
  import opened Bytes

  function Split(s: seq<byte>, sep: byte): (parts: seq<seq<byte>>)
    ensures parts != []
  {
    if s == [] then [[]]
    else
      var rest := Split(s[1..], sep);
      if s[0] == sep then [[]] + rest else [[s[0]] + rest[0]] + rest[1..]
  }

  function Join(parts: seq<seq<byte>>, sep: byte): seq<byte>
  {
    if parts == [] then [] else if |parts| == 1 then parts[0]
    else parts[0] + [sep] + Join(parts[1..], sep)
  }

  predicate Free(parts: seq<seq<byte>>, sep: byte)
  {
    forall i :: 0 <= i < |parts| ==> sep !in parts[i]
  }

  lemma {:induction false} SplitFree(s: seq<byte>, sep: byte)
    ensures Free(Split(s, sep), sep)
  {
    if s != [] { SplitFree(s[1..], sep); }
  }

  /** One more byte in front of the first part. */
  lemma JoinLonger(c: byte, parts: seq<seq<byte>>, sep: byte)
    requires parts != []
    ensures Join([[c] + parts[0]] + parts[1..], sep) == [c] + Join(parts, sep)
  {
    var whole := [[c] + parts[0]] + parts[1..];
    assert whole[1..] == parts[1..];
    if |parts| > 1 {
      assert [c] + (parts[0] + [sep] + Join(parts[1..], sep)) == [c] + parts[0] + [sep] + Join(parts[1..], sep);
    }
  }

  lemma {:induction false} JoinOfSplit(s: seq<byte>, sep: byte)
    ensures Join(Split(s, sep), sep) == s
  {
    if s != [] {
      JoinOfSplit(s[1..], sep);
      var rest := Split(s[1..], sep);
      assert s == [s[0]] + s[1..];
      if s[0] == sep {
        assert ([[]] + rest)[1..] == rest;
      } else {
        JoinLonger(s[0], rest, sep);
      }
    }
  }

  lemma {:induction false} SplitFront(p: seq<byte>, rest: seq<byte>, sep: byte)
    requires sep !in p
    ensures Split(p + [sep] + rest, sep) == [p] + Split(rest, sep)
    ensures Split(p, sep) == [p]
  {
    var s := p + [sep] + rest;
    if p == [] {
      assert s[0] == sep && s[1..] == rest;
    } else {
      SplitFront(p[1..], rest, sep);
      assert s[1..] == p[1..] + [sep] + rest;
      assert s[0] == p[0] != sep;
      assert [p[0]] + p[1..] == p;
    }
  }

  lemma {:induction false} SplitOfJoin(parts: seq<seq<byte>>, sep: byte)
    requires parts != [] && Free(parts, sep)
    ensures Split(Join(parts, sep), sep) == parts
  {
    if |parts| == 1 {
      SplitFront(parts[0], [], sep);
    } else {
      SplitOfJoin(parts[1..], sep);
      SplitFront(parts[0], Join(parts[1..], sep), sep);
    }
  }

  lemma {:induction false} SplitConcat(a: seq<byte>, b: seq<byte>, sep: byte)
    ensures Split(a + [sep] + b, sep) == Split(a, sep) + Split(b, sep)
  {
    var s := a + [sep] + b;
    if a == [] {
      assert s[0] == sep && s[1..] == b;
    } else {
      SplitConcat(a[1..], b, sep);
      assert s[1..] == a[1..] + [sep] + b && s[0] == a[0];
      SplitHead(a, Split(b, sep), sep);
    }
  }

  lemma SplitHead(a: seq<byte>, more: seq<seq<byte>>, sep: byte)
    requires a != []
    ensures var rest := Split(a[1..], sep) + more;
      Split(a, sep) + more == if a[0] == sep then [[]] + rest else [[a[0]] + rest[0]] + rest[1..]
  {
    var front := Split(a[1..], sep);
    if a[0] == sep {
      assert [[]] + (front + more) == [[]] + front + more;
    } else {
      assert (front + more)[1..] == front[1..] + more;
    }
  }

  lemma {:induction false} JoinConcat(parts: seq<seq<byte>>, n: nat, sep: byte)
    requires 0 < n < |parts|
    ensures Join(parts, sep) == Join(parts[..n], sep) + [sep] + Join(parts[n..], sep)
  {
    if n > 1 {
      JoinConcat(parts[1..], n - 1, sep);
      assert parts[1..][..n - 1] == parts[..n][1..] && parts[1..][n - 1..] == parts[n..];
    }
  }

  // ---------------------------------------------------------------- white space

  /** Whose idea of white space: strings.TrimSpace in Go, trim() in JavaScript. */
  datatype Side = Go | Js

  /** White space to both, as UTF-8: ASCII blanks, and Unicode's space, line and paragraph
      separators. */
  predicate SharedSpace(w: seq<byte>)
  {
    || (|w| == 1 && (0x09 <= w[0] <= 0x0d || w[0] == 0x20))
    || (|w| == 2 && w[0] == 0xc2 && w[1] == 0xa0)
    || (|w| == 3 && w[0] == 0xe1 && w[1] == 0x9a && w[2] == 0x80)
    || (|w| == 3 && w[0] == 0xe2 && w[1] == 0x80 && (0x80 <= w[2] <= 0x8a || 0xa8 <= w[2] <= 0xa9 || w[2] == 0xaf))
    || (|w| == 3 && w[0] == 0xe2 && w[1] == 0x81 && w[2] == 0x9f)
    || (|w| == 3 && w[0] == 0xe3 && w[1] == 0x80 && w[2] == 0x80)
  }

  /** U+0085 is white space to Go alone, U+FEFF to JavaScript alone. */
  predicate Space(side: Side, w: seq<byte>)
  {
    SharedSpace(w) || w == (if side.Go? then [0xc2, 0x85] else [0xef, 0xbb, 0xbf])
  }

  predicate Starts(side: Side, s: seq<byte>, n: nat) { n <= |s| && Space(side, s[..n]) }

  predicate Ends(side: Side, s: seq<byte>, n: nat) { n <= |s| && Space(side, s[|s| - n..]) }

  /** Bytes of white space at the front of `s`, up to one character. */
  function Lead(side: Side, s: seq<byte>): (n: nat)
    ensures n <= |s|
  {
    if Starts(side, s, 1) then 1 else if Starts(side, s, 2) then 2 else if Starts(side, s, 3) then 3 else 0
  }

  /** ... and at the back. */
  function Trail(side: Side, s: seq<byte>): (n: nat)
    ensures n <= |s|
  {
    if Ends(side, s, 1) then 1 else if Ends(side, s, 2) then 2 else if Ends(side, s, 3) then 3 else 0
  }

  function Trim(side: Side, s: seq<byte>): seq<byte>
    decreases |s|
  {
    if Lead(side, s) > 0 then Trim(side, s[Lead(side, s)..])
    else if Trail(side, s) > 0 then Trim(side, s[..|s| - Trail(side, s)])
    else s
  }

  /** A printable ASCII character other than the blank: no part of any white space. */
  predicate Solid(c: byte) { 0x20 < c < 0x7f }

  /** No solid byte from i up to j. */
  predicate Hollow(s: seq<byte>, i: int, j: int)
    requires 0 <= i <= j <= |s|
  {
    forall k :: i <= k < j ==> !Solid(s[k])
  }

  predicate SolidEdges(s: seq<byte>) { s != [] && Solid(s[0]) && Solid(s[|s| - 1]) }

  lemma SpaceIsHollow(side: Side, w: seq<byte>)
    requires Space(side, w)
    ensures Hollow(w, 0, |w|)
  {}

  lemma LeadIsHollow(side: Side, s: seq<byte>)
    ensures Hollow(s, 0, Lead(side, s))
  {
    var w := s[..Lead(side, s)];
    if w != [] { SpaceIsHollow(side, w); }
    assert forall k :: 0 <= k < |w| ==> w[k] == s[k];
  }

  lemma TrailIsHollow(side: Side, s: seq<byte>)
    ensures Hollow(s, |s| - Trail(side, s), |s|)
  {
    var m := |s| - Trail(side, s);
    var w := s[m..];
    if w != [] { SpaceIsHollow(side, w); }
    assert forall k :: m <= k < |s| ==> s[k] == w[k - m];
  }

  /** `t` is `s` without hollow bytes at its two ends, from i up to j. */
  predicate Cut(s: seq<byte>, t: seq<byte>, i: int, j: int)
  {
    0 <= i <= j <= |s| && t == s[i..j] && Hollow(s, 0, i) && Hollow(s, j, |s|)
  }

  lemma CutFront(s: seq<byte>, n: nat, t: seq<byte>, i: int, j: int)
    requires n <= |s| && Hollow(s, 0, n) && Cut(s[n..], t, i, j)
    ensures Cut(s, t, i + n, j + n)
  {
    var u := s[n..];
    assert forall k :: n <= k < |s| ==> s[k] == u[k - n];
    assert u[i..j] == s[i + n..j + n];
  }

  lemma CutBack(s: seq<byte>, m: nat, t: seq<byte>, i: int, j: int)
    requires m <= |s| && Hollow(s, m, |s|) && Cut(s[..m], t, i, j)
    ensures Cut(s, t, i, j)
  {
    assert s[..m][i..j] == s[i..j];
  }

  /** Trimming takes hollow bytes off the two ends and nothing else. */
  lemma {:induction false} TrimIsSlice(side: Side, s: seq<byte>) returns (i: nat, j: nat)
    ensures Cut(s, Trim(side, s), i, j)
    decreases |s|
  {
    var n, m := Lead(side, s), |s| - Trail(side, s);
    if n > 0 {
      i, j := TrimIsSlice(side, s[n..]);
      SliceAfterLead(side, s, n, i, j);
      i, j := i + n, j + n;
    } else if m < |s| {
      i, j := TrimIsSlice(side, s[..m]);
      SliceAfterTrail(side, s, m, i, j);
    } else {
      i, j := 0, |s|;
      assert Trim(side, s) == s == s[0..|s|];
    }
  }

  lemma SliceAfterLead(side: Side, s: seq<byte>, n: nat, i: int, j: int)
    requires n == Lead(side, s) > 0 && Cut(s[n..], Trim(side, s[n..]), i, j)
    ensures Cut(s, Trim(side, s), i + n, j + n)
  {
    LeadIsHollow(side, s);
    TrimFrom(side, s, n);
    CutFront(s, n, Trim(side, s[n..]), i, j);
  }

  lemma SliceAfterTrail(side: Side, s: seq<byte>, m: nat, i: int, j: int)
    requires Lead(side, s) == 0 && m == |s| - Trail(side, s) < |s| && Cut(s[..m], Trim(side, s[..m]), i, j)
    ensures Cut(s, Trim(side, s), i, j)
  {
    TrailIsHollow(side, s);
    assert Trim(side, s) == Trim(side, s[..m]);
    CutBack(s, m, Trim(side, s[..m]), i, j);
  }

  /** Without white space in front, what is left begins where the text does. */
  lemma {:induction false} FrontStays(side: Side, s: seq<byte>)
    requires Lead(side, s) == 0 && Trim(side, s) != []
    ensures s != [] && Trim(side, s)[0] == s[0]
    decreases |s|
  {
    var m := |s| - Trail(side, s);
    if m < |s| {
      var t := s[..m];
      LeadOfPrefix(side, s, m);
      assert Trim(side, s) == Trim(side, t);
      FrontStays(side, t);
    }
  }

  /** Both texts end in the same byte. */
  predicate SameEnd(s: seq<byte>, t: seq<byte>) { s != [] && t != [] && s[|s| - 1] == t[|t| - 1] }

  lemma EndIsSolid(t: seq<byte>, q: seq<byte>, s: seq<byte>)
    requires SameEnd(t, q) && SameEnd(s, q) && SolidEdges(t)
    ensures s != [] && Solid(s[|s| - 1])
  {}

  lemma SuffixEnd(s: seq<byte>, n: nat)
    requires n < |s|
    ensures SameEnd(s, s[n..])
  {}

  /** ... and without any at the back it ends where the text does. */
  lemma {:induction false} BackStays(side: Side, s: seq<byte>)
    requires Trail(side, s) == 0 && Trim(side, s) != []
    ensures SameEnd(Trim(side, s), s)
    decreases |s|
  {
    var n := Lead(side, s);
    if n > 0 {
      TrailOfSuffix(side, s, n);
      TrimFrom(side, s, n);
      BackStays(side, s[n..]);
      SuffixEnd(s, n);
    } else {
      assert Trim(side, s) == s;
    }
  }

  lemma TrimFrom(side: Side, s: seq<byte>, n: nat)
    requires n == Lead(side, s) > 0
    ensures Trim(side, s) == Trim(side, s[n..]) && (Trim(side, s) != [] ==> n < |s|)
  {
    if n == |s| { assert s[n..] == [] && Trim(side, []) == []; }
  }

  lemma LeadOfPrefix(side: Side, s: seq<byte>, m: nat)
    requires m <= |s| && Lead(side, s) == 0
    ensures Lead(side, s[..m]) == 0
  {
    StartsOfPrefix(side, s, m, 1);
    StartsOfPrefix(side, s, m, 2);
    StartsOfPrefix(side, s, m, 3);
  }

  lemma StartsOfPrefix(side: Side, s: seq<byte>, m: nat, n: nat)
    requires m <= |s|
    ensures Starts(side, s[..m], n) ==> Starts(side, s, n)
  {
    if n <= m { assert s[..m][..n] == s[..n]; }
  }

  lemma TrailOfSuffix(side: Side, s: seq<byte>, m: nat)
    requires m <= |s| && Trail(side, s) == 0
    ensures Trail(side, s[m..]) == 0
  {
    EndsOfSuffix(side, s, m, 1);
    EndsOfSuffix(side, s, m, 2);
    EndsOfSuffix(side, s, m, 3);
  }

  lemma EndsOfSuffix(side: Side, s: seq<byte>, m: nat, n: nat)
    requires m <= |s|
    ensures Ends(side, s[m..], n) ==> Ends(side, s, n)
  {
    if n <= |s| - m { assert s[m..][|s| - m - n..] == s[|s| - n..]; }
  }

  /** There is nothing to trim between solid edges. */
  lemma TrimKeeps(side: Side, s: seq<byte>)
    requires SolidEdges(s)
    ensures Lead(side, s) == 0 && Trail(side, s) == 0 && Trim(side, s) == s
  {
    LeadIsHollow(side, s);
    TrailIsHollow(side, s);
  }

  lemma {:induction false} Trimmed(side: Side, s: seq<byte>)
    ensures Lead(side, Trim(side, s)) == 0 && Trail(side, Trim(side, s)) == 0
    decreases |s|
  {
    if Lead(side, s) > 0 {
      Trimmed(side, s[Lead(side, s)..]);
    } else if Trail(side, s) > 0 {
      Trimmed(side, s[..|s| - Trail(side, s)]);
    }
  }

  /** A text has one cut that is empty or has solid edges. */
  lemma SolidCut(s: seq<byte>, t: seq<byte>, i: int, j: int, u: seq<byte>, k: int, l: int)
    requires Cut(s, t, i, j) && (t == [] || SolidEdges(t))
    requires Cut(s, u, k, l) && (u == [] || SolidEdges(u))
    ensures t == u
  {
    assert t != [] ==> Solid(s[i]) && Solid(s[j - 1]);
    assert u != [] ==> Solid(s[k]) && Solid(s[l - 1]);
  }

  /** So wherever both sides trim to nothing or to solid edges, they trim alike. */
  lemma TrimsAgree(s: seq<byte>)
    requires Trim(Go, s) == [] || SolidEdges(Trim(Go, s))
    requires Trim(Js, s) == [] || SolidEdges(Trim(Js, s))
    ensures Trim(Go, s) == Trim(Js, s)
  {
    var i, j := TrimIsSlice(Go, s);
    var k, l := TrimIsSlice(Js, s);
    SolidCut(s, Trim(Go, s), i, j, Trim(Js, s), k, l);
  }

  lemma OnePart(s: seq<byte>, sep: byte)
    requires |Split(s, sep)| == 1
    ensures Split(s, sep)[0] == s
  {
    JoinOfSplit(s, sep);
  }

  lemma {:induction false} FirstPart(s: seq<byte>, sep: byte)
    ensures var p := Split(s, sep)[0]; |p| <= |s| && p == s[..|p|]
  {
    if s != [] && s[0] != sep {
      var t, p := s[1..], Split(s[1..], sep)[0];
      FirstPart(t, sep);
      assert s[..1 + |p|] == [s[0]] + t[..|p|];
    }
  }

  lemma {:induction false} LastPart(s: seq<byte>, sep: byte)
    ensures var parts := Split(s, sep); var q := parts[|parts| - 1]; |q| <= |s| && q == s[|s| - |q|..]
  {
    if s != [] {
      var t := s[1..];
      LastPart(t, sep);
      if s[0] != sep && |Split(t, sep)| == 1 {
        OnePart(t, sep);
        assert [s[0]] + t == s;
      }
    }
  }

  /** The first part of a text begins it and the last part ends it. */
  lemma SplitEdges(s: seq<byte>, sep: byte)
    ensures var parts := Split(s, sep);
      var p, q := parts[0], parts[|parts| - 1];
      |p| <= |s| && p == s[..|p|] && |q| <= |s| && q == s[|s| - |q|..]
  {
    FirstPart(s, sep);
    LastPart(s, sep);
  }

  lemma FrontIsSolid(side: Side, s: seq<byte>, p: seq<byte>)
    requires |p| <= |s| && p == s[..|p|] && Lead(side, s) == 0 && SolidEdges(Trim(side, p))
    ensures s != [] && Solid(s[0])
  {
    LeadOfPrefix(side, s, |p|);
    FrontStays(side, p);
  }

  lemma BackIsSolid(side: Side, s: seq<byte>, q: seq<byte>)
    requires |q| <= |s| && q == s[|s| - |q|..] && Trail(side, s) == 0 && SolidEdges(Trim(side, q))
    ensures s != [] && Solid(s[|s| - 1])
  {
    TrailOfSuffix(side, s, |s| - |q|);
    BackStays(side, q);
    SuffixEnd(s, |s| - |q|);
    EndIsSolid(Trim(side, q), q, s);
  }

  lemma Kept(side: Side, s: seq<byte>)
    requires Lead(side, s) == 0 && s != [] && Solid(s[|s| - 1])
    ensures Trim(side, s) == s
  {
    TrailIsHollow(side, s);
  }

  lemma Dropped(side: Side, w: seq<byte>, t: seq<byte>)
    requires SolidEdges(t) && Lead(side, w + t) == |w| > 0
    ensures Trim(side, w + t) == t
  {
    TrimKeeps(side, t);
    assert (w + t)[|w|..] == t;
  }

  /** White space begins with its own first byte. */
  lemma FirstByte(side: Side, w: seq<byte>, t: seq<byte>)
    requires 2 <= |w| && w[0] >= 0x80
    ensures Starts(side, w + t, 1) == false && (Starts(side, w + t, 2) <==> Space(side, w[..2]))
    ensures |w| == 3 ==> (Starts(side, w + t, 3) <==> Space(side, w))
    ensures w[0] == 0xc2 ==> !Starts(side, w + t, 3)
  {
    var s := w + t;
    assert s[0] == w[0] && s[1] == w[1] && s[..2] == w[..2];
    if |w| == 3 { assert s[..3] == w; }
  }

  const NEXT_LINE: seq<byte> := [0xc2, 0x85]          // U+0085
  const BYTE_ORDER_MARK: seq<byte> := [0xef, 0xbb, 0xbf]  // U+FEFF

  /** U+0085 in front of a solid text goes in Go and stays in JavaScript. */
  lemma NextLineIsGos(t: seq<byte>)
    requires SolidEdges(t)
    ensures Trim(Go, NEXT_LINE + t) == t && Trim(Js, NEXT_LINE + t) == NEXT_LINE + t
  {
    FirstByte(Go, NEXT_LINE, t);
    FirstByte(Js, NEXT_LINE, t);
    Dropped(Go, NEXT_LINE, t);
    Kept(Js, NEXT_LINE + t);
  }

  /** U+FEFF the other way round. */
  lemma MarkIsJss(t: seq<byte>)
    requires SolidEdges(t)
    ensures Trim(Js, BYTE_ORDER_MARK + t) == t && Trim(Go, BYTE_ORDER_MARK + t) == BYTE_ORDER_MARK + t
  {
    FirstByte(Go, BYTE_ORDER_MARK, t);
    FirstByte(Js, BYTE_ORDER_MARK, t);
    Dropped(Js, BYTE_ORDER_MARK, t);
    Kept(Go, BYTE_ORDER_MARK + t);
  }

  // ---------------------------------------------------------------- in Unicode's terms

  /** The UTF-8 form of a character of the basic plane. */
  function Utf8(c: nat): seq<byte>
    requires c < 0x1_0000
  {
    if c < 0x80 then [c]
    else if c < 0x800 then [0xc0 + c / 64, 0x80 + c % 64]
    else [0xe0 + c / 4096, 0x80 + c / 64 % 64, 0x80 + c % 64]
  }

  /** Go's and JavaScript's white space, as Unicode lists it: tab to carriage return, the
      blank, the no-break space, the space separators and the line and paragraph
      separators, with U+0085 for Go alone and U+FEFF for JavaScript alone. */
  predicate UnicodeSpace(side: Side, c: nat)
  {
    || 0x09 <= c <= 0x0d || c == 0x20 || c == 0xa0 || c == 0x1680 || 0x2000 <= c <= 0x200a
    || c == 0x2028 || c == 0x2029 || c == 0x202f || c == 0x205f || c == 0x3000
    || (side.Go? && c == 0x85) || (side.Js? && c == 0xfeff)
  }

  lemma TwoBytes(side: Side, c: nat, x: int, y: int)
    requires 0x80 <= c < 0x800 && x == c / 64 && y == c % 64
    ensures Space(side, [0xc0 + x, 0x80 + y]) <==> UnicodeSpace(side, c)
  {
    assert c == x * 64 + y;
  }

  lemma ThreeBytes(side: Side, c: nat, x: int, y: int, z: int)
    requires 0x800 <= c < 0x1_0000 && x == c / 4096 && y == c / 64 % 64 && z == c % 64
    ensures Space(side, [0xe0 + x, 0x80 + y, 0x80 + z]) <==> UnicodeSpace(side, c)
  {
    assert c / 64 == x * 64 + y;
    assert c == (x * 64 + y) * 64 + z;
  }

  lemma SpaceIsUnicode(side: Side, c: nat)
    requires c < 0x1_0000
    ensures Space(side, Utf8(c)) <==> UnicodeSpace(side, c)
  {
    if 0x80 <= c < 0x800 { TwoBytes(side, c, c / 64, c % 64); }
    if 0x800 <= c { ThreeBytes(side, c, c / 4096, c / 64 % 64, c % 64); }
  }
}
