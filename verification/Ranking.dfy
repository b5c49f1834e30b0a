/** The scan order (internal/api/handlers.go): what is asked about first. */
module Ranking {
  import opened Sorting

  /** What the ordering rule reads off a row. */
  datatype Rank = Rank(sunk: bool, committed: bool, net: int, vouched: int)

  /** rankLess: whether a should be asked about before b. */
  predicate RankLess(a: Rank, b: Rank)
  {
    if a.sunk != b.sunk then b.sunk
    else if a.committed != b.committed then a.committed
    else if a.net != b.net then a.net > b.net
    else a.vouched > b.vouched
  }

  /** The signals on a row, asset or account alike. */
  datatype Row = Row(id: nat, reports: int, votesFor: nat, votesAgainst: nat, committed: bool, vouched: int)

  /** int64(For) - int64(Against), in int64. */
  function Net(votesFor: nat, votesAgainst: nat): int
  {
    var d := (votesFor - votesAgainst) % 0x1_0000_0000_0000_0000;
    if d >= 0x8000_0000_0000_0000 then d - 0x1_0000_0000_0000_0000 else d
  }

  /** assetRank and accountRank. */
  function RankOf(r: Row): Rank
  {
    Rank(r.reports > 0 || r.votesAgainst > r.votesFor, r.committed, Net(r.votesFor, r.votesAgainst), r.vouched)
  }

  predicate Before(a: Row, b: Row) { RankLess(RankOf(a), RankOf(b)) }

  /** rankLess is a strict weak order, so "asked about first" is a ranking. */
  lemma RankLessIsWeakOrder()
    ensures StrictWeakOrder(RankLess)
    ensures StrictWeakOrder(Before)
  {
    forall x, y, z ensures RankLess(x, y) && RankLess(y, z) ==> RankLess(x, z) {}
    forall x, y, z ensures RankLess(x, z) ==> RankLess(x, y) || RankLess(y, z) {}
    assert StrictWeakOrder(RankLess);
  }

  /** orderAssets: the effect of sort.SliceStable on the slice. */
  method OrderAssets(v: array<Row>)
    modifies v
    ensures v[..] == StableSort(old(v[..]), Before)
  {
    var s := StableSort(v[..], Before);
    forall i | 0 <= i < v.Length { v[i] := s[i]; }
    assert v[..] == s;
  }

  lemma SunkLast(s: seq<Row>)
    requires Sorted(s, Before)
    ensures forall i, j :: 0 <= i < |s| && 0 <= j < |s| && Sunk(s[i]) && !Sunk(s[j]) ==> j < i
  {
    forall i, j | 0 <= i < |s| && 0 <= j < |s| && Sunk(s[i]) && !Sunk(s[j]) ensures j < i {
      assert Before(s[j], s[i]);
    }
  }

  /** Order theorem. The result is a permutation, sorted, with ties in their old order,
      it is the only such list, and every sunk row follows every row that is not,
      whatever was vouched for it. */
  lemma OrderIsTheOrder(v: seq<Row>, other: seq<Row>)
    ensures var s := StableSort(v, Before);
      && multiset(s) == multiset(v) && Sorted(s, Before)
      && (forall x :: Class(s, x, Before) == Class(v, x, Before))
      && (forall i, j :: 0 <= i < |s| && 0 <= j < |s| && Sunk(s[i]) && !Sunk(s[j]) ==> j < i)
      && (Sorted(other, Before) && |other| == |v| && (forall x :: Class(other, x, Before) == Class(v, x, Before))
          ==> other == s)
  {
    RankLessIsWeakOrder();
    StableSortCorrect(v, Before);
    var s := StableSort(v, Before);
    SunkLast(s);
    if Sorted(other, Before) && |other| == |v| && (forall x :: Class(other, x, Before) == Class(v, x, Before)) {
      StableUnique(other, s, Before);
    }
  }

  /** The vote balance is the difference of the counts exactly when that fits an int64; it
      always does for counts below 2^63. */
  lemma NetExactIff(votesFor: nat, votesAgainst: nat)
    ensures Net(votesFor, votesAgainst) == votesFor - votesAgainst
            <==> -0x8000_0000_0000_0000 <= votesFor - votesAgainst < 0x8000_0000_0000_0000
  {}

  /** Reported, or more votes against than for. */
  predicate Sunk(r: Row) { r.reports > 0 || r.votesAgainst > r.votesFor }

  predicate Counted(r: Row) { r.votesFor < 0x8000_0000_0000_0000 && r.votesAgainst < 0x8000_0000_0000_0000 }

  /** The scan order on the rows' own fields. Of two rows in the result the later is sunk
      if the earlier is; between equals in that the earlier is committed if the later is;
      between equals in that too the vote balance does not rise; and between equals in all
      three neither does the amount vouched. */
  lemma OrderOnFields(v: seq<Row>, i: nat, j: nat)
    requires i < j < |v|
    ensures var x, y := StableSort(v, Before)[i], StableSort(v, Before)[j];
      && (x.reports > 0 || x.votesAgainst > x.votesFor ==> y.reports > 0 || y.votesAgainst > y.votesFor)
      && (Sunk(x) == Sunk(y) ==> y.committed ==> x.committed)
      && (Sunk(x) == Sunk(y) && x.committed == y.committed && Counted(x) && Counted(y) ==>
            && y.votesFor - y.votesAgainst <= x.votesFor - x.votesAgainst
            && (x.votesFor - x.votesAgainst == y.votesFor - y.votesAgainst ==> y.vouched <= x.vouched))
  {
    RankLessIsWeakOrder();
    StableSortCorrect(v, Before);
    var x, y := StableSort(v, Before)[i], StableSort(v, Before)[j];
    assert !Before(y, x);
    if Counted(x) { NetExactIff(x.votesFor, x.votesAgainst); }
    if Counted(y) { NetExactIff(y.votesFor, y.votesAgainst); }
  }

  /** And on two rows the fields decide: a row that is less sunk, or equally sunk and more
      committed, or equal in both with a better balance, or equal in all with more vouched
      for it, comes first wherever it was listed. */
  lemma FieldsDecide(x: Row, y: Row)
    requires Counted(x) && Counted(y)
    ensures Before(x, y) <==>
      || (!Sunk(x) && Sunk(y))
      || (Sunk(x) == Sunk(y) && x.committed && !y.committed)
      || (Sunk(x) == Sunk(y) && x.committed == y.committed
          && x.votesFor - x.votesAgainst > y.votesFor - y.votesAgainst)
      || (Sunk(x) == Sunk(y) && x.committed == y.committed
          && x.votesFor - x.votesAgainst == y.votesFor - y.votesAgainst && x.vouched > y.vouched)
    ensures Sunk(x) <==> x.reports > 0 || x.votesAgainst > x.votesFor
  {
    NetExactIff(x.votesFor, x.votesAgainst);
    NetExactIff(y.votesFor, y.votesAgainst);
  }

  // ---------------------------------------------------------------- orderAccountRows

  /** A store row beside its view. */
  datatype Pair<T> = Pair(store: T, view: Row)

  predicate PairBefore<T>(a: Pair<T>, b: Pair<T>) { Before(a.view, b.view) }

  function Zip<T>(rows: seq<T>, out: seq<Row>): (z: seq<Pair<T>>)
    requires |rows| == |out|
    ensures |z| == |rows| && forall i :: 0 <= i < |z| ==> z[i] == Pair(rows[i], out[i])
  {
    seq(|rows|, i requires 0 <= i < |rows| => Pair(rows[i], out[i]))
  }

  /** The comparison the index sort uses, on positions of `out`. */
  function ByPosition(out: seq<Row>): (int, int) -> bool
  {
    (i, j) => 0 <= i < |out| && 0 <= j < |out| && Before(out[i], out[j])
  }

  function Pick<T>(z: seq<T>, idx: seq<int>): (r: seq<T>)
    requires forall k :: 0 <= k < |idx| ==> 0 <= idx[k] < |z|
    ensures |r| == |idx| && forall k :: 0 <= k < |r| ==> r[k] == z[idx[k]]
  {
    seq(|idx|, k requires 0 <= k < |idx| => z[idx[k]])
  }

  lemma PickFront<T>(z: seq<T>, x: int, idx: seq<int>)
    requires 0 <= x < |z| && forall k :: 0 <= k < |idx| ==> 0 <= idx[k] < |z|
    ensures Pick(z, [x] + idx) == [z[x]] + Pick(z, idx)
  {}

  lemma {:induction false} InsertPicks<T>(z: seq<Pair<T>>, out: seq<Row>, x: int, idx: seq<int>)
    requires |z| == |out| && forall i :: 0 <= i < |z| ==> z[i].view == out[i]
    requires 0 <= x < |z| && forall k :: 0 <= k < |idx| ==> 0 <= idx[k] < |z|
    ensures var r := Insert(x, idx, ByPosition(out));
      && (forall k :: 0 <= k < |r| ==> 0 <= r[k] < |z|)
      && Pick(z, r) == Insert(z[x], Pick(z, idx), PairBefore<T>)
  {
    var p := Pick(z, idx);
    if idx == [] || !ByPosition(out)(idx[0], x) {
      PickFront(z, x, idx);
    } else {
      InsertPicks(z, out, x, idx[1..]);
      var r := Insert(x, idx[1..], ByPosition(out));
      assert Pick(z, idx[1..]) == p[1..];
      PickFront(z, idx[0], r);
    }
  }

  /** Sorting positions and picking is sorting the things picked. */
  lemma {:induction false} SortPicks<T>(z: seq<Pair<T>>, out: seq<Row>, idx: seq<int>)
    requires |z| == |out| && forall i :: 0 <= i < |z| ==> z[i].view == out[i]
    requires forall k :: 0 <= k < |idx| ==> 0 <= idx[k] < |z|
    ensures var r := StableSort(idx, ByPosition(out));
      && (forall k :: 0 <= k < |r| ==> 0 <= r[k] < |z|)
      && Pick(z, r) == StableSort(Pick(z, idx), PairBefore<T>)
  {
    if idx != [] {
      SortPicks(z, out, idx[1..]);
      assert Pick(z, idx)[1..] == Pick(z, idx[1..]);
      InsertPicks(z, out, idx[0], StableSort(idx[1..], ByPosition(out)));
    }
  }

  /** orderAccountRows: sort an index array, then permute both slices through it. One
      permutation serves both, so each store row stays beside its view, and the views end
      up in the same order orderAssets would give them. */
  method OrderAccountRows<T>(rows: array<T>, out: array<Row>)
    requires rows.Length == out.Length
    modifies rows, out
    ensures Zip(rows[..], out[..]) == StableSort(old(Zip(rows[..], out[..])), PairBefore<T>)
  {
    var n := out.Length;
    ghost var z := Zip(rows[..], out[..]);
    var ident: seq<int> := seq(n, i => i);
    var idx := StableSort(ident, ByPosition(out[..]));
    SortPicks(z, out[..], ident);
    assert Pick(z, ident) == z;
    var rows2, out2 := Pick(rows[..], idx), Pick(out[..], idx);
    assert Zip(rows2, out2) == Pick(z, idx);
    forall k | 0 <= k < n { rows[k] := rows2[k]; }
    forall k | 0 <= k < n { out[k] := out2[k]; }
    assert rows[..] == rows2 && out[..] == out2;
  }

  function Views<T>(z: seq<Pair<T>>): (r: seq<Row>)
    ensures |r| == |z| && forall i :: 0 <= i < |r| ==> r[i] == z[i].view
  {
    seq(|z|, i requires 0 <= i < |z| => z[i].view)
  }

  lemma {:induction false} InsertViews<T>(x: Pair<T>, z: seq<Pair<T>>)
    ensures Views(Insert(x, z, PairBefore<T>)) == Insert(x.view, Views(z), Before)
  {
    if z != [] && PairBefore(z[0], x) {
      InsertViews(x, z[1..]);
      assert Views(z)[1..] == Views(z[1..]);
    }
  }

  /** The views end up in the order orderAssets would give them. */
  lemma {:induction false} ViewsInOrder<T>(z: seq<Pair<T>>)
    ensures Views(StableSort(z, PairBefore<T>)) == StableSort(Views(z), Before)
  {
    if z != [] {
      ViewsInOrder(z[1..]);
      InsertViews(z[0], StableSort(z[1..], PairBefore<T>));
      assert Views(z)[1..] == Views(z[1..]);
    }
  }

  /** And pairs are neither lost nor re-paired. */
  lemma PairsConserved<T(!new)>(rows: seq<T>, out: seq<Row>)
    requires |rows| == |out|
    ensures multiset(StableSort(Zip(rows, out), PairBefore<T>)) == multiset(Zip(rows, out))
    ensures Sorted(StableSort(Zip(rows, out), PairBefore<T>), PairBefore<T>)
  {
    RankLessIsWeakOrder();
    assert StrictWeakOrder(PairBefore<T>) by {
      forall x: Pair<T>, y: Pair<T>, z: Pair<T> | PairBefore(x, y) && PairBefore(y, z) ensures PairBefore(x, z) {
        assert Before(x.view, y.view) && Before(y.view, z.view);
      }
      forall x: Pair<T>, y: Pair<T>, z: Pair<T> | PairBefore(x, z) ensures PairBefore(x, y) || PairBefore(y, z) {
        assert Before(x.view, z.view);
      }
    }
    StableSortCorrect(Zip(rows, out), PairBefore<T>);
  }
}
