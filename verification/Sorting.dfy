/** What Go's sort package promises, as functions on sequences: a stable sort by a
    strict weak order, and the removal of adjacent duplicates. */
module Sorting {

  ghost predicate StrictWeakOrder<T(!new)>(less: (T, T) -> bool)
  {
    && (forall x :: !less(x, x))
    && (forall x, y, z :: less(x, y) && less(y, z) ==> less(x, z))
    && (forall x, y, z :: less(x, z) ==> less(x, y) || less(y, z))
  }

  /** A strict weak order in which only equal elements tie. */
  ghost predicate StrictTotalOrder<T(!new)>(less: (T, T) -> bool)
  {
    && StrictWeakOrder(less)
    && (forall x, y :: x != y ==> less(x, y) || less(y, x))
  }

  predicate Ties<T>(less: (T, T) -> bool, x: T, y: T)
  {
    !less(x, y) && !less(y, x)
  }

  ghost predicate Sorted<T>(s: seq<T>, less: (T, T) -> bool)
  {
    forall i, j :: 0 <= i < j < |s| ==> !less(s[j], s[i])
  }

  ghost predicate Ascending<T>(s: seq<T>, less: (T, T) -> bool)
  {
    forall i, j :: 0 <= i < j < |s| ==> less(s[i], s[j])
  }

  function Insert<T>(x: T, s: seq<T>, less: (T, T) -> bool): (r: seq<T>)
    ensures |r| == |s| + 1
  {
    if s == [] || !less(s[0], x) then [x] + s
    else [s[0]] + Insert(x, s[1..], less)
  }

  /** The effect of sort.SliceStable (and of sort.Slice under a total order). */
  function StableSort<T>(s: seq<T>, less: (T, T) -> bool): (r: seq<T>)
    ensures |r| == |s|
  {
    if s == [] then [] else Insert(s[0], StableSort(s[1..], less), less)
  }

  /** The elements of `s` that tie with `x`, in the order `s` has them. */
  ghost function Class<T>(s: seq<T>, x: T, less: (T, T) -> bool): seq<T>
  {
    if s == [] then []
    else (if Ties(less, x, s[0]) then [s[0]] else []) + Class(s[1..], x, less)
  }

  lemma OneOf<T(!new)>(x: T, s: seq<T>, t: seq<T>, j: nat)
    requires multiset(t) == multiset([x]) + multiset(s) && j < |t|
    ensures t[j] == x || t[j] in s
  {
    assert t[j] in multiset(t);
  }

  lemma ConsSorted<T>(x: T, t: seq<T>, less: (T, T) -> bool)
    requires Sorted(t, less) && forall j :: 0 <= j < |t| ==> !less(t[j], x)
    ensures Sorted([x] + t, less)
  {}

  lemma {:induction false} InsertKeeps<T(!new)>(x: T, s: seq<T>, less: (T, T) -> bool)
    requires StrictWeakOrder(less) && Sorted(s, less)
    ensures Sorted(Insert(x, s, less), less)
    ensures multiset(Insert(x, s, less)) == multiset([x]) + multiset(s)
  {
    if s == [] || !less(s[0], x) {
      forall j | 0 <= j < |s| ensures !less(s[j], x) {
        assert j == 0 || !less(s[j], s[0]);
      }
      assert ([x] + s)[1..] == s;
    } else {
      var rest := s[1..];
      InsertKeeps(x, rest, less);
      assert s == [s[0]] + rest;
      var t := Insert(x, rest, less);
      forall j | 0 <= j < |t| ensures !less(t[j], s[0]) {
        OneOf(x, rest, t, j);
      }
      ConsSorted(s[0], t, less);
    }
  }

  lemma {:induction false} InsertStable<T(!new)>(x: T, s: seq<T>, y: T, less: (T, T) -> bool)
    requires StrictWeakOrder(less)
    ensures Class(Insert(x, s, less), y, less) == Class([x] + s, y, less)
  {
    assert ([x] + s)[1..] == s;
    if s == [] || !less(s[0], x) {
    } else {
      InsertStable(x, s[1..], y, less);
      var t := Insert(x, s[1..], less);
      assert ([s[0]] + t)[1..] == t;
      assert ([x] + s[1..])[1..] == s[1..];
      // x and s[0] do not tie, so at most one of them is in the class of y.
      assert !(Ties(less, y, x) && Ties(less, y, s[0]));
    }
  }

  /** StableSort returns a sorted permutation that keeps the order of ties. */
  lemma {:induction false} StableSortCorrect<T(!new)>(s: seq<T>, less: (T, T) -> bool)
    requires StrictWeakOrder(less)
    ensures Sorted(StableSort(s, less), less)
    ensures multiset(StableSort(s, less)) == multiset(s)
    ensures forall y :: Class(StableSort(s, less), y, less) == Class(s, y, less)
  {
    if s != [] {
      StableSortCorrect(s[1..], less);
      var t := StableSort(s[1..], less);
      InsertKeeps(s[0], t, less);
      assert s == [s[0]] + s[1..];
      forall y ensures Class(StableSort(s, less), y, less) == Class(s, y, less) {
        InsertStable(s[0], t, y, less);
        assert ([s[0]] + t)[1..] == t;
      }
    }
  }

  lemma {:induction false} ClassMembers<T(!new)>(s: seq<T>, y: T, less: (T, T) -> bool)
    ensures forall z :: z in Class(s, y, less) ==> z in s && Ties(less, y, z)
    ensures forall z :: z in s && Ties(less, y, z) ==> z in Class(s, y, less)
  {
    if s != [] { ClassMembers(s[1..], y, less); }
  }

  /** Those three facts determine the result: stable sorting has one answer. */
  lemma {:induction false} StableUnique<T(!new)>(a: seq<T>, b: seq<T>, less: (T, T) -> bool)
    requires StrictWeakOrder(less) && Sorted(a, less) && Sorted(b, less)
    requires |a| == |b| && forall y :: Class(a, y, less) == Class(b, y, less)
    ensures a == b
  {
    if a == [] {
      assert b == [];
    } else {
      var x := a[0];
      ClassMembers(a, x, less);
      ClassMembers(b, x, less);
      assert x in Class(a, x, less);
      var y := b[0];
      ClassMembers(a, y, less);
      ClassMembers(b, y, less);
      assert y in Class(b, y, less);
      assert Ties(less, x, y);
      assert Class(a, x, less)[0] == x && Class(b, x, less)[0] == y;
      forall z ensures Class(a[1..], z, less) == Class(b[1..], z, less) {
        assert Class(a, z, less) == Class(b, z, less);
        if Ties(less, z, x) {
          assert Class(a, z, less)[1..] == Class(a[1..], z, less);
          assert Class(b, z, less)[1..] == Class(b[1..], z, less);
        } else {
          assert Class(a, z, less) == Class(a[1..], z, less);
          assert Class(b, z, less) == Class(b[1..], z, less);
        }
      }
      StableUnique(a[1..], b[1..], less);
      assert a == [x] + a[1..] && b == [y] + b[1..];
    }
  }

  /** Under a total order the class of x is just the copies of x. */
  lemma {:induction false} ClassTotal<T(!new)>(s: seq<T>, x: T, less: (T, T) -> bool)
    requires StrictTotalOrder(less)
    ensures Class(s, x, less) == seq(multiset(s)[x], _ => x)
  {
    if s != [] {
      var rest := s[1..];
      ClassTotal(rest, x, less);
      assert s == [s[0]] + rest;
      assert multiset(s) == multiset([s[0]]) + multiset(rest);
      assert Ties(less, x, s[0]) <==> x == s[0];
    }
  }

  /** So under a total order only the multiset matters, stable or not. */
  lemma TotalSortUnique<T(!new)>(a: seq<T>, b: seq<T>, less: (T, T) -> bool)
    requires StrictTotalOrder(less) && Sorted(a, less) && Sorted(b, less)
    requires multiset(a) == multiset(b)
    ensures a == b
  {
    forall y ensures Class(a, y, less) == Class(b, y, less) {
      ClassTotal(a, y, less);
      ClassTotal(b, y, less);
    }
    assert |multiset(a)| == |multiset(b)|;
    StableUnique(a, b, less);
  }

  /** Drop every element equal to its predecessor. */
  function Dedupe<T(==, !new)>(s: seq<T>): (r: seq<T>)
    ensures |r| <= |s|
    ensures s != [] ==> r != [] && r[|r| - 1] == s[|s| - 1]
  {
    if |s| <= 1 then s
    else
      var r := Dedupe(s[..|s| - 1]);
      if s[|s| - 1] == s[|s| - 2] then r else r + [s[|s| - 1]]
  }

  lemma {:induction false} DedupeMembers<T(!new)>(s: seq<T>)
    ensures forall x :: x in Dedupe(s) <==> x in s
  {
    if |s| > 1 {
      DedupeMembers(s[..|s| - 1]);
      assert s == s[..|s| - 1] + [s[|s| - 1]];
    }
  }

  /** One more element: kept unless it repeats its predecessor. */
  lemma DedupeStep<T(!new)>(s: seq<T>, i: nat)
    requires i < |s|
    ensures Dedupe(s[..i + 1]) ==
      if i > 0 && s[i] == s[i - 1] then Dedupe(s[..i]) else Dedupe(s[..i]) + [s[i]]
  {
    assert s[..i + 1][..i] == s[..i];
    if i == 0 { assert s[..1] == [s[0]] && Dedupe(s[..0]) == []; }
  }

  lemma {:induction false} DedupeAscending<T(!new)>(s: seq<T>, less: (T, T) -> bool)
    requires StrictTotalOrder(less) && Sorted(s, less)
    ensures Ascending(Dedupe(s), less)
  {
    if |s| > 1 {
      var t, x := s[..|s| - 1], s[|s| - 1];
      DedupeAscending(t, less);
      DedupeMembers(t);
      var r := Dedupe(t);
      if x != s[|s| - 2] {
        forall i | 0 <= i < |r| ensures less(r[i], x) {
          assert r[i] in t;
          var j :| 0 <= j < |t| && t[j] == r[i];
          assert !less(x, s[j]) && less(s[|s| - 2], x);
          assert j < |s| - 2 ==> !less(s[|s| - 2], s[j]);
        }
      }
    }
  }

  lemma Inhabited<T(!new)>(s: seq<T>)
    requires s != []
    ensures exists x :: x in s
  {
    assert s[0] in s;
  }

  /** A strictly ascending sequence is determined by its set of elements. */
  lemma {:induction false} AscendingUnique<T(!new)>(a: seq<T>, b: seq<T>, less: (T, T) -> bool)
    requires StrictTotalOrder(less) && Ascending(a, less) && Ascending(b, less)
    requires forall x :: x in a <==> x in b
    ensures a == b
  {
    if a == [] {
      if b != [] { Inhabited(b); assert false; }
    } else {
      assert a[0] in a && b[0] in b;
      assert b != [];
      assert a[0] == b[0] by {
        var i :| 0 <= i < |b| && b[i] == a[0];
        var j :| 0 <= j < |a| && a[j] == b[0];
      }
      forall x ensures x in a[1..] <==> x in b[1..] {
        if x in a[1..] { assert x in a && less(a[0], x); assert x in b; }
        if x in b[1..] { assert x in b && less(b[0], x); assert x in a; }
      }
      AscendingUnique(a[1..], b[1..], less);
      assert a == [a[0]] + a[1..] && b == [b[0]] + b[1..];
    }
  }

  /** The canonical list of a set: sort, then drop duplicates. */
  function Canonical<T(==, !new)>(s: seq<T>, less: (T, T) -> bool): (r: seq<T>)
  {
    Dedupe(StableSort(s, less))
  }

  lemma CanonicalCorrect<T(!new)>(s: seq<T>, less: (T, T) -> bool)
    requires StrictTotalOrder(less)
    ensures Ascending(Canonical(s, less), less)
    ensures forall x :: x in Canonical(s, less) <==> x in s
  {
    StableSortCorrect(s, less);
    DedupeAscending(StableSort(s, less), less);
    DedupeMembers(StableSort(s, less));
    forall x ensures x in StableSort(s, less) <==> x in s {
      assert x in StableSort(s, less) <==> x in multiset(StableSort(s, less));
      assert x in s <==> x in multiset(s);
    }
  }

  lemma CanonicalOfSet<T(!new)>(a: seq<T>, b: seq<T>, less: (T, T) -> bool)
    requires StrictTotalOrder(less)
    requires forall x :: x in a <==> x in b
    ensures Canonical(a, less) == Canonical(b, less)
  {
    CanonicalCorrect(a, less);
    CanonicalCorrect(b, less);
    AscendingUnique(Canonical(a, less), Canonical(b, less), less);
  }

  ghost predicate NoRepeats<T>(s: seq<T>)
  {
    forall i, j :: 0 <= i < j < |s| ==> s[i] != s[j]
  }

  /** [...new Set(s)] in JavaScript: first occurrences, in order. */
  function Distinct<T(==, !new)>(s: seq<T>): (r: seq<T>)
    ensures forall x :: x in r <==> x in s
    ensures NoRepeats(r)
  {
    if s == [] then []
    else
      var rest, x := Distinct(s[..|s| - 1]), s[|s| - 1];
      assert s == s[..|s| - 1] + [x];
      if x in rest then rest else rest + [x]
  }

  lemma {:induction false} DistinctKeeps<T(!new)>(s: seq<T>)
    requires NoRepeats(s)
    ensures Distinct(s) == s
  {
    if s != [] {
      DistinctKeeps(s[..|s| - 1]);
      assert s == s[..|s| - 1] + [s[|s| - 1]];
      assert s[|s| - 1] !in s[..|s| - 1];
    }
  }

  lemma {:induction false} NoRepeatsCounts<T(!new)>(s: seq<T>, x: T)
    requires NoRepeats(s)
    ensures multiset(s)[x] <= 1
  {
    if s != [] {
      var t, y := s[..|s| - 1], s[|s| - 1];
      NoRepeatsCounts(t, x);
      assert s == t + [y];
      assert y !in t;
    }
  }

  lemma SortKeepsNoRepeats<T(!new)>(s: seq<T>, less: (T, T) -> bool)
    requires StrictTotalOrder(less) && NoRepeats(s)
    ensures Ascending(StableSort(s, less), less)
  {
    StableSortCorrect(s, less);
    var r := StableSort(s, less);
    forall i, j | 0 <= i < j < |r| ensures less(r[i], r[j]) {
      NoRepeatsCounts(s, r[i]);
      assert r == r[..j] + r[j..];
      assert r[i] == r[..j][i] && r[j] == r[j..][0];
      assert r[i] in multiset(r[..j]) && r[j] in multiset(r[j..]);
      assert multiset(r)[r[i]] == multiset(r[..j])[r[i]] + multiset(r[j..])[r[i]];
      assert !less(r[j], r[i]);
    }
  }

  /** Dropping repeats before sorting or after it comes to the same list. */
  lemma DistinctThenSort<T(!new)>(s: seq<T>, less: (T, T) -> bool)
    requires StrictTotalOrder(less)
    ensures StableSort(Distinct(s), less) == Canonical(s, less)
  {
    var d := Distinct(s);
    SortKeepsNoRepeats(d, less);
    StableSortCorrect(d, less);
    CanonicalCorrect(s, less);
    forall x ensures x in StableSort(d, less) <==> x in Canonical(s, less) {
      assert x in StableSort(d, less) <==> x in multiset(StableSort(d, less));
      assert x in d <==> x in multiset(d);
    }
    AscendingUnique(StableSort(d, less), Canonical(s, less), less);
  }
}
