/**
 * Missing-value handling: `fillna(median)` on the price, torque and
 * acceleration columns and `fillna("Unknown")` on the capacity column. The
 * median is pandas' `Series.median()`: missing cells are skipped, an odd
 * count gives the middle value and an even count the mean of the two middle
 * values; with no value at all it is NaN, and filling with NaN changes
 * nothing.
 */
module Median {
  import opened Wrappers

  /** The numbers in a column, in column order. */
  function Present(col: seq<Cell>): (xs: seq<real>)
    ensures |xs| <= |col|
    ensures xs == [] <==> forall i :: 0 <= i < |col| ==> !col[i].Num?
    ensures forall i :: 0 <= i < |col| && col[i].Num? ==> col[i].x in xs
    ensures forall k :: 0 <= k < |xs| ==> Num(xs[k]) in col
  {
    if col == [] then []
    else
      var rest := Present(col[1..]);
      assert forall c :: c in col[1..] ==> c in col;
      assert forall i :: 1 <= i < |col| ==> col[i] == col[1..][i - 1];
      if col[0].Num? then [col[0].x] + rest else rest
  }

  /**
   * The numbers of a column keep their order and their repetitions: those of
   * `a + b` are those of `a` followed by those of `b`, and a single cell
   * contributes its number, if it holds one.
   */
  lemma {:induction false} PresentConcat(a: seq<Cell>, b: seq<Cell>)
    ensures Present(a + b) == Present(a) + Present(b)
    ensures |a| == 1 ==> Present(a) == if a[0].Num? then [a[0].x] else []
  {
    if a != [] {
      PresentConcat(a[1..], b);
      PresentFront(a, b);
      PresentStep(a);
      if |a| == 1 {
        assert a[1..] == [];
      }
    } else {
      assert a + b == b;
    }
  }

  lemma PresentFront(a: seq<Cell>, b: seq<Cell>)
    requires a != []
    ensures Present(a + b) == (if a[0].Num? then [a[0].x] else []) + Present(a[1..] + b)
  {
    assert (a + b)[0] == a[0] && (a + b)[1..] == a[1..] + b;
    PresentStep(a + b);
  }

  lemma PresentStep(a: seq<Cell>)
    requires a != []
    ensures Present(a) == (if a[0].Num? then [a[0].x] else []) + Present(a[1..])
  {
  }

  ghost predicate Sorted(s: seq<real>) {
    forall i, j :: 0 <= i < j < |s| ==> s[i] <= s[j]
  }

  function Insert(x: real, s: seq<real>): (r: seq<real>)
    requires Sorted(s)
    ensures Sorted(r) && multiset(r) == multiset(s) + multiset{x}
  {
    if s == [] || x <= s[0] then [x] + s
    else
      var rest := Insert(x, s[1..]);
      assert s == [s[0]] + s[1..];
      LeastOfRest(s[0], x, s[1..], rest);
      [s[0]] + rest
  }

  lemma LeastOfRest(h: real, x: real, t: seq<real>, rest: seq<real>)
    requires h < x && (forall k :: 0 <= k < |t| ==> h <= t[k])
    requires multiset(rest) == multiset(t) + multiset{x}
    requires Sorted(rest)
    ensures Sorted([h] + rest)
  {
    forall k | 0 <= k < |rest| ensures h <= rest[k] {
      assert rest[k] in multiset(rest);
    }
  }

  /** The values in ascending order. */
  function Sort(xs: seq<real>): (s: seq<real>)
    ensures Sorted(s) && multiset(s) == multiset(xs)
  {
    if xs == [] then []
    else
      assert xs == [xs[0]] + xs[1..];
      Insert(xs[0], Sort(xs[1..]))
  }

  /**
   * The middle value of a sorted sequence, or the mean of the two middle
   * values: it lies between the two middle values and is the middle one when
   * there is one.
   */
  function Middle(s: seq<real>): (m: real)
    requires |s| > 0
    ensures Sorted(s) ==> s[(|s| - 1) / 2] <= m <= s[|s| / 2]
    ensures |s| % 2 == 1 ==> m == s[|s| / 2]
  {
    var n := |s|;
    if n % 2 == 1 then s[n / 2] else (s[n / 2 - 1] + s[n / 2]) / 2.0
  }

  /**
   * pandas' `median()` of the values: at least one value lies at or below
   * it and one at or above it, and with an odd count it is one of the values.
   */
  function Median(xs: seq<real>): (m: real)
    requires |xs| > 0
    ensures exists i :: 0 <= i < |xs| && xs[i] <= m
    ensures exists j :: 0 <= j < |xs| && m <= xs[j]
    ensures |xs| % 2 == 1 ==> m in xs
  {
    var s := Sort(xs);
    assert |s| == |xs| by {
      assert |multiset(s)| == |multiset(xs)|;
    }
    var n := |s|;
    assert s[0] in multiset(xs) && s[n - 1] in multiset(xs) && s[n / 2] in multiset(xs);
    Middle(s)
  }

  /** A sorted sequence is determined by its elements. */
  lemma {:induction false} SortedUnique(a: seq<real>, b: seq<real>)
    requires Sorted(a) && Sorted(b) && multiset(a) == multiset(b)
    ensures a == b
  {
    if a != [] {
      assert a[0] in multiset(a);
      assert b != [];
      HeadIsLeast(a, b);
      HeadIsLeast(b, a);
      var t := a[0];
      assert a == [t] + a[1..] && b == [t] + b[1..];
      assert multiset(a[1..]) == multiset(a) - multiset{t};
      assert multiset(b[1..]) == multiset(b) - multiset{t};
      SortedUnique(a[1..], b[1..]);
    }
  }

  lemma HeadIsLeast(a: seq<real>, b: seq<real>)
    requires a != [] && b != [] && Sorted(b) && multiset(a) == multiset(b)
    ensures b[0] <= a[0]
  {
    assert a[0] in multiset(a);
    assert a[0] in b;
    var i :| 0 <= i < |b| && b[i] == a[0];
  }

  /**
   * The median does not depend on how the values are sorted: it is the middle
   * of ANY ascending arrangement of them.
   */
  lemma MedianOfAnyOrder(xs: seq<real>, s: seq<real>)
    requires |xs| > 0 && |s| == |xs| && Sorted(s) && multiset(s) == multiset(xs)
    ensures Median(xs) == Middle(s)
  {
    SortedUnique(Sort(xs), s);
  }

  /** Numbers and missing cells only, as after `clean_column` or `astype(float)`. */
  ghost predicate Numeric(col: seq<Cell>) {
    forall i :: 0 <= i < |col| ==> !col[i].Str?
  }

  /** Every missing cell replaced by `v`. */
  function FillMissing(col: seq<Cell>, v: Cell): (r: seq<Cell>)
    ensures |r| == |col|
    ensures forall i :: 0 <= i < |col| ==> r[i] == if col[i].Missing? then v else col[i]
  {
    seq(|col|, i requires 0 <= i < |col| => if col[i].Missing? then v else col[i])
  }

  /** Lines 89-91: `col.fillna(col.median())`. */
  function FillMedian(col: seq<Cell>): (r: seq<Cell>)
    requires Numeric(col)
    ensures |r| == |col|
    ensures forall i :: 0 <= i < |col| && !col[i].Missing? ==> r[i] == col[i]
    ensures Present(col) == [] ==> r == col
    ensures Present(col) != [] ==>
              forall i :: 0 <= i < |col| && col[i].Missing? ==> r[i] == Num(Median(Present(col)))
  {
    var xs := Present(col);
    if xs == [] then col else FillMissing(col, Num(Median(xs)))
  }

  /** Once a column holds a number, median filling leaves no missing cell. */
  lemma FillMedianComplete(col: seq<Cell>)
    requires Numeric(col)
    ensures Numeric(FillMedian(col))
    ensures Present(col) != [] ==> forall i :: 0 <= i < |col| ==> !FillMedian(col)[i].Missing?
  {
  }

  /** Filling a column a second time changes nothing. */
  lemma FillMedianIdempotent(col: seq<Cell>)
    requires Numeric(col)
    ensures FillMedian(FillMedian(col)) == FillMedian(col)
  {
    var r := FillMedian(col);
    FillMedianComplete(col);
    if Present(col) != [] {
      var i :| 0 <= i < |col| && col[i].Num?;
      assert r[i].Num?;
      assert Present(r) != [];
      FillNothing(r, Num(Median(Present(r))));
    }
  }

  lemma FillNothing(col: seq<Cell>, v: Cell)
    requires forall i :: 0 <= i < |col| ==> !col[i].Missing?
    ensures FillMissing(col, v) == col
  {
  }

  /** Line 92: `col.fillna("Unknown")`. */
  function FillUnknown(col: seq<Cell>): (r: seq<Cell>)
    ensures |r| == |col|
    ensures forall i :: 0 <= i < |col| ==> !r[i].Missing?
    ensures forall i :: 0 <= i < |col| && !col[i].Missing? ==> r[i] == col[i]
    ensures forall i :: 0 <= i < |col| && col[i].Missing? ==> r[i] == Str("Unknown")
  {
    FillMissing(col, Str("Unknown"))
  }
}
