/**
 * `drop_duplicates()` with its default `keep="first"`: of every group of
 * equal rows only the first stays, and the survivors keep their order.
 * Rows are compared cell by cell; two missing cells count as equal, as they
 * do in pandas.
 */
module Dedup {

  /** No two entries are equal. */
  ghost predicate Distinct<T>(s: seq<T>) {
    forall i, j :: 0 <= i < j < |s| ==> s[i] != s[j]
  }

  /**
   * The positions of the rows that are kept, in increasing order: exactly the
   * rows equal to no earlier row.
   */
  function FirstOccurrences<T(==)>(rows: seq<T>): (k: seq<nat>)
    ensures Occurrences(rows, k)
  {
    if rows == [] then []
    else
      var n := |rows| - 1;
      var p := FirstOccurrences(rows[..n]);
      var k := if rows[n] in rows[..n] then p else p + [n];
      OccurrencesStep(rows, p, k);
      k
  }

  /**
   * `k` lists, in increasing order, exactly the positions of `rows` whose row
   * equals no earlier row.
   */
  ghost predicate Occurrences<T>(rows: seq<T>, k: seq<nat>) {
    (forall t :: 0 <= t < |k| ==> k[t] < |rows|) &&
    (forall s, t :: 0 <= s < t < |k| ==> k[s] < k[t]) &&
    (forall i :: 0 <= i < |rows| ==> (i in k <==> rows[i] !in rows[..i]))
  }

  lemma OccurrencesStep<T>(rows: seq<T>, p: seq<nat>, k: seq<nat>)
    requires rows != [] && Occurrences(rows[..|rows| - 1], p)
    requires k == if rows[|rows| - 1] in rows[..|rows| - 1] then p else p + [|rows| - 1]
    ensures Occurrences(rows, k)
  {
    var n := |rows| - 1;
    assert forall i :: 0 <= i < n ==> rows[..n][..i] == rows[..i] && rows[..n][i] == rows[i];
    assert forall i :: 0 <= i < n ==> (i in k <==> i in p);
  }

  /**
   * The rows at the kept positions, in their original order: no two of them
   * are equal, and every input row equals one of them.
   */
  function KeepFirst<T(==)>(rows: seq<T>): (r: seq<T>)
    ensures Distinct(r)
    ensures forall i :: 0 <= i < |rows| ==> rows[i] in r
  {
    var k := FirstOccurrences(rows);
    var r := seq(|k|, t requires 0 <= t < |k| => rows[k[t]]);
    assert Distinct(r) by {
      forall a, b | 0 <= a < b < |r| ensures r[a] != r[b] {
        assert k[b] in k;
        assert rows[..k[b]][k[a]] == rows[k[a]];
      }
    }
    assert forall i :: 0 <= i < |rows| ==> rows[i] in r by {
      forall i | 0 <= i < |rows| ensures rows[i] in r {
        var j := FirstIndex(rows, i);
        assert j in k;
        var t :| 0 <= t < |k| && k[t] == j;
        assert r[t] == rows[i];
      }
    }
    r
  }

  /** The first position holding the same row as position `i`. */
  lemma {:induction false} FirstIndex<T>(rows: seq<T>, i: nat) returns (j: nat)
    requires i < |rows|
    ensures j <= i && rows[j] == rows[i] && rows[j] !in rows[..j]
    decreases i
  {
    if rows[i] in rows[..i] {
      var m :| 0 <= m < i && rows[..i][m] == rows[i];
      j := FirstIndex(rows, m);
    } else {
      j := i;
    }
  }

  /** A strictly increasing sequence of positions climbs at least one per step. */
  lemma {:induction false} Climbs(k: seq<nat>, s: nat, t: nat)
    requires s <= t < |k|
    requires forall a, b :: 0 <= a < b < |k| ==> k[a] < k[b]
    ensures k[s] + (t - s) <= k[t]
    decreases t - s
  {
    if s < t {
      Climbs(k, s + 1, t);
    }
  }

  /** No more rows come out than go in. */
  lemma KeepFirstShorter<T>(rows: seq<T>)
    ensures |KeepFirst(rows)| <= |rows|
  {
    var k := FirstOccurrences(rows);
    if k != [] {
      Climbs(k, 0, |k| - 1);
    }
  }

  /**
   * Rows are lost exactly when there is a duplicate: the output is the input
   * itself when the rows are pairwise different, and strictly shorter
   * otherwise.
   */
  lemma KeepFirstDropsIffDuplicate<T>(rows: seq<T>)
    ensures Distinct(rows) ==> KeepFirst(rows) == rows
    ensures !Distinct(rows) ==> |KeepFirst(rows)| < |rows|
  {
    var k := FirstOccurrences(rows);
    KeepFirstShorter(rows);
    if |k| == |rows| {
      forall t | 0 <= t < |k| ensures k[t] == t {
        Climbs(k, 0, t);
        Climbs(k, t, |k| - 1);
      }
      assert KeepFirst(rows) == rows;
    } else if Distinct(rows) {
      forall t | 0 <= t < |rows| ensures t in k {
        assert rows[t] !in rows[..t] by {
          forall m | 0 <= m < t ensures rows[..t][m] != rows[t] {
            assert rows[..t][m] == rows[m];
          }
        }
      }
      AllPositions(k, |rows|);
    }
  }

  /** Increasing positions below `n` that include every position are all of them. */
  lemma AllPositions(k: seq<nat>, n: nat)
    requires forall t :: 0 <= t < |k| ==> k[t] < n
    requires forall a, b :: 0 <= a < b < |k| ==> k[a] < k[b]
    requires forall t :: 0 <= t < n ==> t in k
    ensures |k| >= n
  {
    if n > 0 {
      assert n - 1 in k;
      var z :| 0 <= z < |k| && k[z] == n - 1;
      Climbs(k, z, |k| - 1);
      if |k| < n {
        Prefix(k, n, |k| - 1);
      }
    }
  }

  /** Such positions start 0, 1, 2, ... */
  lemma {:induction false} Prefix(k: seq<nat>, n: nat, t: nat)
    requires forall a, b :: 0 <= a < b < |k| ==> k[a] < k[b]
    requires forall t :: 0 <= t < n ==> t in k
    requires t < |k| && t < n
    ensures k[t] == t
  {
    assert t in k;
    var z :| 0 <= z < |k| && k[z] == t;
    Climbs(k, 0, t);
    Climbs(k, 0, z);
    if t > 0 {
      Prefix(k, n, t - 1);
    }
  }
}
