/**
 * The cleaning script as a whole: a table of named columns that the script
 * overwrites column by column, in the order of its statements.
 */
module Pipeline {
  import opened Wrappers
  import opened Text
  import opened Ranges
  import opened Columns
  import opened Median
  import opened Dedup

  const CompanyNames: string := "Company Names"
  const CarsNames: string := "Cars Names"
  const Engines: string := "Engines"
  const TotalSpeed: string := "Total Speed"
  const Performance: string := "Performance(0 - 100 )KM/H"
  const Capacity: string := "CC/Battery Capacity"
  const Prices: string := "Cars Prices"
  const HorsePower: string := "HorsePower"
  const Torque: string := "Torque"

  /** Line 17. */
  const TextColumns: seq<string> := [CompanyNames, CarsNames, Engines]
  /** Line 23. */
  const NumberColumns: seq<string> := [TotalSpeed, Performance, Capacity]

  /** The columns the script reads or writes. */
  const Used: seq<string> := TextColumns + NumberColumns + [Prices, HorsePower, Torque]

  /** Lines 89-91. */
  const MedianColumns: seq<string> := [Prices, Torque, Performance]

  /**
   * A well-formed table: the columns are exactly the listed names, no name
   * twice, and every column `height` cells long.
   */
  ghost predicate Shaped(names: seq<string>, cols: map<string, seq<Cell>>, height: nat) {
    (forall n :: n in cols <==> n in names) &&
    (forall i, j :: 0 <= i < j < |names| ==> names[i] != names[j]) &&
    (forall n :: n in cols ==> |cols[n]| == height)
  }

  /** The rows of a table, each in column order. */
  function RowsOf(names: seq<string>, cols: map<string, seq<Cell>>, height: nat): (rows: seq<seq<Cell>>)
    requires Shaped(names, cols, height)
    ensures |rows| == height
    ensures forall i, j :: 0 <= i < height && 0 <= j < |names| ==> |rows[i]| == |names| && rows[i][j] == cols[names[j]][i]
  {
    seq(height, i requires 0 <= i < height =>
      seq(|names|, j requires 0 <= j < |names| => cols[names[j]][i]))
  }

  /** The cells at positions `k`, in that order. */
  function Pick(col: seq<Cell>, k: seq<nat>): (r: seq<Cell>)
    requires forall t :: 0 <= t < |k| ==> k[t] < |col|
    ensures |r| == |k| && forall t :: 0 <= t < |k| ==> r[t] == col[k[t]]
  {
    seq(|k|, t requires 0 <= t < |k| => col[k[t]])
  }

  class Table {
    var names: seq<string>
    var cols: map<string, seq<Cell>>
    var height: nat

    ghost predicate Valid()
      reads this
    {
      Shaped(names, cols, height)
    }

    function Rows(): seq<seq<Cell>>
      reads this
      requires Valid()
    {
      RowsOf(names, cols, height)
    }

    /** The table `read_csv` produced (line 5 is not part of this model). */
    constructor (names0: seq<string>, cols0: map<string, seq<Cell>>, height0: nat)
      requires Shaped(names0, cols0, height0)
      ensures Valid() && names == names0 && cols == cols0 && height == height0
    {
      names, cols, height := names0, cols0, height0;
    }

    /** `df[name] = col`: one column replaced, nothing else touched. */
    method SetColumn(name: string, col: seq<Cell>)
      requires Valid() && name in cols && |col| == height
      modifies this
      ensures Valid() && names == old(names) && height == old(height)
      ensures cols == old(cols)[name := col]
    {
      cols := cols[name := col];
    }

    /** Lines 17-19: every text column title-cased and stripped. */
    method NormalizeTextColumns(which: seq<string>)
      requires Valid() && Distinct(which)
      requires forall n :: n in which ==> n in cols && Raw(cols[n])
      modifies this
      ensures Valid() && names == old(names) && height == old(height)
      ensures forall n :: n in cols ==>
                cols[n] == if n in which then TextColumn(old(cols)[n]) else old(cols)[n]
    {
      ghost var target := map n | n in which :: TextColumn(old(cols)[n]);
      for k := 0 to |which|
        invariant Valid() && names == old(names) && height == old(height)
        invariant Overwritten(cols, old(cols), which[..k], target)
      {
        var n := which[k];
        assert which[..k + 1] == which[..k] + [n];
        Overwrite(cols, old(cols), which[..k], target, n);
        SetColumn(n, TextColumn(cols[n]));
      }
      assert which[..|which|] == which;
    }

    /** Lines 23-26: every count column reduced to its first number. */
    method ExtractNumberColumns(which: seq<string>)
      requires Valid() && Distinct(which)
      requires forall n :: n in which ==> n in cols
      modifies this
      ensures Valid() && names == old(names) && height == old(height)
      ensures forall n :: n in cols ==>
                cols[n] == if n in which then Cells(old(cols)[n], ExtractNumber) else old(cols)[n]
    {
      ghost var target := map n | n in which :: Cells(old(cols)[n], ExtractNumber);
      for k := 0 to |which|
        invariant Valid() && names == old(names) && height == old(height)
        invariant Overwritten(cols, old(cols), which[..k], target)
      {
        var n := which[k];
        assert which[..k + 1] == which[..k] + [n];
        Overwrite(cols, old(cols), which[..k], target, n);
        SetColumn(n, Cells(cols[n], ExtractNumber));
      }
      assert which[..|which|] == which;
    }

    /** Lines 28-33. */
    method StripPrices()
      requires Valid() && Prices in cols
      modifies this
      ensures Valid() && names == old(names) && height == old(height)
      ensures cols == old(cols)[Prices := Cells(old(cols)[Prices], StripPrice)]
    {
      SetColumn(Prices, Cells(cols[Prices], StripPrice));
    }

    /** Lines 35-43. */
    method StripHorsePowers()
      requires Valid() && HorsePower in cols
      modifies this
      ensures Valid() && names == old(names) && height == old(height)
      ensures cols == old(cols)[HorsePower := Cells(old(cols)[HorsePower], StripHorsePower)]
    {
      SetColumn(HorsePower, Cells(cols[HorsePower], StripHorsePower));
    }

    /** Lines 45-53. */
    method StripTorques()
      requires Valid() && Torque in cols
      modifies this
      ensures Valid() && names == old(names) && height == old(height)
      ensures cols == old(cols)[Torque := Cells(old(cols)[Torque], StripTorque)]
    {
      SetColumn(Torque, Cells(cols[Torque], StripTorque));
    }

    /**
     * Lines 83-85, one column: `df[name] = df[name].apply(clean_column)`. When a
     * cell makes `clean_column` raise, `ok` is false and the column stays as it
     * was (the script stops there).
     */
    method ApplyCleanColumn(name: string) returns (ok: bool)
      requires Valid() && name in cols
      modifies this
      ensures Valid() && names == old(names) && height == old(height)
      ensures ok <==> ResolveColumn(old(cols)[name]).Success?
      ensures ok ==> cols == old(cols)[name := ResolveColumn(old(cols)[name]).value]
      ensures !ok ==> cols == old(cols)
    {
      var r := ResolveColumn(cols[name]);
      ok := r.Success?;
      if ok {
        SetColumn(name, r.value);
      }
    }

    /** Lines 89-91, one column: `fillna(median)` in place. */
    method FillMedianColumn(name: string)
      requires Valid() && name in cols && Numeric(cols[name])
      modifies this
      ensures Valid() && names == old(names) && height == old(height)
      ensures cols == old(cols)[name := FillMedian(old(cols)[name])]
    {
      SetColumn(name, FillMedian(cols[name]));
    }

    /** Line 92: `fillna("Unknown")` in place. */
    method FillUnknownColumn(name: string)
      requires Valid() && name in cols
      modifies this
      ensures Valid() && names == old(names) && height == old(height)
      ensures cols == old(cols)[name := FillUnknown(old(cols)[name])]
    {
      SetColumn(name, FillUnknown(cols[name]));
    }

    /** Lines 17-26: the text columns normalised, the count columns reduced to numbers. */
    method Standardize()
      requires Valid()
      requires forall n :: n in TextColumns + NumberColumns ==> n in cols
      requires forall n :: n in TextColumns ==> Raw(cols[n])
      modifies this
      ensures Valid() && names == old(names) && height == old(height)
      ensures forall n :: n in TextColumns ==> cols[n] == TextColumn(old(cols)[n])
      ensures forall n :: n in NumberColumns ==> cols[n] == Cells(old(cols)[n], ExtractNumber)
      ensures forall n :: n in cols && n !in TextColumns + NumberColumns ==> cols[n] == old(cols)[n]
    {
      NamesApart();
      NormalizeTextColumns(TextColumns);
      ExtractNumberColumns(NumberColumns);
    }

    /** Lines 28-53: the price, horsepower and torque cleanups. */
    method StripColumns()
      requires Valid() && Prices in cols && HorsePower in cols && Torque in cols
      modifies this
      ensures Valid() && names == old(names) && height == old(height)
      ensures cols == old(cols)[Prices := Cells(old(cols)[Prices], StripPrice)]
                               [HorsePower := Cells(old(cols)[HorsePower], StripHorsePower)]
                               [Torque := Cells(old(cols)[Torque], StripTorque)]
    {
      StripPrices();
      StripHorsePowers();
      StripTorques();
    }

    /**
     * Lines 83-85: `clean_column` applied to the torque, price and horsepower
     * columns in that order; `ok` is false when it raised on one of them.
     */
    method ResolveRanges() returns (ok: bool)
      requires Valid() && Torque in cols && Prices in cols && HorsePower in cols
      modifies this
      ensures Valid() && names == old(names) && height == old(height)
      ensures ok <==> ResolveColumn(old(cols)[Torque]).Success? &&
                      ResolveColumn(old(cols)[Prices]).Success? &&
                      ResolveColumn(old(cols)[HorsePower]).Success?
      ensures ok ==> cols == old(cols)[Torque := ResolveColumn(old(cols)[Torque]).value]
                                      [Prices := ResolveColumn(old(cols)[Prices]).value]
                                      [HorsePower := ResolveColumn(old(cols)[HorsePower]).value]
    {
      RangeNamesApart();
      ok := ApplyCleanColumn(Torque);
      if !ok {
        return;
      }
      ok := ApplyCleanColumn(Prices);
      if !ok {
        return;
      }
      ok := ApplyCleanColumn(HorsePower);
    }

    /** Lines 89-92: median filling of three columns, "Unknown" in the capacity column. */
    method FillMissingValues()
      requires Valid() && Capacity in cols
      requires forall n :: n in MedianColumns ==> n in cols && Numeric(cols[n])
      modifies this
      ensures Valid() && names == old(names) && height == old(height)
      ensures cols == old(cols)[Prices := FillMedian(old(cols)[Prices])]
                               [Torque := FillMedian(old(cols)[Torque])]
                               [Performance := FillMedian(old(cols)[Performance])]
                               [Capacity := FillUnknown(old(cols)[Capacity])]
    {
      NamesApart();
      FillMedianColumn(Prices);
      FillMedianColumn(Torque);
      FillMedianColumn(Performance);
      FillUnknownColumn(Capacity);
    }

    /**
     * Lines 17-85: every column rewritten up to and including `clean_column`.
     * `ok` is false when `clean_column` raised ValueError on one of the three
     * range columns; otherwise the range columns are resolved.
     */
    method Transform() returns (ok: bool)
      requires Valid()
      requires forall n :: n in Used ==> n in cols
      requires forall n :: n in TextColumns ==> Raw(cols[n])
      modifies this
      ensures Valid() && names == old(names) && height == old(height)
      ensures ok <==> ResolveColumn(Cells(old(cols)[Torque], StripTorque)).Success? &&
                      ResolveColumn(Cells(old(cols)[Prices], StripPrice)).Success? &&
                      ResolveColumn(Cells(old(cols)[HorsePower], StripHorsePower)).Success?
      ensures ok <==> Resolvable(Rewritten(old(cols)))
      ensures ok ==> cols == Resolved(Rewritten(old(cols)))
      ensures ok ==> Prepared(cols)
    {
      RangeNamesApart();
      Rewrite();
      ghost var c2 := cols;
      ok := ResolveRanges();
      if ok {
        ghost var p, h, t := ResolveColumn(c2[Prices]).value, ResolveColumn(c2[HorsePower]).value,
                             ResolveColumn(c2[Torque]).value;
        ResolveColumnNumeric(c2[Prices]);
        ResolveColumnNumeric(c2[Torque]);
        RangesPrepared(c2, cols, p, h, t);
      }
    }

    /**
     * Lines 17-53: the text, count, price, horsepower and torque columns
     * rewritten, every other column as it was.
     */
    method Rewrite()
      requires Valid()
      requires forall n :: n in Used ==> n in cols
      requires forall n :: n in TextColumns ==> Raw(cols[n])
      modifies this
      ensures Valid() && names == old(names) && height == old(height)
      ensures cols == Rewritten(old(cols))
      ensures forall n :: n in Used ==> n in cols
      ensures TextDone(cols) && Numeric(cols[Performance])
      ensures cols[Torque] == Cells(old(cols)[Torque], StripTorque)
      ensures cols[Prices] == Cells(old(cols)[Prices], StripPrice)
      ensures cols[HorsePower] == Cells(old(cols)[HorsePower], StripHorsePower)
    {
      NamesApart();
      Standardize();
      ghost var c1 := cols;
      assert TextDone(c1) && Numeric(c1[Performance]);
      assert c1[Prices] == old(cols)[Prices] && c1[HorsePower] == old(cols)[HorsePower] &&
             c1[Torque] == old(cols)[Torque];
      StripColumns();
      RangesOnly(c1, cols, Cells(c1[Prices], StripPrice), Cells(c1[HorsePower], StripHorsePower),
                 Cells(c1[Torque], StripTorque));
      RewrittenIs(old(cols), c1, cols);
    }

    /**
     * Lines 89-96: missing values filled, then duplicate rows dropped. The
     * rows are the first occurrences of the rows of the filled table.
     */
    method Finish()
      requires Valid() && Prepared(cols)
      modifies this
      ensures Valid() && names == old(names)
      ensures Rows() == KeepFirst(RowsOf(names, FillAll(old(cols)), old(height)))
      ensures cols == PickAll(FillAll(old(cols)), FirstOccurrences(RowsOf(names, FillAll(old(cols)), old(height))))
      ensures height <= old(height) && Distinct(Rows())
      ensures TextDone(cols) && CapacityDone(cols) && FillDone(cols)
    {
      ghost var c3 := cols;
      FillMissingValues();
      assert cols == FillAll(c3);
      FilledDone(c3, cols);
      ghost var c4 := cols;
      ghost var rows := Rows();
      DropDuplicates();
      KeepFirstShorter(rows);
      DoneSurvivesPick(c4, FirstOccurrences(rows), |rows|);
    }

    /**
     * The whole script, lines 17-96. `ok` is false when `clean_column` raised
     * ValueError, which stops the script. After a complete run the rows are
     * the first occurrences of the rows of the rewritten, resolved and filled
     * table; so no two rows are equal, the text columns are stripped and
     * title-cased, the capacity column has no missing cell, and each
     * median-filled column holds numbers only, missing nowhere or everywhere.
     */
    method Clean() returns (ok: bool)
      requires Valid()
      requires forall n :: n in Used ==> n in cols
      requires forall n :: n in TextColumns ==> Raw(cols[n])
      modifies this
      ensures Valid() && names == old(names)
      ensures ok <==> ResolveColumn(Cells(old(cols)[Torque], StripTorque)).Success? &&
                      ResolveColumn(Cells(old(cols)[Prices], StripPrice)).Success? &&
                      ResolveColumn(Cells(old(cols)[HorsePower], StripHorsePower)).Success?
      ensures ok ==> Resolvable(Rewritten(old(cols))) && Prepared(Resolved(Rewritten(old(cols))))
      ensures ok ==> Rows() == KeepFirst(RowsOf(names, FillAll(Resolved(Rewritten(old(cols)))), old(height)))
      ensures ok ==> height <= old(height) && Distinct(Rows())
      ensures ok ==> TextDone(cols) && CapacityDone(cols) && FillDone(cols)
    {
      ok := Transform();
      if ok {
        Finish();
      }
    }

    /** Line 96: `drop_duplicates(inplace=True)`; every column keeps the same rows. */
    method DropDuplicates()
      requires Valid()
      modifies this
      ensures Valid() && names == old(names)
      ensures Rows() == KeepFirst(old(Rows()))
      ensures cols == PickAll(old(cols), FirstOccurrences(old(Rows())))
    {
      var k := FirstOccurrences(Rows());
      PickRows(names, cols, height, k);
      cols, height := PickAll(cols, k), |k|;
    }
  }

  /** The three range columns are different columns. */
  lemma RangeNamesApart()
    ensures Prices != HorsePower && Prices != Torque && HorsePower != Torque
  {
  }

  /** The column lists name nine different columns. */
  lemma NamesApart()
    ensures Distinct(TextColumns) && Distinct(NumberColumns)
    ensures forall n :: n in TextColumns ==> n !in NumberColumns
    ensures forall n :: n in TextColumns || n in NumberColumns ==> n != Prices && n != HorsePower && n != Torque
    ensures Prices != HorsePower && Prices != Torque && HorsePower != Torque
    ensures forall n :: n in Used <==> n in TextColumns || n in NumberColumns || n == Prices || n == HorsePower || n == Torque
    ensures Capacity in NumberColumns && Performance in NumberColumns
    ensures forall n :: n in MedianColumns ==> n != Capacity && n !in TextColumns
  {
  }

  /**
   * A table in which only the price, horsepower and torque columns changed
   * keeps the finished text columns and the capacity and acceleration columns.
   */
  lemma RangesOnly(before: map<string, seq<Cell>>, after: map<string, seq<Cell>>,
                   p: seq<Cell>, h: seq<Cell>, t: seq<Cell>)
    requires after == before[Prices := p][HorsePower := h][Torque := t]
    requires TextDone(before)
    ensures TextDone(after)
    ensures Performance in before ==> after[Performance] == before[Performance]
    ensures Capacity in before ==> Capacity in after && after[Capacity] == before[Capacity]
  {
    NamesApart();
  }

  /**
   * Ready for lines 89-96: the text columns finished, the capacity column
   * present, and the median columns holding numbers and missing cells only.
   */
  ghost predicate Prepared(cols: map<string, seq<Cell>>) {
    TextDone(cols) && Capacity in cols &&
    forall n :: n in MedianColumns ==> n in cols && Numeric(cols[n])
  }

  /** After `clean_column` on the range columns, the table is ready for filling. */
  lemma RangesPrepared(before: map<string, seq<Cell>>, after: map<string, seq<Cell>>,
                       p: seq<Cell>, h: seq<Cell>, t: seq<Cell>)
    requires after == before[Torque := t][Prices := p][HorsePower := h]
    requires TextDone(before) && Capacity in before && Performance in before && Numeric(before[Performance])
    requires Numeric(p) && Numeric(t)
    ensures Prepared(after)
  {
    NamesApart();
  }

  /** The table after lines 17-53, as a function of the table read. */
  ghost function Rewritten(c: map<string, seq<Cell>>): (r: map<string, seq<Cell>>)
    requires forall n :: n in TextColumns ==> n in c && Raw(c[n])
    ensures forall n :: n in r <==> n in c
    ensures forall n :: n in c ==> |r[n]| == |c[n]|
  {
    map n | n in c :: RewriteColumn(n, c[n])
  }

  /** What lines 17-53 make of the column named `n`. */
  ghost function RewriteColumn(n: string, col: seq<Cell>): (r: seq<Cell>)
    requires n in TextColumns ==> Raw(col)
    ensures |r| == |col|
  {
    if n in TextColumns then TextColumn(col)
    else if n in NumberColumns then Cells(col, ExtractNumber)
    else if n == Prices then Cells(col, StripPrice)
    else if n == HorsePower then Cells(col, StripHorsePower)
    else if n == Torque then Cells(col, StripTorque)
    else col
  }

  /** `clean_column` raises on no cell of the three range columns. */
  ghost predicate Resolvable(c: map<string, seq<Cell>>) {
    Torque in c && Prices in c && HorsePower in c &&
    ResolveColumn(c[Torque]).Success? && ResolveColumn(c[Prices]).Success? &&
    ResolveColumn(c[HorsePower]).Success?
  }

  /** The table after lines 83-85, in their order. */
  ghost function Resolved(c: map<string, seq<Cell>>): (r: map<string, seq<Cell>>)
    requires Resolvable(c)
    ensures forall n :: n in r <==> n in c
    ensures forall n :: n in c ==> |r[n]| == |c[n]|
  {
    c[Torque := ResolveColumn(c[Torque]).value]
     [Prices := ResolveColumn(c[Prices]).value]
     [HorsePower := ResolveColumn(c[HorsePower]).value]
  }

  /** The table after lines 89-92, in their order. */
  ghost function FillAll(c: map<string, seq<Cell>>): (r: map<string, seq<Cell>>)
    requires Prepared(c)
    ensures forall n :: n in r <==> n in c
    ensures forall n :: n in c ==> |r[n]| == |c[n]|
  {
    var p, t, f, u := FillMedian(c[Prices]), FillMedian(c[Torque]), FillMedian(c[Performance]),
                      FillUnknown(c[Capacity]);
    FillShape(c, p, t, f, u);
    c[Prices := p][Torque := t][Performance := f][Capacity := u]
  }

  /** Replacing the four filled columns by columns of the same length keeps the table's shape. */
  lemma FillShape(c: map<string, seq<Cell>>, p: seq<Cell>, t: seq<Cell>, f: seq<Cell>, u: seq<Cell>)
    requires Prices in c && Torque in c && Performance in c && Capacity in c
    requires |p| == |c[Prices]| && |t| == |c[Torque]| && |f| == |c[Performance]| && |u| == |c[Capacity]|
    ensures var r := c[Prices := p][Torque := t][Performance := f][Capacity := u];
            (forall n :: n in r <==> n in c) && (forall n :: n in c ==> |r[n]| == |c[n]|)
  {
  }

  /** Lines 17-26 followed by lines 28-53 give the rewritten table. */
  lemma RewrittenIs(c0: map<string, seq<Cell>>, c1: map<string, seq<Cell>>, c2: map<string, seq<Cell>>)
    requires forall n :: n in Used ==> n in c0
    requires forall n :: n in TextColumns ==> Raw(c0[n])
    requires forall n :: n in c1 <==> n in c0
    requires forall n :: n in TextColumns ==> c1[n] == TextColumn(c0[n])
    requires forall n :: n in NumberColumns ==> c1[n] == Cells(c0[n], ExtractNumber)
    requires forall n :: n in c1 && n !in TextColumns + NumberColumns ==> c1[n] == c0[n]
    requires c2 == c1[Prices := Cells(c1[Prices], StripPrice)]
                     [HorsePower := Cells(c1[HorsePower], StripHorsePower)]
                     [Torque := Cells(c1[Torque], StripTorque)]
    ensures c2 == Rewritten(c0)
  {
    forall n | n in c2 ensures c2[n] == RewriteColumn(n, c0[n]) {
      RewrittenAt(n, c0, c1, c2);
    }
    assert forall n :: n in c2 <==> n in Rewritten(c0);
  }

  lemma RewrittenAt(n: string, c0: map<string, seq<Cell>>, c1: map<string, seq<Cell>>, c2: map<string, seq<Cell>>)
    requires forall n :: n in Used ==> n in c0
    requires forall n :: n in TextColumns ==> Raw(c0[n])
    requires forall n :: n in c1 <==> n in c0
    requires forall n :: n in TextColumns ==> c1[n] == TextColumn(c0[n])
    requires forall n :: n in NumberColumns ==> c1[n] == Cells(c0[n], ExtractNumber)
    requires forall n :: n in c1 && n !in TextColumns + NumberColumns ==> c1[n] == c0[n]
    requires c2 == c1[Prices := Cells(c1[Prices], StripPrice)]
                     [HorsePower := Cells(c1[HorsePower], StripHorsePower)]
                     [Torque := Cells(c1[Torque], StripTorque)]
    requires n in c2
    ensures n in TextColumns ==> Raw(c0[n])
    ensures c2[n] == RewriteColumn(n, c0[n])
  {
    NamesApart();
    if n == Prices || n == HorsePower || n == Torque {
      assert n !in TextColumns + NumberColumns;
    } else if n !in TextColumns && n !in NumberColumns {
      assert n !in TextColumns + NumberColumns;
    }
  }

  /** Lines 89-92 finish what they fill, and leave the text columns alone. */
  lemma FilledDone(before: map<string, seq<Cell>>, after: map<string, seq<Cell>>)
    requires Prepared(before) && after == FillAll(before)
    ensures TextDone(after) && CapacityDone(after) && FillDone(after)
  {
    FilledText(before, after);
    FilledMedian(before, after);
  }

  lemma FilledText(before: map<string, seq<Cell>>, after: map<string, seq<Cell>>)
    requires Prepared(before) && after == FillAll(before)
    ensures TextDone(after)
  {
    NamesApart();
  }

  lemma FilledMedian(before: map<string, seq<Cell>>, after: map<string, seq<Cell>>)
    requires Prepared(before) && after == FillAll(before)
    ensures FillDone(after)
  {
    FillNamesApart();
    assert after[Prices] == FillMedian(before[Prices]);
    assert after[Torque] == FillMedian(before[Torque]);
    assert after[Performance] == FillMedian(before[Performance]);
    FillSettles(before[Prices]);
    FillSettles(before[Torque]);
    FillSettles(before[Performance]);
  }

  /** The four filled columns are different columns. */
  lemma FillNamesApart()
    ensures Prices != Torque && Prices != Performance && Prices != Capacity
    ensures Torque != Performance && Torque != Capacity && Performance != Capacity
  {
  }

  /** Missing nowhere or everywhere: what median filling leaves behind. */
  ghost predicate Settled(col: seq<Cell>) {
    forall i, j :: 0 <= i < |col| && 0 <= j < |col| && col[i].Missing? ==> col[j].Missing?
  }

  /** Lines 17-19 done: every text column holds stripped, title-cased text. */
  ghost predicate TextDone(cols: map<string, seq<Cell>>) {
    forall n, i :: n in TextColumns && n in cols && 0 <= i < |cols[n]| ==>
      cols[n][i].Str? && Stripped(cols[n][i].s) && IsTitled(cols[n][i].s)
  }

  /** Line 92 done: the capacity column has no missing cell. */
  ghost predicate CapacityDone(cols: map<string, seq<Cell>>) {
    Capacity in cols && forall i :: 0 <= i < |cols[Capacity]| ==> !cols[Capacity][i].Missing?
  }

  /** Lines 89-91 done: the median columns hold numbers only, missing nowhere or everywhere. */
  ghost predicate FillDone(cols: map<string, seq<Cell>>) {
    forall n :: n in MedianColumns ==> n in cols && Numeric(cols[n]) && Settled(cols[n])
  }

  /** Keeping some rows keeps what holds of every cell. */
  lemma DoneSurvivesPick(cols: map<string, seq<Cell>>, k: seq<nat>, height: nat)
    requires forall n :: n in cols ==> |cols[n]| == height
    requires forall t :: 0 <= t < |k| ==> k[t] < height
    requires TextDone(cols) && CapacityDone(cols) && FillDone(cols)
    ensures TextDone(PickAll(cols, k)) && CapacityDone(PickAll(cols, k)) && FillDone(PickAll(cols, k))
  {
    var c := PickAll(cols, k);
    forall n | n in MedianColumns ensures Settled(c[n]) {
      assert forall t :: 0 <= t < |k| ==> c[n][t] == cols[n][k[t]];
    }
  }

  /** A median-filled column is settled. */
  lemma FillSettles(col: seq<Cell>)
    requires Numeric(col)
    ensures Numeric(FillMedian(col)) && Settled(FillMedian(col))
  {
    FillMedianComplete(col);
  }

  /** Every column cut down to the cells at positions `k`. */
  function PickAll(cols: map<string, seq<Cell>>, k: seq<nat>): (r: map<string, seq<Cell>>)
    requires forall n, t :: n in cols && 0 <= t < |k| ==> k[t] < |cols[n]|
    ensures forall n :: n in r <==> n in cols
    ensures forall n :: n in r ==> r[n] == Pick(cols[n], k)
  {
    map n | n in cols :: Pick(cols[n], k)
  }

  /** Cutting every column to positions `k` keeps exactly the rows at `k`. */
  lemma PickRows(names: seq<string>, cols: map<string, seq<Cell>>, height: nat, k: seq<nat>)
    requires Shaped(names, cols, height)
    requires forall t :: 0 <= t < |k| ==> k[t] < height
    ensures Shaped(names, PickAll(cols, k), |k|)
    ensures RowsOf(names, PickAll(cols, k), |k|) == seq(|k|, t requires 0 <= t < |k| => RowsOf(names, cols, height)[k[t]])
  {
    var c := PickAll(cols, k);
    var rows := RowsOf(names, cols, height);
    var r := RowsOf(names, c, |k|);
    forall t | 0 <= t < |k| ensures r[t] == rows[k[t]] {
      forall j | 0 <= j < |names| ensures r[t][j] == rows[k[t]][j] {
        assert r[t][j] == c[names[j]][t];
      }
    }
  }

  /**
   * `cols` is `base` with the columns named in `done` replaced by their
   * entries in `target`.
   */
  ghost predicate Overwritten(cols: map<string, seq<Cell>>, base: map<string, seq<Cell>>,
                              done: seq<string>, target: map<string, seq<Cell>>) {
    (forall n :: n in cols <==> n in base) &&
    (forall n :: n in done ==> n in target) &&
    forall n :: n in cols ==> cols[n] == if n in done then target[n] else base[n]
  }

  /** Overwriting one more column extends the overwritten names by it. */
  lemma Overwrite(cols: map<string, seq<Cell>>, base: map<string, seq<Cell>>,
                  done: seq<string>, target: map<string, seq<Cell>>, n: string)
    requires Overwritten(cols, base, done, target) && n in cols && n !in done && n in target
    ensures cols[n] == base[n] && Overwritten(cols[n := target[n]], base, done + [n], target)
  {
  }
}
