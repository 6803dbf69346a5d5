/**
 * The cell-level rules of the cleaning script, one per column group: text
 * normalisation, first-number extraction, the character stripping of the
 * price, horsepower and torque columns, and `clean_column` applied to a
 * whole column.
 */
module Columns {
  import opened Wrappers
  import opened Text
  import opened Numbers
  import opened Ranges

  /** A column with `f` applied to every cell. */
  function Cells(col: seq<Cell>, f: Cell -> Cell): (r: seq<Cell>)
    ensures |r| == |col| && forall i :: 0 <= i < |col| ==> r[i] == f(col[i])
  {
    seq(|col|, i requires 0 <= i < |col| => f(col[i]))
  }

  // ---------------------------------------------------------------------------
  // Line 19: astype(str).str.title().str.strip()

  /** `astype(str)` of a text or missing cell. */
  function AsText(c: Cell): string
    requires !c.Num?
  {
    if c.Str? then c.s else "nan"
  }

  /** Cells as read from the CSV file: text or missing, never a number. */
  ghost predicate Raw(col: seq<Cell>) {
    forall i :: 0 <= i < |col| ==> !col[i].Num?
  }

  /** Line 19 on a whole column. */
  function TextColumn(col: seq<Cell>): (r: seq<Cell>)
    requires Raw(col)
    ensures |r| == |col| && forall i :: 0 <= i < |col| ==> r[i] == NormalizeText(col[i])
  {
    seq(|col|, i requires 0 <= i < |col| => NormalizeText(col[i]))
  }

  /** A cell of a text column, title-cased and stripped. */
  function NormalizeText(c: Cell): (r: Cell)
    requires !c.Num?
    ensures r.Str? && Stripped(r.s) && IsTitled(r.s)
    ensures c.Missing? ==> r == Str("Nan")
  {
    var u := Title(AsText(c));
    assert IsTitled(Strip(u)) by {
      TitleIsTitled(AsText(c));
      StripTitled(u);
    }
    assert c.Missing? ==> Strip(u) == "Nan" by {
      TitleNan();
    }
    Str(Strip(u))
  }

  /** A missing cell becomes the text "Nan". */
  lemma TitleNan()
    ensures Strip(Title("nan")) == "Nan"
  {
    assert "nan"[1..] == "an" && "an"[1..] == "n" && "n"[1..] == "";
    assert Title("nan") == "Nan";
    StripStripped("Nan");
  }

  /**
   * Normalisation only cuts whitespace off both ends and changes the case of
   * letters: the result matches, letter for letter up to case, the slice of the
   * input between a whitespace prefix and a whitespace suffix.
   */
  lemma NormalizeTextContent(s: string) returns (a: nat)
    ensures var r := NormalizeText(Str(s)).s;
            a + |r| <= |s| &&
            (forall i :: 0 <= i < a ==> IsSpace(s[i])) &&
            (forall i :: a + |r| <= i < |s| ==> IsSpace(s[i])) &&
            forall i :: 0 <= i < |r| ==> SameUpToCase(r[i], s[a + i])
  {
    var u := Title(s);
    TitleIsTitled(s);
    a := CaseStripSlice(u, s);
    assert NormalizeText(Str(s)).s == Strip(u);
  }

  /**
   * Stripping a case-variant `u` of `s` gives, up to case, the slice of `s`
   * between a whitespace prefix and a whitespace suffix.
   */
  lemma CaseStripSlice(u: string, s: string) returns (a: nat)
    requires |u| == |s| && forall i :: 0 <= i < |s| ==> SameUpToCase(u[i], s[i])
    ensures var r := Strip(u);
            a + |r| <= |s| &&
            (forall i :: 0 <= i < a ==> IsSpace(s[i])) &&
            (forall i :: a + |r| <= i < |s| ==> IsSpace(s[i])) &&
            forall i :: 0 <= i < |r| ==> SameUpToCase(r[i], s[a + i])
  {
    a := StripSlice(u);
    var r := Strip(u);
    forall i | 0 <= i < |s| && (i < a || a + |r| <= i) ensures IsSpace(s[i]) {
      if i < a {
        assert u[..a][i] == u[i];
      } else {
        assert u[a + |r|..][i - a - |r|] == u[i];
      }
      SameUpToCaseLetter(u[i], s[i]);
    }
    forall i | 0 <= i < |r| ensures SameUpToCase(r[i], s[a + i]) {
      assert r[i] == u[a + i];
    }
  }

  /** Normalising a second time changes nothing. */
  lemma NormalizeTextIdempotent(c: Cell)
    requires !c.Num?
    ensures NormalizeText(NormalizeText(c)) == NormalizeText(c)
  {
    var t := NormalizeText(c).s;
    TitleFixpoint(t);
    StripStripped(t);
  }

  // ---------------------------------------------------------------------------
  // Line 26: str.replace(",", "").str.extract(r"(\d+)").astype(float)

  /**
   * Commas dropped, then the first run of digits read as a number; a cell with
   * no digit, or that is not text, becomes missing.
   */
  function ExtractNumber(c: Cell): (r: Cell)
    ensures !r.Str?
    ensures r.Num? <==> c.Str? && !NoDigit(c.s)
    ensures r.Num? ==> r.x >= 0.0
    ensures r.Num? ==> exists i: nat, d :: IsFirstRun(Without(c.s, {','}), i, d) && r.x == NatValue(d) as real
  {
    match c
    case Str(s) =>
      var t := Without(s, {','});
      CommaFreeDigits(s);
      (match FirstDigitRun(t)
       case None => Missing
       case Some(ds) => Num(NatValue(ds) as real))
    case _ => Missing
  }

  /** Dropping commas keeps every digit. */
  lemma CommaFreeDigits(s: string)
    ensures NoDigit(Without(s, {','})) <==> NoDigit(s)
  {
    var t := Without(s, {','});
    if !NoDigit(s) {
      var i :| 0 <= i < |s| && IsDigit(s[i]);
      WithoutKeeps(s, {','}, s[i]);
      assert s[i] in multiset(s);
      assert s[i] in multiset(t);
      assert s[i] in t;
    }
    if !NoDigit(t) {
      var j :| 0 <= j < |t| && IsDigit(t[j]);
      WithoutShrinks(s, {','});
      assert t[j] in multiset(t);
      assert t[j] in s;
    }
  }

  /** When commas aside the text opens with digits, those digits are the number. */
  lemma ExtractLeadingRun(s: string, ds: string, t: string)
    requires ds != [] && AllDigits(ds) && (t == [] || !IsDigit(t[0]))
    requires Without(s, {','}) == ds + t
    ensures ExtractNumber(Str(s)) == Num(NatValue(ds) as real)
  {
    var w := ds + t;
    assert w[..|ds|] == ds && w[..0] == [];
    assert IsFirstRun(w, 0, ds);
    var e := FirstDigitRun(w).value;
    var i: nat :| IsFirstRun(w, i, e);
    FirstRunUnique(w, 0, ds, i, e);
  }

  /** A thousands separator does not cut the number: `"1,200 cc"` reads 1200. */
  lemma ExtractThousands(a: string, b: string, t: string)
    requires a != [] && AllDigits(a) && b != [] && AllDigits(b)
    requires ',' !in t && (t == [] || !IsDigit(t[0]))
    ensures ExtractNumber(Str(a + "," + b + t)) == Num(NatValue(a + b) as real)
  {
    assert ',' !in a && ',' !in b + t;
    DropThousands(a, b + t);
    assert a + "," + b + t == a + "," + (b + t);
    assert (a + b) + t == a + (b + t);
    ExtractLeadingRun(a + "," + b + t, a + b, t);
  }

  lemma DropThousands(a: string, rest: string)
    requires ',' !in a && ',' !in rest
    ensures Without(a + "," + rest, {','}) == a + rest
  {
    var x := a + ",";
    assert a + "," + rest == x + rest;
    WithoutConcat(x, rest, {','});
    DropComma(a);
    WithoutNothing(rest, {','});
  }

  lemma DropComma(a: string)
    requires ',' !in a
    ensures Without(a + ",", {','}) == a
  {
    WithoutConcat(a, ",", {','});
    WithoutNothing(a, {','});
    assert Without(",", {','}) == [] by {
      assert ","[1..] == [];
    }
  }

  /** A decimal point ends the number: `"3.5 s"` reads 3. */
  lemma ExtractStopsAtPoint(a: string, t: string)
    requires a != [] && AllDigits(a) && ',' !in t
    ensures ExtractNumber(Str(a + "." + t)) == Num(NatValue(a) as real)
  {
    var s, rest := a + "." + t, "." + t;
    assert s == a + rest && rest[0] == '.';
    assert ',' !in s by {
      assert forall i :: 0 <= i < |s| ==> s[i] == if i < |a| then a[i] else rest[i - |a|];
    }
    WithoutNothing(s, {','});
    ExtractLeadingRun(s, a, rest);
  }

  // ---------------------------------------------------------------------------
  // Lines 28-53: the character stripping of three columns

  /** Lines 30-32: `$` and `,` removed, then whitespace stripped. */
  function StripPrice(c: Cell): (r: Cell)
    ensures r.Str? <==> c.Str?
    ensures !r.Num?
    ensures r.Str? ==> Stripped(r.s) && '$' !in r.s && ',' !in r.s
  {
    match c
    case Str(s) =>
      var w1 := Without(s, {'$'});
      var w := Without(w1, {','});
      assert '$' !in Strip(w) by {
        if '$' in Strip(w) {
          StripFrom(w, '$');
          WithoutFrom(w1, {','}, '$');
          WithoutFrom(s, {'$'}, '$');
        }
      }
      assert ',' !in Strip(w) by {
        if ',' in Strip(w) {
          StripFrom(w, ',');
          WithoutFrom(w1, {','}, ',');
        }
      }
      Str(Strip(w))
    case _ => Missing
  }

  /** Every other character that is not whitespace survives, as often as it occurs. */
  lemma StripPriceKeeps(s: string, ch: char)
    requires ch != '$' && ch != ',' && !IsSpace(ch)
    ensures multiset(StripPrice(Str(s)).s)[ch] == multiset(s)[ch]
  {
    WithoutKeeps(s, {'$'}, ch);
    WithoutKeeps(Without(s, {'$'}), {','}, ch);
    StripKeeps(Without(Without(s, {'$'}), {','}), ch);
  }

  /** Lines 37-42: `hp`, `HP`, `,`, `~` and `.` removed, then whitespace stripped. */
  function StripHorsePower(c: Cell): (r: Cell)
    ensures r.Str? <==> c.Str?
    ensures !r.Num?
    ensures r.Str? ==> Stripped(r.s) && ',' !in r.s && '~' !in r.s && '.' !in r.s
  {
    match c
    case Str(s) =>
      var w1 := Without(Delete(Delete(s, "hp"), "HP"), {','});
      var w2 := Without(w1, {'~'});
      var w := Without(w2, {'.'});
      assert forall ch :: ch in Strip(w) ==> ch != ',' && ch != '~' && ch != '.' by {
        forall ch | ch in Strip(w) ensures ch != ',' && ch != '~' && ch != '.' {
          StripFrom(w, ch);
          WithoutFrom(w2, {'.'}, ch);
          WithoutFrom(w1, {'~'}, ch);
          WithoutFrom(Delete(Delete(s, "hp"), "HP"), {','}, ch);
        }
      }
      Str(Strip(w))
    case _ => Missing
  }

  lemma StripHorsePowerKeeps(s: string, ch: char)
    requires ch !in "hpHP,~." && !IsSpace(ch)
    ensures multiset(StripHorsePower(Str(s)).s)[ch] == multiset(s)[ch]
  {
    DeleteKeeps(s, "hp", ch);
    DeleteKeeps(Delete(s, "hp"), "HP", ch);
    var d := Delete(Delete(s, "hp"), "HP");
    WithoutKeeps(d, {','}, ch);
    WithoutKeeps(Without(d, {','}), {'~'}, ch);
    WithoutKeeps(Without(Without(d, {','}), {'~'}), {'.'}, ch);
    StripKeeps(Without(Without(Without(d, {','}), {'~'}), {'.'}), ch);
  }

  /** Lines 47-52: `Nm`, `,`, `+`, ASCII letters and parentheses removed, then whitespace stripped. */
  function StripTorque(c: Cell): (r: Cell)
    ensures r.Str? <==> c.Str?
    ensures !r.Num?
    ensures r.Str? ==> Stripped(r.s) && NoLetter(r.s) && ',' !in r.s && '+' !in r.s && '(' !in r.s && ')' !in r.s
  {
    match c
    case Str(s) =>
      var w1 := Without(Delete(s, "Nm"), {','});
      var w2 := Without(w1, {'+'});
      var w3 := Without(w2, Letters);
      var w := Without(w3, {'(', ')'});
      assert forall ch :: ch in Strip(w) ==> !IsLetter(ch) && ch !in ",+()" by {
        forall ch | ch in Strip(w) ensures !IsLetter(ch) && ch !in ",+()" {
          StripFrom(w, ch);
          WithoutFrom(w3, {'(', ')'}, ch);
          WithoutFrom(w2, Letters, ch);
          WithoutFrom(w1, {'+'}, ch);
          WithoutFrom(Delete(s, "Nm"), {','}, ch);
        }
      }
      var t := Strip(w);
      assert forall i :: 0 <= i < |t| ==> t[i] in t;
      Str(t)
    case _ => Missing
  }

  lemma StripTorqueKeeps(s: string, ch: char)
    requires !IsLetter(ch) && ch !in ",+()" && !IsSpace(ch)
    ensures multiset(StripTorque(Str(s)).s)[ch] == multiset(s)[ch]
  {
    DeleteKeeps(s, "Nm", ch);
    var d := Delete(s, "Nm");
    WithoutKeeps(d, {','}, ch);
    var w3 := Without(Without(d, {','}), {'+'});
    WithoutKeeps(Without(d, {','}), {'+'}, ch);
    WithoutKeeps(w3, Letters, ch);
    WithoutKeeps(Without(w3, Letters), {'(', ')'}, ch);
    StripKeeps(Without(Without(w3, Letters), {'(', ')'}), ch);
  }

  // ---------------------------------------------------------------------------
  // Lines 83-85: df[col].apply(clean_column)

  /** The cell pandas stores for a value `clean_column` returned: None and NaN are missing. */
  function Stored(o: Outcome): (c: Cell)
    requires !o.Raises?
    ensures c.Num? <==> o.Value?
    ensures o.Value? ==> c == Num(o.x)
  {
    if o.Value? then Num(o.x) else Missing
  }

  /**
   * The outcomes of the calls in order, collected into a column: the stored
   * cells, or the part that made the first failing call raise ValueError.
   */
  function Collect(os: seq<Outcome>): (r: Result<seq<Cell>, string>)
    ensures r.Success? <==> forall i :: 0 <= i < |os| ==> !os[i].Raises?
    ensures r.Success? ==>
              |r.value| == |os| && forall i :: 0 <= i < |os| ==> r.value[i] == Stored(os[i])
    ensures r.Failure? ==> exists i :: 0 <= i < |os| && os[i] == Raises(r.error) &&
                                       forall j :: 0 <= j < i ==> !os[j].Raises?
  {
    if os == [] then Success([])
    else if os[0].Raises? then Failure(os[0].part)
    else
      var rest := Collect(os[1..]);
      assert forall i :: 1 <= i < |os| ==> os[1..][i - 1] == os[i];
      if rest.Failure? then Failure(rest.error)
      else Success([Stored(os[0])] + rest.value)
  }

  /** `clean_column` on every cell in order: the new column, or the part that raised. */
  function ResolveColumn(col: seq<Cell>): (r: Result<seq<Cell>, string>)
    ensures r.Success? <==> forall i :: 0 <= i < |col| ==> !CleanColumn(col[i]).Raises?
    ensures r.Success? ==>
              |r.value| == |col| && forall i :: 0 <= i < |col| ==> r.value[i] == Stored(CleanColumn(col[i]))
    ensures r.Failure? ==> exists i :: 0 <= i < |col| && CleanColumn(col[i]) == Raises(r.error) &&
                                       forall j :: 0 <= j < i ==> !CleanColumn(col[j]).Raises?
  {
    var os := seq(|col|, i requires 0 <= i < |col| => CleanColumn(col[i]));
    assert forall i :: 0 <= i < |col| ==> os[i] == CleanColumn(col[i]);
    Collect(os)
  }

  /** A resolved column holds numbers and missing cells only, and missing cells stay missing. */
  lemma ResolveColumnNumeric(col: seq<Cell>)
    requires ResolveColumn(col).Success?
    ensures forall i :: 0 <= i < |col| ==> !ResolveColumn(col).value[i].Str?
    ensures forall i :: 0 <= i < |col| && col[i].Missing? ==> ResolveColumn(col).value[i].Missing?
  {
  }
}
