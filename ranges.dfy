/**
 * `clean_column`: resolves a price, horsepower or torque cell to one number.
 * Dash variants and `/` become `-`, parentheses, `~` and ASCII letters are
 * removed, the text is split on `-`, blank parts are dropped and the rest are
 * read with `float()`: one part gives its value, two give their mean, any
 * other count gives NaN, and a part `float()` rejects raises ValueError.
 */
module Ranges {
  import opened Wrappers
  import opened Text
  import opened Numbers

  /**
   * The first and sixth characters of the replacement chain are U+0096 and the
   * fifth is U+0080, C1 control characters as written in the script. U+0096 is
   * what the Windows-1252 en-dash byte 0x96 becomes when read as Latin-1; the
   * byte 0x80 is the euro sign in Windows-1252.
   */
  const Latin1Dash96: char := '\U{0096}'
  const Latin1Char80: char := '\U{0080}'
  const EnDash: char := '\U{2013}'
  const EmDash: char := '\U{2014}'

  /** Characters the replacement chain maps to `-`. */
  predicate IsDash(c: char) {
    c == Latin1Dash96 || c == '/' || c == EnDash || c == EmDash || c == Latin1Char80
  }

  /** The chain of six `replace(..., "-")` calls, in the source's order. */
  function DashChain(s: string): (r: string)
    ensures |r| == |s|
    ensures forall i :: 0 <= i < |s| ==> r[i] == if IsDash(s[i]) then '-' else s[i]
  {
    ReplaceChar(ReplaceChar(ReplaceChar(ReplaceChar(ReplaceChar(ReplaceChar(
      s, Latin1Dash96, '-'), '/', '-'), EnDash, '-'), EmDash, '-'), Latin1Char80, '-'), Latin1Dash96, '-')
  }

  /**
   * A character that can be left in the text `clean_column` splits: none of
   * the removed characters, no dash other than `-`, and apart from `-` only
   * characters of the original cell `s`.
   */
  ghost predicate Survives(c: char, s: string) {
    c != '(' && c != ')' && c != '~' && !IsLetter(c) &&
    (IsDash(c) ==> c == '-') && (c == '-' || c in s)
  }

  /**
   * The text `clean_column` splits: dashes mapped to `-`, then `[()]`, `~` and
   * `[A-Za-z]` removed, then whitespace stripped.
   */
  function Prepare(s: string): (t: string)
    ensures Stripped(t) && NoLetter(t)
    ensures forall i :: 0 <= i < |t| ==> Survives(t[i], s)
  {
    var t := Strip(Without(Without(Without(DashChain(s), {'(', ')'}), {'~'}), Letters));
    assert forall i :: 0 <= i < |t| ==> Survives(t[i], s) by {
      forall i | 0 <= i < |t| ensures Survives(t[i], s) {
        StagesKeep(s, t[i]);
      }
    }
    t
  }

  lemma StagesKeep(s: string, c: char)
    requires c in Strip(Without(Without(Without(DashChain(s), {'(', ')'}), {'~'}), Letters))
    ensures Survives(c, s)
  {
    var u := DashChain(s);
    var w1 := Without(u, {'(', ')'});
    var w2 := Without(w1, {'~'});
    var w3 := Without(w2, Letters);
    StripFrom(w3, c);
    WithoutFrom(w2, Letters, c);
    WithoutFrom(w1, {'~'}, c);
    WithoutFrom(u, {'(', ')'}, c);
    var i :| 0 <= i < |u| && u[i] == c;
  }

  /** The number of dash characters in `s`. */
  function DashCount(s: string): nat {
    if s == [] then 0 else (if IsDash(s[0]) then 1 else 0) + DashCount(s[1..])
  }

  /**
   * What `clean_column` keeps: every character that is not whitespace, a dash,
   * a parenthesis, `~` or a letter keeps its number of occurrences, and `-`
   * occurs as often as `-` and the dash characters together did.
   */
  lemma PrepareCounts(s: string, c: char)
    requires !IsSpace(c) && !IsDash(c) && c != '(' && c != ')' && c != '~' && !IsLetter(c)
    ensures multiset(Prepare(s))[c] == multiset(s)[c] + (if c == '-' then DashCount(s) else 0)
  {
    var u := DashChain(s);
    DashChainCount(s, u, c);
    var w1 := Without(u, {'(', ')'});
    var w2 := Without(w1, {'~'});
    WithoutKeeps(u, {'(', ')'}, c);
    WithoutKeeps(w1, {'~'}, c);
    WithoutKeeps(w2, Letters, c);
    StripKeeps(Without(w2, Letters), c);
  }

  lemma {:induction false} DashChainCount(s: string, r: string, c: char)
    requires |r| == |s| && forall i :: 0 <= i < |s| ==> r[i] == if IsDash(s[i]) then '-' else s[i]
    requires !IsDash(c)
    ensures multiset(r)[c] == multiset(s)[c] + (if c == '-' then DashCount(s) else 0)
  {
    if s != [] {
      assert s == [s[0]] + s[1..] && r == [r[0]] + r[1..];
      DashChainCount(s[1..], r[1..], c);
    }
  }

  // ---------------------------------------------------------------------------
  // str.split("-")

  /** The parts separated by `sep`, joined back together. */
  function Join(parts: seq<string>, sep: char): string {
    if parts == [] then []
    else if |parts| == 1 then parts[0]
    else parts[0] + [sep] + Join(parts[1..], sep)
  }

  lemma JoinPrefix(a: string, parts: seq<string>, sep: char)
    requires |parts| >= 1
    ensures Join([a + parts[0]] + parts[1..], sep) == a + Join(parts, sep)
  {
    var ps := [a + parts[0]] + parts[1..];
    if |parts| > 1 {
      assert ps[1..] == parts[1..];
    }
  }

  /**
   * Python's `s.split(sep)`: at least one part, no part holds `sep`, and
   * joining the parts with `sep` gives `s` back.
   */
  function Split(s: string, sep: char): (parts: seq<string>)
    ensures |parts| >= 1
    ensures forall k :: 0 <= k < |parts| ==> sep !in parts[k]
    ensures Join(parts, sep) == s
  {
    if s == [] then [[]]
    else
      var rest := Split(s[1..], sep);
      if s[0] == sep then
        assert ([[]] + rest)[1..] == rest;
        [[]] + rest
      else
        JoinPrefix([s[0]], rest, sep);
        assert s == [s[0]] + s[1..];
        [[s[0]] + rest[0]] + rest[1..]
  }

  lemma {:induction false} SplitWhole(a: string, sep: char)
    requires sep !in a
    ensures Split(a, sep) == [a]
  {
    if a != [] {
      SplitWhole(a[1..], sep);
      assert [a[0]] + a[1..] == a;
    }
  }

  lemma {:induction false} SplitFirst(a: string, t: string, sep: char)
    requires sep !in a
    ensures Split(a + [sep] + t, sep) == [a] + Split(t, sep)
  {
    var s := a + [sep] + t;
    if a == [] {
      assert s[1..] == t;
    } else {
      assert s[1..] == a[1..] + [sep] + t;
      SplitFirst(a[1..], t, sep);
      assert [a[0]] + a[1..] == a;
    }
  }

  /** Splitting text joined from separator-free parts gives the parts back. */
  lemma {:induction false} SplitJoin(parts: seq<string>, sep: char)
    requires |parts| >= 1
    requires forall k :: 0 <= k < |parts| ==> sep !in parts[k]
    ensures Split(Join(parts, sep), sep) == parts
  {
    if |parts| == 1 {
      SplitWhole(parts[0], sep);
    } else {
      SplitJoin(parts[1..], sep);
      SplitFirst(parts[0], Join(parts[1..], sep), sep);
    }
  }

  // ---------------------------------------------------------------------------
  // [float(p) for p in parts if p.strip() != ""]

  function NonBlank(parts: seq<string>): (r: seq<string>)
    ensures |r| <= |parts|
    ensures forall k :: 0 <= k < |r| ==> !AllSpace(r[k]) && r[k] in parts
    ensures forall k :: 0 <= k < |parts| && !AllSpace(parts[k]) ==> parts[k] in r
  {
    if parts == [] then []
    else (if AllSpace(parts[0]) then [] else [parts[0]]) + NonBlank(parts[1..])
  }

  /**
   * The filter works part by part and keeps order and repetitions: the kept
   * parts of `a + b` are those of `a` followed by those of `b`, and a single
   * part is kept exactly when it is not blank.
   */
  lemma {:induction false} NonBlankConcat(a: seq<string>, b: seq<string>)
    ensures NonBlank(a + b) == NonBlank(a) + NonBlank(b)
    ensures |a| == 1 ==> NonBlank(a) == if AllSpace(a[0]) then [] else a
  {
    if a != [] {
      assert (a + b)[0] == a[0] && (a + b)[1..] == a[1..] + b;
      NonBlankConcat(a[1..], b);
      var h := (if AllSpace(a[0]) then [] else [a[0]]);
      assert NonBlank(a + b) == h + NonBlank(a[1..] + b);
      assert NonBlank(a) == h + NonBlank(a[1..]);
    } else {
      assert a + b == b;
    }
    if |a| == 1 {
      assert a[1..] == [];
    }
  }

  /**
   * `float` applied to each part in order: the values, or a part it rejects
   * (the comprehension raises ValueError at the first such part).
   */
  function ParseAll(parts: seq<string>): (r: Result<seq<real>, string>)
    ensures r.Success? <==> forall k :: 0 <= k < |parts| ==> ParseFloat(parts[k]).Some?
    ensures r.Success? ==>
              |r.value| == |parts| && forall k :: 0 <= k < |parts| ==> ParseFloat(parts[k]) == Some(r.value[k])
    ensures r.Failure? ==> exists k :: FirstUnparsed(parts, k) && r.error == parts[k]
  {
    if parts == [] then Success([])
    else
      match ParseFloat(parts[0])
      case None =>
        assert FirstUnparsed(parts, 0);
        Failure(parts[0])
      case Some(x) =>
        var rest := ParseAll(parts[1..]);
        var r := if rest.Failure? then Failure(rest.error) else Success([x] + rest.value);
        ParseAllStep(parts, x, rest, r);
        r
  }

  /** The three promises of ParseAll, for `parts` and its result `r`. */
  ghost predicate ParsedAs(parts: seq<string>, r: Result<seq<real>, string>)
  {
    && (r.Success? <==> forall k :: 0 <= k < |parts| ==> ParseFloat(parts[k]).Some?)
    && (r.Success? ==>
          |r.value| == |parts| && forall k :: 0 <= k < |parts| ==> ParseFloat(parts[k]) == Some(r.value[k]))
    && (r.Failure? ==> exists k :: FirstUnparsed(parts, k) && r.error == parts[k])
  }

  lemma ParseAllStep(parts: seq<string>, x: real, rest: Result<seq<real>, string>, r: Result<seq<real>, string>)
    requires parts != [] && ParseFloat(parts[0]) == Some(x) && ParsedAs(parts[1..], rest)
    requires r == if rest.Failure? then Failure(rest.error) else Success([x] + rest.value)
    ensures ParsedAs(parts, r)
  {
    if rest.Failure? {
      var k :| FirstUnparsed(parts[1..], k) && rest.error == parts[1..][k];
      FirstUnparsedShift(parts, k);
      assert !ParseFloat(parts[k + 1]).Some?;
    } else {
      ParsedAllShift(parts, x, rest.value);
    }
  }

  lemma ParsedAllShift(parts: seq<string>, x: real, xs: seq<real>)
    requires parts != [] && ParseFloat(parts[0]) == Some(x)
    requires |xs| == |parts| - 1 && forall k :: 0 <= k < |parts| - 1 ==> ParseFloat(parts[1..][k]) == Some(xs[k])
    ensures forall k :: 0 <= k < |parts| ==> ParseFloat(parts[k]) == Some(([x] + xs)[k])
  {
    PairwiseCons((p, y) => ParseFloat(p) == Some(y), parts, x, xs);
  }

  /** A relation that holds pairwise on the tails and on the heads holds pairwise on the whole. */
  lemma PairwiseCons<A, B>(rel: (A, B) -> bool, xs: seq<A>, y: B, ys: seq<B>)
    requires xs != [] && rel(xs[0], y)
    requires |ys| == |xs| - 1 && forall k :: 0 <= k < |ys| ==> rel(xs[1..][k], ys[k])
    ensures forall k :: 0 <= k < |xs| ==> rel(xs[k], ([y] + ys)[k])
  {
    forall k | 0 <= k < |xs| ensures rel(xs[k], ([y] + ys)[k]) {
      if k > 0 {
        assert xs[k] == xs[1..][k - 1];
      }
    }
  }

  /** `parts[k]` is the first part `float()` rejects. */
  predicate FirstUnparsed(parts: seq<string>, k: int)
  {
    0 <= k < |parts| && ParseFloat(parts[k]).None? && forall j :: 0 <= j < k ==> ParseFloat(parts[j]).Some?
  }

  lemma FirstUnparsedShift(parts: seq<string>, k: int)
    requires parts != [] && ParseFloat(parts[0]).Some? && FirstUnparsed(parts[1..], k)
    ensures FirstUnparsed(parts, k + 1) && parts[k + 1] == parts[1..][k]
  {
    assert forall j :: 1 <= j < k + 1 ==> parts[j] == parts[1..][j - 1];
  }

  // ---------------------------------------------------------------------------
  // clean_column

  /** What `clean_column` gives back: a number, NaN, nothing (None), or ValueError. */
  datatype Outcome = Value(x: real) | NotANumber | NoValue | Raises(part: string)

  /** `np.mean` of two values. */
  function Mean(x: real, y: real): (m: real)
    ensures m - x == y - m
  {
    (x + y) / 2.0
  }

  /** Lines 76-81: what the parsed numbers come to. */
  function Decide(r: Result<seq<real>, string>): (o: Outcome)
    ensures o != NoValue
    ensures o.Raises? <==> r.Failure?
    ensures r.Success? && |r.value| == 1 ==> o == Value(r.value[0])
    ensures r.Success? && |r.value| == 2 ==> o == Value(Mean(r.value[0], r.value[1]))
    ensures o == NotANumber <==> r.Success? && |r.value| != 1 && |r.value| != 2
  {
    match r
    case Failure(p) => Raises(p)
    case Success(xs) =>
      if |xs| == 2 then Value(Mean(xs[0], xs[1]))
      else if |xs| == 1 then Value(xs[0])
      else NotANumber
  }

  /** Lines 73-81: the resolution of prepared text. */
  function Resolve(t: string): (o: Outcome)
    ensures o != NoValue
  {
    Decide(ParseAll(NonBlank(Split(t, '-'))))
  }

  /** `clean_column(v)`; a value that is not a string gives no value. */
  function CleanColumn(v: Cell): (o: Outcome)
    ensures o == NoValue <==> !v.Str?
  {
    match v
    case Str(s) => Resolve(Prepare(s))
    case _ => NoValue
  }

  // ---------------------------------------------------------------------------
  // What clean_column resolves a cell to

  /** Parts of a range: at least one, and none holds `-`. */
  ghost predicate Pieces(ps: seq<string>) {
    |ps| >= 1 && forall k :: 0 <= k < |ps| ==> '-' !in ps[k]
  }

  /** Joining parts with `-` and resolving works on those very parts. */
  lemma ResolveJoin(ps: seq<string>)
    requires Pieces(ps)
    ensures Resolve(Join(ps, '-')) == Decide(ParseAll(NonBlank(ps)))
  {
    SplitJoin(ps, '-');
  }

  /** If every non-blank part is a number, the non-blank parts parse. */
  lemma NonBlankParse(ps: seq<string>)
    requires forall k :: 0 <= k < |ps| ==> AllSpace(ps[k]) || ParseFloat(ps[k]).Some?
    ensures ParseAll(NonBlank(ps)).Success?
  {
    var nb := NonBlank(ps);
    forall j | 0 <= j < |nb| ensures ParseFloat(nb[j]).Some? {
      var k :| 0 <= k < |ps| && ps[k] == nb[j];
    }
  }

  /**
   * When every non-blank part is a number, the number of non-blank parts
   * decides: one gives its value, two give their mean, any other count NaN.
   * Blank parts, wherever they stand, play no role.
   */
  lemma ResolveByCount(ps: seq<string>)
    requires Pieces(ps)
    requires forall k :: 0 <= k < |ps| ==> AllSpace(ps[k]) || ParseFloat(ps[k]).Some?
    ensures var nb := NonBlank(ps);
            |nb| == 1 ==> Resolve(Join(ps, '-')) == Value(ParseFloat(nb[0]).value)
    ensures var nb := NonBlank(ps);
            |nb| == 2 ==> Resolve(Join(ps, '-')) == Value(Mean(ParseFloat(nb[0]).value, ParseFloat(nb[1]).value))
    ensures |NonBlank(ps)| != 1 && |NonBlank(ps)| != 2 ==> Resolve(Join(ps, '-')) == NotANumber
  {
    ResolveJoin(ps);
    NonBlankParse(ps);
  }

  /**
   * Resolution raises ValueError exactly when some non-blank part is not a
   * decimal literal.
   */
  lemma ResolveRaises(ps: seq<string>)
    requires Pieces(ps)
    ensures Resolve(Join(ps, '-')).Raises? <==>
              exists k :: 0 <= k < |ps| && !AllSpace(ps[k]) && ParseFloat(ps[k]).None?
  {
    ResolveJoin(ps);
    NonBlankFail(ps);
  }

  lemma NonBlankFail(ps: seq<string>)
    ensures ParseAll(NonBlank(ps)).Failure? <==>
              exists k :: 0 <= k < |ps| && !AllSpace(ps[k]) && ParseFloat(ps[k]).None?
  {
    var r := ParseAll(NonBlank(ps));
    if r.Failure? {
      RejectedPart(ps, r.error);
    }
    if exists k :: 0 <= k < |ps| && !AllSpace(ps[k]) && ParseFloat(ps[k]).None? {
      var k :| 0 <= k < |ps| && !AllSpace(ps[k]) && ParseFloat(ps[k]).None?;
      KeptPart(ps, k);
    }
  }

  lemma RejectedPart(ps: seq<string>, p: string)
    requires p in NonBlank(ps) && ParseFloat(p).None?
    ensures exists k :: 0 <= k < |ps| && !AllSpace(ps[k]) && ParseFloat(ps[k]).None?
  {
    var k :| 0 <= k < |ps| && ps[k] == p;
  }

  lemma KeptPart(ps: seq<string>, k: nat)
    requires k < |ps| && !AllSpace(ps[k]) && ParseFloat(ps[k]).None?
    ensures ParseAll(NonBlank(ps)).Failure?
  {
    var nb := NonBlank(ps);
    var j :| 0 <= j < |nb| && nb[j] == ps[k];
  }

  /** Text made of digits, `.` and `-` with no surrounding space is already prepared. */
  lemma PrepareKeeps(s: string)
    requires Stripped(s)
    requires forall i :: 0 <= i < |s| ==> IsDigit(s[i]) || s[i] == '.' || s[i] == '-'
    ensures Prepare(s) == s
  {
    DashFree(s);
    RemovalsKeep(s);
    StripStripped(s);
  }

  /** Lines 61-63 remove nothing from digits, `.` and `-`. */
  lemma RemovalsKeep(s: string)
    requires forall i :: 0 <= i < |s| ==> IsDigit(s[i]) || s[i] == '.' || s[i] == '-'
    ensures Without(Without(Without(s, {'(', ')'}), {'~'}), Letters) == s
  {
    WithoutNothingThrice(s, {'(', ')'}, {'~'}, Letters);
  }

  /** No character of prepared digits is a dash that line 60 rewrites. */
  lemma DashFree(s: string)
    requires forall i :: 0 <= i < |s| ==> IsDigit(s[i]) || s[i] == '.' || s[i] == '-'
    ensures DashChain(s) == s
  {
    assert forall i :: 0 <= i < |s| ==> !IsDash(s[i]);
  }

  /** Prepared text whose `-`-separated parts are `ps` resolves on `ps`. */
  lemma CleanColumnParts(s: string, ps: seq<string>)
    requires PlainText(s) && Pieces(ps) && Join(ps, '-') == s
    ensures CleanColumn(Str(s)) == Decide(ParseAll(NonBlank(ps)))
  {
    PrepareKeeps(s);
    ResolveJoin(ps);
  }

  /** A numeral is one non-blank part without `-`, read as its value. */
  lemma Numeral(w: string)
    requires w != [] && AllDigits(w)
    ensures '-' !in w && !AllSpace(w) && ParseFloat(w) == Some(NatValue(w) as real)
  {
    assert !IsSpace(w[0]);
    ParseDigits(w);
  }

  /** Text made of digits, `.` and `-` that starts and ends with neither space. */
  ghost predicate PlainText(s: string) {
    Stripped(s) && forall i :: 0 <= i < |s| ==> IsDigit(s[i]) || s[i] == '.' || s[i] == '-'
  }

  lemma OneNumeral(w: string)
    requires w != [] && AllDigits(w)
    ensures ParseAll([w]) == Success([NatValue(w) as real])
  {
    Numeral(w);
    var r := ParseAll([w]);
    assert r.Success? && |r.value| == 1 && r.value[0] == NatValue(w) as real;
    assert r.value == [NatValue(w) as real];
  }

  lemma TrailingDash(w: string)
    requires w != [] && AllDigits(w)
    ensures Join([w, ""], '-') == w + "-" && PlainText(w + "-") && Pieces([w, ""])
    ensures NonBlank([w, ""]) == [w]
  {
    Numeral(w);
    var s := w + "-";
    assert [w, ""][1..] == [""];
    assert s[0] == w[0] && s[|s| - 1] == '-';
  }

  lemma LeadingDash(w: string)
    requires w != [] && AllDigits(w)
    ensures Join(["", w], '-') == "-" + w && PlainText("-" + w) && Pieces(["", w])
    ensures NonBlank(["", w]) == [w]
  {
    Numeral(w);
    var s := "-" + w;
    assert ["", w][1..] == [w];
    assert s[0] == '-' && s[|s| - 1] == w[|w| - 1];
  }

  lemma DoubleDash(w: string)
    requires w != [] && AllDigits(w)
    ensures Join([w, "", ""], '-') == w + "--" && PlainText(w + "--") && Pieces([w, "", ""])
    ensures NonBlank([w, "", ""]) == [w]
  {
    Numeral(w);
    var s := w + "--";
    assert [w, "", ""][1..] == ["", ""];
    assert ["", ""][1..] == [""];
    assert s[0] == w[0] && s[|s| - 1] == '-';
  }

  /** A dash before, after or doubled after a number leaves just that number. */
  lemma CleanColumnLoneDash(w: string)
    requires w != [] && AllDigits(w)
    ensures CleanColumn(Str(w + "-")) == Value(NatValue(w) as real)
    ensures CleanColumn(Str("-" + w)) == Value(NatValue(w) as real)
    ensures CleanColumn(Str(w + "--")) == Value(NatValue(w) as real)
  {
    OneNumeral(w);
    TrailingDash(w);
    CleanColumnParts(w + "-", [w, ""]);
    LeadingDash(w);
    CleanColumnParts("-" + w, ["", w]);
    DoubleDash(w);
    CleanColumnParts(w + "--", [w, "", ""]);
  }

  lemma TwoNumerals(a: string, b: string)
    requires a != [] && AllDigits(a) && b != [] && AllDigits(b)
    ensures NonBlank([a, b]) == [a, b]
    ensures ParseAll([a, b]) == Success([NatValue(a) as real, NatValue(b) as real])
  {
    Numeral(a);
    Numeral(b);
    assert [a, b][1..] == [b];
    ParseTwo(a, b, NatValue(a) as real, NatValue(b) as real);
  }

  lemma ParseTwo(a: string, b: string, x: real, y: real)
    requires ParseFloat(a) == Some(x) && ParseFloat(b) == Some(y)
    ensures ParseAll([a, b]) == Success([x, y])
  {
    var r := ParseAll([a, b]);
    assert [a, b][0] == a && [a, b][1] == b;
    assert r.Success? && |r.value| == 2;
    assert r.value[0] == x && r.value[1] == y;
    assert r.value == [x, y];
  }

  lemma RangeText(a: string, b: string)
    requires a != [] && AllDigits(a) && b != [] && AllDigits(b)
    ensures Join([a, b], '-') == a + "-" + b && PlainText(a + "-" + b) && Pieces([a, b])
  {
    Numeral(a);
    Numeral(b);
    var s := a + "-" + b;
    assert [a, b][1..] == [b];
    assert s[0] == a[0] && s[|s| - 1] == b[|b| - 1];
  }

  /** A range of two numbers resolves to their mean. */
  lemma CleanColumnRange(a: string, b: string)
    requires a != [] && AllDigits(a) && b != [] && AllDigits(b)
    ensures CleanColumn(Str(a + "-" + b)) == Value(Mean(NatValue(a) as real, NatValue(b) as real))
  {
    RangeMean(a, b);
    RangeText(a, b);
    CleanColumnParts(a + "-" + b, [a, b]);
  }

  lemma RangeMean(a: string, b: string)
    requires a != [] && AllDigits(a) && b != [] && AllDigits(b)
    ensures Decide(ParseAll(NonBlank([a, b]))) == Value(Mean(NatValue(a) as real, NatValue(b) as real))
  {
    var x, y := NatValue(a) as real, NatValue(b) as real;
    TwoNumerals(a, b);
    assert Decide(Success([x, y])) == Value(Mean(x, y));
  }

  /** A part with two decimal points makes `float` and so the whole call raise. */
  lemma CleanColumnMalformed(a: string, b: string, c: string)
    requires a != [] && AllDigits(a) && b != [] && AllDigits(b) && c != [] && AllDigits(c)
    ensures CleanColumn(Str(a + "." + b + "." + c)) == Raises(a + "." + b + "." + c)
  {
    var s := a + "." + b + "." + c;
    TwoPoints(a, b, c);
    CleanColumnParts(s, [s]);
  }

  lemma TwoPoints(a: string, b: string, c: string)
    requires a != [] && AllDigits(a) && b != [] && AllDigits(b) && c != [] && AllDigits(c)
    ensures var s := a + "." + b + "." + c;
            PlainText(s) && Pieces([s]) && Join([s], '-') == s &&
            Decide(ParseAll(NonBlank([s]))) == Raises(s)
  {
    var s := a + "." + b + "." + c;
    assert s[0] == a[0] && s[|s| - 1] == c[|c| - 1];
    assert '-' !in s && !IsSpace(s[0]);
    NotAFloat(a, b, c);
    assert NonBlank([s]) == [s];
    assert ParseAll([s]) == Failure(s);
  }

  /** Python's `float` rejects a numeral with two decimal points. */
  lemma NotAFloat(a: string, b: string, c: string)
    requires a != [] && AllDigits(a) && b != [] && AllDigits(b) && c != [] && AllDigits(c)
    ensures ParseFloat(a + "." + b + "." + c) == None
  {
    var s := a + "." + b + "." + c;
    assert s[0] == a[0] && s[|s| - 1] == c[|c| - 1];
    StripStripped(s);
    assert s[0] != '+' && s[0] != '-';
    assert s[..|a|] == a && s[|a|] == '.';
    IndexOfFirst(s, '.', |a|);
    assert s[|a| + 1..] == b + "." + c;
    assert !IsDigitPart(b + "." + c) by {
      assert (b + "." + c)[|b|] == '.';
    }
  }
}
