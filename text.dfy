/**
 * String operations the cleaning script relies on: Python's `str.strip()`,
 * `str.title()`, `str.replace(pattern, "")` and `re.sub` over a character
 * class. Characters are those of the Latin-1 range the dataset is decoded in.
 */
module Text {

  /** Python's `str.isspace()` over the Latin-1 range. */
  predicate IsSpace(c: char) {
    c == ' ' || ('\t' <= c <= '\r') || ('\U{1C}' <= c <= '\U{1F}') || c == '\U{85}' || c == '\U{A0}'
  }

  predicate IsDigit(c: char) { '0' <= c <= '9' }

  predicate IsUpper(c: char) { 'A' <= c <= 'Z' }

  predicate IsLower(c: char) { 'a' <= c <= 'z' }

  /** The regular-expression class `[A-Za-z]`. */
  predicate IsLetter(c: char) { IsUpper(c) || IsLower(c) }

  const Letters: set<char> := set c: char | IsLetter(c)

  ghost predicate NoLetter(s: string) {
    forall i :: 0 <= i < |s| ==> !IsLetter(s[i])
  }

  function ToUpper(c: char): (u: char)
    ensures IsLetter(c) ==> IsUpper(u)
    ensures !IsLetter(c) ==> u == c
  {
    if IsLower(c) then (c as int - 32) as char else c
  }

  function ToLower(c: char): (l: char)
    ensures IsLetter(c) ==> IsLower(l)
    ensures !IsLetter(c) ==> l == c
  {
    if IsUpper(c) then (c as int + 32) as char else c
  }

  /** `a` and `b` are the same character apart from letter case. */
  predicate SameUpToCase(a: char, b: char) { ToLower(a) == ToLower(b) }

  lemma SameUpToCaseLetter(a: char, b: char)
    requires SameUpToCase(a, b)
    ensures IsLetter(a) <==> IsLetter(b)
    ensures !IsLetter(b) ==> a == b
  {
  }

  /** A letter is determined by its lower-case form and whether it is upper case. */
  lemma CaseDetermines(a: char, b: char)
    requires SameUpToCase(a, b) && (IsUpper(a) <==> IsUpper(b))
    ensures a == b
  {
  }

  // ---------------------------------------------------------------------------
  // str.strip()

  /** Nothing but whitespace: what `s.strip() == ""` tests (see StripEmpty). */
  predicate AllSpace(s: string) {
    forall i :: 0 <= i < |s| ==> IsSpace(s[i])
  }

  /** No whitespace at either end. */
  ghost predicate Stripped(s: string) {
    s == [] || (!IsSpace(s[0]) && !IsSpace(s[|s| - 1]))
  }

  lemma AllSpaceCount(t: string, c: char)
    requires AllSpace(t) && !IsSpace(c)
    ensures multiset(t)[c] == 0
  {
    assert forall i :: 0 <= i < |t| ==> t[i] != c;
    assert c !in t;
  }

  function LeadingSpace(s: string): (n: nat)
    ensures n <= |s| && (n < |s| ==> !IsSpace(s[n]))
    ensures forall i :: 0 <= i < n ==> IsSpace(s[i])
  {
    if s != [] && IsSpace(s[0]) then 1 + LeadingSpace(s[1..]) else 0
  }

  function TrailingSpace(s: string): (n: nat)
    ensures n <= |s| && (n < |s| ==> !IsSpace(s[|s| - n - 1]))
    ensures forall i :: |s| - n <= i < |s| ==> IsSpace(s[i])
  {
    if s != [] && IsSpace(s[|s| - 1]) then 1 + TrailingSpace(s[..|s| - 1]) else 0
  }

  /** Python's `s.strip()`: no whitespace is left at either end. */
  function Strip(s: string): (r: string)
    ensures Stripped(r) && |r| <= |s|
  {
    var t := s[LeadingSpace(s)..];
    t[..|t| - TrailingSpace(t)]
  }

  /**
   * What `s.strip()` cuts off is whitespace only: the result is the slice of
   * `s` between a whitespace prefix and a whitespace suffix.
   */
  lemma StripSlice(s: string) returns (a: nat)
    ensures a + |Strip(s)| <= |s| && Strip(s) == s[a..a + |Strip(s)|]
    ensures AllSpace(s[..a]) && AllSpace(s[a + |Strip(s)|..])
  {
    a := LeadingSpace(s);
    var t := s[a..];
    var n := TrailingSpace(t);
    assert Strip(s) == t[..|t| - n];
    assert a + |Strip(s)| == |s| - n;
    assert t[..|t| - n] == s[a..|s| - n];
    var tail := s[|s| - n..];
    forall i | 0 <= i < |tail| ensures IsSpace(tail[i]) {
      assert tail[i] == t[|t| - n + i];
    }
  }

  /** `s.strip()` only removes characters. */
  lemma StripShrinks(s: string)
    ensures multiset(Strip(s)) <= multiset(s)
  {
    var r := Strip(s);
    var a := StripSlice(s);
    assert s == s[..a] + r + s[a + |r|..];
  }

  /** What stripping leaves was there before. */
  lemma StripFrom(s: string, c: char)
    requires c in Strip(s)
    ensures c in s
  {
    StripShrinks(s);
    assert c in multiset(Strip(s));
  }

  /** `s.strip()` is empty exactly when `s` is all whitespace. */
  lemma StripEmpty(s: string)
    ensures Strip(s) == [] <==> AllSpace(s)
  {
    var a := StripSlice(s);
    if Strip(s) == [] {
      assert s == s[..a] + s[a..];
      assert forall i :: 0 <= i < |s| ==> s[i] == if i < a then s[..a][i] else s[a..][i - a];
    }
  }

  lemma StripKeeps(s: string, c: char)
    requires !IsSpace(c)
    ensures multiset(Strip(s))[c] == multiset(s)[c]
  {
    var r := Strip(s);
    var a := StripSlice(s);
    assert s == s[..a] + r + s[a + |r|..];
    AllSpaceCount(s[..a], c);
    AllSpaceCount(s[a + |r|..], c);
  }

  lemma StripStripped(s: string)
    requires Stripped(s)
    ensures Strip(s) == s
  {
  }

  // ---------------------------------------------------------------------------
  // str.title()

  /**
   * Python's `str.title()` with the cased characters taken to be the ASCII
   * letters: a letter is upper-cased when the character before it is not a
   * letter (`afterLetter` says whether one precedes `s`), lower-cased otherwise.
   */
  function TitleFrom(s: string, afterLetter: bool): (r: string)
    ensures |r| == |s|
    ensures forall i :: 0 <= i < |s| ==> SameUpToCase(r[i], s[i])
    ensures forall i :: 0 <= i < |s| && IsLetter(s[i]) ==>
              (IsUpper(r[i]) <==> !(if i == 0 then afterLetter else IsLetter(s[i - 1])))
  {
    if s == [] then []
    else
      var c := if !IsLetter(s[0]) then s[0] else if afterLetter then ToLower(s[0]) else ToUpper(s[0]);
      var rest := TitleFrom(s[1..], IsLetter(s[0]));
      assert forall i :: 1 <= i < |s| ==> ([c] + rest)[i] == rest[i - 1] && s[1..][i - 1] == s[i];
      [c] + rest
  }

  /**
   * Python's `s.title()`: the same characters up to case, each letter upper
   * case exactly when it does not follow a letter.
   */
  function Title(s: string): (r: string)
    ensures |r| == |s| && forall i :: 0 <= i < |s| ==> SameUpToCase(r[i], s[i])
    ensures forall i :: 0 <= i < |s| && IsLetter(s[i]) ==> (IsUpper(r[i]) <==> (i == 0 || !IsLetter(s[i - 1])))
  {
    TitleFrom(s, false)
  }

  /** Every letter is upper case exactly when it does not follow another letter. */
  ghost predicate IsTitled(r: string) {
    forall i :: 0 <= i < |r| ==> TitledAt(r, i)
  }

  ghost predicate TitledAt(r: string, i: nat)
    requires i < |r|
  {
    IsLetter(r[i]) ==> (IsUpper(r[i]) <==> (i == 0 || !IsLetter(r[i - 1])))
  }

  lemma TitleIsTitled(s: string)
    ensures |Title(s)| == |s| && IsTitled(Title(s))
    ensures forall i :: 0 <= i < |s| ==> SameUpToCase(Title(s)[i], s[i])
  {
    var r := Title(s);
    forall i | 0 <= i < |s| ensures IsLetter(r[i]) <==> IsLetter(s[i]) {
      SameUpToCaseLetter(r[i], s[i]);
    }
    forall i | 0 <= i < |s| ensures TitledAt(r, i) {
      if i > 0 {
        SameUpToCaseLetter(r[i - 1], s[i - 1]);
      }
    }
  }

  /** A titled string is left alone by `str.title()`. */
  lemma {:induction false} TitleFixpoint(r: string)
    requires IsTitled(r)
    ensures Title(r) == r
  {
    var t := Title(r);
    TitleIsTitled(r);
    forall i | 0 <= i < |r| ensures t[i] == r[i] {
      SameUpToCaseLetter(t[i], r[i]);
      if i > 0 {
        SameUpToCaseLetter(t[i - 1], r[i - 1]);
      }
      if IsLetter(r[i]) {
        assert TitledAt(t, i) && TitledAt(r, i);
        CaseDetermines(t[i], r[i]);
      }
    }
  }

  /** `str.title()` is idempotent. */
  lemma TitleIdempotent(s: string)
    ensures Title(Title(s)) == Title(s)
  {
    TitleIsTitled(s);
    TitleFixpoint(Title(s));
  }

  /** A slice of a titled string that starts after a non-letter is titled. */
  lemma TitledSlice(u: string, a: nat, b: nat)
    requires a <= b <= |u| && IsTitled(u)
    requires a > 0 ==> !IsLetter(u[a - 1])
    ensures IsTitled(u[a..b])
  {
    var v := u[a..b];
    forall i | 0 <= i < |v| ensures TitledAt(v, i) {
      assert v[i] == u[a + i] && TitledAt(u, a + i);
      if i > 0 { assert v[i - 1] == u[a + i - 1]; }
    }
  }

  /** Stripping a titled string leaves it titled. */
  lemma StripTitled(u: string)
    requires IsTitled(u)
    ensures IsTitled(Strip(u))
  {
    var a := StripSlice(u);
    if a > 0 {
      assert u[a - 1] == u[..a][a - 1];
    }
    TitledSlice(u, a, a + |Strip(u)|);
  }

  // ---------------------------------------------------------------------------
  // Character removal and replacement

  /**
   * Removes every character of `drop`: `s.replace(c, "")` for one character,
   * `re.sub("[...]", "", s)` for a character class.
   */
  function Without(s: string, drop: set<char>): (r: string)
    ensures |r| <= |s|
    ensures forall i :: 0 <= i < |r| ==> r[i] !in drop
  {
    if s == [] then []
    else
      assert s == [s[0]] + s[1..];
      (if s[0] in drop then [] else [s[0]]) + Without(s[1..], drop)
  }

  /** Removing characters only removes. */
  lemma {:induction false} WithoutShrinks(s: string, drop: set<char>)
    ensures multiset(Without(s, drop)) <= multiset(s)
  {
    if s != [] {
      assert s == [s[0]] + s[1..];
      WithoutShrinks(s[1..], drop);
    }
  }

  /** Every character outside `drop` is kept, as often as it occurs. */
  lemma {:induction false} WithoutKeeps(s: string, drop: set<char>, c: char)
    requires c !in drop
    ensures multiset(Without(s, drop))[c] == multiset(s)[c]
  {
    if s != [] {
      assert s == [s[0]] + s[1..];
      WithoutKeeps(s[1..], drop, c);
    }
  }

  /** What removal leaves was there before and is not a removed character. */
  lemma WithoutFrom(s: string, drop: set<char>, c: char)
    requires c in Without(s, drop)
    ensures c in s && c !in drop
  {
    assert c in multiset(Without(s, drop));
  }

  /** Removal works piece by piece. */
  lemma {:induction false} WithoutConcat(a: string, b: string, drop: set<char>)
    ensures Without(a + b, drop) == Without(a, drop) + Without(b, drop)
  {
    if a != [] {
      assert (a + b)[0] == a[0] && (a + b)[1..] == a[1..] + b;
      var h := if a[0] in drop then [] else [a[0]];
      calc {
        Without(a + b, drop);
        h + Without(a[1..] + b, drop);
        { WithoutConcat(a[1..], b, drop); }
        h + (Without(a[1..], drop) + Without(b, drop));
        (h + Without(a[1..], drop)) + Without(b, drop);
        Without(a, drop) + Without(b, drop);
      }
    } else {
      assert a + b == b;
    }
  }

  /** Nothing to remove leaves the string alone. */
  lemma {:induction false} WithoutNothing(s: string, drop: set<char>)
    requires forall i :: 0 <= i < |s| ==> s[i] !in drop
    ensures Without(s, drop) == s
  {
    if s != [] {
      WithoutNothing(s[1..], drop);
    }
  }

  /** Three removals in a row that find nothing leave the text as it was. */
  lemma WithoutNothingThrice(s: string, a: set<char>, b: set<char>, c: set<char>)
    requires forall i :: 0 <= i < |s| ==> s[i] !in a && s[i] !in b && s[i] !in c
    ensures Without(Without(Without(s, a), b), c) == s
  {
    WithoutNothing(s, a);
    WithoutNothing(s, b);
    WithoutNothing(s, c);
  }

  /**
   * Python's `s.replace(pat, "")`: scans left to right and drops each
   * non-overlapping occurrence of `pat`. Characters outside `pat` are kept.
   */
  function Delete(s: string, pat: string): (r: string)
    requires pat != []
    ensures |r| <= |s|
    ensures multiset(r) <= multiset(s)
    decreases |s|
  {
    if |s| < |pat| then s
    else if s[..|pat|] == pat then
      assert s == pat + s[|pat|..];
      Delete(s[|pat|..], pat)
    else
      assert s == [s[0]] + s[1..];
      [s[0]] + Delete(s[1..], pat)
  }

  /** Every character that does not occur in `pat` is kept, as often as it occurs. */
  lemma {:induction false} DeleteKeeps(s: string, pat: string, c: char)
    requires pat != [] && c !in pat
    ensures multiset(Delete(s, pat))[c] == multiset(s)[c]
    decreases |s|
  {
    if |s| >= |pat| {
      if s[..|pat|] == pat {
        assert s == pat + s[|pat|..];
        DeleteKeeps(s[|pat|..], pat, c);
      } else {
        assert s == [s[0]] + s[1..];
        DeleteKeeps(s[1..], pat, c);
      }
    }
  }

  /** An occurrence of `pat` at the front is removed, and scanning resumes after it. */
  lemma DeleteFront(s: string, pat: string)
    requires pat != []
    ensures Delete(pat + s, pat) == Delete(s, pat)
  {
    assert (pat + s)[..|pat|] == pat && (pat + s)[|pat|..] == s;
  }

  /** A character that does not start an occurrence of `pat` is kept, and scanning moves on by one. */
  lemma DeleteSkip(c: char, s: string, pat: string)
    requires pat != [] && !OccursAt([c] + s, pat, 0)
    ensures Delete([c] + s, pat) == [c] + Delete(s, pat)
  {
    var t := [c] + s;
    assert t[0] == c && t[1..] == s;
    if |t| >= |pat| {
      assert t[..|pat|] == t[0..|pat|];
    }
  }

  /** A unit after text that shares no character with it is cut off: `"300hp"` becomes `"300"`. */
  lemma {:induction false} DeleteSuffix(w: string, pat: string)
    requires pat != [] && forall i :: 0 <= i < |w| ==> w[i] !in pat
    ensures Delete(w + pat, pat) == w
  {
    if w == [] {
      assert w + pat == pat + [];
      DeleteFront([], pat);
    } else {
      assert !OccursAt(w + pat, pat, 0) by {
        assert (w + pat)[0] == w[0] && pat[0] in pat;
      }
      assert w + pat == [w[0]] + (w[1..] + pat);
      DeleteSkip(w[0], w[1..] + pat, pat);
      DeleteSuffix(w[1..], pat);
    }
  }

  /** `pat` occurs in `s` starting at index `i`. */
  predicate OccursAt(s: string, pat: string, i: nat) {
    i + |pat| <= |s| && s[i..i + |pat|] == pat
  }

  /** A string without an occurrence of `pat` is left alone. */
  lemma {:induction false} DeleteAbsent(s: string, pat: string)
    requires pat != []
    requires forall i: nat :: !OccursAt(s, pat, i)
    ensures Delete(s, pat) == s
    decreases |s|
  {
    if |s| >= |pat| {
      assert !OccursAt(s, pat, 0);
      assert s[..|pat|] == s[0..|pat|];
      forall i: nat ensures !OccursAt(s[1..], pat, i) {
        assert !OccursAt(s, pat, i + 1);
        if i + |pat| <= |s[1..]| {
          assert s[1..][i..i + |pat|] == s[i + 1..i + 1 + |pat|];
        }
      }
      DeleteAbsent(s[1..], pat);
    }
  }

  /** Python's `s.replace(old, new)` for single characters. */
  function ReplaceChar(s: string, from: char, to: char): (r: string)
    ensures |r| == |s|
    ensures forall i :: 0 <= i < |s| ==> r[i] == if s[i] == from then to else s[i]
    ensures from != to ==> from !in r
  {
    seq(|s|, i requires 0 <= i < |s| => if s[i] == from then to else s[i])
  }
}
