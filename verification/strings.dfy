/** The Python `str` operations that the Landsat metadata parser and the
    configuration loaders rely on, written over `seq<char>`: substring
    test, `split` on one character, `strip`, `replace(c, '')` and `int()`. */
module Strings {
  import opened Wrappers

  /** Python's `str.isspace`, restricted to ASCII characters. */
  predicate IsSpace(c: char) {
    c == ' ' || c == '\t' || c == '\n' || c == '\r' || c == '\U{0B}' || c == '\U{0C}'
    || c == '\U{1C}' || c == '\U{1D}' || c == '\U{1E}' || c == '\U{1F}'
  }

  predicate IsDigit(c: char) {
    '0' <= c <= '9'
  }

  // ---------------------------------------------------------------------
  // Substring test: Python's `t in s`.
  // ---------------------------------------------------------------------

  predicate Contains(s: string, t: string): (b: bool)
    ensures b ==> |t| <= |s|
    ensures t == [] ==> b
    decreases |s|
  {
    |t| <= |s| && (s[..|t|] == t || Contains(s[1..], t))
  }

  /** Reference definition of an occurrence of `t` in `s` at offset `i`. */
  ghost predicate OccursAt(s: string, t: string, i: int) {
    0 <= i && i + |t| <= |s| && s[i..i + |t|] == t
  }

  lemma {:induction false} ContainsIffOccurs(s: string, t: string)
    ensures Contains(s, t) <==> exists i :: OccursAt(s, t, i)
    decreases |s|
  {
    if |t| <= |s| && s[..|t|] != t {
      ContainsIffOccurs(s[1..], t);
      if Contains(s[1..], t) {
        var i :| OccursAt(s[1..], t, i);
        assert s[1..][i..i + |t|] == s[i + 1..i + 1 + |t|];
        assert OccursAt(s, t, i + 1);
      }
      if exists i :: OccursAt(s, t, i) {
        var i :| OccursAt(s, t, i);
        assert i != 0;
        assert s[1..][i - 1..i - 1 + |t|] == s[i..i + |t|];
        assert OccursAt(s[1..], t, i - 1);
      }
    } else if |t| <= |s| {
      assert OccursAt(s, t, 0);
    }
  }

  // ---------------------------------------------------------------------
  // Python's `s.split(sep)` for a one-character separator, and its inverse
  // `sep.join(parts)`.
  // ---------------------------------------------------------------------

  function Split(s: string, sep: char): (parts: seq<string>)
    ensures |parts| >= 1
    decreases |s|
  {
    if |s| == 0 then [""]
    else
      var rest := Split(s[1..], sep);
      if s[0] == sep then [""] + rest
      else [[s[0]] + rest[0]] + rest[1..]
  }

  function Join(parts: seq<string>, sep: char): string
    requires |parts| >= 1
    decreases |parts|
  {
    if |parts| == 1 then parts[0] else parts[0] + [sep] + Join(parts[1..], sep)
  }

  /** The last field of a split: Python's `s.split(sep)[-1]`. */
  function LastField(s: string, sep: char): (f: string)
    ensures sep !in f
  {
    SplitFieldsFree(s, sep);
    var parts := Split(s, sep);
    parts[|parts| - 1]
  }

  lemma {:induction false} SplitFieldsFree(s: string, sep: char)
    ensures forall i :: 0 <= i < |Split(s, sep)| ==> sep !in Split(s, sep)[i]
    decreases |s|
  {
    if |s| > 0 {
      SplitFieldsFree(s[1..], sep);
    }
  }

  lemma {:induction false} JoinSplit(s: string, sep: char)
    ensures Join(Split(s, sep), sep) == s
    decreases |s|
  {
    if |s| > 0 {
      JoinSplit(s[1..], sep);
      var rest := Split(s[1..], sep);
      if s[0] == sep {
        assert ([""] + rest)[1..] == rest;
      } else {
        var parts := [[s[0]] + rest[0]] + rest[1..];
        if |rest| > 1 {
          assert parts[1..] == rest[1..];
          assert Join(rest, sep) == rest[0] + [sep] + Join(rest[1..], sep);
        }
      }
    }
  }

  /** Splitting a separator-free prefix glues it onto the first field. */
  lemma {:induction false} SplitFreePrefix(a: string, rest: string, sep: char)
    requires sep !in a
    ensures Split(a + rest, sep) == [a + Split(rest, sep)[0]] + Split(rest, sep)[1..]
    decreases |a|
  {
    var r := Split(rest, sep);
    if |a| == 0 {
      assert a + rest == rest;
      assert a + r[0] == r[0];
      assert [r[0]] + r[1..] == r;
    } else {
      assert (a + rest)[1..] == a[1..] + rest;
      assert (a + rest)[0] == a[0];
      SplitFreePrefix(a[1..], rest, sep);
      assert [a[0]] + (a[1..] + r[0]) == a + r[0];
    }
  }

  lemma {:induction false} SplitJoin(parts: seq<string>, sep: char)
    requires |parts| >= 1
    requires forall i :: 0 <= i < |parts| ==> sep !in parts[i]
    ensures Split(Join(parts, sep), sep) == parts
    decreases |parts|
  {
    if |parts| == 1 {
      SplitFreePrefix(parts[0], "", sep);
      assert parts[0] + "" == parts[0];
    } else {
      var tail := Join(parts[1..], sep);
      SplitJoin(parts[1..], sep);
      assert parts[0] + [sep] + tail == parts[0] + ([sep] + tail);
      SplitFreePrefix(parts[0], [sep] + tail, sep);
      assert ([sep] + tail)[1..] == tail;
      assert parts[0] + "" == parts[0];
      assert [parts[0]] + parts[1..] == parts;
    }
  }

  // ---------------------------------------------------------------------
  // Python's `s.strip()`.
  // ---------------------------------------------------------------------

  function StripLeft(s: string): string
    decreases |s|
  {
    if |s| > 0 && IsSpace(s[0]) then StripLeft(s[1..]) else s
  }

  function StripRight(s: string): string
    decreases |s|
  {
    if |s| > 0 && IsSpace(s[|s| - 1]) then StripRight(s[..|s| - 1]) else s
  }

  /** Python's `s.strip()`: no whitespace is left at either end. */
  function Strip(s: string): (r: string)
    ensures Trimmed(r)
    ensures |r| <= |s|
  {
    StripLeftSpec(s);
    StripRightSpec(StripLeft(s));
    StripRight(StripLeft(s))
  }

  ghost predicate AllSpace(s: string) {
    forall i :: 0 <= i < |s| ==> IsSpace(s[i])
  }

  /** Neither end of `s` is whitespace. */
  predicate Trimmed(s: string) {
    |s| == 0 || (!IsSpace(s[0]) && !IsSpace(s[|s| - 1]))
  }

  lemma {:induction false} StripLeftSpec(s: string)
    ensures |StripLeft(s)| <= |s|
    ensures StripLeft(s) == s[|s| - |StripLeft(s)|..]
    ensures AllSpace(s[..|s| - |StripLeft(s)|])
    ensures |StripLeft(s)| > 0 ==> !IsSpace(StripLeft(s)[0])
    decreases |s|
  {
    if |s| > 0 && IsSpace(s[0]) {
      StripLeftSpec(s[1..]);
      var k := |s| - |StripLeft(s)|;
      assert s[1..][k - 1..] == s[k..];
      assert forall i :: 1 <= i < k ==> s[..k][i] == s[1..][..k - 1][i - 1];
    }
  }

  lemma {:induction false} StripRightSpec(s: string)
    ensures |StripRight(s)| <= |s|
    ensures StripRight(s) == s[..|StripRight(s)|]
    ensures AllSpace(s[|StripRight(s)|..])
    ensures |StripRight(s)| > 0 ==> !IsSpace(StripRight(s)[|StripRight(s)| - 1])
    decreases |s|
  {
    if |s| > 0 && IsSpace(s[|s| - 1]) {
      var u := s[..|s| - 1];
      StripRightSpec(u);
      var k := |StripRight(s)|;
      assert u[..k] == s[..k];
      assert forall j :: 0 <= j < |s| - 1 - k ==> s[k..][j] == u[k..][j];
    }
  }

  /** `Strip` removes exactly the whitespace at both ends:
      `s == lead + Strip(s) + trail` with `lead` and `trail` all whitespace,
      and the result has no whitespace at either end. */
  lemma StripSpec(s: string)
    ensures Trimmed(Strip(s))
    ensures exists lead, trail :: AllSpace(lead) && AllSpace(trail) && s == lead + Strip(s) + trail
  {
    StripLeftSpec(s);
    var l := StripLeft(s);
    StripRightSpec(l);
    var lead := s[..|s| - |l|];
    var trail := l[|Strip(s)|..];
    assert l == Strip(s) + trail;
    assert s == lead + l;
    assert s == lead + Strip(s) + trail;
  }

  /** Stripping adds no character: one absent from `s` is absent from
      `Strip(s)`. */
  lemma StripKeepsAbsent(s: string, c: char)
    requires c !in s
    ensures c !in Strip(s)
  {
    StripLeftSpec(s);
    var l := StripLeft(s);
    StripRightSpec(l);
    assert c !in l;
  }

  lemma TrimmedStripIdentity(s: string)
    requires Trimmed(s)
    ensures Strip(s) == s
  {
  }

  lemma StripIdempotent(s: string)
    ensures Strip(Strip(s)) == Strip(s)
  {
    StripSpec(s);
    TrimmedStripIdentity(Strip(s));
  }

  // ---------------------------------------------------------------------
  // Python's `s.replace(c, '')`.
  // ---------------------------------------------------------------------

  function RemoveChar(s: string, c: char): (r: string)
    ensures c !in r
    ensures |r| <= |s|
    decreases |s|
  {
    if |s| == 0 then "" else (if s[0] == c then "" else [s[0]]) + RemoveChar(s[1..], c)
  }

  /** Every other character keeps its multiplicity; `c` disappears. */
  lemma {:induction false} RemoveCharMultiset(s: string, c: char)
    ensures multiset(RemoveChar(s, c)) == multiset(s)[c := 0]
    decreases |s|
  {
    if |s| > 0 {
      RemoveCharMultiset(s[1..], c);
      assert s == [s[0]] + s[1..];
      assert multiset(s) == multiset([s[0]]) + multiset(s[1..]);
    }
  }

  lemma {:induction false} RemoveCharAbsent(s: string, c: char)
    requires c !in s
    ensures RemoveChar(s, c) == s
    decreases |s|
  {
    if |s| > 0 {
      RemoveCharAbsent(s[1..], c);
      assert s == [s[0]] + s[1..];
    }
  }

  // ---------------------------------------------------------------------
  // Python's `int(s)` on a string, and decimal rendering as its inverse.
  // ---------------------------------------------------------------------

  function DigitValue(c: char): nat {
    if IsDigit(c) then (c as int - '0' as int) else 0
  }

  function DigitChar(d: nat): char
    requires d < 10
  {
    ('0' as int + d) as char
  }

  /** Digits in which single underscores may separate two digits, as Python
      3.6 and later accept them. */
  predicate IsDigitRun(t: string) {
    && |t| > 0
    && IsDigit(t[0])
    && IsDigit(t[|t| - 1])
    && forall i :: 0 <= i < |t| ==> IsDigit(t[i]) || (t[i] == '_' && i + 1 < |t| && IsDigit(t[i + 1]))
  }

  /** The value of a digit run, underscores skipped. */
  function DigitsValue(t: string): nat
    decreases |t|
  {
    if |t| == 0 then 0
    else if t[|t| - 1] == '_' then DigitsValue(t[..|t| - 1])
    else DigitsValue(t[..|t| - 1]) * 10 + DigitValue(t[|t| - 1])
  }

  /** One optional sign, then a digit run. */
  predicate IsIntText(t: string) {
    IsDigitRun(t) || (|t| > 0 && (t[0] == '-' || t[0] == '+') && IsDigitRun(t[1..]))
  }

  /** Python's `int(s)` for ASCII text: whitespace at both ends is ignored,
      one optional sign, then a digit run; anything else is a ValueError,
      modelled as `None`. */
  function ParseInt(s: string): (r: Option<int>)
    ensures r.Some? <==> IsIntText(Strip(s))
    ensures r.Some? ==> (r.value < 0 ==> Strip(s)[0] == '-')
    ensures r.Some? ==> (Strip(s)[0] == '-' ==> r.value <= 0)
  {
    var t := Strip(s);
    if |t| > 0 && (t[0] == '-' || t[0] == '+') then
      if IsDigitRun(t[1..]) then
        var magnitude: int := DigitsValue(t[1..]);
        Some(if t[0] == '-' then -magnitude else magnitude)
      else None
    else if IsDigitRun(t) then Some(DigitsValue(t))
    else None
  }

  function NatDigits(n: nat): string
    decreases n
  {
    if n < 10 then [DigitChar(n)] else NatDigits(n / 10) + [DigitChar(n % 10)]
  }

  /** Python's `str(n)` for an integer. */
  function ShowInt(n: int): string {
    if n < 0 then "-" + NatDigits(-n) else NatDigits(n)
  }

  lemma {:induction false} NatDigitsSpec(n: nat)
    ensures |NatDigits(n)| >= 1
    ensures forall i :: 0 <= i < |NatDigits(n)| ==> IsDigit(NatDigits(n)[i])
    ensures DigitsValue(NatDigits(n)) == n
    decreases n
  {
    if n >= 10 {
      NatDigitsSpec(n / 10);
      var s := NatDigits(n);
      assert s[..|s| - 1] == NatDigits(n / 10);
    }
  }

  /** `int(str(n)) == n`. */
  lemma ParseShowInt(n: int)
    ensures ParseInt(ShowInt(n)) == Some(n)
  {
    var m: nat := if n < 0 then -n else n;
    NatDigitsSpec(m);
    var s := ShowInt(n);
    assert Trimmed(s);
    TrimmedStripIdentity(s);
    if n < 0 {
      assert s[1..] == NatDigits(m);
    }
  }

  /** Whitespace around the digits does not change what `int()` reads. */
  lemma ParseIntIgnoresPadding(s: string, lead: string, trail: string)
    requires AllSpace(lead) && AllSpace(trail)
    ensures ParseInt(lead + s + trail) == ParseInt(s)
  {
    PaddedStrip(s, lead, trail);
  }

  lemma PaddedStrip(s: string, lead: string, trail: string)
    requires AllSpace(lead) && AllSpace(trail)
    ensures Strip(lead + s + trail) == Strip(s)
  {
    StripLeftPad(lead, s + trail);
    assert lead + s + trail == lead + (s + trail);
    StripLeftAppend(s, trail);
    if |StripLeft(s)| > 0 {
      StripRightPad(StripLeft(s), trail);
    }
  }

  lemma {:induction false} StripLeftPad(lead: string, s: string)
    requires AllSpace(lead)
    ensures StripLeft(lead + s) == StripLeft(s)
    decreases |lead|
  {
    if |lead| > 0 {
      assert (lead + s)[1..] == lead[1..] + s;
      StripLeftPad(lead[1..], s);
    } else {
      assert lead + s == s;
    }
  }

  /** Left stripping is unaffected by whitespace appended on the right,
      unless the whole string was whitespace. */
  lemma {:induction false} StripLeftAppend(s: string, trail: string)
    requires AllSpace(trail)
    ensures StripLeft(s + trail) == if |StripLeft(s)| == 0 then "" else StripLeft(s) + trail
    decreases |s|
  {
    if |s| == 0 {
      assert s + trail == trail;
      AllSpaceStripLeft(trail);
    } else {
      assert (s + trail)[1..] == s[1..] + trail;
      if IsSpace(s[0]) {
        StripLeftAppend(s[1..], trail);
      }
    }
  }

  lemma {:induction false} AllSpaceStripLeft(s: string)
    requires AllSpace(s)
    ensures StripLeft(s) == ""
    decreases |s|
  {
    if |s| > 0 {
      AllSpaceStripLeft(s[1..]);
    }
  }

  lemma {:induction false} StripRightPad(s: string, trail: string)
    requires AllSpace(trail)
    ensures StripRight(s + trail) == StripRight(s)
    decreases |trail|
  {
    if |trail| > 0 {
      var u := s + trail;
      assert u[..|u| - 1] == s + trail[..|trail| - 1];
      StripRightPad(s, trail[..|trail| - 1]);
    } else {
      assert s + trail == s;
    }
  }

  // ---------------------------------------------------------------------
  // Python's `float(s)` on a string: which texts it accepts.
  // ---------------------------------------------------------------------

  /** A split on a separator the text does not contain has one field. */
  lemma {:induction false} SplitAbsent(s: string, sep: char)
    requires sep !in s
    ensures Split(s, sep) == [s]
    decreases |s|
  {
    if |s| > 0 {
      SplitAbsent(s[1..], sep);
      assert [s[0]] + s[1..] == s;
    }
  }

  function LowerChar(c: char): char {
    if 'A' <= c <= 'Z' then (c as int + 32) as char else c
  }

  /** ASCII `str.lower`. */
  function Lower(s: string): (r: string)
    ensures |r| == |s|
  {
    seq(|s|, i requires 0 <= i < |s| => LowerChar(s[i]))
  }

  /** The exponent of a decimal literal: one optional sign, then digits. */
  predicate IsExponent(x: string) {
    if |x| > 0 && (x[0] == '-' || x[0] == '+') then IsDigitRun(x[1..]) else IsDigitRun(x)
  }

  /** The mantissa of a decimal literal: digits with at most one '.', and
      digits on at least one side of it. */
  predicate IsMantissa(m: string) {
    var parts := Split(m, '.');
    || (|parts| == 1 && IsDigitRun(parts[0]))
    || (&& |parts| == 2
        && (parts[0] == "" || IsDigitRun(parts[0]))
        && (parts[1] == "" || IsDigitRun(parts[1]))
        && (parts[0] != "" || parts[1] != ""))
  }

  /** A lower-cased decimal literal: a mantissa, then optionally 'e' and an
      exponent. */
  predicate IsDecimal(w: string) {
    var parts := Split(w, 'e');
    || (|parts| == 1 && IsMantissa(parts[0]))
    || (|parts| == 2 && IsMantissa(parts[0]) && IsExponent(parts[1]))
  }

  /** The texts Python's `float(s)` accepts, for ASCII text: whitespace at
      both ends is ignored, then one optional sign, then `inf`, `infinity`
      or `nan` in any letter case, or a decimal literal. On any other text
      `float` raises ValueError. */
  predicate IsFloatText(s: string): (b: bool)
    ensures b ==> Strip(s) != []
  {
    var t := Strip(s);
    var u := if |t| > 0 && (t[0] == '-' || t[0] == '+') then t[1..] else t;
    var w := Lower(u);
    w == "inf" || w == "infinity" || w == "nan" || IsDecimal(w)
  }

  /** A digit run holds only digits and underscores. */
  lemma DigitRunChars(t: string)
    requires IsDigitRun(t)
    ensures forall i :: 0 <= i < |t| ==> IsDigit(t[i]) || t[i] == '_'
    ensures 'e' !in t && '.' !in t
  {
    forall i | 0 <= i < |t|
      ensures IsDigit(t[i]) || t[i] == '_'
    {
      if i + 1 < |t| {
        // Names the term the digit-run quantifier is triggered on.
        assert IsDigit(t[i + 1]) || !IsDigit(t[i + 1]);
      }
    }
  }

  /** Lower-casing leaves a digit run as it is. */
  lemma LowerDigitRun(t: string)
    requires IsDigitRun(t)
    ensures Lower(t) == t
  {
    DigitRunChars(t);
  }

  /** A digit run is a decimal literal on its own. */
  lemma DigitRunIsDecimal(t: string)
    requires IsDigitRun(t)
    ensures IsDecimal(t)
  {
    DigitRunChars(t);
    SplitAbsent(t, 'e');
    SplitAbsent(t, '.');
  }

  /** Every text `int()` accepts, `float()` accepts too. */
  lemma IntTextIsFloatText(s: string)
    ensures ParseInt(s).Some? ==> IsFloatText(s)
  {
    if ParseInt(s).Some? {
      var t := Strip(s);
      var u := if |t| > 0 && (t[0] == '-' || t[0] == '+') then t[1..] else t;
      assert IsDigitRun(u);
      LowerDigitRun(u);
      DigitRunIsDecimal(u);
    }
  }

  /** Lower-casing leaves text without capitals as it is. */
  lemma LowerIdentity(s: string)
    requires forall i :: 0 <= i < |s| ==> !('A' <= s[i] <= 'Z')
    ensures Lower(s) == s
  {
  }

  /** Texts `float()` accepts and texts it rejects. */
  lemma FloatTextExamples()
    ensures IsFloatText("2.5e-3") && IsFloatText("-INF")
    ensures !IsFloatText("1.2.3") && !IsFloatText("e5")
  {
    AcceptsExponent("2.5e-3");
    AcceptsInfinity("-INF");
    RejectsTwoPoints("1.2.3");
    RejectsBareExponent("e5");
  }

  lemma AcceptsExponent(s: string)
    requires s == "2.5e-3"
    ensures IsFloatText(s)
  {
    TrimmedStripIdentity(s);
    LowerIdentity(s);
    SplitOf(["2.5", "-3"], 'e', s);
    SplitOf(["2", "5"], '.', "2.5");
    assert IsMantissa("2.5") && IsExponent("-3");
  }

  lemma AcceptsInfinity(s: string)
    requires s == "-INF"
    ensures IsFloatText(s)
  {
    TrimmedStripIdentity(s);
    assert Lower("INF") == "inf";
  }

  lemma RejectsTwoPoints(s: string)
    requires s == "1.2.3"
    ensures !IsFloatText(s)
  {
    TrimmedStripIdentity(s);
    LowerIdentity(s);
    SplitOf([s], 'e', s);
    SplitOf(["1", "2", "3"], '.', s);
    assert !IsMantissa(s);
  }

  lemma RejectsBareExponent(s: string)
    requires s == "e5"
    ensures !IsFloatText(s)
  {
    TrimmedStripIdentity(s);
    LowerIdentity(s);
    SplitOf(["", "5"], 'e', s);
    SplitAbsent("", '.');
  }

  /** The split of a joined text, for concrete fields. */
  lemma SplitOf(parts: seq<string>, sep: char, s: string)
    requires |parts| >= 1 && Join(parts, sep) == s
    requires forall i :: 0 <= i < |parts| ==> sep !in parts[i]
    ensures Split(s, sep) == parts
  {
    SplitJoin(parts, sep);
  }
}
