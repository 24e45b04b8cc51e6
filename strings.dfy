/**
 * Text operations the symbol lookup relies on: Python's `str.strip()` and
 * `str.upper()` restricted to ASCII, the key normalisation built from them,
 * and the decimal text of an integer (`str(int(v))`) together with the
 * parser that reads it back.
 */
module Strings {
  import opened Wrappers

  /** Python's `str.isspace()` on ASCII: space, `\t` `\n` `\v` `\f` `\r` (9..13)
      and the separators 28..31. */
  predicate IsSpace(ch: char) {
    ch == ' ' || 9 <= ch as int <= 13 || 28 <= ch as int <= 31
  }

  predicate AllSpace(s: string) {
    forall i :: 0 <= i < |s| ==> IsSpace(s[i])
  }

  /** Neither the first nor the last character is whitespace. */
  predicate Unpadded(s: string) {
    s == [] || (!IsSpace(s[0]) && !IsSpace(s[|s| - 1]))
  }

  /** `str.lstrip()`: drops the whitespace in front, so what is left does
      not start with whitespace. */
  function StripLeft(s: string): (r: string)
    ensures |r| <= |s|
    ensures r == [] || !IsSpace(r[0])
  {
    if |s| > 0 && IsSpace(s[0]) then StripLeft(s[1..]) else s
  }

  /** `str.rstrip()`: drops the whitespace behind, so what is left does not
      end with whitespace; a non-empty result starts where `s` starts. */
  function StripRight(s: string): (r: string)
    ensures |r| <= |s| && (r != [] ==> r[0] == s[0])
    ensures r == [] || !IsSpace(r[|r| - 1])
  {
    if |s| > 0 && IsSpace(s[|s| - 1]) then StripRight(s[..|s| - 1]) else s
  }

  /** `str.strip()`: the input with its surrounding whitespace cut off. */
  function Strip(s: string): (r: string)
    ensures Unpadded(r)
  {
    StripRight(StripLeft(s))
  }

  /** ASCII `str.upper()` on one character. */
  function UpperChar(ch: char): char {
    if 'a' <= ch <= 'z' then (ch as int - 32) as char else ch
  }

  /** ASCII `str.upper()`: every letter a-z becomes its capital A-Z, nothing
      else changes. */
  function Upper(s: string): (r: string)
    ensures |r| == |s|
    ensures forall i :: 0 <= i < |r| ==> !('a' <= r[i] <= 'z')
    ensures forall i :: 0 <= i < |s| && !('a' <= s[i] <= 'z') ==> r[i] == s[i]
    ensures forall i :: 0 <= i < |s| && 'a' <= s[i] <= 'z' ==> r[i] as int - 'A' as int == s[i] as int - 'a' as int
  {
    seq(|s|, i requires 0 <= i < |s| => UpperChar(s[i]))
  }

  /** The normal form of a symbol: `s.strip().upper()`. */
  function Normalize(s: string): (r: string)
    ensures |r| <= |s|
    ensures IsNormal(r)
  {
    UpperKeepsSpace(Strip(s));
    UpperIdempotent(Strip(s));
    Upper(Strip(s))
  }

  /** A string that normalisation leaves alone. */
  predicate IsNormal(s: string) {
    Unpadded(s) && Upper(s) == s
  }

  /** What `str.lstrip()` drops is whitespace in front of what it keeps. */
  lemma {:induction false} StripLeftSplit(s: string) returns (pre: string)
    ensures AllSpace(pre) && s == pre + StripLeft(s)
  {
    if |s| > 0 && IsSpace(s[0]) {
      var rest := StripLeftSplit(s[1..]);
      pre := [s[0]] + rest;
      assert s == [s[0]] + s[1..];
    } else {
      pre := [];
    }
  }

  /** What `str.rstrip()` drops is whitespace behind what it keeps. */
  lemma {:induction false} StripRightSplit(s: string) returns (post: string)
    ensures AllSpace(post) && s == StripRight(s) + post
  {
    if |s| > 0 && IsSpace(s[|s| - 1]) {
      var rest := StripRightSplit(s[..|s| - 1]);
      post := rest + [s[|s| - 1]];
      assert s == s[..|s| - 1] + [s[|s| - 1]];
    } else {
      post := [];
    }
  }

  /** Whitespace in front of a string that does not start with whitespace is
      exactly what `str.lstrip()` removes. */
  lemma {:induction false} StripLeftUnique(pre: string, t: string)
    requires AllSpace(pre) && (t == [] || !IsSpace(t[0]))
    ensures StripLeft(pre + t) == t
  {
    if pre != [] {
      assert (pre + t)[1..] == pre[1..] + t;
      StripLeftUnique(pre[1..], t);
    } else {
      assert pre + t == t;
    }
  }

  /** Whitespace behind a string that does not end with whitespace is exactly
      what `str.rstrip()` removes. */
  lemma {:induction false} StripRightUnique(t: string, post: string)
    requires AllSpace(post) && (t == [] || !IsSpace(t[|t| - 1]))
    ensures StripRight(t + post) == t
  {
    if post != [] {
      assert (t + post)[..|t + post| - 1] == t + post[..|post| - 1];
      StripRightUnique(t, post[..|post| - 1]);
    } else {
      assert t + post == t;
    }
  }

  /** What `str.strip()` keeps is unique: whatever whitespace surrounds an
      unpadded string, stripping gives back that string. */
  lemma StripUnique(pre: string, core: string, post: string)
    requires AllSpace(pre) && AllSpace(post) && Unpadded(core)
    ensures Strip(pre + core + post) == core
  {
    assert pre + core + post == pre + (core + post);
    if core == [] {
      assert AllSpace(pre + post) by {
        assert forall i :: |pre| <= i < |pre + post| ==> (pre + post)[i] == post[i - |pre|];
      }
      assert pre + core + post == (pre + post) + [];
      StripLeftUnique(pre + post, []);
    } else {
      assert (core + post)[0] == core[0];
      StripLeftUnique(pre, core + post);
      StripRightUnique(core, post);
    }
  }

  /** `s` is the whitespace `str.strip()` removes in front, what it keeps,
      and the whitespace it removes behind. */
  lemma StripSplit(s: string) returns (pre: string, post: string)
    ensures AllSpace(pre) && AllSpace(post)
    ensures s == pre + Strip(s) + post
  {
    pre := StripLeftSplit(s);
    post := StripRightSplit(StripLeft(s));
  }

  lemma Regroup(pre: string, a: string, core: string, b: string, post: string)
    ensures pre + (a + core + b) + post == (pre + a) + core + (b + post)
  {
  }

  lemma AllSpaceConcat(a: string, b: string)
    requires AllSpace(a) && AllSpace(b)
    ensures AllSpace(a + b)
  {
    assert forall i :: |a| <= i < |a + b| ==> (a + b)[i] == b[i - |a|];
  }

  lemma UpperConcat(a: string, b: string)
    ensures Upper(a + b) == Upper(a) + Upper(b)
  {
    assert forall i :: 0 <= i < |a + b| ==> Upper(a + b)[i] == (Upper(a) + Upper(b))[i];
  }

  /** Upper-casing maps whitespace to whitespace and nothing else to it. */
  lemma UpperKeepsSpace(s: string)
    ensures AllSpace(s) ==> AllSpace(Upper(s))
    ensures Unpadded(s) ==> Unpadded(Upper(s))
  {
  }

  /** Hence upper-casing commutes with stripping. */
  lemma StripUpperCommute(s: string)
    ensures Strip(Upper(s)) == Upper(Strip(s))
  {
    var pre, post := StripSplit(s);
    var core := Strip(s);
    UpperConcat(pre, core);
    UpperConcat(pre + core, post);
    UpperKeepsSpace(pre);
    UpperKeepsSpace(core);
    UpperKeepsSpace(post);
    StripUnique(Upper(pre), Upper(core), Upper(post));
  }

  lemma UpperIdempotent(s: string)
    ensures Upper(Upper(s)) == Upper(s)
  {
  }

  /** A normal form is its own normalisation. */
  lemma NormalizeFixesNormal(s: string)
    requires IsNormal(s)
    ensures Normalize(s) == s
  {
    StripUnique([], s, []);
    assert [] + s + [] == s;
  }

  /** Normalisation produces a normal form; hence normalising twice is
      normalising once. */
  lemma NormalizeIsNormal(s: string)
    ensures IsNormal(Normalize(s))
    ensures Normalize(Normalize(s)) == Normalize(s)
  {
    var core := Strip(s);
    UpperKeepsSpace(core);
    UpperIdempotent(core);
    NormalizeFixesNormal(Upper(core));
  }

  /** Surrounding whitespace does not change what `str.strip()` keeps. */
  lemma StripIgnoresPadding(pre: string, k: string, post: string)
    requires AllSpace(pre) && AllSpace(post)
    ensures Strip(pre + k + post) == Strip(k)
  {
    var a, b := StripSplit(k);
    var core := Strip(k);
    Regroup(pre, a, core, b, post);
    AllSpaceConcat(pre, a);
    AllSpaceConcat(b, post);
    StripUnique(pre + a, core, b + post);
  }

  /** Surrounding whitespace on a key does not change its normal form. */
  lemma NormalizeIgnoresPadding(pre: string, k: string, post: string)
    requires AllSpace(pre) && AllSpace(post)
    ensures Normalize(pre + k + post) == Normalize(k)
  {
    StripIgnoresPadding(pre, k, post);
  }

  /** Keys that differ only in the case of their letters have the same
      normal form. */
  lemma NormalizeIgnoresCase(a: string, b: string)
    requires Upper(a) == Upper(b)
    ensures Normalize(a) == Normalize(b)
  {
    StripUpperCommute(a);
    StripUpperCommute(b);
  }

  /** The text pandas gives a missing value normalises to "NAN". */
  lemma NormalizeNan()
    ensures Normalize("nan") == "NAN"
  {
    assert StripLeft("nan") == "nan";
    assert StripRight("nan") == "nan";
    assert Upper("nan") == "NAN";
  }

  // ---------------------------------------------------------------------
  // Decimal text of an integer: `str(int(v))`.

  predicate IsDigit(ch: char) {
    '0' <= ch <= '9'
  }

  predicate AllDigits(s: string) {
    forall i :: 0 <= i < |s| ==> IsDigit(s[i])
  }

  function DigitChar(d: nat): (ch: char)
    requires d < 10
    ensures IsDigit(ch) && ch as int - '0' as int == d
  {
    ('0' as int + d) as char
  }

  /** The decimal digits of `n`, most significant first, without leading zeros. */
  function Digits(n: nat): (r: string)
    ensures |r| >= 1 && AllDigits(r)
    ensures n > 0 ==> r[0] != '0'
  {
    if n < 10 then [DigitChar(n)] else Digits(n / 10) + [DigitChar(n % 10)]
  }

  /** `str(n)` for a Python integer: an optional minus sign, then the digits. */
  function IntText(n: int): (r: string)
    ensures '.' !in r
    ensures |r| >= 1
  {
    if n < 0 then "-" + Digits(-n) else Digits(n)
  }

  /** The value of a string of decimal digits. */
  function DigitsValue(s: string): nat
    requires AllDigits(s)
  {
    if s == [] then 0 else DigitsValue(s[..|s| - 1]) * 10 + (s[|s| - 1] as int - '0' as int)
  }

  /** Reads an integer written as `[-]digits` (what `int(text)` accepts of
      that shape); anything else is not an integer text. */
  function DecimalValue(s: string): Option<int> {
    if |s| >= 2 && s[0] == '-' && AllDigits(s[1..]) then Some(0 - DigitsValue(s[1..]))
    else if |s| >= 1 && AllDigits(s) then Some(DigitsValue(s))
    else None
  }

  lemma {:induction false} DigitsRoundTrip(n: nat)
    ensures DigitsValue(Digits(n)) == n
  {
    if n >= 10 {
      var r := Digits(n);
      assert r[..|r| - 1] == Digits(n / 10);
      DigitsRoundTrip(n / 10);
    }
  }

  /** The integer text reads back as the integer it was made from, so
      different integers never share a text. */
  lemma IntTextRoundTrip(n: int)
    ensures DecimalValue(IntText(n)) == Some(n)
  {
    if n < 0 {
      NegativeRoundTrip(n);
    } else {
      DigitsRoundTrip(n);
      var r := Digits(n);
      assert IsDigit(r[0]);
      assert IntText(n) == r;
    }
  }

  lemma NegativeRoundTrip(n: int)
    requires n < 0
    ensures DecimalValue(IntText(n)) == Some(n)
  {
    var d := Digits(-n);
    DigitsRoundTrip(-n);
    var r := IntText(n);
    assert r == ['-'] + d;
    assert r[1..] == d && r[0] == '-' && |r| >= 2;
    assert DigitsValue(r[1..]) == -n;
  }
}
