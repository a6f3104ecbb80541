/**
 * Character classes and the string operations of Python's `str` and `re`
 * that the keepalived dump parser relies on: `\s`, `str.strip()`, `\d` and
 * case-insensitive matching of keyword text.
 */
module Text {

  /** Python's `str.isspace()`, which is also the set `\s` matches in a `str` pattern. */
  predicate IsSpace(c: char)
  {
    || c == ' '
    || ('\t' <= c <= '\r')
    || ('\U{1C}' <= c <= '\U{1F}')
    || c == '\U{85}' || c == '\U{A0}' || c == '\U{1680}'
    || ('\U{2000}' <= c <= '\U{200A}')
    || c == '\U{2028}' || c == '\U{2029}' || c == '\U{202F}' || c == '\U{205F}'
    || c == '\U{3000}'
  }

  predicate AllSpace(s: string)
  {
    forall i | 0 <= i < |s| :: IsSpace(s[i])
  }

  lemma AllSpaceAppend(a: string, b: string)
    requires AllSpace(a) && AllSpace(b)
    ensures AllSpace(a + b)
  {
    forall i | 0 <= i < |a + b| ensures IsSpace((a + b)[i]) {
      if i < |a| {
        assert (a + b)[i] == a[i];
      } else {
        assert (a + b)[i] == b[i - |a|];
      }
    }
  }

  /** An ASCII decimal digit, the part of `\d` this model covers. */
  predicate IsDigit(c: char)
  {
    '0' <= c <= '9'
  }

  predicate AllDigits(s: string)
  {
    forall i | 0 <= i < |s| :: IsDigit(s[i])
  }

  /** `d` is a suffix of `a`. */
  predicate IsSuffix(d: string, a: string)
  {
    |d| <= |a| && d == a[|a| - |d|..]
  }

  lemma SuffixTransitive(a: string, b: string, c: string)
    requires IsSuffix(b, a) && IsSuffix(c, b)
    ensures IsSuffix(c, a)
  {
    assert b[|b| - |c|..] == a[|a| - |c|..];
  }

  /** A digit string is already stripped and holds no newline. */
  lemma DigitsAreStripped(d: string)
    requires AllDigits(d)
    ensures IsStripped(d) && '\n' !in d
  {
    forall m | 0 <= m < |d| ensures d[m] != '\n' && !IsSpace(d[m]) {
      assert IsDigit(d[m]);
    }
  }

  /** No whitespace at either end: what `str.strip()` produces. */
  predicate IsStripped(s: string)
  {
    s == [] || (!IsSpace(s[0]) && !IsSpace(s[|s| - 1]))
  }

  /** `s` with its longest leading whitespace run removed (`str.lstrip()`, or what `^\s*` consumes). */
  function LStrip(s: string): (r: string)
    ensures IsSuffix(r, s)
    ensures r == [] || !IsSpace(r[0])
    decreases |s|
  {
    if |s| > 0 && IsSpace(s[0]) then
      var t := s[1..];
      var r := LStrip(t);
      assert IsSuffix(t, s);
      SuffixTransitive(s, t, r);
      r
    else s
  }

  /** `LStrip` removes whitespace only. */
  lemma {:induction false} LStripDropsSpace(s: string)
    ensures AllSpace(s[..|s| - |LStrip(s)|])
    decreases |s|
  {
    if |s| > 0 && IsSpace(s[0]) {
      var t := s[1..];
      var r := LStrip(t);
      assert LStrip(s) == r;
      LStripDropsSpace(t);
      var dropped := s[..|s| - |r|];
      var rest := t[..|t| - |r|];
      forall m | 0 <= m < |dropped| ensures IsSpace(dropped[m]) {
        if m > 0 {
          assert dropped[m] == rest[m - 1];
        }
      }
    }
  }

  /** `s` with its longest trailing whitespace run removed (`str.rstrip()`). */
  function RStrip(s: string): (r: string)
    ensures |r| <= |s| && r == s[..|r|]
    ensures r == [] || !IsSpace(r[|r| - 1])
    decreases |s|
  {
    if |s| > 0 && IsSpace(s[|s| - 1]) then
      var r := RStrip(s[..|s| - 1]);
      assert s[..|s| - 1][..|r|] == s[..|r|];
      r
    else s
  }

  /** `RStrip` removes whitespace only. */
  lemma {:induction false} RStripDropsSpace(s: string)
    ensures AllSpace(s[|RStrip(s)|..])
    decreases |s|
  {
    if |s| > 0 && IsSpace(s[|s| - 1]) {
      RStripDropsSpace(s[..|s| - 1]);
      assert s[|RStrip(s)|..] == s[..|s| - 1][|RStrip(s[..|s| - 1])|..] + [s[|s| - 1]];
    }
  }

  /** Python's `str.strip()`: both whitespace runs removed. */
  function Strip(s: string): (r: string)
    ensures IsStripped(r)
    ensures |r| <= |s|
  {
    RStrip(LStrip(s))
  }

  /** What `Strip` keeps is an infix of its input with only whitespace on either side. */
  lemma StripRemovesOnlySpace(s: string)
    ensures exists i, j :: 0 <= i <= j <= |s| && Strip(s) == s[i..j] && AllSpace(s[..i]) && AllSpace(s[j..])
  {
    var l := LStrip(s);
    var r := RStrip(l);
    var i := |s| - |l|;
    LStripDropsSpace(s);
    RStripDropsSpace(l);
    assert r == s[i..i + |r|];
    assert s[i + |r|..] == l[|r|..];
  }

  /** `Strip` only removes characters: one absent from its input is absent from its result. */
  lemma StripKeepsOut(s: string, c: char)
    requires c !in s
    ensures c !in Strip(s)
  {
    var l := LStrip(s);
    var r := RStrip(l);
    forall m | 0 <= m < |r| ensures r[m] != c {
      assert r[m] == l[m];
      assert l[m] == s[|s| - |l| + m];
    }
  }

  /** Whitespace around a stripped string is exactly what `Strip` removes. */
  lemma {:induction false} StripPadded(lead: string, s: string, trail: string)
    requires AllSpace(lead) && AllSpace(trail) && IsStripped(s)
    ensures Strip(lead + s + trail) == s
  {
    assert lead + s + trail == lead + (s + trail);
    LStripSpaces(lead, s + trail);
    var l := LStrip(s + trail);
    if s == [] {
      assert s + trail == trail;
      LStripAllSpace(trail);
      assert l == [];
    } else {
      LStripNonSpace(s + trail);
      assert l == s + trail;
      RStripSpaces(s, trail);
    }
    assert Strip(lead + s + trail) == RStrip(l);
  }

  lemma {:induction false} LStripSpaces(lead: string, s: string)
    requires AllSpace(lead)
    ensures LStrip(lead + s) == LStrip(s)
    decreases |lead|
  {
    if lead == [] {
      assert lead + s == s;
    } else {
      assert (lead + s)[0] == lead[0];
      assert (lead + s)[1..] == lead[1..] + s;
      LStripSpaces(lead[1..], s);
    }
  }

  lemma LStripNonSpace(s: string)
    requires s == [] || !IsSpace(s[0])
    ensures LStrip(s) == s
  {
  }

  lemma {:induction false} LStripAllSpace(s: string)
    requires AllSpace(s)
    ensures LStrip(s) == []
    decreases |s|
  {
    if s != [] {
      LStripAllSpace(s[1..]);
    }
  }

  lemma {:induction false} RStripSpaces(s: string, trail: string)
    requires AllSpace(trail)
    requires s == [] || !IsSpace(s[|s| - 1])
    ensures RStrip(s + trail) == s
    decreases |trail|
  {
    if trail == [] {
      assert s + trail == s;
    } else {
      var t := trail[..|trail| - 1];
      assert (s + trail)[..|s + trail| - 1] == s + t;
      RStripSpaces(s, t);
    }
  }

  /** Lower-cases an ASCII letter and leaves every other character alone. */
  function ToLower(c: char): (r: char)
    ensures 'A' <= c <= 'Z' ==> 'a' <= r <= 'z'
    ensures !('A' <= c <= 'Z') ==> r == c
  {
    if 'A' <= c <= 'Z' then (c as int + 32) as char else c
  }

  /** Equal up to ASCII letter case, as `re.IGNORECASE` compares literal pattern text. */
  predicate EqualIgnoringCase(a: string, b: string)
  {
    |a| == |b| && forall i | 0 <= i < |a| :: ToLower(a[i]) == ToLower(b[i])
  }

  predicate StartsWithIgnoringCase(s: string, p: string)
  {
    |p| <= |s| && EqualIgnoringCase(s[..|p|], p)
  }

  /** The longest run of digits at the start of `s` (what a greedy `\d+` tries first). */
  function DigitRun(s: string): (r: string)
    ensures |r| <= |s| && r == s[..|r|]
    ensures AllDigits(r)
    ensures |r| < |s| ==> !IsDigit(s[|r|])
    decreases |s|
  {
    if |s| > 0 && IsDigit(s[0]) then [s[0]] + DigitRun(s[1..]) else []
  }
}
