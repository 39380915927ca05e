/**
 * The Python string operations the two cleaners rely on: `str.strip()`,
 * the `in` substring test, `str.replace(',', '.')`, ASCII lower-casing,
 * and the character classes `\d` and `str.isspace()`.
 */
module Text {

  /** `str.isspace()`: the characters `str.strip()` discards at both ends. */
  predicate IsSpace(c: char)
  {
    var n := c as int;
    n == 0x20 || 0x09 <= n <= 0x0d || 0x1c <= n <= 0x1f || n == 0x85 || n == 0xa0
    || n == 0x1680 || 0x2000 <= n <= 0x200a || n == 0x2028 || n == 0x2029
    || n == 0x202f || n == 0x205f || n == 0x3000
  }

  predicate AllSpace(s: string)
  {
    forall i :: 0 <= i < |s| ==> IsSpace(s[i])
  }

  /** A string with no whitespace at either end. */
  predicate Trimmed(s: string)
  {
    s == [] || (!IsSpace(s[0]) && !IsSpace(s[|s| - 1]))
  }

  /** `str.lstrip()`. */
  function TrimStart(s: string): (r: string)
    ensures |r| <= |s|
  {
    if |s| > 0 && IsSpace(s[0]) then TrimStart(s[1..]) else s
  }

  /** `str.rstrip()`. */
  function TrimEnd(s: string): (r: string)
    ensures |r| <= |s|
  {
    if |s| > 0 && IsSpace(s[|s| - 1]) then TrimEnd(s[..|s| - 1]) else s
  }

  /** `lstrip()` removes a prefix of whitespace and stops at the first other character. */
  lemma {:induction false} TrimStartSpec(s: string)
    ensures var r := TrimStart(s);
            |r| <= |s| && r == s[|s| - |r|..] && AllSpace(s[..|s| - |r|]) && (r == [] || !IsSpace(r[0]))
    decreases |s|
  {
    if |s| > 0 && IsSpace(s[0]) {
      var rest := s[1..];
      TrimStartSpec(rest);
      var r := TrimStart(rest);
      assert TrimStart(s) == r;
      assert rest[|rest| - |r|..] == s[|s| - |r|..];
      assert s[..|s| - |r|] == [s[0]] + rest[..|rest| - |r|];
      AllSpaceConcat([s[0]], rest[..|rest| - |r|]);
    }
  }

  /** `rstrip()` removes a suffix of whitespace and stops at the last other character. */
  lemma {:induction false} TrimEndSpec(s: string)
    ensures var r := TrimEnd(s);
            |r| <= |s| && r == s[..|r|] && AllSpace(s[|r|..]) && (r == [] || !IsSpace(r[|r| - 1]))
    decreases |s|
  {
    if |s| > 0 && IsSpace(s[|s| - 1]) {
      var front := s[..|s| - 1];
      TrimEndSpec(front);
      var r := TrimEnd(front);
      assert TrimEnd(s) == r;
      assert front[..|r|] == s[..|r|];
      assert s[|r|..] == front[|r|..] + [s[|s| - 1]];
      AllSpaceConcat(front[|r|..], [s[|s| - 1]]);
    }
  }

  /** `str.strip()`. */
  function Strip(s: string): string
  {
    TrimEnd(TrimStart(s))
  }

  lemma {:induction false} TrimStartOf(w: string, x: string)
    requires AllSpace(w)
    requires x == [] || !IsSpace(x[0])
    ensures TrimStart(w + x) == x
  {
    if w != [] {
      assert (w + x)[1..] == w[1..] + x;
      TrimStartOf(w[1..], x);
    } else {
      assert w + x == x;
    }
  }

  lemma {:induction false} TrimEndOf(x: string, w: string)
    requires AllSpace(w)
    requires x == [] || !IsSpace(x[|x| - 1])
    ensures TrimEnd(x + w) == x
  {
    if w != [] {
      assert (x + w)[..|x + w| - 1] == x + w[..|w| - 1];
      TrimEndOf(x, w[..|w| - 1]);
    } else {
      assert x + w == x;
    }
  }

  /** Stripping is determined by the split: whitespace, a trimmed core, whitespace. */
  lemma StripOf(w1: string, core: string, w2: string)
    requires AllSpace(w1) && AllSpace(w2) && Trimmed(core)
    ensures Strip(w1 + core + w2) == core
  {
    if core == [] {
      assert w1 + core + w2 == w1 + w2;
      assert AllSpace(w1 + w2);
      TrimStartOf(w1 + w2, []);
      assert w1 + w2 + [] == w1 + w2;
    } else {
      assert w1 + core + w2 == w1 + (core + w2);
      TrimStartOf(w1, core + w2);
      TrimEndOf(core, w2);
    }
  }

  /** The input is its stripped form with whitespace around it. */
  lemma StripSplit(s: string)
    ensures Trimmed(Strip(s))
    ensures var lo := |s| - |TrimStart(s)|;
            lo + |Strip(s)| <= |s| && Strip(s) == s[lo..lo + |Strip(s)|]
            && AllSpace(s[..lo]) && AllSpace(s[lo + |Strip(s)|..])
  {
    var t := TrimStart(s);
    var r := TrimEnd(t);
    var lo := |s| - |t|;
    TrimStartSpec(s);
    TrimEndSpec(t);
    assert r == t[..|r|];
    assert s[lo + |r|..] == t[|r|..];
  }

  lemma SplitThree(s: string, lo: nat, hi: nat)
    requires lo <= hi <= |s|
    ensures s == s[..lo] + s[lo..hi] + s[hi..]
  {
  }

  lemma Reassociate(w1: string, a: string, core: string, b: string, w2: string)
    ensures w1 + (a + core + b) + w2 == (w1 + a) + core + (b + w2)
  {
  }

  lemma AllSpaceConcat(a: string, b: string)
    requires AllSpace(a) && AllSpace(b)
    ensures AllSpace(a + b)
  {
  }

  /** Surrounding whitespace never changes what `strip()` returns. */
  lemma StripIgnoresSurroundingSpace(w1: string, s: string, w2: string)
    requires AllSpace(w1) && AllSpace(w2)
    ensures Strip(w1 + s + w2) == Strip(s)
  {
    StripSplit(s);
    var core := Strip(s);
    var lo := |s| - |TrimStart(s)|;
    var hi := lo + |core|;
    var a, b := s[..lo], s[hi..];
    SplitThree(s, lo, hi);
    AllSpaceConcat(w1, a);
    AllSpaceConcat(b, w2);
    Reassociate(w1, a, core, b, w2);
    StripOf(w1 + a, core, b + w2);
  }

  lemma StripIdempotent(s: string)
    ensures Strip(Strip(s)) == Strip(s)
  {
    StripSplit(s);
    StripOf([], Strip(s), []);
    assert [] + Strip(s) + [] == Strip(s);
  }

  /** `pat` occurs in `s` starting at index `k`. */
  predicate OccursAt(s: string, pat: string, k: int)
  {
    0 <= k && k + |pat| <= |s| && s[k..k + |pat|] == pat
  }

  /** Python's `pat in s`. */
  predicate Contains(s: string, pat: string)
  {
    exists k :: 0 <= k <= |s| - |pat| && OccursAt(s, pat, k)
  }

  /**
   * A pattern with no whitespace at its ends that occurs in `s` also occurs
   * in `Strip(s)`: stripping cannot remove it.
   */
  lemma ContainsSurvivesStrip(s: string, pat: string)
    requires pat != [] && Trimmed(pat)
    requires Contains(s, pat)
    ensures Contains(Strip(s), pat)
  {
    var k :| 0 <= k <= |s| - |pat| && OccursAt(s, pat, k);
    StripSplit(s);
    var core := Strip(s);
    var lo := |s| - |TrimStart(s)|;
    var hi := lo + |core|;
    assert core == s[lo..hi];
    OccursInCore(s, lo, hi, pat, k);
    WitnessContains(core, pat, k - lo);
  }

  lemma WitnessContains(s: string, pat: string, k: int)
    requires OccursAt(s, pat, k)
    ensures Contains(s, pat)
  {
  }

  lemma OccursInCore(s: string, lo: nat, hi: nat, pat: string, k: nat)
    requires lo <= hi <= |s| && AllSpace(s[..lo]) && AllSpace(s[hi..])
    requires pat != [] && Trimmed(pat) && OccursAt(s, pat, k)
    ensures lo <= k && k + |pat| <= hi && OccursAt(s[lo..hi], pat, k - lo)
  {
    OccursEnds(s, pat, k);
    OutsideIsSpace(s, lo, hi, k);
    OutsideIsSpace(s, lo, hi, k + |pat| - 1);
    OccursInSlice(s, lo, hi, pat, k);
  }

  lemma OccursEnds(s: string, pat: string, k: nat)
    requires pat != [] && OccursAt(s, pat, k)
    ensures s[k] == pat[0] && s[k + |pat| - 1] == pat[|pat| - 1]
  {
    assert s[k..k + |pat|][0] == s[k];
    assert s[k..k + |pat|][|pat| - 1] == s[k + |pat| - 1];
  }

  lemma OutsideIsSpace(s: string, lo: nat, hi: nat, i: nat)
    requires lo <= hi <= |s| && i < |s|
    requires AllSpace(s[..lo]) && AllSpace(s[hi..])
    ensures i < lo || hi <= i ==> IsSpace(s[i])
  {
    if i < lo {
      assert s[..lo][i] == s[i];
    } else if hi <= i {
      assert s[hi..][i - hi] == s[i];
    }
  }

  lemma OccursInSlice(s: string, lo: nat, hi: nat, pat: string, k: nat)
    requires lo <= k && k + |pat| <= hi <= |s|
    requires OccursAt(s, pat, k)
    ensures OccursAt(s[lo..hi], pat, k - lo)
  {
    var t := s[lo..hi];
    forall i | k - lo <= i < k - lo + |pat|
      ensures t[i] == s[i + lo]
    {
    }
    assert t[k - lo..k - lo + |pat|] == s[k..k + |pat|];
  }

  /** `s.replace(',', '.')`. */
  function CommaToDot(s: string): string
  {
    seq(|s|, i requires 0 <= i < |s| => if s[i] == ',' then '.' else s[i])
  }

  /**
   * Every comma becomes a point and nothing else changes: no comma is left,
   * text without commas is returned as it is, and a second pass does nothing.
   */
  lemma CommaToDotMeaning(s: string)
    ensures |CommaToDot(s)| == |s|
    ensures forall i :: 0 <= i < |s| ==> CommaToDot(s)[i] != ','
    ensures forall i :: 0 <= i < |s| && s[i] != ',' ==> CommaToDot(s)[i] == s[i]
    ensures (forall i :: 0 <= i < |s| ==> s[i] != ',') ==> CommaToDot(s) == s
    ensures CommaToDot(CommaToDot(s)) == CommaToDot(s)
  {
  }

  /** ASCII lower-casing, as `float()` compares the spellings of inf and nan. */
  function LowerChar(c: char): char
  {
    if 'A' <= c <= 'Z' then (c as int + 32) as char else c
  }

  function Lower(s: string): string
  {
    seq(|s|, i requires 0 <= i < |s| => LowerChar(s[i]))
  }

  /** `\d`, restricted to ASCII digits. */
  predicate IsDigit(c: char)
  {
    '0' <= c <= '9'
  }

  predicate AllDigits(s: string)
  {
    forall i :: 0 <= i < |s| ==> IsDigit(s[i])
  }

  predicate HasDigit(s: string)
  {
    exists i :: 0 <= i < |s| && IsDigit(s[i])
  }

  predicate IsSign(c: char)
  {
    c == '+' || c == '-'
  }

  /** The end of the longest run of digits starting at `k` (greedy `\d*`). */
  function DigitRunEnd(s: string, k: nat): (e: nat)
    requires k <= |s|
    ensures k <= e <= |s| && AllDigits(s[k..e])
    ensures e == |s| || !IsDigit(s[e])
    decreases |s| - k
  {
    if k < |s| && IsDigit(s[k]) then
      var e := DigitRunEnd(s, k + 1);
      assert s[k..e] == [s[k]] + s[k + 1..e];
      e
    else
      k
  }

  /** No run of digits from `k` is longer than the greedy one; one that stops at a non-digit is it. */
  lemma RunEndExact(s: string, k: nat, m: nat)
    requires k <= m <= |s| && AllDigits(s[k..m])
    ensures m <= DigitRunEnd(s, k)
    ensures m == |s| || !IsDigit(s[m]) ==> DigitRunEnd(s, k) == m
  {
  }
}
