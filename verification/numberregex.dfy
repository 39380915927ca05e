/**
 * `re.search(r'[-+]?\d*\.\d+|\d+', text)`: the fallback that pulls the first
 * number-looking piece out of a cell.
 *
 * Python's regex engine tries start positions from left to right, and at
 * each one the alternatives in order, with greedy repetition. For this
 * pattern that is deterministic: `\d*` can only give back digits, after
 * which a `.` can never follow, so the first alternative matches at most one
 * way (the longest) and the second is the longest run of digits. The scanner
 * below does exactly that, and `IsLeftmostMatch` says the same thing without
 * saying how.
 */
module NumberRegex {
  import opened Wrappers
  import opened Text
  import opened PyFloat

  /** `\d*\.\d+`. */
  predicate PointFraction(t: string)
  {
    exists p :: 0 <= p < |t| - 1 && t[p] == '.' && AllDigits(t[..p]) && AllDigits(t[p + 1..])
  }

  /** The first alternative, `[-+]?\d*\.\d+`. */
  predicate DecimalToken(t: string)
  {
    PointFraction(t) || (t != [] && IsSign(t[0]) && PointFraction(t[1..]))
  }

  /** The second alternative, `\d+`. */
  predicate IntegerToken(t: string)
  {
    t != [] && AllDigits(t)
  }

  /** Some text starting at `i` is matched by the first alternative. */
  predicate DecimalMatchesAt(s: string, i: nat)
    requires i <= |s|
  {
    exists d :: i <= d <= |s| && DecimalToken(s[i..d])
  }

  /** Some text starting at `i` is matched by the pattern. */
  predicate MatchesAt(s: string, i: nat)
    requires i <= |s|
  {
    exists d :: i <= d <= |s| && (DecimalToken(s[i..d]) || IntegerToken(s[i..d]))
  }

  /**
   * `s[i..e]` is what `re.search` returns: no match starts further left, the
   * first alternative wins where it applies, and the match is the longest the
   * chosen alternative allows.
   */
  predicate IsLeftmostMatch(s: string, i: nat, e: nat)
  {
    i <= e <= |s|
    && (forall k :: 0 <= k < i ==> !MatchesAt(s, k))
    && if DecimalMatchesAt(s, i) then
         DecimalToken(s[i..e]) && forall d :: i <= d <= |s| && DecimalToken(s[i..d]) ==> d <= e
       else
         IntegerToken(s[i..e]) && forall d :: i <= d <= |s| && IntegerToken(s[i..d]) ==> d <= e
  }

  // ---------------------------------------------------------------------------
  // The scanner.

  /** Where the first alternative, tried at `i`, ends; `None` if it fails there. */
  function DecimalEnd(s: string, i: nat): Option<nat>
    requires i <= |s|
  {
    var j := if i < |s| && IsSign(s[i]) then i + 1 else i;
    var k := DigitRunEnd(s, j);
    if k + 1 < |s| && s[k] == '.' && IsDigit(s[k + 1]) then Some(DigitRunEnd(s, k + 1)) else None
  }

  /** Where the second alternative, tried at `i`, ends. */
  function IntegerEnd(s: string, i: nat): Option<nat>
    requires i <= |s|
  {
    if i < |s| && IsDigit(s[i]) then Some(DigitRunEnd(s, i)) else None
  }

  /** The pattern at one start position: the first alternative, else the second. */
  function MatchEnd(s: string, i: nat): Option<nat>
    requires i <= |s|
  {
    var d := DecimalEnd(s, i);
    if d.Some? then d else IntegerEnd(s, i)
  }

  datatype Span = Span(start: nat, end: nat)

  /** Tries each start position from `i` on, as `re.search` does. */
  function SearchFrom(s: string, i: nat): (r: Option<Span>)
    requires i <= |s|
    ensures r.Some? ==> i <= r.value.start < |s| && MatchEnd(s, r.value.start) == Some(r.value.end)
    ensures r.Some? ==> forall k :: i <= k < r.value.start ==> MatchEnd(s, k).None?
    ensures r.None? ==> forall k :: i <= k < |s| ==> MatchEnd(s, k).None?
    decreases |s| - i
  {
    if i == |s| then None
    else
      match MatchEnd(s, i)
      case Some(e) => Some(Span(i, e))
      case None => SearchFrom(s, i + 1)
  }

  /** `re.search(r'[-+]?\d*\.\d+|\d+', s)`: the span of the match, if any. */
  function Search(s: string): Option<Span>
  {
    SearchFrom(s, 0)
  }

  // ---------------------------------------------------------------------------
  // The scanner against the declarative description.

  lemma PointFractionNoSign(t: string)
    requires PointFraction(t)
    ensures t != [] && !IsSign(t[0])
  {
    var p :| 0 <= p < |t| - 1 && t[p] == '.' && AllDigits(t[..p]) && AllDigits(t[p + 1..]);
    if p > 0 {
      assert t[..p][0] == t[0];
    }
  }

  /** Any `\d*\.\d+` from `j` has its point where the digits from `j` stop. */
  lemma PointShape(s: string, j: nat, d: nat)
    requires j <= d <= |s| && PointFraction(s[j..d])
    ensures var k := DigitRunEnd(s, j);
            k + 1 < d && s[k] == '.' && IsDigit(s[k + 1]) && d <= DigitRunEnd(s, k + 1)
  {
    var k := PointAt(s, j, d);
    RunEndExact(s, j, k);
    RunEndExact(s, k + 1, d);
  }

  /** Where the point of a `\d*\.\d+` match lies within `s`. */
  lemma PointAt(s: string, j: nat, d: nat) returns (k: nat)
    requires j <= d <= |s| && PointFraction(s[j..d])
    ensures j <= k && k + 1 < d && s[k] == '.' && IsDigit(s[k + 1])
    ensures AllDigits(s[j..k]) && AllDigits(s[k + 1..d])
  {
    var t := s[j..d];
    var p := PointIn(t);
    k := j + p;
    TakeOfSlice(s, j, d, p);
    DropOfSlice(s, j, d, p + 1);
    assert t[p] == s[k] && t[p + 1] == s[k + 1];
  }

  lemma PointIn(t: string) returns (p: nat)
    requires PointFraction(t)
    ensures p + 1 < |t| && t[p] == '.' && IsDigit(t[p + 1])
    ensures AllDigits(t[..p]) && AllDigits(t[p + 1..])
  {
    p :| 0 <= p < |t| - 1 && t[p] == '.' && AllDigits(t[..p]) && AllDigits(t[p + 1..]);
    assert t[p + 1..][0] == t[p + 1];
  }

  lemma TakeOfSlice(s: string, j: nat, d: nat, p: nat)
    requires j + p <= d <= |s|
    ensures s[j..d][..p] == s[j..j + p]
  {
  }

  lemma DropOfSlice(s: string, j: nat, d: nat, p: nat)
    requires j + p <= d <= |s|
    ensures s[j..d][p..] == s[j + p..d]
  {
  }

  /** A match of the first alternative starts with a sign exactly when it has one to take off. */
  lemma DecimalTokenSplit(t: string)
    requires DecimalToken(t)
    ensures t != []
    ensures IsSign(t[0]) ==> PointFraction(t[1..])
    ensures !IsSign(t[0]) ==> PointFraction(t)
  {
    if PointFraction(t) {
      PointFractionNoSign(t);
    }
  }

  /** Every match of the first alternative at `i` ends no later than the scanner's. */
  lemma DecimalEndMaximal(s: string, i: nat, d: nat)
    requires i <= d <= |s| && DecimalToken(s[i..d])
    ensures DecimalEnd(s, i).Some? && d <= DecimalEnd(s, i).value
  {
    var t := s[i..d];
    DecimalTokenSplit(t);
    assert t[0] == s[i];
    if IsSign(s[i]) {
      assert t[1..] == s[i + 1..d];
      SignedDecimalEnd(s, i, d);
    } else {
      UnsignedDecimalEnd(s, i, d);
    }
  }

  lemma UnsignedDecimalEnd(s: string, i: nat, d: nat)
    requires i < d <= |s| && !IsSign(s[i]) && PointFraction(s[i..d])
    ensures DecimalEnd(s, i).Some? && d <= DecimalEnd(s, i).value
  {
    PointShape(s, i, d);
  }

  lemma SignedDecimalEnd(s: string, i: nat, d: nat)
    requires i < d <= |s| && IsSign(s[i]) && PointFraction(s[i + 1..d])
    ensures DecimalEnd(s, i).Some? && d <= DecimalEnd(s, i).value
  {
    PointShape(s, i + 1, d);
  }

  /** A greedy run from a digit takes at least that digit. */
  lemma RunPastDigit(s: string, m: nat)
    requires m < |s| && IsDigit(s[m])
    ensures m + 1 <= DigitRunEnd(s, m)
  {
  }

  lemma PointFractionOf(s: string, j: nat, k: nat, e: nat)
    requires j <= k && k + 1 < e <= |s| && s[k] == '.'
    requires AllDigits(s[j..k]) && AllDigits(s[k + 1..e])
    ensures PointFraction(s[j..e])
  {
    var t := s[j..e];
    assert t[..k - j] == s[j..k];
    assert t[k - j + 1..] == s[k + 1..e];
    assert t[k - j] == '.';
  }

  /** Digits from `j`, a point and digits: the greedy runs span a `\d*\.\d+`. */
  lemma PointRunIsFraction(s: string, j: nat)
    requires j <= |s|
    requires var k := DigitRunEnd(s, j); k + 1 < |s| && s[k] == '.' && IsDigit(s[k + 1])
    ensures var k := DigitRunEnd(s, j);
            k + 2 <= DigitRunEnd(s, k + 1) && PointFraction(s[j..DigitRunEnd(s, k + 1)])
  {
    var k := DigitRunEnd(s, j);
    var e := DigitRunEnd(s, k + 1);
    RunPastDigit(s, k + 1);
    PointFractionOf(s, j, k, e);
  }

  /** The scanner's end for the first alternative is a match of it. */
  lemma DecimalEndSound(s: string, i: nat)
    requires i <= |s| && DecimalEnd(s, i).Some?
    ensures i <= DecimalEnd(s, i).value <= |s| && DecimalToken(s[i..DecimalEnd(s, i).value])
  {
    var e := DecimalEnd(s, i).value;
    if i < |s| && IsSign(s[i]) {
      PointRunIsFraction(s, i + 1);
      assert s[i..e][0] == s[i];
      assert s[i..e][1..] == s[i + 1..e];
    } else {
      PointRunIsFraction(s, i);
    }
  }

  lemma IntegerEndExact(s: string, i: nat, d: nat)
    requires i <= d <= |s|
    ensures IntegerToken(s[i..d]) ==> IntegerEnd(s, i).Some? && d <= IntegerEnd(s, i).value
    ensures IntegerEnd(s, i).Some? ==> IntegerToken(s[i..IntegerEnd(s, i).value])
  {
    if IntegerToken(s[i..d]) {
      assert s[i..d][0] == s[i];
      RunEndExact(s, i, d);
    }
    if IntegerEnd(s, i).Some? {
      var e := DigitRunEnd(s, i);
      assert s[i..e][0] == s[i];
    }
  }

  /** The scanner finds a match at `i` exactly when the pattern matches there. */
  lemma MatchEndIff(s: string, i: nat)
    requires i <= |s|
    ensures MatchEnd(s, i).Some? <==> MatchesAt(s, i)
    ensures DecimalEnd(s, i).Some? <==> DecimalMatchesAt(s, i)
  {
    if DecimalEnd(s, i).Some? {
      DecimalEndSound(s, i);
    }
    if IntegerEnd(s, i).Some? {
      IntegerEndExact(s, i, i);
    }
    if d :| i <= d <= |s| && DecimalToken(s[i..d]) {
      DecimalEndMaximal(s, i, d);
    }
    if d :| i <= d <= |s| && IntegerToken(s[i..d]) {
      IntegerEndExact(s, i, d);
    }
  }

  /** What the scanner returns is the leftmost match. */
  lemma SearchIsLeftmost(s: string)
    requires Search(s).Some?
    ensures IsLeftmostMatch(s, Search(s).value.start, Search(s).value.end)
  {
    var i, e := Search(s).value.start, Search(s).value.end;
    forall k | 0 <= k < i
      ensures !MatchesAt(s, k)
    {
      MatchEndIff(s, k);
    }
    MatchEndIff(s, i);
    if DecimalEnd(s, i).Some? {
      DecimalEndSound(s, i);
      forall d | i <= d <= |s| && DecimalToken(s[i..d])
        ensures d <= e
      {
        DecimalEndMaximal(s, i, d);
      }
    } else {
      assert !DecimalMatchesAt(s, i);
      assert IntegerEnd(s, i) == Some(e);
      IntegerEndExact(s, i, i);
      assert IntegerToken(s[i..e]);
      forall d | i <= d <= |s| && IntegerToken(s[i..d])
        ensures d <= e
      {
        IntegerEndExact(s, i, d);
      }
    }
  }

  /** The leftmost match is what the scanner returns. */
  lemma LeftmostIsSearch(s: string, i: nat, e: nat)
    requires IsLeftmostMatch(s, i, e)
    ensures Search(s) == Some(Span(i, e))
  {
    MatchEndIff(s, i);
    if DecimalMatchesAt(s, i) {
      assert MatchesAt(s, i);
    } else {
      assert MatchesAt(s, i) by {
        assert IntegerToken(s[i..e]);
      }
    }
    assert i < |s|;
    match Search(s)
    case None =>
    case Some(sp) =>
      if sp.start < i {
        MatchEndIff(s, sp.start);
      }
      assert sp.start == i;
      SearchIsLeftmost(s);
      LeftmostEndUnique(s, i, e, sp.end);
  }

  lemma LeftmostEndUnique(s: string, i: nat, e1: nat, e2: nat)
    requires IsLeftmostMatch(s, i, e1) && IsLeftmostMatch(s, i, e2)
    ensures e1 == e2
  {
  }

  /** The pattern finds nothing exactly when the text has no digit. */
  lemma SearchNoneIffNoDigit(s: string)
    ensures Search(s).None? <==> !HasDigit(s)
  {
    if k :| 0 <= k < |s| && IsDigit(s[k]) {
      assert MatchEnd(s, k).Some?;
    }
    if Search(s).Some? {
      var sp := Search(s).value;
      var i := sp.start;
      if DecimalEnd(s, i).Some? {
        var j := if IsSign(s[i]) then i + 1 else i;
        var k := DigitRunEnd(s, j);
        assert IsDigit(s[k + 1]);
      } else {
        assert IsDigit(s[i]);
      }
    }
  }

  lemma PointSplit(x: string) returns (w: string, f: string)
    requires PointFraction(x)
    ensures AllDigits(w) && AllDigits(f) && f != [] && x == w + "." + f
  {
    var p :| 0 <= p < |x| - 1 && x[p] == '.' && AllDigits(x[..p]) && AllDigits(x[p + 1..]);
    w, f := x[..p], x[p + 1..];
    assert x == w + "." + f;
  }

  /** A match of the first alternative: `float()` reads it as a finite number, signed as written. */
  lemma DecimalTokenParses(t: string)
    requires DecimalToken(t)
    ensures t != [] && ParseFloat(t).Some? && ParseFloat(t).value.Finite?
    ensures ParseFloat(t).value.neg <==> t[0] == '-'
  {
    DecimalTokenSplit(t);
    if IsSign(t[0]) {
      SignedDecimalParses(t);
    } else {
      UnsignedDecimalParses(t);
    }
  }

  lemma UnsignedDecimalParses(t: string)
    requires PointFraction(t)
    ensures t != [] && ParseFloat(t).Some? && ParseFloat(t).value.Finite? && !ParseFloat(t).value.neg
  {
    var w, f := PointSplit(t);
    assert "" + w + "." + f == t;
    ParseSignedPoint("", w, f);
  }

  lemma SignedDecimalParses(t: string)
    requires t != [] && IsSign(t[0]) && PointFraction(t[1..])
    ensures ParseFloat(t).Some? && ParseFloat(t).value.Finite?
    ensures ParseFloat(t).value.neg <==> t[0] == '-'
  {
    assert t == [t[0]] + t[1..];
    SignedPoint(t[0], t[1..]);
  }

  lemma SignedPoint(c: char, x: string)
    requires IsSign(c) && PointFraction(x)
    ensures ParseFloat([c] + x).Some? && ParseFloat([c] + x).value.Finite?
    ensures ParseFloat([c] + x).value.neg <==> c == '-'
  {
    var w, f := PointSplit(x);
    var sign := [c];
    assert sign + w + "." + f == [c] + x;
    if c == '-' {
      assert sign == "-";
    } else {
      assert sign == "+";
    }
    ParseSignedPoint(sign, w, f);
  }

  /**
   * Every match is text `float()` accepts: an optional sign, digits and a
   * point, or plain digits. So `float(match.group())` never raises, and it
   * gives a finite number that is negative only when the match starts with `-`.
   */
  lemma MatchParses(s: string)
    requires Search(s).Some?
    ensures var t := s[Search(s).value.start..Search(s).value.end];
            t != [] && ParseFloat(t).Some? && ParseFloat(t).value.Finite?
            && (ParseFloat(t).value.neg <==> t[0] == '-')
  {
    var i, e := Search(s).value.start, Search(s).value.end;
    if DecimalEnd(s, i).Some? {
      DecimalEndSound(s, i);
      DecimalTokenParses(s[i..e]);
    } else {
      IntegerEndExact(s, i, i);
      ParseDigits(s[i..e]);
    }
  }
}
