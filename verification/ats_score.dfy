/**
 The ATS score parser: a model of searching a completion text with the
 pattern `ATS SCORE\s*:\s*(\d{1,3})`, reading the captured digits as a
 number, capping it at 100, and falling back to 0 when nothing matches.

 The pattern is matched deterministically at a fixed start: `\s` never
 matches `:` or a digit, so the greedy whitespace runs can only end where
 the next token begins, and the greedy `\d{1,3}` takes as many digits as are
 there, up to three. `MatchAt` follows that reading; `RegexMatch` is the
 declarative reading of the pattern, and the two are proved to agree.
 */
module AtsScore {

  datatype Option<T> = None | Some(value: T)

  /** A match of the pattern: where it starts and the captured digit run. */
  datatype Match = Match(pos: nat, digits: string)

  const Label: string := "ATS SCORE"
  const MaxScore: nat := 100
  const MaxDigits: nat := 3

  function Min(a: nat, b: nat): nat {
    if a <= b then a else b
  }

  /** `\d`, restricted to the ASCII digits. */
  function IsDigit(c: char): (r: bool)
    ensures r ==> c != ':' && c != Label[0]
  {
    '0' <= c <= '9'
  }

  /**
   `\s` on a Python `str`: the code points for which `str.isspace()` holds.
   None of them is a colon, a digit or the label's first letter, so the
   pattern's whitespace runs never give back a character.
   */
  function IsSpace(c: char): (r: bool)
    ensures r ==> c != ':' && c != Label[0] && !IsDigit(c)
  {
    var n := c as int;
    || 0x09 <= n <= 0x0D
    || 0x1C <= n <= 0x20
    || n == 0x85 || n == 0xA0 || n == 0x1680
    || 0x2000 <= n <= 0x200A
    || n == 0x2028 || n == 0x2029 || n == 0x202F || n == 0x205F || n == 0x3000
  }

  predicate AllDigits(s: string) {
    forall i :: 0 <= i < |s| ==> IsDigit(s[i])
  }

  predicate AllSpaces(s: string) {
    forall i :: 0 <= i < |s| ==> IsSpace(s[i])
  }

  function Pow10(n: nat): (r: nat)
    ensures r >= 1
  {
    if n == 0 then 1 else 10 * Pow10(n - 1)
  }

  function DigitValue(c: char): (v: nat)
    requires IsDigit(c)
    ensures v <= 9
  {
    (c as int) - ('0' as int)
  }

  /** `int(d)` for a run of ASCII digits, most significant first. */
  function DigitsValue(d: string): (v: nat)
    requires AllDigits(d)
    ensures v < Pow10(|d|)
  {
    if d == [] then 0
    else 10 * DigitsValue(d[..|d| - 1]) + DigitValue(d[|d| - 1])
  }

  /** `str(n)`: the decimal rendering of `n`, without leading zeros. */
  function DecimalString(n: nat): (d: string)
    ensures |d| >= 1 && AllDigits(d)
    ensures d[0] == '0' <==> n == 0
  {
    var last := ['0' + (n % 10) as char];
    if n < 10 then last else DecimalString(n / 10) + last
  }

  /** Index of the first character at or after `i` that is not whitespace. */
  function SkipSpaces(s: string, i: nat): (j: nat)
    requires i <= |s|
    ensures i <= j <= |s|
    ensures forall k :: i <= k < j ==> IsSpace(s[k])
    ensures j < |s| ==> !IsSpace(s[j])
    decreases |s| - i
  {
    if i < |s| && IsSpace(s[i]) then SkipSpaces(s, i + 1) else i
  }

  /** End of the greedy `\d{1,3}` run starting at `i` (equal to `i` when there is no digit). */
  function DigitRun(s: string, i: nat): (j: nat)
    requires i <= |s|
    ensures i <= j <= |s| && j <= i + MaxDigits
    ensures forall k :: i <= k < j ==> IsDigit(s[k])
    ensures j < |s| && j < i + MaxDigits ==> !IsDigit(s[j])
  {
    if i < |s| && IsDigit(s[i]) then
      if i + 1 < |s| && IsDigit(s[i + 1]) then
        if i + 2 < |s| && IsDigit(s[i + 2]) then i + 3 else i + 2
      else i + 1
    else i
  }

  /** The digits the pattern captures when it is tried at position `p`, if it matches there. */
  function MatchAt(s: string, p: nat): (r: Option<string>)
    ensures r.Some? ==> p + |Label| < |s| && s[p..p + |Label|] == Label
    ensures r.Some? ==> 1 <= |r.value| <= MaxDigits && AllDigits(r.value)
  {
    if p + |Label| <= |s| && s[p..p + |Label|] == Label then
      var colon := SkipSpaces(s, p + |Label|);
      if colon < |s| && s[colon] == ':' then
        var start := SkipSpaces(s, colon + 1);
        var end := DigitRun(s, start);
        if start < end then SliceOfDigits(s, start, end); Some(s[start..end]) else None
      else None
    else None
  }

  /** The literal text a match consumes before its capture group, with the two whitespace runs. */
  function Head(w1: string, w2: string): string {
    Label + w1 + [':'] + w2
  }

  /** `d` is what the greedy `\d{1,3}` captures when it starts at `i`. */
  predicate GreedyCapture(s: string, i: nat, d: string) {
    && 1 <= |d| <= MaxDigits
    && AllDigits(d)
    && i + |d| <= |s|
    && s[i..i + |d|] == d
    && (|d| == MaxDigits || i + |d| == |s| || !IsDigit(s[i + |d|]))
  }

  /**
   The pattern read with explicit whitespace runs: at `p` the text reads
   `ATS SCORE`, the run `w1`, `:`, the run `w2`, and then the greedy capture `d`.
   */
  predicate MatchesWith(s: string, p: nat, d: string, w1: string, w2: string) {
    && AllSpaces(w1) && AllSpaces(w2)
    && p + |Head(w1, w2)| <= |s|
    && s[p..p + |Head(w1, w2)|] == Head(w1, w2)
    && GreedyCapture(s, p + |Head(w1, w2)|, d)
  }

  /** The declarative reading of the pattern: it matches at `p` with some whitespace runs. */
  ghost predicate RegexMatch(s: string, p: nat, d: string) {
    exists w1, w2 :: MatchesWith(s, p, d, w1, w2)
  }

  /** The leftmost position at or after `from` where the pattern matches (`re.search`). */
  function Search(s: string, from: nat): (r: Option<Match>)
    ensures r.Some? ==>
      && from <= r.value.pos
      && MatchAt(s, r.value.pos) == Some(r.value.digits)
      && forall q :: from <= q < r.value.pos ==> MatchAt(s, q).None?
    ensures r.None? ==> forall q :: from <= q ==> MatchAt(s, q).None?
    decreases |s| - from
  {
    if from > |s| then None
    else
      match MatchAt(s, from)
      case Some(d) => Some(Match(from, d))
      case None => Search(s, from + 1)
  }

  /** `extract_ats_score`: the first labelled score, capped at 100, or 0 when there is none. */
  function ExtractAtsScore(text: string): (score: nat)
    ensures score <= MaxScore
  {
    match Search(text, 0)
    case Some(m) => Min(DigitsValue(m.digits), MaxScore)
    case None => 0
  }

  // ---------------------------------------------------------------------
  // MatchAt agrees with the declarative pattern
  // ---------------------------------------------------------------------

  /** The end of a whitespace run followed by a non-space is where SkipSpaces stops. */
  lemma SkipSpacesUnique(s: string, i: nat, k: nat)
    requires i <= k < |s|
    requires forall m :: i <= m < k ==> IsSpace(s[m])
    requires !IsSpace(s[k])
    ensures SkipSpaces(s, i) == k
  {
  }

  /** Whatever MatchAt captures is a capture of the declarative pattern. */
  lemma MatchAtSound(s: string, p: nat)
    requires MatchAt(s, p).Some?
    ensures RegexMatch(s, p, MatchAt(s, p).value)
  {
    var colon, start, end := MatchAtParts(s, p);
    var w1 := s[p + |Label|..colon];
    var w2 := s[colon + 1..start];
    SliceOfSpaces(s, p + |Label|, colon);
    SliceOfSpaces(s, colon + 1, start);
    HeadSlice(s, p, colon, start);
    SliceOfDigits(s, start, end);
    assert MatchesWith(s, p, s[start..end], w1, w2);
  }

  /** The positions MatchAt finds when it succeeds: the colon, and the start and end of the capture. */
  lemma MatchAtParts(s: string, p: nat) returns (colon: nat, start: nat, end: nat)
    requires MatchAt(s, p).Some?
    ensures p + |Label| <= colon < start <= end <= |s|
    ensures s[p..p + |Label|] == Label && s[colon] == ':'
    ensures forall k :: p + |Label| <= k < colon ==> IsSpace(s[k])
    ensures forall k :: colon + 1 <= k < start ==> IsSpace(s[k])
    ensures start < end && end == DigitRun(s, start)
    ensures forall k :: start <= k < end ==> IsDigit(s[k])
    ensures end < |s| && end < start + MaxDigits ==> !IsDigit(s[end])
    ensures MatchAt(s, p).value == s[start..end]
  {
    colon := SkipSpaces(s, p + |Label|);
    start := SkipSpaces(s, colon + 1);
    end := DigitRun(s, start);
  }

  lemma SliceOfSpaces(s: string, i: nat, j: nat)
    requires i <= j <= |s|
    requires forall k :: i <= k < j ==> IsSpace(s[k])
    ensures AllSpaces(s[i..j])
  {
    forall k | 0 <= k < j - i ensures IsSpace(s[i..j][k]) {
      assert s[i..j][k] == s[i + k];
    }
  }

  lemma SliceOfDigits(s: string, i: nat, j: nat)
    requires i <= j <= |s|
    requires forall k :: i <= k < j ==> IsDigit(s[k])
    ensures AllDigits(s[i..j])
  {
    forall k | 0 <= k < j - i ensures IsDigit(s[i..j][k]) {
      assert s[i..j][k] == s[i + k];
    }
  }

  /** The text from `p` up to the capture is the label, the two whitespace runs and the colon. */
  lemma HeadSlice(s: string, p: nat, colon: nat, start: nat)
    requires p + |Label| <= colon < start <= |s|
    requires s[p..p + |Label|] == Label && s[colon] == ':'
    ensures |Head(s[p + |Label|..colon], s[colon + 1..start])| == start - p
    ensures s[p..start] == Head(s[p + |Label|..colon], s[colon + 1..start])
  {
    assert s[p..start] == s[p..p + |Label|] + s[p + |Label|..colon] + s[colon..colon + 1] + s[colon + 1..start];
    assert s[colon..colon + 1] == [':'];
  }

  /** Where a match of the pattern at `p` puts its colon and its capture. */
  lemma RegexLayout(s: string, p: nat, w1: string, w2: string)
    requires AllSpaces(w1) && AllSpaces(w2)
    requires p + |Head(w1, w2)| <= |s|
    requires s[p..p + |Head(w1, w2)|] == Head(w1, w2)
    ensures s[p..p + |Label|] == Label
    ensures forall m :: p + |Label| <= m < p + |Label| + |w1| ==> IsSpace(s[m])
    ensures s[p + |Label| + |w1|] == ':'
    ensures forall m :: p + |Label| + |w1| + 1 <= m < p + |Head(w1, w2)| ==> IsSpace(s[m])
  {
    var h := Head(w1, w2);
    var colon := p + |Label| + |w1|;
    assert s[p..p + |Label|] == h[..|Label|];
    forall m | p + |Label| <= m < colon ensures IsSpace(s[m]) {
      assert s[m] == h[m - p] == w1[m - p - |Label|];
    }
    assert s[colon] == h[colon - p];
    forall m | colon + 1 <= m < p + |h| ensures IsSpace(s[m]) {
      assert s[m] == h[m - p] == w2[m - colon - 1];
    }
  }

  /** Whatever the declarative pattern captures, MatchAt captures too. */
  lemma MatchAtComplete(s: string, p: nat, d: string)
    requires RegexMatch(s, p, d)
    ensures MatchAt(s, p) == Some(d)
  {
    var w1, w2 :| MatchesWith(s, p, d, w1, w2);
    var colon, start := LocateParts(s, p, d, w1, w2);
    MatchAtSteps(s, p, colon, start);
  }

  /** Where SkipSpaces and DigitRun stop on a text the pattern matches. */
  lemma LocateParts(s: string, p: nat, d: string, w1: string, w2: string) returns (colon: nat, start: nat)
    requires MatchesWith(s, p, d, w1, w2)
    ensures p + |Label| <= |s| && s[p..p + |Label|] == Label
    ensures SkipSpaces(s, p + |Label|) == colon < |s| && s[colon] == ':'
    ensures SkipSpaces(s, colon + 1) == start
    ensures DigitRun(s, start) == start + |d| && s[start..start + |d|] == d
  {
    RegexLayout(s, p, w1, w2);
    colon := p + |Label| + |w1|;
    start := p + |Head(w1, w2)|;
    SkipSpacesUnique(s, p + |Label|, colon);
    assert s[start] == d[0];
    SkipSpacesUnique(s, colon + 1, start);
    DigitRunUnique(s, start, d);
  }

  /** MatchAt once its label, colon and capture start are located. */
  lemma MatchAtSteps(s: string, p: nat, colon: nat, start: nat)
    requires p + |Label| <= |s| && s[p..p + |Label|] == Label
    requires SkipSpaces(s, p + |Label|) == colon < |s| && s[colon] == ':'
    requires SkipSpaces(s, colon + 1) == start
    ensures start < DigitRun(s, start) ==> MatchAt(s, p) == Some(s[start..DigitRun(s, start)])
  {
  }

  /** A greedy capture at `i` ends where DigitRun says. */
  lemma DigitRunUnique(s: string, i: nat, d: string)
    requires GreedyCapture(s, i, d)
    ensures DigitRun(s, i) == i + |d|
  {
    var end := DigitRun(s, i);
    assert forall k :: i <= k < i + |d| ==> IsDigit(s[k]) by {
      forall k | i <= k < i + |d| ensures IsDigit(s[k]) {
        assert s[k] == d[k - i];
      }
    }
  }

  /** The fixed-start matcher and the declarative pattern agree on every text and position. */
  lemma MatchAtIffRegex(s: string, p: nat, d: string)
    ensures MatchAt(s, p) == Some(d) <==> RegexMatch(s, p, d)
  {
    if MatchAt(s, p) == Some(d) {
      MatchAtSound(s, p);
    }
    if RegexMatch(s, p, d) {
      MatchAtComplete(s, p, d);
    }
  }

  // ---------------------------------------------------------------------
  // Reading the captured digits
  // ---------------------------------------------------------------------

  /** `int(str(n)) == n`. */
  lemma {:induction false} DecimalRoundTrip(n: nat)
    ensures DigitsValue(DecimalString(n)) == n
  {
    var d := DecimalString(n);
    if n >= 10 {
      DecimalRoundTrip(n / 10);
      assert d[..|d| - 1] == DecimalString(n / 10);
    }
  }

  /**
   `str(int(d)) == d` for a digit run without a leading zero (the single
   digit `0` included): together with DecimalRoundTrip, reading and rendering
   are inverse on canonical decimal strings.
   */
  lemma {:induction false} CanonicalRoundTrip(d: string)
    requires |d| >= 1 && AllDigits(d) && (d[0] != '0' || |d| == 1)
    ensures DecimalString(DigitsValue(d)) == d
  {
    var v := DigitsValue(d);
    var last := d[|d| - 1];
    if |d| == 1 {
      assert v == DigitValue(last);
    } else {
      var init := d[..|d| - 1];
      assert init[0] == d[0];
      LeadingDigitBound(init);
      CanonicalRoundTrip(init);
      assert v == 10 * DigitsValue(init) + DigitValue(last);
      assert v / 10 == DigitsValue(init) && v % 10 == DigitValue(last);
      assert d == init + [last];
    }
  }

  /** A digit run without a leading zero is worth at least 10^(length-1). */
  lemma {:induction false} LeadingDigitBound(d: string)
    requires |d| >= 1 && AllDigits(d) && d[0] != '0'
    ensures DigitsValue(d) >= Pow10(|d| - 1)
  {
    if |d| > 1 {
      var init := d[..|d| - 1];
      assert init[0] == d[0];
      LeadingDigitBound(init);
    }
  }

  /** Leading zeros do not change the value read: `int("008") == 8`. */
  lemma {:induction false} LeadingZerosIgnored(z: string, d: string)
    requires forall i :: 0 <= i < |z| ==> z[i] == '0'
    requires AllDigits(d)
    ensures AllDigits(z + d)
    ensures DigitsValue(z + d) == DigitsValue(d)
  {
    var zd := z + d;
    assert AllDigits(zd) by {
      forall i | 0 <= i < |zd| ensures IsDigit(zd[i]) {
        if i < |z| { assert zd[i] == z[i]; } else { assert zd[i] == d[i - |z|]; }
      }
    }
    if d == [] {
      assert zd == z;
      AllZerosWorthZero(z);
    } else {
      assert zd[..|zd| - 1] == z + d[..|d| - 1];
      LeadingZerosIgnored(z, d[..|d| - 1]);
    }
  }

  lemma {:induction false} AllZerosWorthZero(z: string)
    requires forall i :: 0 <= i < |z| ==> z[i] == '0'
    ensures AllDigits(z)
    ensures DigitsValue(z) == 0
  {
    if z != [] {
      AllZerosWorthZero(z[..|z| - 1]);
    }
  }

  // ---------------------------------------------------------------------
  // What the parser returns
  // ---------------------------------------------------------------------

  /** A text in which the pattern matches nowhere scores 0. */
  lemma NoMatchScoresZero(s: string)
    requires forall p: nat, d :: !RegexMatch(s, p, d)
    ensures ExtractAtsScore(s) == 0
  {
    var r := Search(s, 0);
    if r.Some? {
      MatchAtSound(s, r.value.pos);
    }
  }

  /** The leftmost match of the pattern, and only it, decides the score. */
  lemma LeftmostMatchDecides(s: string, p: nat, d: string)
    requires RegexMatch(s, p, d)
    requires forall q: nat, e :: q < p ==> !RegexMatch(s, q, e)
    ensures AllDigits(d)
    ensures ExtractAtsScore(s) == Min(DigitsValue(d), MaxScore)
  {
    MatchAtComplete(s, p, d);
    var r := Search(s, 0);
    assert r.Some?;
    if r.value.pos < p {
      MatchAtSound(s, r.value.pos);
      assert false;
    }
    assert r.value == Match(p, d);
  }

  /**
   A text whose first labelled score is the number `n` written in decimal,
   after any whitespace around the colon, scores `min(n, 100)`. Only three
   digits are captured, but a longer number already reads as 100 or more
   from its first three digits, so the cap hides the truncation.
   */
  lemma LabelledScore(pre: string, w1: string, w2: string, n: nat, rest: string)
    requires AllSpaces(w1) && AllSpaces(w2)
    requires rest == [] || !IsDigit(rest[0])
    requires forall q: nat, e :: q < |pre| ==> !RegexMatch(pre + Head(w1, w2) + DecimalString(n) + rest, q, e)
    ensures ExtractAtsScore(pre + Head(w1, w2) + DecimalString(n) + rest) == Min(n, MaxScore)
  {
    var d := CapturedPrefix(n);
    var s := pre + Head(w1, w2) + DecimalString(n) + rest;
    LabelledMatch(pre, w1, w2, n, rest);
    assert MatchesWith(s, |pre|, d, w1, w2);
    LeftmostMatchDecides(s, |pre|, d);
  }

  /** The part of `str(n)` that `\d{1,3}` captures: its first three digits at most. */
  function CapturedPrefix(n: nat): (d: string)
    ensures 1 <= |d| <= MaxDigits && AllDigits(d)
    ensures Min(DigitsValue(d), MaxScore) == Min(n, MaxScore)
  {
    var digits := DecimalString(n);
    DecimalRoundTrip(n);
    if |digits| <= MaxDigits then digits
    else
      var d := digits[..MaxDigits];
      assert d[0] == digits[0];
      LeadingDigitBound(d);
      LeadingDigitBound(digits);
      PowMonotone(2, |digits| - 1);
      d
  }

  /** The labelled number matches at the end of `pre`, capturing CapturedPrefix(n). */
  lemma LabelledMatch(pre: string, w1: string, w2: string, n: nat, rest: string)
    requires AllSpaces(w1) && AllSpaces(w2)
    requires rest == [] || !IsDigit(rest[0])
    ensures MatchesWith(pre + Head(w1, w2) + DecimalString(n) + rest, |pre|, CapturedPrefix(n), w1, w2)
  {
    var h := Head(w1, w2);
    var digits := DecimalString(n);
    var s := pre + h + digits + rest;
    var p := |pre|;
    var start := p + |h|;
    var d := CapturedPrefix(n);
    assert d == digits[..|d|];
    assert s[p..start] == h;
    assert s[start..start + |digits|] == digits;
    assert s[start..start + |d|] == d;
    if |d| == |digits| && start + |d| < |s| {
      assert s[start + |d|] == rest[0];
    }
  }

  lemma {:induction false} PowMonotone(a: nat, b: nat)
    requires a <= b
    ensures Pow10(a) <= Pow10(b)
  {
    if a < b {
      PowMonotone(a, b - 1);
    }
  }

  /** The pattern cannot start where the text does not read a capital `A`: the label is case-sensitive. */
  lemma NoMatchWithoutLabelStart(s: string, q: nat, e: string)
    requires q >= |s| || s[q] != 'A'
    ensures !RegexMatch(s, q, e)
  {
    if RegexMatch(s, q, e) {
      MatchAtComplete(s, q, e);
    }
  }
}
