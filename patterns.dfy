/** The regular expressions of the entry-summary parser, written out as
    character-level matchers with JavaScript's matching rules: leftmost
    match for `match` and `test`, and a non-overlapping left-to-right scan
    for a global `matchAll`. */
module Patterns {
  import opened Text

  /** One position of a fixed-length pattern. */
  datatype CharClass = Digit | UpperOrDigit | Upper | Literal(c: char)

  predicate InClass(k: CharClass, c: char) {
    match k
    case Digit => IsDigit(c)
    case UpperOrDigit => IsUpperOrDigit(c)
    case Upper => IsUpper(c)
    case Literal(l) => c == l
  }

  /** A pattern of fixed length: one character class per position. */
  type Pattern = seq<CharClass>

  predicate MatchesAt(s: string, p: nat, pat: Pattern) {
    p + |pat| <= |s| && forall k :: 0 <= k < |pat| ==> InClass(pat[k], s[p + k])
  }

  /** `[A-Z0-9]{3}-\d{7}-\d`: an entry number. */
  const EntryNumberPattern: Pattern :=
    [UpperOrDigit, UpperOrDigit, UpperOrDigit, Literal('-'),
     Digit, Digit, Digit, Digit, Digit, Digit, Digit, Literal('-'), Digit]

  /** `\d{2}\/\d{2}\/\d{4}`: a MM/DD/YYYY date. */
  const DatePattern: Pattern :=
    [Digit, Digit, Literal('/'), Digit, Digit, Literal('/'), Digit, Digit, Digit, Digit]

  /** `\d{2}([A-Z]{2})\d{2}\/\d{2}\/\d{4}`: transport mode, country, date. */
  const CountryPattern: Pattern :=
    [Digit, Digit, Upper, Upper] + DatePattern

  /** `99\d{2}\.\d{2}\.\d{2}`: an 8-digit Chapter 99 code, the first
      alternative of `HTS_LINE_REGEX`. */
  const Chapter99Pattern: Pattern :=
    [Literal('9'), Literal('9'), Digit, Digit, Literal('.'), Digit, Digit, Literal('.'), Digit, Digit]

  /** `\d{4}\.\d{2}\.\d{4}`: a 10-digit product code, the second alternative. */
  const ProductCodePattern: Pattern :=
    [Digit, Digit, Digit, Digit, Literal('.'), Digit, Digit, Literal('.'), Digit, Digit, Digit, Digit]

  /** The body of `IEEPA_HTS_PATTERN` (`^9903\.01\.\d{2}$`). */
  const IeepaHtsPattern: Pattern :=
    [Literal('9'), Literal('9'), Literal('0'), Literal('3'), Literal('.'),
     Literal('0'), Literal('1'), Literal('.'), Digit, Digit]

  /** The leftmost position at or after `from` where `pat` matches. */
  function FirstMatch(s: string, pat: Pattern, from: nat): (r: Option<nat>)
    ensures r.Some? ==> from <= r.value && MatchesAt(s, r.value, pat)
    ensures forall q :: from <= q && (r.None? || q < r.value) ==> !MatchesAt(s, q, pat)
    decreases |s| - from
  {
    if from + |pat| > |s| then None
    else if MatchesAt(s, from, pat) then Some(from)
    else FirstMatch(s, pat, from + 1)
  }

  /** The start positions of a global scan for `pat` from `from`: after a
      match the scan resumes at its end, so matches never overlap. */
  function ScanAll(s: string, pat: Pattern, from: nat): (r: seq<nat>)
    requires |pat| > 0
    ensures forall k :: 0 <= k < |r| ==> from <= r[k] && MatchesAt(s, r[k], pat)
    ensures forall k :: 0 <= k < |r| - 1 ==> r[k] + |pat| <= r[k + 1]
    decreases |s| - from
  {
    if from + |pat| > |s| then []
    else if MatchesAt(s, from, pat) then [from] + ScanAll(s, pat, from + |pat|)
    else ScanAll(s, pat, from + 1)
  }

  /** The scan starts with the leftmost match and is empty exactly when
      nothing matches. */
  lemma {:induction false} ScanAllStartsAtFirstMatch(s: string, pat: Pattern, from: nat)
    requires |pat| > 0
    ensures ScanAll(s, pat, from) == [] <==> FirstMatch(s, pat, from).None?
    ensures ScanAll(s, pat, from) != [] ==> FirstMatch(s, pat, from) == Some(ScanAll(s, pat, from)[0])
    decreases |s| - from
  {
    if from + |pat| <= |s| && !MatchesAt(s, from, pat) {
      ScanAllStartsAtFirstMatch(s, pat, from + 1);
    }
  }

  /** No match starts after the end of the scan's last match. */
  lemma {:induction false} ScanAllMissesNothingAfterLast(s: string, pat: Pattern, from: nat)
    requires |pat| > 0
    ensures var r := ScanAll(s, pat, from);
            r != [] ==> forall q :: r[|r| - 1] + |pat| <= q ==> !MatchesAt(s, q, pat)
    decreases |s| - from
  {
    if from + |pat| <= |s| {
      if MatchesAt(s, from, pat) {
        var next := from + |pat|;
        var rest := ScanAll(s, pat, next);
        assert ScanAll(s, pat, from) == [from] + rest;
        if rest == [] {
          ScanAllStartsAtFirstMatch(s, pat, next);
          assert FirstMatch(s, pat, next).None?;
        } else {
          ScanAllMissesNothingAfterLast(s, pat, next);
          assert ([from] + rest)[|rest|] == rest[|rest| - 1];
        }
      } else {
        assert ScanAll(s, pat, from) == ScanAll(s, pat, from + 1);
        ScanAllMissesNothingAfterLast(s, pat, from + 1);
      }
    }
  }

  /** No match of `pat` starts in `[lo, hi)`. */
  predicate NoMatchBetween(s: string, pat: Pattern, lo: nat, hi: nat) {
    forall q :: lo <= q < hi ==> !MatchesAt(s, q, pat)
  }

  /** No match starts between the end of one match in `r` and the start
      of the next. */
  predicate NoMatchInGaps(s: string, pat: Pattern, r: seq<nat>) {
    forall k :: 0 <= k < |r| - 1 ==> NoMatchBetween(s, pat, r[k] + |pat|, r[k + 1])
  }

  /** Putting a match before matches whose gaps hold none keeps the gaps
      empty when none starts between it and the first of them. */
  lemma NoMatchInGapsCons(s: string, pat: Pattern, p: nat, rest: seq<nat>)
    requires NoMatchInGaps(s, pat, rest)
    requires rest != [] ==> NoMatchBetween(s, pat, p + |pat|, rest[0])
    ensures NoMatchInGaps(s, pat, [p] + rest)
  {
    var r := [p] + rest;
    forall k | 0 <= k < |r| - 1
      ensures NoMatchBetween(s, pat, r[k] + |pat|, r[k + 1])
    {
      if k > 0 {
        assert r[k] == rest[k - 1] && r[k + 1] == rest[k];
      }
    }
  }

  /** No match starts between `from` and the scan's first match. */
  lemma {:induction false} ScanAllFirstIsLeftmost(s: string, pat: Pattern, from: nat)
    requires |pat| > 0
    ensures ScanAll(s, pat, from) != [] ==> NoMatchBetween(s, pat, from, ScanAll(s, pat, from)[0])
    decreases |s| - from
  {
    if from + |pat| <= |s| && !MatchesAt(s, from, pat) {
      assert ScanAll(s, pat, from) == ScanAll(s, pat, from + 1);
      ScanAllFirstIsLeftmost(s, pat, from + 1);
    }
  }

  /** The scan skips no match between two of its own: none starts between
      the end of one match and the start of the next. With `ScanAll`'s own
      ensures, `ScanAllFirstIsLeftmost` and `ScanAllMissesNothingAfterLast`
      this makes the scan exactly the matches a global regex scan finds. */
  lemma {:induction false} ScanAllSkipsNothing(s: string, pat: Pattern, from: nat)
    requires |pat| > 0
    ensures NoMatchInGaps(s, pat, ScanAll(s, pat, from))
    decreases |s| - from
  {
    if from + |pat| <= |s| {
      var r := ScanAll(s, pat, from);
      if MatchesAt(s, from, pat) {
        var next := from + |pat|;
        var rest := ScanAll(s, pat, next);
        ScanAllSkipsNothing(s, pat, next);
        ScanAllFirstIsLeftmost(s, pat, next);
        assert r == [from] + rest;
        NoMatchInGapsCons(s, pat, from, rest);
      } else {
        assert r == ScanAll(s, pat, from + 1);
        ScanAllSkipsNothing(s, pat, from + 1);
      }
    }
  }

  // ---------------------------------------------------------------------
  // HTS codes

  /** The leading token `HTS_LINE_REGEX` finds on a line: the Chapter 99
      alternative is tried first. */
  function HtsLineMatch(line: string): (r: Option<string>)
    ensures r.Some? ==> IsHtsCode(r.value) && StartsWith(line, r.value)
    ensures r.None? <==> !MatchesAt(line, 0, Chapter99Pattern) && !MatchesAt(line, 0, ProductCodePattern)
    ensures MatchesAt(line, 0, Chapter99Pattern) ==> r == Some(line[..|Chapter99Pattern|])
    ensures !MatchesAt(line, 0, Chapter99Pattern) && MatchesAt(line, 0, ProductCodePattern) ==>
              r == Some(line[..|ProductCodePattern|])
  {
    if MatchesAt(line, 0, Chapter99Pattern) then Some(line[..10])
    else if MatchesAt(line, 0, ProductCodePattern) then Some(line[..12])
    else None
  }

  /** "9903.88.0312" run into its amount matches both alternatives; the
      Chapter 99 one is tried first, so the code is "9903.88.03". */
  lemma HtsLinePrefersChapter99()
    ensures MatchesAt("9903.88.0312 1,000.00", 0, ProductCodePattern)
    ensures HtsLineMatch("9903.88.0312 1,000.00") == Some("9903.88.03")
  {
    assert MatchesAt("9903.88.0312 1,000.00", 0, Chapter99Pattern);
    assert "9903.88.0312 1,000.00"[..10] == "9903.88.03";
  }

  /** An 8-digit Chapter 99 code or a 10-digit product code. */
  predicate IsHtsCode(code: string) {
    (|code| == 10 && MatchesAt(code, 0, Chapter99Pattern))
    || (|code| == 12 && MatchesAt(code, 0, ProductCodePattern))
  }

  /** `IEEPA_HTS_PATTERN.test(code)`. */
  predicate IsIeepaCode(code: string) {
    |code| == 10 && MatchesAt(code, 0, IeepaHtsPattern)
  }

  /** `/^(499|501)\s/`: a merchandise-processing-fee line. */
  predicate IsFeeLine(line: string) {
    |line| >= 4 && (line[..3] == "499" || line[..3] == "501") && IsSpace(line[3])
  }

  /** A fee line never starts with an HTS code, so the fee-line test after
      the HTS match can never reject a line. */
  lemma FeeLineIsNeverHtsLine(line: string)
    requires IsFeeLine(line)
    ensures HtsLineMatch(line).None?
  {
    assert !InClass(Chapter99Pattern[3], line[3]);
    assert !InClass(ProductCodePattern[3], line[3]);
  }

  /** Every IEEPA-family code is an 8-digit Chapter 99 HTS code, and every
      line that starts with one yields exactly that code. */
  lemma {:induction false} IeepaCodeIsChapter99(code: string, rest: string)
    requires IsIeepaCode(code)
    ensures IsHtsCode(code)
    ensures HtsLineMatch(code + rest) == Some(code)
  {
    forall k | 0 <= k < 10
      ensures InClass(Chapter99Pattern[k], code[k])
    {
      assert InClass(IeepaHtsPattern[k], code[k]);
    }
    assert MatchesAt(code, 0, Chapter99Pattern);
    var line := code + rest;
    forall k | 0 <= k < 10
      ensures InClass(Chapter99Pattern[k], line[k])
    {
      assert line[k] == code[k];
    }
    assert (code + rest)[..10] == code;
  }

  // ---------------------------------------------------------------------
  // Trailing amounts: LAST_AMOUNT_REGEX and the total-entered-value regex

  /** What may follow the amount up to the end of the text: `[^\d.]*` for
      `LAST_AMOUNT_REGEX`, `\s*` for the total entered value. */
  datatype Tail = NoDigitOrDot | Blank

  predicate InTail(t: Tail, c: char) {
    match t
    case NoDigitOrDot => !IsDigit(c) && c != '.'
    case Blank => IsSpace(c)
  }

  /** `[\d,]+\.\d{2}` matching a whole token. */
  predicate IsAmountToken(t: string) {
    |t| >= 4
    && (forall k :: 0 <= k < |t| - 3 ==> IsDigitOrComma(t[k]))
    && t[|t| - 3] == '.' && IsDigit(t[|t| - 2]) && IsDigit(t[|t| - 1])
  }

  /** The regular expression matches `s[p..e]`: an amount token followed
      by tail characters only, up to the end of `s`. */
  predicate AmountMatch(s: string, p: nat, e: nat, tail: Tail) {
    p <= e <= |s| && IsAmountToken(s[p..e]) && forall k :: e <= k < |s| ==> InTail(tail, s[k])
  }

  /** The start of the longest run of tail characters that ends at `upto`. */
  function TailStart(s: string, tail: Tail, upto: nat): (e: nat)
    requires upto <= |s|
    ensures e <= upto
    ensures forall k :: e <= k < upto ==> InTail(tail, s[k])
    ensures e == 0 || !InTail(tail, s[e - 1])
  {
    if upto > 0 && InTail(tail, s[upto - 1]) then TailStart(s, tail, upto - 1) else upto
  }

  /** The start of the longest run of `[\d,]` characters that ends at `upto`. */
  function RunStart(s: string, upto: nat): (p: nat)
    requires upto <= |s|
    ensures p <= upto
    ensures forall k :: p <= k < upto ==> IsDigitOrComma(s[k])
    ensures p == 0 || !IsDigitOrComma(s[p - 1])
  {
    if upto > 0 && IsDigitOrComma(s[upto - 1]) then RunStart(s, upto - 1) else upto
  }

  /** The span of the amount the regular expression matches, found from
      the right: the tail is forced, and the digits and commas before the
      decimal point run as far left as they go. */
  function TrailingAmountSpan(s: string, tail: Tail): (r: Option<(nat, nat)>)
    ensures r.Some? ==> r.value.0 <= r.value.1 <= |s|
  {
    var e := TailStart(s, tail, |s|);
    if e >= 4 && IsDigit(s[e - 1]) && IsDigit(s[e - 2]) && s[e - 3] == '.' && IsDigitOrComma(s[e - 4])
    then Some((RunStart(s, e - 3), e))
    else None
  }

  /** The amount token `match` returns, if any. */
  function TrailingAmount(s: string, tail: Tail): (r: Option<string>)
    ensures r.Some? ==> IsAmountToken(r.value)
  {
    match TrailingAmountSpan(s, tail)
    case Some((p, e)) => (TrailingAmountSpanMatches(s, tail); Some(s[p..e]))
    case None => None
  }

  /** Any match of the regular expression ends where the tail starts, and
      its digits and commas reach back to its start. */
  lemma AmountMatchEndsAtTail(s: string, tail: Tail, p: nat, e: nat)
    requires AmountMatch(s, p, e, tail)
    ensures e == TailStart(s, tail, |s|)
    ensures e >= 4 && IsDigit(s[e - 1]) && IsDigit(s[e - 2]) && s[e - 3] == '.' && IsDigitOrComma(s[e - 4])
    ensures forall k :: p <= k < e - 3 ==> IsDigitOrComma(s[k])
  {
    var start := TailStart(s, tail, |s|);
    var t := s[p..e];
    assert t[|t| - 1] == s[e - 1];
    assert !InTail(tail, s[e - 1]);
    forall k | p <= k < e - 3
      ensures IsDigitOrComma(s[k])
    {
      assert s[k] == t[k - p];
    }
    assert t[|t| - 2] == s[e - 2] && t[|t| - 3] == s[e - 3] && t[|t| - 4] == s[e - 4];
  }

  lemma TrailingAmountSpanMatches(s: string, tail: Tail)
    requires TrailingAmountSpan(s, tail).Some?
    ensures AmountMatch(s, TrailingAmountSpan(s, tail).value.0, TrailingAmountSpan(s, tail).value.1, tail)
  {
    var e := TailStart(s, tail, |s|);
    var p := RunStart(s, e - 3);
    var t := s[p..e];
    assert t[|t| - 1] == s[e - 1] && t[|t| - 2] == s[e - 2] && t[|t| - 3] == s[e - 3];
    forall k | 0 <= k < |t| - 3
      ensures IsDigitOrComma(t[k])
    {
      assert t[k] == s[p + k];
    }
  }

  /** The span found from the right is exactly the leftmost match of the
      regular expression, and there is no match when it finds none. */
  lemma TrailingAmountIsLeftmostMatch(s: string, tail: Tail)
    ensures TrailingAmountSpan(s, tail).Some? ==>
              var (p, e) := TrailingAmountSpan(s, tail).value;
              AmountMatch(s, p, e, tail)
              && (forall p': nat, e': nat :: p' < p ==> !AmountMatch(s, p', e', tail))
              && (forall e': nat :: AmountMatch(s, p, e', tail) ==> e' == e)
    ensures TrailingAmountSpan(s, tail).None? ==> forall p: nat, e: nat :: !AmountMatch(s, p, e, tail)
  {
    forall p: nat, e: nat | AmountMatch(s, p, e, tail)
      ensures TrailingAmountSpan(s, tail).Some?
      ensures e == TrailingAmountSpan(s, tail).value.1
      ensures TrailingAmountSpan(s, tail).value.0 <= p
    {
      AmountMatchEndsAtTail(s, tail, p, e);
      var q := RunStart(s, e - 3);
    }
    if TrailingAmountSpan(s, tail).Some? {
      TrailingAmountSpanMatches(s, tail);
    }
  }

  /** A duty or entered amount in cents: `parseFloat` of the token with
      its commas removed, times one hundred. An empty integer part reads
      as zero, as `parseFloat(".45")` does. */
  function AmountCents(token: string): nat
    requires IsAmountToken(token)
  {
    var n := |token|;
    DigitsValue(RemoveCommas(token[..n - 3])) * 100 + DigitsValue(token[n - 2..])
  }

  /** The cents are the number spelled by all digits of the token: the
      commas and the decimal point carry no value. */
  lemma CentsAreTheDigits(token: string)
    requires IsAmountToken(token)
    ensures AmountCents(token) == DigitsValue(OnlyDigits(token))
  {
    var n := |token|;
    var whole, cents := token[..n - 3], token[n - 2..];
    AmountDigits(token);
    DigitsValueAppend(RemoveCommas(whole), cents);
    assert |cents| == 2;
    assert Pow10(2) == 100 by {
      assert Pow10(1) == 10;
    }
  }

  /** The digits of an amount token: the integer part without its commas,
      then the two decimals. */
  lemma AmountDigits(token: string)
    requires IsAmountToken(token)
    ensures OnlyDigits(token) == RemoveCommas(token[..|token| - 3]) + token[|token| - 2..]
  {
    var n := |token|;
    assert token == token[..n - 3] + token[n - 3..];
    OnlyDigitsAppend(token[..n - 3], token[n - 3..]);
    WholePartDigits(token);
    DecimalPartDigits(token);
  }

  lemma WholePartDigits(token: string)
    requires IsAmountToken(token)
    ensures OnlyDigits(token[..|token| - 3]) == RemoveCommas(token[..|token| - 3])
  {
    var whole := token[..|token| - 3];
    forall k | 0 <= k < |whole|
      ensures IsDigitOrComma(whole[k])
    {
      assert whole[k] == token[k];
    }
    OnlyDigitsOfDigitsAndCommas(whole);
  }

  lemma DecimalPartDigits(token: string)
    requires IsAmountToken(token)
    ensures OnlyDigits(token[|token| - 3..]) == token[|token| - 2..]
  {
    var n := |token|;
    var tail, cents := token[n - 3..], token[n - 2..];
    assert tail[0] == '.' && tail[1..] == cents;
    assert cents[0] == token[n - 2] && cents[1] == token[n - 1];
    OnlyDigitsOfDigits(cents);
  }

  // ---------------------------------------------------------------------
  // Rates: RATE_REGEX = /(\d+(?:\.\d+)?%|Free)/g

  predicate AllDigits(s: string) {
    forall k :: 0 <= k < |s| ==> IsDigit(s[k])
  }

  /** A token `RATE_REGEX` matches: `Free`, `\d+%` or `\d+\.\d+%`. */
  predicate IsRateToken(t: string) {
    t == "Free"
    || (|t| >= 2 && t[|t| - 1] == '%' && AllDigits(t[..|t| - 1]))
    || (exists j | 0 < j < |t| - 2 :: t[j] == '.' && AllDigits(t[..j]) && AllDigits(t[j + 1..|t| - 1]) && t[|t| - 1] == '%')
  }

  /** Where a match of `RATE_REGEX` that starts at `i` ends, if one does.
      Digits are tried first; once they fail, `Free` cannot start there. */
  function RateMatchAt(s: string, i: nat): (r: Option<nat>)
    requires i <= |s|
    ensures r.Some? ==> i < r.value <= |s|
  {
    if i < |s| && IsDigit(s[i]) then
      var j := DigitRunEnd(s, i);
      if j + 1 < |s| && s[j] == '.' && IsDigit(s[j + 1]) then
        var k := DigitRunEnd(s, j + 1);
        if k < |s| && s[k] == '%' then Some(k + 1) else None
      else if j < |s| && s[j] == '%' then Some(j + 1)
      else None
    else if i + 4 <= |s| && s[i..i + 4] == "Free" then Some(i + 4)
    else None
  }

  /** A match starts at `i` and ends at `e` exactly when `s[i..e]` is a
      rate token: the matcher misses no match and invents none. */
  lemma RateMatchAtIsRateToken(s: string, i: nat, e: nat)
    requires i <= e <= |s|
    ensures RateMatchAt(s, i) == Some(e) <==> IsRateToken(s[i..e])
  {
    if RateMatchAt(s, i) == Some(e) {
      RateMatchIsToken(s, i, e);
    }
    if IsRateToken(s[i..e]) {
      var t := s[i..e];
      if t == "Free" {
        assert s[i] == t[0] == 'F';
      } else if |t| >= 2 && t[|t| - 1] == '%' && AllDigits(t[..|t| - 1]) {
        PercentTokenMatches(s, i, e);
      } else {
        var m :| 0 < m < |t| - 2 && t[m] == '.' && AllDigits(t[..m]) && AllDigits(t[m + 1..|t| - 1]) && t[|t| - 1] == '%';
        DecimalPercentTokenMatches(s, i, e, m);
      }
    }
  }

  /** Digits from `i` to `j`, a point, digits up to `k` and a percent
      sign form a decimal rate token. */
  lemma DecimalMatchIsToken(s: string, i: nat, j: nat, k: nat)
    requires i < j < k < |s|
    requires AllDigits(s[i..j]) && s[j] == '.' && s[k] == '%'
    requires forall x :: j + 1 <= x < k ==> IsDigit(s[x])
    requires j + 1 < k
    ensures IsRateToken(s[i..k + 1])
  {
    var t := s[i..k + 1];
    var m := j - i;
    DigitsSlice(s, j + 1, k);
    SliceOfSlice(s, i, k + 1, 0, m);
    SliceOfSlice(s, i, k + 1, m + 1, |t| - 1);
    assert t[m] == '.' && t[|t| - 1] == '%';
    DecimalRateToken(t, m);
  }

  lemma RateMatchIsToken(s: string, i: nat, e: nat)
    requires i <= e <= |s|
    requires RateMatchAt(s, i) == Some(e)
    ensures IsRateToken(s[i..e])
  {
    var t := s[i..e];
    if i < |s| && IsDigit(s[i]) {
      var j := DigitRunEnd(s, i);
      DigitsSlice(s, i, j);
      if j + 1 < |s| && s[j] == '.' && IsDigit(s[j + 1]) {
        var k := DigitRunEnd(s, j + 1);
        assert e == k + 1 && s[k] == '%';
        DecimalMatchIsToken(s, i, j, k);
      } else {
        SliceOfSlice(s, i, e, 0, |t| - 1);
      }
    }
  }

  lemma SliceOfSlice(s: string, i: nat, e: nat, a: nat, b: nat)
    requires i <= e <= |s| && a <= b <= e - i
    ensures s[i..e][a..b] == s[i + a..i + b]
  {
    assert forall x :: 0 <= x < b - a ==> s[i..e][a..b][x] == s[i + a + x];
  }

  /** A token with a decimal point at `m` between digit runs, then `%`. */
  lemma DecimalRateToken(t: string, m: nat)
    requires 0 < m < |t| - 2 && t[m] == '.' && t[|t| - 1] == '%'
    requires AllDigits(t[..m]) && AllDigits(t[m + 1..|t| - 1])
    ensures IsRateToken(t)
  {
  }

  lemma PercentTokenMatches(s: string, i: nat, e: nat)
    requires i <= e <= |s|
    requires var t := s[i..e]; |t| >= 2 && t[|t| - 1] == '%' && AllDigits(t[..|t| - 1])
    ensures RateMatchAt(s, i) == Some(e)
  {
    var t := s[i..e];
    assert IsDigit(t[..|t| - 1][0]);
    assert t[..|t| - 1] == s[i..e - 1];
    DigitRunCovers(s, i, e - 1);
  }

  lemma DecimalPercentTokenMatches(s: string, i: nat, e: nat, m: nat)
    requires i <= e <= |s|
    requires var t := s[i..e];
      0 < m < |t| - 2 && t[m] == '.' && AllDigits(t[..m]) && AllDigits(t[m + 1..|t| - 1]) && t[|t| - 1] == '%'
    ensures RateMatchAt(s, i) == Some(e)
  {
    var t := s[i..e];
    assert IsDigit(t[..m][0]);
    assert t[..m] == s[i..i + m];
    DigitRunCovers(s, i, i + m);
    assert |t| == e - i;
    assert IsDigit(t[m + 1..|t| - 1][0]);
    forall k | i + m + 1 <= k < e - 1
      ensures IsDigit(s[k])
    {
      var u := t[m + 1..|t| - 1];
      assert IsDigit(u[k - (i + m + 1)]);
      assert u[k - (i + m + 1)] == t[k - i] == s[k];
    }
    DigitsSlice(s, i + m + 1, e - 1);
    DigitRunCovers(s, i + m + 1, e - 1);
  }

  lemma DigitsSlice(s: string, a: nat, b: nat)
    requires a <= b <= |s|
    requires forall k :: a <= k < b ==> IsDigit(s[k])
    ensures AllDigits(s[a..b])
  {
    forall k | 0 <= k < b - a
      ensures IsDigit(s[a..b][k])
    {
      assert s[a..b][k] == s[a + k];
    }
  }

  /** A run of digits from `i` up to a non-digit at `j` is the whole run. */
  lemma DigitRunCovers(s: string, i: nat, j: nat)
    requires i <= j < |s|
    requires AllDigits(s[i..j]) && !IsDigit(s[j])
    ensures DigitRunEnd(s, i) == j
    decreases j - i
  {
    if i < j {
      assert IsDigit(s[i..j][0]);
      assert s[i + 1..j] == s[i..j][1..];
      DigitRunCovers(s, i + 1, j);
    }
  }

  // ---------------------------------------------------------------------
  // The filer-code label: /Filer\s*(?:Code|ID)\s*:?\s*([A-Z0-9]{3,4})/i

  /** The filer code the label pattern captures when it matches at `p`.
      Every part of the pattern is deterministic: each `\s*` must swallow
      all its whitespace, because the next part starts with a non-space. */
  function FilerLabelAt(s: string, p: nat): (r: Option<string>)
    requires p <= |s|
    ensures r.Some? ==> 3 <= |r.value| <= 4 && forall k :: 0 <= k < |r.value| ==> IsAsciiAlnum(r.value[k])
  {
    if !StartsWithIgnoreCase(s[p..], "FILER") then None
    else
      var a := SpacesFrom(s, p + 5);
      var b := if StartsWithIgnoreCase(s[a..], "CODE") then a + 4
               else if StartsWithIgnoreCase(s[a..], "ID") then a + 2
               else 0;
      if b == 0 then None
      else
        var c := SpacesFrom(s, b);
        var d := if c < |s| && s[c] == ':' then SpacesFrom(s, c + 1) else c;
        LabelCode(s, d)
  }

  /** `([A-Z0-9]{3,4})` under the `i` flag at `d`: four letters or digits
      when there are four, else three. */
  function LabelCode(s: string, d: nat): (r: Option<string>)
    requires d <= |s|
    ensures r.Some? ==> 3 <= |r.value| <= 4 && forall k :: 0 <= k < |r.value| ==> IsAsciiAlnum(r.value[k])
  {
    if d + 3 <= |s| && IsAsciiAlnum(s[d]) && IsAsciiAlnum(s[d + 1]) && IsAsciiAlnum(s[d + 2]) then
      if d + 4 <= |s| && IsAsciiAlnum(s[d + 3]) then Some([s[d], s[d + 1], s[d + 2], s[d + 3]])
      else Some([s[d], s[d + 1], s[d + 2]])
    else None
  }

  /** The capture of the leftmost match of the label pattern from `p`. */
  function FirstFilerLabel(s: string, p: nat): (r: Option<string>)
    requires p <= |s|
    ensures r.Some? ==> 3 <= |r.value| <= 4 && forall k :: 0 <= k < |r.value| ==> IsAsciiAlnum(r.value[k])
    decreases |s| - p
  {
    var here := FilerLabelAt(s, p);
    if here.Some? then here
    else if p == |s| then None
    else FirstFilerLabel(s, p + 1)
  }

  /** What the label pattern captures at each position of `s`. */
  function FilerLabels(s: string): (xs: seq<Option<string>>)
    ensures |xs| == |s| + 1
    ensures forall q :: 0 <= q <= |s| ==> xs[q] == FilerLabelAt(s, q)
  {
    seq(|s| + 1, q requires 0 <= q <= |s| => FilerLabelAt(s, q))
  }

  /** The search from `p` finds the first capture at or after `p`. */
  lemma {:induction false} FirstFilerLabelIsFirstSome(s: string, p: nat)
    requires p <= |s|
    ensures FirstFilerLabel(s, p) == FirstSome(FilerLabels(s)[p..])
    decreases |s| - p
  {
    var xs := FilerLabels(s);
    assert xs[p..][0] == FilerLabelAt(s, p);
    if FilerLabelAt(s, p).None? {
      if p < |s| {
        FirstFilerLabelIsFirstSome(s, p + 1);
        assert xs[p..][1..] == xs[p + 1..];
      } else {
        assert xs[p..][1..] == [];
      }
    }
  }

  /** The capture comes from the leftmost position where the label
      matches, and there is none when it matches nowhere. */
  lemma FirstFilerLabelIsLeftmost(s: string)
    ensures FirstFilerLabel(s, 0).Some? ==>
              exists q | 0 <= q <= |s| ::
                FilerLabelAt(s, q) == FirstFilerLabel(s, 0) && forall q' :: 0 <= q' < q ==> FilerLabelAt(s, q').None?
    ensures FirstFilerLabel(s, 0).None? ==> forall q :: 0 <= q <= |s| ==> FilerLabelAt(s, q).None?
  {
    FirstFilerLabelIsFirstSome(s, 0);
    var xs := FilerLabels(s);
    assert xs[0..] == xs;
    FirstSomeIsFirstHit(xs);
  }
}
