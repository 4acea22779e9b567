/** The rate of a tariff line: the last `RATE_REGEX` token of the text
    after the HTS code, with the leading-zero artefact of a collapsed zero
    column removed. */
module Rates {
  import opened Text
  import opened Patterns

  /** The spans of a global `RATE_REGEX` scan from `i`, left to right. */
  function RateSpans(s: string, i: nat): (r: seq<(nat, nat)>)
    requires i <= |s|
    ensures forall k :: 0 <= k < |r| ==> i <= r[k].0 < r[k].1 <= |s| && IsRateToken(s[r[k].0..r[k].1])
    ensures forall k :: 0 <= k < |r| - 1 ==> r[k].1 <= r[k + 1].0
    decreases |s| - i
  {
    if i == |s| then []
    else match RateMatchAt(s, i)
      case Some(e) => (RateMatchAtIsRateToken(s, i, e); [(i, e)] + RateSpans(s, e))
      case None => RateSpans(s, i + 1)
  }

  /** The scan finds a token exactly when some token starts at or after
      `i`, and no token starts at or after the end of the last one found. */
  lemma {:induction false} RateSpansComplete(s: string, i: nat)
    requires i <= |s|
    ensures RateSpans(s, i) == [] <==> forall p: nat, e: nat :: i <= p <= e <= |s| ==> !IsRateToken(s[p..e])
    ensures RateSpans(s, i) != [] ==>
              forall p: nat, e: nat :: Last(RateSpans(s, i)).1 <= p <= e <= |s| ==> !IsRateToken(s[p..e])
    decreases |s| - i
  {
    if i < |s| {
      RateSpansComplete(s, i + 1);
      match RateMatchAt(s, i)
      case Some(e) =>
        RateSpansComplete(s, e);
        RateMatchAtIsRateToken(s, i, e);
        var rest := RateSpans(s, e);
        if rest != [] {
          assert Last(RateSpans(s, i)) == Last(rest);
        }
      case None =>
        forall e: nat | i <= e <= |s|
          ensures !IsRateToken(s[i..e])
        {
          RateMatchAtIsRateToken(s, i, e);
        }
    } else {
      forall p: nat, e: nat | i <= p <= e <= |s|
        ensures !IsRateToken(s[p..e])
      {
        assert s[p..e] == [];
      }
    }
  }

  /** The scan skips no token before its first span: none starts between
      `i` and the first span. */
  lemma {:induction false} RateSpansFirstIsLeftmost(s: string, i: nat)
    requires i <= |s|
    ensures RateSpans(s, i) != [] ==>
              forall p: nat, e: nat :: i <= p < RateSpans(s, i)[0].0 && p <= e <= |s| ==> !IsRateToken(s[p..e])
    decreases |s| - i
  {
    if i < |s| && RateMatchAt(s, i).None? {
      RateSpansFirstIsLeftmost(s, i + 1);
      forall e: nat | i <= e <= |s|
        ensures !IsRateToken(s[i..e])
      {
        RateMatchAtIsRateToken(s, i, e);
      }
    }
  }

  /** The scan skips no token between spans: none starts between the end
      of one span and the start of the next. With `RateSpans`' own ensures,
      `RateSpansFirstIsLeftmost` and `RateSpansComplete` this makes the
      spans exactly the matches of a global scan. */
  lemma {:induction false} RateSpansSkipNothing(s: string, i: nat)
    requires i <= |s|
    ensures forall k, p: nat, e: nat :: 0 <= k < |RateSpans(s, i)| - 1 && RateSpans(s, i)[k].1 <= p < RateSpans(s, i)[k + 1].0 && p <= e <= |s|
              ==> !IsRateToken(s[p..e])
    decreases |s| - i
  {
    if i < |s| {
      var spans := RateSpans(s, i);
      match RateMatchAt(s, i)
      case Some(e) =>
        RateSpansSkipNothing(s, e);
        RateSpansFirstIsLeftmost(s, e);
        var rest := RateSpans(s, e);
        assert spans == [(i, e)] + rest;
        forall k, p: nat, e': nat | 0 <= k < |spans| - 1 && spans[k].1 <= p < spans[k + 1].0 && p <= e' <= |s|
          ensures !IsRateToken(s[p..e'])
        {
          if k == 0 {
            assert spans[1] == rest[0];
          } else {
            assert spans[k] == rest[k - 1] && spans[k + 1] == rest[k];
          }
        }
      case None =>
        RateSpansSkipNothing(s, i + 1);
    }
  }

  function Last<T>(s: seq<T>): T
    requires s != []
  {
    s[|s| - 1]
  }

  /** `/^0\d+%$/`: a zero followed by at least one digit and a percent
      sign, and nothing else. */
  predicate HasLeadingZeroArtefact(t: string) {
    |t| >= 3 && t[0] == '0' && t[|t| - 1] == '%' && AllDigits(t[1..|t| - 1])
  }

  /** Every leading zero removed. */
  function StripLeadingZeros(t: string): (r: string)
    ensures |r| <= |t|
    ensures r == [] || r[0] != '0'
  {
    if t != [] && t[0] == '0' then StripLeadingZeros(t[1..]) else t
  }

  /** The clean-up step of `extractRate` as the source writes it. */
  function CleanRateAsWritten(t: string): string {
    if t != "Free" && HasLeadingZeroArtefact(t) then StripLeadingZeros(t) else t
  }

  /** The rate "00%" (a zero column run into a "0%" rate) loses every
      digit: the clean-up as written returns "%", which is not a rate. */
  lemma CleanRateAsWrittenLosesDigits()
    ensures CleanRateAsWritten("00%") == "%"
    ensures !IsRateToken("%")
  {
    assert HasLeadingZeroArtefact("00%") by {
      assert "00%"[1..2] == "0";
    }
    assert StripLeadingZeros("00%") == StripLeadingZeros("0%") by {
      assert "00%"[1..] == "0%";
    }
    assert StripLeadingZeros("0%") == StripLeadingZeros("%") by {
      assert "0%"[1..] == "%";
    }
  }

  /** `\d+%` as a whole token. */
  predicate IsDigitsPercent(t: string) {
    |t| >= 2 && t[|t| - 1] == '%' && AllDigits(t[..|t| - 1])
  }

  /** The end of the run of zeros from `i`, stopping before the last digit
      and the percent sign. */
  function ArtefactZerosEnd(t: string, i: nat): (j: nat)
    requires i <= |t| - 2
    ensures i <= j <= |t| - 2
    ensures forall k :: i <= k < j ==> t[k] == '0'
    ensures j == |t| - 2 || t[j] != '0'
    decreases |t| - i
  {
    if i < |t| - 2 && t[i] == '0' then ArtefactZerosEnd(t, i + 1) else i
  }

  /** Strips leading zeros but keeps the last digit before the percent sign. */
  function StripArtefactZeros(t: string): (r: string)
    requires IsDigitsPercent(t)
    ensures 2 <= |r| <= |t| && r == t[|t| - |r|..]
    ensures forall k :: 0 <= k < |t| - |r| ==> t[k] == '0'
    ensures r[0] != '0' || |r| == 2
  {
    t[ArtefactZerosEnd(t, 0)..]
  }

  /** The rate clean-up with the evidently intended meaning: "010%"
      becomes "10%" and "00%" becomes "0%"; everything else is kept. */
  function CleanRate(t: string): string {
    if t != "Free" && HasLeadingZeroArtefact(t) then
      ArtefactIsDigitsPercent(t);
      StripArtefactZeros(t)
    else t
  }

  lemma ArtefactIsDigitsPercent(t: string)
    requires HasLeadingZeroArtefact(t)
    ensures IsDigitsPercent(t)
  {
    forall k | 0 <= k < |t| - 1
      ensures IsDigit(t[k])
    {
      if k > 0 {
        assert t[k] == t[1..|t| - 1][k - 1];
      }
    }
    DigitsSlice(t, 0, |t| - 1);
  }

  /** The corrected clean-up keeps a rate a rate, keeps its value, leaves
      "Free" and every rate with a decimal point alone, and leaves no
      leading zero except in "0%". */
  lemma CleanRateKeepsTheRate(t: string)
    requires IsRateToken(t)
    ensures IsRateToken(CleanRate(t))
    ensures DigitsValue(OnlyDigits(CleanRate(t))) == DigitsValue(OnlyDigits(t))
    ensures t == "Free" || '.' in t ==> CleanRate(t) == t
    ensures HasLeadingZeroArtefact(t) ==> CleanRate(t)[0] != '0' || CleanRate(t) == "0%"
  {
    CleanRateIsRate(t);
    CleanRateKeepsValue(t);
    CleanRateKeepsFreeAndDecimals(t);
    CleanRateStripsArtefact(t);
  }

  lemma CleanRateIsRate(t: string)
    requires IsRateToken(t)
    ensures IsRateToken(CleanRate(t))
  {
    if t != "Free" && HasLeadingZeroArtefact(t) {
      var r := StripArtefactZeros(t);
      ArtefactSuffixIsPercent(t, |r|);
    }
  }

  lemma CleanRateKeepsValue(t: string)
    ensures DigitsValue(OnlyDigits(CleanRate(t))) == DigitsValue(OnlyDigits(t))
  {
    if t != "Free" && HasLeadingZeroArtefact(t) {
      var r := StripArtefactZeros(t);
      StrippedZerosKeepValue(t, |t| - |r|);
    }
  }

  lemma CleanRateKeepsFreeAndDecimals(t: string)
    ensures t == "Free" || '.' in t ==> CleanRate(t) == t
  {
    if '.' in t {
      NoPointInArtefact(t);
    }
  }

  lemma CleanRateStripsArtefact(t: string)
    ensures HasLeadingZeroArtefact(t) ==> CleanRate(t)[0] != '0' || CleanRate(t) == "0%"
  {
    if t != "Free" && HasLeadingZeroArtefact(t) {
      ArtefactIsDigitsPercent(t);
      StrippedShape(t);
    }
  }

  /** What stripping leaves starts with a non-zero digit, or is "0%". */
  lemma StrippedShape(t: string)
    requires IsDigitsPercent(t)
    ensures StripArtefactZeros(t)[0] != '0' || StripArtefactZeros(t) == "0%"
  {
    var r := StripArtefactZeros(t);
    if r[0] == '0' {
      assert |r| == 2;
      assert r[1] == t[|t| - 1] == '%';
      assert r == ['0', '%'];
    }
  }

  lemma NoPointInArtefact(t: string)
    requires '.' in t
    ensures !HasLeadingZeroArtefact(t)
  {
    if HasLeadingZeroArtefact(t) {
      ArtefactIsDigitsPercent(t);
      var k :| 0 <= k < |t| && t[k] == '.';
      assert false;
    }
  }

  /** A suffix of an artefact token that keeps a digit is `\d+%`. */
  lemma ArtefactSuffixIsPercent(t: string, n: nat)
    requires HasLeadingZeroArtefact(t) && 2 <= n <= |t|
    ensures IsRateToken(t[|t| - n..])
  {
    var r := t[|t| - n..];
    forall k | |t| - n <= k < |t| - 1
      ensures IsDigit(t[k])
    {
      if k > 0 {
        assert t[k] == t[1..|t| - 1][k - 1];
      }
    }
    DigitsSlice(t, |t| - n, |t| - 1);
    assert r[..|r| - 1] == t[|t| - n..|t| - 1];
  }

  /** Dropping `z` leading zeros keeps the value of the digits. */
  lemma {:induction false} StrippedZerosKeepValue(t: string, z: nat)
    requires z <= |t|
    requires forall k :: 0 <= k < z ==> t[k] == '0'
    ensures DigitsValue(OnlyDigits(t[z..])) == DigitsValue(OnlyDigits(t))
    decreases z
  {
    if z > 0 {
      StrippedZerosKeepValue(t, z - 1);
      var u := t[z - 1..];
      assert u == "0" + t[z..];
      OnlyDigitsAppend("0", t[z..]);
      assert OnlyDigits("0") == "0" by {
        assert "0"[1..] == [];
      }
      LeadingZeroValue(OnlyDigits(t[z..]));
    }
  }

  lemma {:induction false} LeadingZeroValue(s: string)
    ensures DigitsValue("0" + s) == DigitsValue(s)
  {
    DigitsValueAppend("0", s);
    assert DigitsValue("0") == 0 by {
      assert "0"[..0] == [];
    }
  }

  /** `extractRate`: the last token of the scan, cleaned, or none. It
      uses the corrected clean-up; `ExtractRateAsWritten` is the source's
      own, which differs only when the last token is "00%"-like. */
  function ExtractRate(text: string): (r: Option<string>)
  {
    var spans := RateSpans(text, 0);
    if spans == [] then None
    else
      var (p, e) := Last(spans);
      Some(CleanRate(text[p..e]))
  }

  /** `extractRate` with the clean-up exactly as written. */
  function ExtractRateAsWritten(text: string): (r: Option<string>)
  {
    var spans := RateSpans(text, 0);
    if spans == [] then None
    else
      var (p, e) := Last(spans);
      Some(CleanRateAsWritten(text[p..e]))
  }

  /** The rate is absent exactly when the text holds no rate token.
      When present it is the cleaned text of the last span of the global
      scan, a rate token after whose end no token starts. */
  lemma ExtractRateIsLastToken(text: string)
    ensures ExtractRate(text).None? <==> forall p: nat, e: nat :: p <= e <= |text| ==> !IsRateToken(text[p..e])
    ensures ExtractRate(text).Some? ==>
              RateSpans(text, 0) != []
              && var (p, e) := Last(RateSpans(text, 0));
                 IsRateToken(text[p..e]) && ExtractRate(text) == Some(CleanRate(text[p..e]))
                 && forall p': nat, e': nat :: e <= p' <= e' <= |text| ==> !IsRateToken(text[p'..e'])
  {
    RateSpansComplete(text, 0);
    var spans := RateSpans(text, 0);
    if spans != [] {
      var (p, e) := Last(spans);
      assert IsRateToken(text[p..e]);
    }
  }

  /** In "10%" the rate is the whole token, not the "0%" inside it: the
      scan's first match starts at the first digit. */
  lemma ExtractRateTakesWholeToken()
    ensures ExtractRate("10%") == Some("10%")
    ensures IsRateToken("10%"[1..3])
  {
    var s := "10%";
    assert DigitRunEnd(s, 2) == 2;
    assert DigitRunEnd(s, 0) == 2;
    assert RateMatchAt(s, 0) == Some(3);
    assert RateSpans(s, 3) == [];
    assert RateSpans(s, 0) == [(0, 3)];
    assert s[0..3] == s;
    assert !HasLeadingZeroArtefact(s);
    assert s[1..3] == "0%";
    assert "0%"[..1] == "0";
  }

  /** The source's clean-up and the corrected one differ only on a token
      made of zeros and a percent sign ("00%", "000%", ...). */
  lemma CleanRatesAgreeOffZeros(t: string)
    ensures CleanRateAsWritten(t) != CleanRate(t) ==>
              HasLeadingZeroArtefact(t) && forall k :: 0 <= k < |t| - 1 ==> t[k] == '0'
  {
    if t != "Free" && HasLeadingZeroArtefact(t) && exists k :: 0 <= k < |t| - 1 && t[k] != '0' {
      ArtefactIsDigitsPercent(t);
      StripsAgree(t, 0);
      assert t[0..] == t;
    }
  }

  /** With a non-zero digit left, both strips stop at the same place. */
  lemma {:induction false} StripsAgree(t: string, i: nat)
    requires IsDigitsPercent(t) && i <= |t| - 2
    requires exists k :: i <= k < |t| - 1 && t[k] != '0'
    ensures StripLeadingZeros(t[i..]) == t[ArtefactZerosEnd(t, i)..]
    decreases |t| - i
  {
    if t[i] == '0' {
      var k :| i <= k < |t| - 1 && t[k] != '0';
      assert i < k && i < |t| - 2;
      assert t[i..][1..] == t[i + 1..];
      StripsAgree(t, i + 1);
    }
  }

  /** `extractRate` as written and the model's differ only when the last
      token is zeros and a percent sign (see `ExtractRateOnZeroRate`). */
  lemma ExtractRateAsWrittenDiffersOnlyOnZeros(text: string)
    ensures ExtractRateAsWritten(text).None? <==> ExtractRate(text).None?
    ensures ExtractRateAsWritten(text) != ExtractRate(text) ==>
              var (p, e) := Last(RateSpans(text, 0));
              forall k :: p <= k < e - 1 ==> text[k] == '0'
  {
    var spans := RateSpans(text, 0);
    if spans != [] {
      var (p, e) := Last(spans);
      var t := text[p..e];
      CleanRatesAgreeOffZeros(t);
      if ExtractRateAsWritten(text) != ExtractRate(text) {
        forall k | p <= k < e - 1
          ensures text[k] == '0'
        {
          assert text[k] == t[k - p];
        }
      }
    }
  }

  /** On the rate "00%" the source's `extractRate` gives "%"; the model's
      gives "0%". */
  lemma ExtractRateOnZeroRate()
    ensures ExtractRateAsWritten("00%") == Some("%")
    ensures ExtractRate("00%") == Some("0%")
  {
    var s := "00%";
    assert DigitRunEnd(s, 2) == 2;
    assert DigitRunEnd(s, 0) == 2;
    assert RateMatchAt(s, 0) == Some(3);
    assert RateSpans(s, 3) == [];
    assert RateSpans(s, 0) == [(0, 3)];
    assert s[0..3] == s;
    CleanRateAsWrittenLosesDigits();
    assert HasLeadingZeroArtefact(s) by {
      assert s[1..2] == "0";
    }
    assert ArtefactZerosEnd(s, 0) == 1;
    assert StripArtefactZeros(s) == s[1..] == "0%";
  }

  /** A zero entered value run into a 10% rate, then the duty amount: the
      rate is "10%". */
  lemma ExtractRateExample()
    ensures ExtractRate("0.00 010%28,263.40") == Some("10%")
  {
    var s := "0.00 010%28,263.40";
    SampleSpans();
    SampleSlice();
    SampleClean();
    var spans := RateSpans(s, 0);
    assert Last(spans) == (5, 9);
  }

  lemma SampleSlice()
    ensures "0.00 010%28,263.40"[5..9] == "010%"
  {
  }

  /** The sample's only rate token is "010%". */
  lemma SampleSpans()
    ensures RateSpans("0.00 010%28,263.40", 0) == [(5, 9)]
  {
    var s := "0.00 010%28,263.40";
    SampleRateToken();
    SampleSpansAfterRate();
    assert RateSpans(s, 5) == [(5, 9)] + RateSpans(s, 9);
    SampleNoTokenBefore();
    assert RateSpans(s, 0) == RateSpans(s, 1) == RateSpans(s, 2) == RateSpans(s, 3) == RateSpans(s, 4) == RateSpans(s, 5);
  }

  lemma SampleRateToken()
    ensures RateMatchAt("0.00 010%28,263.40", 5) == Some(9)
  {
    var s := "0.00 010%28,263.40";
    assert s[5] == '0' && s[6] == '1' && s[7] == '0' && s[8] == '%';
    assert DigitRunEnd(s, 8) == 8;
    assert DigitRunEnd(s, 5) == 8;
  }

  lemma SampleNoTokenBefore()
    ensures forall i :: 0 <= i < 5 ==> RateMatchAt("0.00 010%28,263.40", i) == None
  {
    var s := "0.00 010%28,263.40";
    assert s[0] == '0' && s[1] == '.' && s[2] == '0' && s[3] == '0' && s[4] == ' ';
    assert DigitRunEnd(s, 4) == 4 && DigitRunEnd(s, 3) == 4 && DigitRunEnd(s, 2) == 4;
    assert DigitRunEnd(s, 1) == 1 && DigitRunEnd(s, 0) == 1;
    assert s[1..5] != "Free" && s[4..8] != "Free";
  }

  /** The duty amount after the rate holds no rate token. */
  lemma SampleSpansAfterRate()
    ensures RateSpans("0.00 010%28,263.40", 9) == []
  {
    var s := "0.00 010%28,263.40";
    assert DigitRunEnd(s, 16) == 18;
    assert RateMatchAt(s, 17) == None && RateMatchAt(s, 16) == None;
    assert RateSpans(s, 16) == [];
    assert DigitRunEnd(s, 12) == 15;
    assert RateMatchAt(s, 15) == None && RateMatchAt(s, 14) == None;
    assert RateMatchAt(s, 13) == None && RateMatchAt(s, 12) == None;
    assert RateSpans(s, 12) == [];
    assert DigitRunEnd(s, 9) == 11;
    assert RateMatchAt(s, 11) == None && RateMatchAt(s, 10) == None && RateMatchAt(s, 9) == None;
  }

  lemma SampleClean()
    ensures CleanRate("010%") == "10%"
  {
    assert HasLeadingZeroArtefact("010%") by {
      assert "010%"[1..3] == "10";
    }
    assert StripArtefactZeros("010%") == "10%" by {
      assert "010%"[1..] == "10%";
    }
  }
}
