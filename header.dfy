/** The header fields of an entry summary: entry number, filer code,
    entry date, country of origin and total entered value. Each is the
    first line (or pair of lines) that yields it. */
module Header {
  import opened Text
  import opened Patterns

  // ---------------------------------------------------------------------
  // Entry number: /([A-Z0-9]{3}-\d{7}-\d)/ on each line

  /** The leftmost entry number on a line. */
  function EntryNumberOn(line: string): (r: Option<string>)
    ensures r.Some? ==> |r.value| == |EntryNumberPattern| && MatchesAt(r.value, 0, EntryNumberPattern)
    ensures r.Some? <==> exists p: nat :: MatchesAt(line, p, EntryNumberPattern)
    ensures r.Some? ==> exists p: nat :: MatchesAt(line, p, EntryNumberPattern) && r.value == line[p..p + |EntryNumberPattern|]
                            && forall q: nat :: q < p ==> !MatchesAt(line, q, EntryNumberPattern)
  {
    match FirstMatch(line, EntryNumberPattern, 0)
    case Some(p) =>
      var v := line[p..p + |EntryNumberPattern|];
      assert forall k :: 0 <= k < |EntryNumberPattern| ==> v[k] == line[p + k];
      Some(v)
    case None => None
  }

  /** What `EntryNumberOn` yields on each line. */
  function EntryNumbers(lines: seq<string>): (xs: seq<Option<string>>)
    ensures |xs| == |lines|
    ensures forall i :: 0 <= i < |lines| ==> xs[i] == EntryNumberOn(lines[i])
  {
    seq(|lines|, i requires 0 <= i < |lines| => EntryNumberOn(lines[i]))
  }

  /** The entry number of the first line that holds one. */
  function EntryNumber(lines: seq<string>): (r: Option<string>)
    ensures r.Some? ==> |r.value| == |EntryNumberPattern| && MatchesAt(r.value, 0, EntryNumberPattern)
  {
    var xs := EntryNumbers(lines);
    FirstSomeIsFirstHit(xs);
    FirstSome(xs)
  }

  /** `extractEntryNumber`: the first line that holds an entry number
      gives it; otherwise there is none. */
  method ExtractEntryNumber(lines: seq<string>) returns (r: Option<string>)
    ensures r == EntryNumber(lines)
  {
    ghost var xs := EntryNumbers(lines);
    for i := 0 to |lines|
      invariant forall j :: 0 <= j < i ==> xs[j].None?
    {
      var m := FirstMatch(lines[i], EntryNumberPattern, 0);
      if m.Some? {
        r := Some(lines[i][m.value..m.value + |EntryNumberPattern|]);
        FirstSomeAt(xs, i);
        return;
      }
    }
    r := None;
    FirstSomeAt(xs, |lines|);
  }

  /** The entry number is that of the first line that gives one, and there is
      none exactly when no line gives one. */
  lemma EntryNumberIsFirstHit(lines: seq<string>)
    ensures EntryNumber(lines).None? <==> forall i :: 0 <= i < |lines| ==> EntryNumberOn(lines[i]).None?
    ensures EntryNumber(lines).Some? ==>
              exists i | 0 <= i < |lines| :: EntryNumberOn(lines[i]) == EntryNumber(lines)
                                             && forall j :: 0 <= j < i ==> EntryNumberOn(lines[j]).None?
  {
    FirstSomeIsFirstHit(EntryNumbers(lines));
  }

  // ---------------------------------------------------------------------
  // Filer code: /Filer\s*(?:Code|ID)\s*:?\s*([A-Z0-9]{3,4})/i on the text

  /** `extractFilerCode`: the capture of the leftmost label match in the
      lines joined with line feeds, so the label may span lines. */
  function ExtractFilerCode(lines: seq<string>): (r: Option<string>)
    ensures r.Some? ==> 3 <= |r.value| <= 4 && forall k :: 0 <= k < |r.value| ==> IsAsciiAlnum(r.value[k])
  {
    FirstFilerLabel(Join(lines, "\n"), 0)
  }

  // ---------------------------------------------------------------------
  // Entry date: the last /(\d{2}\/\d{2}\/\d{4})/g match on the first
  // line that holds an entry number and a date

  /** The last date of the global scan of a line that holds an entry
      number. */
  function EntryDateOn(line: string): Option<string>
  {
    if FirstMatch(line, EntryNumberPattern, 0).None? then None
    else
      var dates := ScanAll(line, DatePattern, 0);
      if dates == [] then None
      else
        var p := dates[|dates| - 1];
        Some(line[p..p + |DatePattern|])
  }

  /** A line gives a date exactly when it holds an entry number and a
      date; the date is the last match of the global date scan, which
      starts at the leftmost date, skips no date between its matches
      (`ScanAllFirstIsLeftmost`, `ScanAllSkipsNothing`) and leaves no date
      after its last one. */
  lemma EntryDateOnIsLastDate(line: string)
    ensures EntryDateOn(line).Some? <==>
              (exists p: nat :: MatchesAt(line, p, EntryNumberPattern)) && (exists p: nat :: MatchesAt(line, p, DatePattern))
    ensures EntryDateOn(line).Some? ==>
              var dates := ScanAll(line, DatePattern, 0);
              dates != [] && NoMatchBetween(line, DatePattern, 0, dates[0]) && NoMatchInGaps(line, DatePattern, dates)
              && var p := dates[|dates| - 1];
                 EntryDateOn(line) == Some(line[p..p + |DatePattern|])
                 && forall q: nat :: p + |DatePattern| <= q ==> !MatchesAt(line, q, DatePattern)
  {
    ScanAllStartsAtFirstMatch(line, DatePattern, 0);
    ScanAllMissesNothingAfterLast(line, DatePattern, 0);
    ScanAllFirstIsLeftmost(line, DatePattern, 0);
    ScanAllSkipsNothing(line, DatePattern, 0);
    var dates := ScanAll(line, DatePattern, 0);
    if dates != [] {
      var p := dates[|dates| - 1];
      assert MatchesAt(line, p, DatePattern);
    }
  }

  /** What `EntryDateOn` yields on each line. */
  function EntryDates(lines: seq<string>): (xs: seq<Option<string>>)
    ensures |xs| == |lines|
    ensures forall i :: 0 <= i < |lines| ==> xs[i] == EntryDateOn(lines[i])
  {
    seq(|lines|, i requires 0 <= i < |lines| => EntryDateOn(lines[i]))
  }

  function EntryDate(lines: seq<string>): Option<string> {
    FirstSome(EntryDates(lines))
  }

  /** `extractEntryDate`: lines without an entry number are passed over,
      and the first line with one and a date gives its last date. */
  method ExtractEntryDate(lines: seq<string>) returns (r: Option<string>)
    ensures r == EntryDate(lines)
  {
    ghost var xs := EntryDates(lines);
    for i := 0 to |lines|
      invariant forall j :: 0 <= j < i ==> xs[j].None?
    {
      var line := lines[i];
      assert xs[i] == EntryDateOn(line);
      if FirstMatch(line, EntryNumberPattern, 0).None? { continue; }
      var dates := ScanAll(line, DatePattern, 0);
      if |dates| > 0 {
        var p := dates[|dates| - 1];
        r := Some(line[p..p + |DatePattern|]);
        assert xs[i] == r;
        FirstSomeAt(xs, i);
        return;
      }
      assert xs[i].None?;
    }
    r := None;
    FirstSomeAt(xs, |lines|);
  }

  /** The date is that of the first line that gives one, and there is
      none exactly when no line gives one. */
  lemma EntryDateIsFirstHit(lines: seq<string>)
    ensures EntryDate(lines).None? <==> forall i :: 0 <= i < |lines| ==> EntryDateOn(lines[i]).None?
    ensures EntryDate(lines).Some? ==>
              exists i | 0 <= i < |lines| :: EntryDateOn(lines[i]) == EntryDate(lines)
                                             && forall j :: 0 <= j < i ==> EntryDateOn(lines[j]).None?
  {
    FirstSomeIsFirstHit(EntryDates(lines));
  }

  /** The date scan does not overlap its matches: "01/02/2003/04/2005"
      also holds the date "03/04/2005" at position 8, but the scan resumes
      after the first date and finds nothing more, so a line ending so
      gives "01/02/2003" as its last date. */
  lemma OverlappingDatesYieldTheFirst()
    ensures ScanAll("01/02/2003/04/2005", DatePattern, 0) == [0]
    ensures MatchesAt("01/02/2003/04/2005", 8, DatePattern)
  {
    var s := "01/02/2003/04/2005";
    assert MatchesAt(s, 0, DatePattern);
    assert ScanAll(s, DatePattern, 10) == [];
  }

  /** A line with the dates "01/02/2003" (at 14), "03/04/2005" (at 22)
      and "05/06/2007" (at 30), the middle one overlapping both others. */
  const OverlappedDateLine := "ABC-1234567-8 01/02/2003/04/2005/06/2007"

  /** On `OverlappedDateLine` the scan resumes after the first date at 24,
      passes over the date at 22 and finds the one at 30, so the line's
      date is "05/06/2007". */
  lemma EntryDateSkipsOverlappedDate()
    ensures MatchesAt(OverlappedDateLine, 22, DatePattern)
    ensures ScanAll(OverlappedDateLine, DatePattern, 0) == [14, 30]
    ensures EntryDateOn(OverlappedDateLine) == Some("05/06/2007")
  {
    OverlappedDateAt22();
    OverlappedDateLineScan();
    OverlappedDateLineHasEntryNumber();
    OverlappedDateLineLastDate();
  }

  lemma OverlappedDateLineLastDate()
    ensures OverlappedDateLine[30..30 + |DatePattern|] == "05/06/2007"
  {
  }

  lemma OverlappedDateAt22()
    ensures MatchesAt(OverlappedDateLine, 22, DatePattern)
  {
  }

  lemma OverlappedDateLineHasEntryNumber()
    ensures FirstMatch(OverlappedDateLine, EntryNumberPattern, 0) == Some(0)
  {
    assert MatchesAt(OverlappedDateLine, 0, EntryNumberPattern);
  }

  lemma OverlappedDateLineScan()
    ensures ScanAll(OverlappedDateLine, DatePattern, 0) == [14, 30]
  {
    OverlappedDateLineScanFrom14();
    NoDateBefore14();
    ScanAllFromNonMatch(OverlappedDateLine, 0, 14);
  }

  lemma OverlappedDateLineScanFrom14()
    ensures ScanAll(OverlappedDateLine, DatePattern, 14) == [14, 30]
  {
    OverlappedDateLineScanFrom24();
    OverlappedDateAt14();
    ScanAllFromMatch(OverlappedDateLine, 14);
  }

  lemma OverlappedDateAt14()
    ensures MatchesAt(OverlappedDateLine, 14, DatePattern)
  {
  }

  /** A scan from a date resumes after it. */
  lemma ScanAllFromMatch(s: string, p: nat)
    requires MatchesAt(s, p, DatePattern)
    ensures ScanAll(s, DatePattern, p) == [p] + ScanAll(s, DatePattern, p + |DatePattern|)
  {
  }

  lemma OverlappedDateLineScanFrom24()
    ensures ScanAll(OverlappedDateLine, DatePattern, 24) == [30]
  {
    var s := OverlappedDateLine;
    assert MatchesAt(s, 30, DatePattern);
    assert ScanAll(s, DatePattern, 40) == [];
    assert ScanAll(s, DatePattern, 30) == [30] + ScanAll(s, DatePattern, 40);
    NoDateBetween24And30();
    ScanAllFromNonMatch(s, 24, 30);
  }

  lemma NoDateBetween24And30()
    ensures NoMatchBetween(OverlappedDateLine, DatePattern, 24, 30)
  {
    var s := OverlappedDateLine;
    forall q | 24 <= q < 30 ensures !MatchesAt(s, q, DatePattern) {
      assert !InClass(DatePattern[0], s[q]) || !InClass(DatePattern[2], s[q + 2]) || !InClass(DatePattern[5], s[q + 5]);
    }
  }

  lemma NoDateBefore14()
    ensures NoMatchBetween(OverlappedDateLine, DatePattern, 0, 14)
  {
    var s := OverlappedDateLine;
    forall q | 0 <= q < 14 ensures !MatchesAt(s, q, DatePattern) {
      assert !InClass(DatePattern[2], s[q + 2]);
    }
  }

  /** A scan from `lo` over positions where no date starts is the scan from
      `hi`. */
  lemma {:induction false} ScanAllFromNonMatch(s: string, lo: nat, hi: nat)
    requires lo <= hi <= |s|
    requires NoMatchBetween(s, DatePattern, lo, hi)
    ensures ScanAll(s, DatePattern, lo) == ScanAll(s, DatePattern, hi)
    decreases hi - lo
  {
    if lo < hi {
      ScanAllFromNonMatch(s, lo + 1, hi);
    }
  }

  // ---------------------------------------------------------------------
  // Country of origin: the line after a /Country of Origin/i header

  /** `\d{2}[A-Z]{2}\d{2}\/\d{2}\/\d{4}` matches somewhere in the line. */
  predicate HoldsCountry(line: string) {
    exists p: nat | p <= |line| :: MatchesAt(line, p, CountryPattern)
  }

  /** The country code the line after a "Country of Origin" header at `i`
      holds: the two letters between the transport mode and a date. */
  function CountryAt(lines: seq<string>, i: nat): (r: Option<string>)
    requires i < |lines|
    ensures r.Some? ==> i + 1 < |lines| && ContainsIgnoreCase(lines[i], "COUNTRY OF ORIGIN")
    ensures r.Some? ==> |r.value| == 2 && IsUpper(r.value[0]) && IsUpper(r.value[1])
    ensures r.Some? <==> ContainsIgnoreCase(lines[i], "COUNTRY OF ORIGIN") && i + 1 < |lines| && HoldsCountry(lines[i + 1])
    ensures r.Some? ==>
              var m := FirstMatch(lines[i + 1], CountryPattern, 0);
              m.Some? && MatchesAt(lines[i + 1], m.value, CountryPattern)
              && NoMatchBetween(lines[i + 1], CountryPattern, 0, m.value)
              && r.value == lines[i + 1][m.value + 2..m.value + 4]
  {
    if ContainsIgnoreCase(lines[i], "COUNTRY OF ORIGIN") && i + 1 < |lines| then
      var data := lines[i + 1];
      match FirstMatch(data, CountryPattern, 0)
      case Some(p) =>
        assert InClass(CountryPattern[2], data[p + 2]) && InClass(CountryPattern[3], data[p + 3]);
        Some(data[p + 2..p + 4])
      case None => None
    else None
  }

  /** A header line followed by transport mode 11, country "CN" and a
      date gives "CN". */
  lemma CountryAtExample()
    ensures CountryAt(["Country of Origin", "11CN01/15/2025"], 0) == Some("CN")
  {
    var lines := ["Country of Origin", "11CN01/15/2025"];
    assert ContainsIgnoreCase(lines[0], "COUNTRY OF ORIGIN") by {
      CountryHeaderExample();
    }
    assert MatchesAt(lines[1], 0, CountryPattern);
    assert lines[1][2..4] == "CN";
  }

  lemma CountryHeaderExample()
    ensures ContainsIgnoreCase("Country of Origin", "COUNTRY OF ORIGIN")
  {
    assert StartsWithIgnoreCase("Country of Origin", "COUNTRY OF ORIGIN");
  }

  /** What `CountryAt` yields at each line. */
  function Countries(lines: seq<string>): (xs: seq<Option<string>>)
    ensures |xs| == |lines|
    ensures forall i :: 0 <= i < |lines| ==> xs[i] == CountryAt(lines, i)
  {
    seq(|lines|, i requires 0 <= i < |lines| => CountryAt(lines, i))
  }

  function CountryOfOrigin(lines: seq<string>): Option<string> {
    FirstSome(Countries(lines))
  }

  /** `extractCountryOfOrigin`: a header whose next line holds no country
      and date does not stop the search. */
  method ExtractCountryOfOrigin(lines: seq<string>) returns (r: Option<string>)
    ensures r == CountryOfOrigin(lines)
  {
    ghost var xs := Countries(lines);
    for i := 0 to |lines|
      invariant forall j :: 0 <= j < i ==> xs[j].None?
    {
      if ContainsIgnoreCase(lines[i], "COUNTRY OF ORIGIN") && i + 1 < |lines| {
        var dataLine := lines[i + 1];
        var m := FirstMatch(dataLine, CountryPattern, 0);
        if m.Some? {
          r := Some(dataLine[m.value + 2..m.value + 4]);
          FirstSomeAt(xs, i);
          return;
        }
      }
    }
    r := None;
    FirstSomeAt(xs, |lines|);
  }

  /** The country is that of the first header line that yields one, and
      there is none exactly when no line does. */
  lemma CountryOfOriginIsFirstHit(lines: seq<string>)
    ensures CountryOfOrigin(lines).None? <==> forall i :: 0 <= i < |lines| ==> CountryAt(lines, i).None?
    ensures CountryOfOrigin(lines).Some? ==>
              exists i | 0 <= i < |lines| :: CountryAt(lines, i) == CountryOfOrigin(lines)
                                             && forall j :: 0 <= j < i ==> CountryAt(lines, j).None?
  {
    FirstSomeIsFirstHit(Countries(lines));
  }

  // ---------------------------------------------------------------------
  // Total entered value: /([\d,]+\.\d{2})\s*$/ on a
  // "Total Entered Value" line that is not the block 39 / 35 summary

  /** Whether a line is a total-entered-value line the search reads. */
  predicate IsTotalLine(line: string) {
    Contains(line, "Total Entered Value") && !Contains(line, "Block 39") && !Contains(line, "35.")
  }

  /** The total entered value a line states, in cents. */
  function TotalOn(line: string): (r: Option<nat>)
    ensures r.Some? ==> IsTotalLine(line)
  {
    if !Contains(line, "Total Entered Value") then None
    else if Contains(line, "Block 39") || Contains(line, "35.") then None
    else match TrailingAmount(line, Blank)
      case Some(amount) => Some(AmountCents(amount))
      case None => None
  }

  /** A total line gives the amount that ends it (trailing whitespace
      aside), read as all its digits in cents; it gives none exactly when
      no amount ends it. */
  lemma TotalOnIsTheTrailingAmount(line: string)
    ensures TotalOn(line).Some? ==>
              exists p: nat, e: nat ::
                AmountMatch(line, p, e, Blank)
                && (forall p': nat, e': nat :: p' < p ==> !AmountMatch(line, p', e', Blank))
                && TotalOn(line) == Some(DigitsValue(OnlyDigits(line[p..e])))
    ensures TotalOn(line).None? <==> !IsTotalLine(line) || forall p: nat, e: nat :: !AmountMatch(line, p, e, Blank)
  {
    TrailingAmountIsLeftmostMatch(line, Blank);
    match TrailingAmountSpan(line, Blank)
    case Some((p, e)) =>
      CentsAreTheDigits(line[p..e]);
    case None =>
  }

  /** What `TotalOn` yields on each line. */
  function Totals(lines: seq<string>): (xs: seq<Option<nat>>)
    ensures |xs| == |lines|
    ensures forall i :: 0 <= i < |lines| ==> xs[i] == TotalOn(lines[i])
  {
    seq(|lines|, i requires 0 <= i < |lines| => TotalOn(lines[i]))
  }

  function TotalEnteredValue(lines: seq<string>): Option<nat> {
    FirstSome(Totals(lines))
  }

  /** `extractTotalEnteredValue`: the first total line with a trailing
      amount gives it. */
  method ExtractTotalEnteredValue(lines: seq<string>) returns (r: Option<nat>)
    ensures r == TotalEnteredValue(lines)
  {
    ghost var xs := Totals(lines);
    for i := 0 to |lines|
      invariant forall j :: 0 <= j < i ==> xs[j].None?
    {
      var line := lines[i];
      assert xs[i] == TotalOn(line);
      if !Contains(line, "Total Entered Value") { continue; }
      if Contains(line, "Block 39") || Contains(line, "35.") { continue; }
      var m := TrailingAmount(line, Blank);
      if m.Some? {
        r := Some(AmountCents(m.value));
        assert xs[i] == r;
        FirstSomeAt(xs, i);
        return;
      }
      assert xs[i].None?;
    }
    r := None;
    FirstSomeAt(xs, |lines|);
  }

  /** The total is that of the first line that gives one, and there is
      none exactly when no line gives one. */
  lemma TotalEnteredValueIsFirstHit(lines: seq<string>)
    ensures TotalEnteredValue(lines).None? <==> forall i :: 0 <= i < |lines| ==> TotalOn(lines[i]).None?
    ensures TotalEnteredValue(lines).Some? ==>
              exists i | 0 <= i < |lines| :: TotalOn(lines[i]) == TotalEnteredValue(lines)
                                             && forall j :: 0 <= j < i ==> TotalOn(lines[j]).None?
  {
    FirstSomeIsFirstHit(Totals(lines));
  }
}
