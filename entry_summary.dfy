/** `parseEntrySummary` after text extraction: the format gate, the header
    fields, the line items, and the assembly of the eligible items, their
    total and their distinct codes. */
module EntrySummary {
  import opened Text
  import opened Patterns
  import opened LineItems
  import opened Header

  /** A reported line item: the extracted item without its IEEPA flag. */
  datatype ReportedItem = ReportedItem(
    htsCode: string,
    dutyCents: nat,
    rate: Option<string>,
    description: string)

  datatype ParseResult = ParseResult(
    fileHash: string,
    entryNumber: Option<string>,
    filerCode: Option<string>,
    entryDate: Option<string>,
    countryOfOrigin: Option<string>,
    totalEnteredValue: Option<nat>,
    lineItems: seq<ReportedItem>,
    totalRefundCents: nat,
    htsCodesFound: seq<string>,
    rawText: string,
    isEligible: bool)

  /** The one way parsing fails: the text is not a CBP Form 7501. */
  datatype ParseError = NotAnEntrySummary

  /** The format gate. */
  predicate IsEntrySummaryText(text: string) {
    Contains(text, "ENTRY SUMMARY") || Contains(text, "CBP Form 7501")
  }

  /** An item is reported when its code is an IEEPA code and its duty is
      not zero. */
  predicate IsRefundable(item: LineItem) {
    item.isIeepa && item.dutyCents > 0
  }

  /** The refundable items, in extraction order. */
  function Refundable(items: seq<LineItem>): (r: seq<LineItem>)
    ensures |r| <= |items|
  {
    if items == [] then []
    else
      var rest := Refundable(items[..|items| - 1]);
      if IsRefundable(items[|items| - 1]) then rest + [items[|items| - 1]] else rest
  }

  /** The sum of the items' duties, in cents. */
  function SumDuty(items: seq<LineItem>): nat {
    if items == [] then 0 else SumDuty(items[..|items| - 1]) + items[|items| - 1].dutyCents
  }

  function Codes(items: seq<LineItem>): (r: seq<string>)
    ensures |r| == |items|
    ensures forall k :: 0 <= k < |items| ==> r[k] == items[k].htsCode
  {
    seq(|items|, k requires 0 <= k < |items| => items[k].htsCode)
  }

  /** Each code once, kept where it first occurs (a `Set` spread into an
      array). */
  function Distinct(codes: seq<string>): (r: seq<string>)
    ensures forall k :: 0 <= k < |r| ==> r[k] in codes
  {
    if codes == [] then []
    else
      var d := Distinct(codes[..|codes| - 1]);
      if codes[|codes| - 1] in d then d else d + [codes[|codes| - 1]]
  }

  /** The index where `x` first occurs in `xs`. */
  function FirstIndex(xs: seq<string>, x: string): (i: nat)
    requires x in xs
    ensures i < |xs| && xs[i] == x && forall j :: 0 <= j < i ==> xs[j] != x
  {
    if xs[0] == x then 0 else 1 + FirstIndex(xs[1..], x)
  }

  /** The reported shape of an item. */
  function Report(items: seq<LineItem>): (r: seq<ReportedItem>)
    ensures |r| == |items|
  {
    seq(|items|, k requires 0 <= k < |items| =>
      ReportedItem(items[k].htsCode, items[k].dutyCents, items[k].rate, items[k].description))
  }

  /** The result object from the header fields and the extracted items:
      only refundable items are reported, with their total and codes. */
  function Build(text: string, fileHash: string, entryNumber: Option<string>, filerCode: Option<string>,
                 entryDate: Option<string>, countryOfOrigin: Option<string>, totalEnteredValue: Option<nat>,
                 all: seq<LineItem>): ParseResult
  {
    var refundable := Refundable(all);
    var lineItems := Report(refundable);
    ParseResult(fileHash, entryNumber, filerCode, entryDate, countryOfOrigin, totalEnteredValue,
                lineItems, SumDuty(refundable), Distinct(Codes(refundable)), text, |lineItems| > 0)
  }

  /** The filer code: the entry number's first three characters, else the
      label's capture. */
  function FilerCode(lines: seq<string>): Option<string> {
    var entryNumber := EntryNumber(lines);
    if entryNumber.Some? then Some(entryNumber.value[..3]) else ExtractFilerCode(lines)
  }

  /** The result for the lines of an entry summary. */
  function Assemble(text: string, fileHash: string, lines: seq<string>): ParseResult {
    Build(text, fileHash, EntryNumber(lines), FilerCode(lines), EntryDate(lines), CountryOfOrigin(lines),
          TotalEnteredValue(lines), ItemsUpTo(lines, |lines|))
  }

  /** `parseEntrySummary` on extracted text, with the file's hash given. */
  function Parse(text: string, fileHash: string): Result<ParseResult, ParseError> {
    if !IsEntrySummaryText(text) then Failure(NotAnEntrySummary)
    else Success(Assemble(text, fileHash, SplitLines(text)))
  }

  /** `parseEntrySummary`: the extractors run in the source's order, and
      the result is the one `Parse` describes. */
  method ParseEntrySummary(text: string, fileHash: string) returns (r: Result<ParseResult, ParseError>)
    ensures r == Parse(text, fileHash)
  {
    var lines := SplitLines(text);
    if !Contains(text, "ENTRY SUMMARY") && !Contains(text, "CBP Form 7501") {
      return Failure(NotAnEntrySummary);
    }
    var entryNumber := ExtractEntryNumber(lines);
    var filerCode := if entryNumber.Some? then Some(entryNumber.value[..3]) else ExtractFilerCode(lines);
    assert filerCode == FilerCode(lines);
    var entryDate := ExtractEntryDate(lines);
    var countryOfOrigin := ExtractCountryOfOrigin(lines);
    var totalEnteredValue := ExtractTotalEnteredValue(lines);
    var allLineItems := ExtractAllLineItems(lines);
    var refundable := Refundable(allLineItems);
    var totalRefund := SumDuty(refundable);
    var htsCodesFound := Distinct(Codes(refundable));
    var lineItems := Report(refundable);
    r := Success(ParseResult(fileHash, entryNumber, filerCode, entryDate, countryOfOrigin,
                             totalEnteredValue, lineItems, totalRefund, htsCodesFound, text,
                             |lineItems| > 0));
  }

  // ---------------------------------------------------------------------
  // Properties

  /** Parsing fails exactly when the text has neither marker; otherwise
      it succeeds, missing fields being absent rather than errors, and the
      result carries the hash, the whole text, every header field the
      extractors give and the reported shape of the refundable items
      extracted from all the lines. */
  lemma ParseFailsOnlyAtTheGate(text: string, fileHash: string)
    ensures Parse(text, fileHash).Failure? <==> !Contains(text, "ENTRY SUMMARY") && !Contains(text, "CBP Form 7501")
    ensures Parse(text, fileHash).Failure? ==> Parse(text, fileHash).error == NotAnEntrySummary
    ensures Parse(text, fileHash).Success? ==>
              var res := Parse(text, fileHash).value;
              var lines := SplitLines(text);
              res.fileHash == fileHash && res.rawText == text
              && res.entryNumber == EntryNumber(lines) && res.entryDate == EntryDate(lines)
              && res.countryOfOrigin == CountryOfOrigin(lines) && res.totalEnteredValue == TotalEnteredValue(lines)
              && res.filerCode == FilerCode(lines)
              && res.lineItems == Report(Refundable(ItemsUpTo(lines, |lines|)))
  {
  }

  /** The filer code is the entry number's first three characters when
      there is an entry number, and the label's capture otherwise; either
      way it is made of ASCII letters and digits. */
  lemma FilerCodeComesFromEntryNumber(lines: seq<string>)
    ensures EntryNumber(lines).Some? ==>
              FilerCode(lines) == Some(EntryNumber(lines).value[..3])
              && forall k :: 0 <= k < 3 ==> IsUpperOrDigit(FilerCode(lines).value[k])
    ensures EntryNumber(lines).None? ==> FilerCode(lines) == ExtractFilerCode(lines)
    ensures FilerCode(lines).Some? ==> forall k :: 0 <= k < |FilerCode(lines).value| ==> IsAsciiAlnum(FilerCode(lines).value[k])
  {
    if EntryNumber(lines).Some? {
      var v := EntryNumber(lines).value;
      forall k | 0 <= k < 3
        ensures IsUpperOrDigit(v[k])
      {
        assert InClass(EntryNumberPattern[k], v[k]);
      }
    }
  }

  /** Every item the filter keeps is refundable, and it keeps every
      refundable item. */
  lemma {:induction false} RefundableKeepsExactlyTheRefundable(items: seq<LineItem>)
    ensures forall k :: 0 <= k < |Refundable(items)| ==> IsRefundable(Refundable(items)[k])
    ensures forall x :: x in Refundable(items) <==> x in items && IsRefundable(x)
  {
    if items != [] {
      var init := items[..|items| - 1];
      RefundableKeepsExactlyTheRefundable(init);
      assert items == init + [items[|items| - 1]];
    }
  }

  /** Keys that are pairwise distinct stay so under the filter. */
  lemma {:induction false} RefundableKeepsKeysDistinct(items: seq<LineItem>)
    requires forall k, k' :: 0 <= k < k' < |items| ==> Key(items[k]) != Key(items[k'])
    ensures forall k, k' :: 0 <= k < k' < |Refundable(items)| ==> Key(Refundable(items)[k]) != Key(Refundable(items)[k'])
  {
    if items != [] {
      var init, last := items[..|items| - 1], items[|items| - 1];
      RefundableKeepsKeysDistinct(init);
      RefundableKeepsExactlyTheRefundable(init);
      var r := Refundable(init);
      if IsRefundable(last) {
        forall k | 0 <= k < |r|
          ensures Key(r[k]) != Key(last)
        {
          assert r[k] in init;
          var j :| 0 <= j < |init| && init[j] == r[k];
          assert items[j] == r[k];
        }
      }
    }
  }

  /** The distinct codes: no duplicates, the same codes, and ordered by
      where each first occurs. */
  lemma {:induction false} DistinctIsFirstAppearanceOrder(codes: seq<string>)
    ensures forall k, k' :: 0 <= k < k' < |Distinct(codes)| ==> Distinct(codes)[k] != Distinct(codes)[k']
    ensures forall x :: x in Distinct(codes) <==> x in codes
    ensures forall k, k' :: 0 <= k < k' < |Distinct(codes)| ==>
              FirstIndex(codes, Distinct(codes)[k]) < FirstIndex(codes, Distinct(codes)[k'])
  {
    if codes != [] {
      var init := codes[..|codes| - 1];
      var x := codes[|codes| - 1];
      DistinctIsFirstAppearanceOrder(init);
      assert codes == init + [x];
      var d := Distinct(init);
      forall y | y in init
        ensures FirstIndex(codes, y) == FirstIndex(init, y)
      {
        FirstIndexOfPrefix(init, x, y);
      }
      if x !in d {
        assert forall j :: 0 <= j < |init| ==> codes[j] != x;
        assert FirstIndex(codes, x) == |codes| - 1;
      }
    }
  }

  lemma {:induction false} FirstIndexOfPrefix(xs: seq<string>, x: string, y: string)
    requires y in xs
    ensures FirstIndex(xs + [x], y) == FirstIndex(xs, y)
  {
    if xs[0] != y {
      assert (xs + [x])[1..] == xs[1..] + [x];
      FirstIndexOfPrefix(xs[1..], x, y);
    }
  }

  /** A sum of non-zero duties is at least each one, and is zero only for
      no items. */
  lemma {:induction false} SumDutyOfPositives(items: seq<LineItem>)
    requires forall k :: 0 <= k < |items| ==> items[k].dutyCents > 0
    ensures forall k :: 0 <= k < |items| ==> items[k].dutyCents <= SumDuty(items)
    ensures SumDuty(items) > 0 <==> items != []
  {
    if items != [] {
      SumDutyOfPositives(items[..|items| - 1]);
    }
  }

  /** The result reports only refundable items (IEEPA code, non-zero
      duty), the refundable items in their extracted order; the refund is
      their sum and is positive exactly when the result is eligible, which
      it is exactly when it reports an item; and the codes found are the
      reported items' codes, each once, in order of first appearance. */
  lemma BuildIsConsistent(text: string, fileHash: string, entryNumber: Option<string>, filerCode: Option<string>,
                          entryDate: Option<string>, countryOfOrigin: Option<string>, totalEnteredValue: Option<nat>,
                          all: seq<LineItem>)
    requires forall k :: 0 <= k < |all| ==> all[k].isIeepa == IsIeepaCode(all[k].htsCode)
    ensures var res := Build(text, fileHash, entryNumber, filerCode, entryDate, countryOfOrigin, totalEnteredValue, all);
            var refundable := Refundable(all);
            && |res.lineItems| == |refundable|
            && (forall k :: 0 <= k < |res.lineItems| ==>
                  IsIeepaCode(res.lineItems[k].htsCode) && res.lineItems[k].dutyCents > 0
                  && res.lineItems[k] == ReportedItem(refundable[k].htsCode, refundable[k].dutyCents,
                                                      refundable[k].rate, refundable[k].description))
            && res.totalRefundCents == SumDuty(refundable)
            && (res.isEligible <==> res.lineItems != [])
            && (res.isEligible <==> res.totalRefundCents > 0)
            && (forall k, k' :: 0 <= k < k' < |res.htsCodesFound| ==> res.htsCodesFound[k] != res.htsCodesFound[k'])
            && (forall c :: c in res.htsCodesFound <==> exists k :: 0 <= k < |res.lineItems| && res.lineItems[k].htsCode == c)
            && (forall k, k' :: 0 <= k < k' < |res.htsCodesFound| ==>
                  FirstIndex(Codes(refundable), res.htsCodesFound[k]) < FirstIndex(Codes(refundable), res.htsCodesFound[k']))
  {
    var refundable := Refundable(all);
    RefundableKeepsExactlyTheRefundable(all);
    forall k | 0 <= k < |refundable|
      ensures IsIeepaCode(refundable[k].htsCode) && refundable[k].dutyCents > 0
    {
      assert refundable[k] in all;
    }
    SumDutyOfPositives(refundable);
    var codes := Codes(refundable);
    DistinctIsFirstAppearanceOrder(codes);
    forall c | c in codes
      ensures exists k :: 0 <= k < |refundable| && refundable[k].htsCode == c
    {
      var k :| 0 <= k < |codes| && codes[k] == c;
    }
  }

  /** Reported items keep pairwise distinct `(htsCode, dutyAmount)` keys
      when the extracted items have them. */
  lemma BuildKeepsKeysDistinct(text: string, fileHash: string, entryNumber: Option<string>, filerCode: Option<string>,
                               entryDate: Option<string>, countryOfOrigin: Option<string>, totalEnteredValue: Option<nat>,
                               all: seq<LineItem>)
    requires forall k, k' :: 0 <= k < k' < |all| ==> Key(all[k]) != Key(all[k'])
    ensures var res := Build(text, fileHash, entryNumber, filerCode, entryDate, countryOfOrigin, totalEnteredValue, all);
            forall k, k' :: 0 <= k < k' < |res.lineItems| ==>
              (res.lineItems[k].htsCode, res.lineItems[k].dutyCents) != (res.lineItems[k'].htsCode, res.lineItems[k'].dutyCents)
  {
    RefundableKeepsKeysDistinct(all);
  }

  /** Every refundable extracted item is reported. */
  lemma BuildReportsEveryRefundable(text: string, fileHash: string, entryNumber: Option<string>, filerCode: Option<string>,
                                    entryDate: Option<string>, countryOfOrigin: Option<string>, totalEnteredValue: Option<nat>,
                                    all: seq<LineItem>, x: LineItem)
    requires x in all && IsRefundable(x)
    ensures var res := Build(text, fileHash, entryNumber, filerCode, entryDate, countryOfOrigin, totalEnteredValue, all);
            exists k :: 0 <= k < |res.lineItems| && res.lineItems[k] == ReportedItem(x.htsCode, x.dutyCents, x.rate, x.description)
  {
    RefundableKeepsExactlyTheRefundable(all);
    var refundable := Refundable(all);
    var k :| 0 <= k < |refundable| && refundable[k] == x;
    var res := Build(text, fileHash, entryNumber, filerCode, entryDate, countryOfOrigin, totalEnteredValue, all);
    assert res.lineItems[k] == ReportedItem(x.htsCode, x.dutyCents, x.rate, x.description);
  }

  /** Every extracted item is a line's candidate, so its IEEPA flag is
      `IEEPA_HTS_PATTERN` on its code. */
  lemma ItemsAreCandidates(lines: seq<string>)
    ensures forall k :: 0 <= k < |ItemsUpTo(lines, |lines|)| ==>
              ItemsUpTo(lines, |lines|)[k].isIeepa == IsIeepaCode(ItemsUpTo(lines, |lines|)[k].htsCode)
  {
    var cs := Candidates(lines);
    DedupIsFirstOccurrences(cs, |lines|);
    var items := ItemsUpTo(lines, |lines|);
    forall k | 0 <= k < |items|
      ensures items[k].isIeepa == IsIeepaCode(items[k].htsCode)
    {
      var i := Origins(cs, |lines|)[k];
      assert cs[i] == Some(items[k]);
      CandidateFlag(lines, i);
    }
  }

  lemma CandidateFlag(lines: seq<string>, i: nat)
    requires i < |lines| && CandidateAt(lines, i).Some?
    ensures CandidateAt(lines, i).value.isIeepa == IsIeepaCode(CandidateAt(lines, i).value.htsCode)
  {
  }

  /** A parsed result is consistent (see `BuildIsConsistent`) and its
      reported keys are pairwise distinct. */
  lemma ParseResultIsConsistent(text: string, fileHash: string)
    requires Parse(text, fileHash).Success?
    ensures var res := Parse(text, fileHash).value;
            && (forall k :: 0 <= k < |res.lineItems| ==> IsIeepaCode(res.lineItems[k].htsCode) && res.lineItems[k].dutyCents > 0)
            && (res.isEligible <==> res.lineItems != [])
            && (res.isEligible <==> res.totalRefundCents > 0)
            && (forall k, k' :: 0 <= k < k' < |res.htsCodesFound| ==> res.htsCodesFound[k] != res.htsCodesFound[k'])
            && (forall c :: c in res.htsCodesFound <==> exists k :: 0 <= k < |res.lineItems| && res.lineItems[k].htsCode == c)
            && (forall k, k' :: 0 <= k < k' < |res.lineItems| ==>
                  (res.lineItems[k].htsCode, res.lineItems[k].dutyCents) != (res.lineItems[k'].htsCode, res.lineItems[k'].dutyCents))
  {
    var lines := SplitLines(text);
    var all := ItemsUpTo(lines, |lines|);
    ItemsAreCandidates(lines);
    DedupKeysDistinct(Candidates(lines), |lines|);
    var en, fc, ed, co, tv := EntryNumber(lines), FilerCode(lines), EntryDate(lines), CountryOfOrigin(lines), TotalEnteredValue(lines);
    assert Parse(text, fileHash).value == Build(text, fileHash, en, fc, ed, co, tv, all);
    BuildIsConsistent(text, fileHash, en, fc, ed, co, tv, all);
    BuildKeepsKeysDistinct(text, fileHash, en, fc, ed, co, tv, all);
  }

  /** Whether an item is refunded depends only on its key, so no refund is
      lost to deduplication: a line whose candidate is refundable has an
      extracted item with its key, and that item is refundable too. */
  lemma RefundableCandidateSurvivesDedup(lines: seq<string>, i: nat)
    requires i < |lines| && CandidateAt(lines, i).Some? && IsRefundable(CandidateAt(lines, i).value)
    ensures exists j :: 0 <= j < |ItemsUpTo(lines, |lines|)| && Key(ItemsUpTo(lines, |lines|)[j]) == Key(CandidateAt(lines, i).value)
                        && IsRefundable(ItemsUpTo(lines, |lines|)[j])
  {
    var cs := Candidates(lines);
    var c := CandidateAt(lines, i).value;
    assert cs[i] == Some(c);
    DedupKeepsEveryKey(cs, |lines|);
    var all := ItemsUpTo(lines, |lines|);
    var j :| 0 <= j < |all| && Key(all[j]) == Key(c);
    ItemsAreCandidates(lines);
    CandidateFlag(lines, i);
    assert IsRefundable(all[j]);
  }

  /** Every line whose candidate is refundable has an item with its code
      and duty in the parsed result. */
  lemma EveryRefundableLineIsReported(text: string, fileHash: string, i: nat)
    requires Parse(text, fileHash).Success?
    requires i < |SplitLines(text)|
    requires CandidateAt(SplitLines(text), i).Some? && IsRefundable(CandidateAt(SplitLines(text), i).value)
    ensures var res := Parse(text, fileHash).value;
            var c := CandidateAt(SplitLines(text), i).value;
            exists k :: 0 <= k < |res.lineItems| && res.lineItems[k].htsCode == c.htsCode && res.lineItems[k].dutyCents == c.dutyCents
  {
    var lines := SplitLines(text);
    RefundableCandidateSurvivesDedup(lines, i);
    var all := ItemsUpTo(lines, |lines|);
    var j :| 0 <= j < |all| && Key(all[j]) == Key(CandidateAt(lines, i).value) && IsRefundable(all[j]);
    var en, fc, ed, co, tv := EntryNumber(lines), FilerCode(lines), EntryDate(lines), CountryOfOrigin(lines), TotalEnteredValue(lines);
    assert Parse(text, fileHash).value == Build(text, fileHash, en, fc, ed, co, tv, all);
    BuildReportsEveryRefundable(text, fileHash, en, fc, ed, co, tv, all, all[j]);
  }
}
