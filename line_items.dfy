/** Tariff line items: the description lookback, the per-line recogniser
    and the extraction loop with its `(htsCode, dutyAmount)` deduplication. */
module LineItems {
  import opened Text
  import opened Patterns
  import opened Rates

  /** `IEEPA_CODE_DESCRIPTIONS`: fallback descriptions for known codes. */
  const IeepaCodeDescriptions: map<string, string> := map[
    "9903.01.20" := "China/HK Fentanyl Emergency - IEEPA Duty (Feb 4, 2025)",
    "9903.01.21" := "China/HK Fentanyl - IEEPA Duty",
    "9903.01.22" := "Canada Fentanyl - 25% IEEPA Duty (Feb 4, 2025)",
    "9903.01.23" := "Mexico Fentanyl - 25% IEEPA Duty (Feb 4, 2025)",
    "9903.01.24" := "China/HK Fentanyl Emergency - IEEPA Duty (Mar 4, 2025+)",
    "9903.01.25" := "Reciprocal \"Liberation Day\" - Baseline 10% IEEPA Tariff (Apr 5, 2025+)",
    "9903.01.26" := "Reciprocal Country-Specific IEEPA Tariff",
    "9903.01.28" := "IEEPA-Reciprocal In-Transit Exclusion",
    "9903.01.63" := "IEEPA-Reciprocal China/HK/Macau Tariff"
  ]

  /** How many lines before an HTS line the description lookback reads. */
  const DescriptionLookback: nat := 4

  datatype LineItem = LineItem(
    htsCode: string,
    dutyCents: nat,
    rate: Option<string>,
    description: string,
    isIeepa: bool)

  /** The deduplication key: `${htsCode}:${dutyAmount}`. */
  function Key(item: LineItem): (string, nat) {
    (item.htsCode, item.dutyCents)
  }

  // ---------------------------------------------------------------------
  // Eligibility

  /** Eligibility is the pattern alone: the description table neither adds
      nor removes codes. */
  lemma EligibilityIsPatternOnly()
    ensures IsIeepaCode("9903.01.99") && "9903.01.99" !in IeepaCodeDescriptions
    ensures !IsIeepaCode("9903.02.20")
    ensures forall code :: code in IeepaCodeDescriptions ==> IsIeepaCode(code) && IeepaCodeDescriptions[code] != []
  {
    assert !InClass(IeepaHtsPattern[6], "9903.02.20"[6]);
    forall code | code in IeepaCodeDescriptions
      ensures IsIeepaCode(code) && IeepaCodeDescriptions[code] != []
    {
      forall k | 0 <= k < 10
        ensures InClass(IeepaHtsPattern[k], code[k])
      {
      }
    }
  }

  // ---------------------------------------------------------------------
  // Description lookback

  /** `^C\d{3,5}$`: a classification code such as C14000. */
  predicate IsClassificationCode(line: string) {
    4 <= |line| <= 6 && line[0] == 'C' && AllDigits(line[1..])
  }

  /** `/^(Invoice|I\.T\.|MASTER|HOUSE|SUBHOUSE|BILL)/i`. */
  predicate IsBillHeader(line: string) {
    StartsWithIgnoreCase(line, "INVOICE") || StartsWithIgnoreCase(line, "I.T.")
    || StartsWithIgnoreCase(line, "MASTER") || StartsWithIgnoreCase(line, "HOUSE")
    || StartsWithIgnoreCase(line, "SUBHOUSE") || StartsWithIgnoreCase(line, "BILL")
  }

  /** `/^(Dollars|Cents|DollarsCents)/`. */
  predicate IsColumnHeader(line: string) {
    StartsWith(line, "Dollars") || StartsWith(line, "Cents") || StartsWith(line, "DollarsCents")
  }

  /** A trimmed line that the lookback passes over without looking further. */
  predicate IsSkippedLine(line: string) {
    line == [] || IsClassificationCode(line) || line == "N" || IsBillHeader(line) || IsColumnHeader(line)
  }

  /** Drops a leading 3-digit line number, if any. */
  function StripLineNumber(line: string): (r: string)
    ensures |r| <= |line|
  {
    if |line| >= 3 && IsDigit(line[0]) && IsDigit(line[1]) && IsDigit(line[2]) then line[3..] else line
  }

  /** What the lookback does with one trimmed line: pass over it, stop
      at it (another HTS line), or take its text as the description. */
  datatype Verdict = Skip | Stop | Take(desc: string)

  function Classify(line: string): (v: Verdict)
    ensures v.Take? ==> v.desc != []
  {
    if IsSkippedLine(line) then Skip
    else if HtsLineMatch(line).Some? then Stop
    else
      var desc := Trim(StripLineNumber(line));
      if desc != [] then Take(desc) else Skip
  }

  /** The verdict on every line, trimmed. */
  function Verdicts(lines: seq<string>): (vs: seq<Verdict>)
    ensures |vs| == |lines|
    ensures forall k :: 0 <= k < |lines| ==> vs[k] == Classify(Trim(lines[k]))
  {
    seq(|lines|, k requires 0 <= k < |lines| => Classify(Trim(lines[k])))
  }

  /** The lookback over the verdicts of `lo..upto`, nearest line first. */
  function LookbackScan(vs: seq<Verdict>, lo: nat, upto: nat): (r: Option<string>)
    requires lo <= upto <= |vs|
    decreases upto
  {
    if upto == lo then None
    else match vs[upto - 1]
      case Skip => LookbackScan(vs, lo, upto - 1)
      case Stop => None
      case Take(d) => Some(d)
  }

  /** The first index the lookback from `i` reads: `Math.max(0, i - 4)`. */
  function LookbackStart(i: nat): nat {
    if i >= DescriptionLookback then i - DescriptionLookback else 0
  }

  /** The table entry for a known code, else the code itself. */
  function FallbackDescription(code: string): string {
    if code in IeepaCodeDescriptions then IeepaCodeDescriptions[code] else code
  }

  /** The description of the item on line `i`. */
  function Description(lines: seq<string>, i: nat, code: string): (r: string)
    requires i < |lines|
  {
    match LookbackScan(Verdicts(lines), LookbackStart(i), i)
    case Some(d) => d
    case None => FallbackDescription(code)
  }

  /** Line `k` offers `d` and every line between it and `upto` is passed over. */
  predicate NearestTake(vs: seq<Verdict>, k: nat, upto: nat, d: string)
    requires k < upto <= |vs|
  {
    vs[k] == Take(d) && forall j :: k < j < upto ==> vs[j] == Skip
  }

  /** The lookback finds a description exactly when some line of the
      window offers one and every nearer line is passed over; the nearest
      such line gives it. */
  lemma {:induction false} LookbackIsNearestTake(vs: seq<Verdict>, lo: nat, upto: nat, d: string)
    requires lo <= upto <= |vs|
    ensures LookbackScan(vs, lo, upto) == Some(d) <==>
              exists k | lo <= k < upto :: NearestTake(vs, k, upto, d)
    decreases upto
  {
    if upto > lo {
      LookbackIsNearestTake(vs, lo, upto - 1, d);
      if vs[upto - 1] == Skip {
        forall k | lo <= k < upto - 1
          ensures NearestTake(vs, k, upto, d) <==> NearestTake(vs, k, upto - 1, d)
        {
        }
        if LookbackScan(vs, lo, upto) == Some(d) {
          var k :| lo <= k < upto - 1 && NearestTake(vs, k, upto - 1, d);
          assert NearestTake(vs, k, upto, d);
        }
      } else {
        forall k | lo <= k < upto - 1
          ensures !NearestTake(vs, k, upto, d)
        {
          assert vs[upto - 1] != Skip;
        }
        if vs[upto - 1] == Take(d) {
          assert NearestTake(vs, upto - 1, upto, d);
        }
      }
    }
  }

  /** A description found in the window is non-empty, so every item has a
      non-empty description. */
  lemma {:induction false} DescriptionIsNonEmpty(lines: seq<string>, i: nat, code: string)
    requires i < |lines| && code != []
    ensures Description(lines, i, code) != []
  {
    var vs := Verdicts(lines);
    var lo := LookbackStart(i);
    match LookbackScan(vs, lo, i)
    case Some(d) =>
      LookbackIsNearestTake(vs, lo, i, d);
      var k :| lo <= k < i && NearestTake(vs, k, i, d);
      assert Classify(Trim(lines[k])) == Take(d);
    case None =>
      EligibilityIsPatternOnly();
  }

  /** The lookback reads only the window `lines[max(0, i-4)..i]`. */
  lemma {:induction false} DescriptionReadsOnlyWindow(lines: seq<string>, lines': seq<string>, i: nat, code: string)
    requires i < |lines| && i < |lines'|
    requires lines[LookbackStart(i)..i] == lines'[LookbackStart(i)..i]
    ensures Description(lines, i, code) == Description(lines', i, code)
  {
    var lo := LookbackStart(i);
    var vs, vs' := Verdicts(lines), Verdicts(lines');
    forall k | lo <= k < i
      ensures vs[k] == vs'[k]
    {
      SameLineSameVerdict(lines, lines', lo, i, k);
    }
    ScanAgrees(vs, vs', lo, i);
  }

  lemma SameLineSameVerdict(lines: seq<string>, lines': seq<string>, lo: nat, i: nat, k: nat)
    requires lo <= k < i <= |lines| && i <= |lines'| && lines[lo..i] == lines'[lo..i]
    ensures Verdicts(lines)[k] == Verdicts(lines')[k]
  {
    assert lines[k] == lines[lo..i][k - lo] == lines'[k];
  }

  lemma {:induction false} ScanAgrees(vs: seq<Verdict>, vs': seq<Verdict>, lo: nat, upto: nat)
    requires lo <= upto <= |vs| && upto <= |vs'|
    requires forall k :: lo <= k < upto ==> vs[k] == vs'[k]
    ensures LookbackScan(vs, lo, upto) == LookbackScan(vs', lo, upto)
    decreases upto
  {
    if upto > lo {
      ScanAgrees(vs, vs', lo, upto - 1);
    }
  }

  /** An HTS line right before the item ends the lookback: the item gets
      the table entry or its own code. */
  lemma HtsLineAboveStopsLookback(lines: seq<string>, i: nat, code: string)
    requires 0 < i < |lines|
    requires HtsLineMatch(Trim(lines[i - 1])).Some?
    ensures Description(lines, i, code) == FallbackDescription(code)
  {
    var line := Trim(lines[i - 1]);
    HtsLineStartsWithDigit(line);
    DigitLineIsNotSkipped(line);
    assert Classify(line) == Stop;
    var vs := Verdicts(lines);
    assert vs[i - 1] == Stop;
    assert LookbackStart(i) < i;
    assert LookbackScan(vs, LookbackStart(i), i) == None;
  }

  lemma HtsLineStartsWithDigit(line: string)
    requires HtsLineMatch(line).Some?
    ensures line != [] && IsDigit(line[0])
  {
    if MatchesAt(line, 0, Chapter99Pattern) {
      assert InClass(Chapter99Pattern[0], line[0]);
    } else {
      assert InClass(ProductCodePattern[0], line[0]);
    }
  }

  /** A line starting with a digit is never passed over by the lookback. */
  lemma DigitLineIsNotSkipped(line: string)
    requires line != [] && IsDigit(line[0])
    ensures !IsSkippedLine(line)
  {
    NotLetterPrefix(line, "INVOICE");
    NotLetterPrefix(line, "I.T.");
    NotLetterPrefix(line, "MASTER");
    NotLetterPrefix(line, "HOUSE");
    NotLetterPrefix(line, "SUBHOUSE");
    NotLetterPrefix(line, "BILL");
    NotLetterPrefix(line, "Dollars");
    NotLetterPrefix(line, "Cents");
    NotLetterPrefix(line, "DollarsCents");
  }

  /** A line starting with a digit starts with no word, in any case. */
  lemma NotLetterPrefix(line: string, word: string)
    requires line != [] && IsDigit(line[0])
    requires word != [] && 'A' <= word[0] <= 'Z'
    ensures !StartsWith(line, word) && !StartsWithIgnoreCase(line, word)
  {
    assert UpperAscii(line[0]) == line[0];
    assert |word| <= |line| ==> line[..|word|][0] == line[0];
  }

  /** `extractDescription`: the backward loop with its `continue`s and its
      `break`, proved to compute the lookback. */
  method ExtractDescription(lines: seq<string>, htsLineIndex: nat, htsCode: string) returns (r: string)
    requires htsLineIndex < |lines|
    ensures r == Description(lines, htsLineIndex, htsCode)
  {
    var lo := LookbackStart(htsLineIndex);
    for i := htsLineIndex downto lo
      invariant LookbackScan(Verdicts(lines), lo, htsLineIndex) == LookbackScan(Verdicts(lines), lo, i)
    {
      var line := Trim(lines[i]);
      assert Verdicts(lines)[i] == Classify(line);
      if line == [] { continue; }
      if IsClassificationCode(line) { continue; }
      if line == "N" { continue; }
      if IsBillHeader(line) { continue; }
      if IsColumnHeader(line) { continue; }
      if HtsLineMatch(line).Some? {
        assert Classify(line) == Stop;
        break;
      }
      var desc := Trim(StripLineNumber(line));
      if desc != [] {
        assert Classify(line) == Take(desc);
        return desc;
      }
    }
    r := FallbackDescription(htsCode);
  }

  // ---------------------------------------------------------------------
  // Line items

  /** The HTS code, duty amount in cents and rate a trimmed line yields,
      if it is an HTS line with a duty amount. */
  function RecogniseLine(line: string): Option<(string, nat, Option<string>)>
  {
    if line == [] then None
    else match HtsLineMatch(line)
      case None => None
      case Some(code) =>
        if IsFeeLine(line) then None
        else
          var remainder := line[|code|..];
          match TrailingAmount(remainder, NoDigitOrDot)
          case None => None
          case Some(amount) => Some((code, AmountCents(amount), ExtractRate(remainder)))
  }

  /** The item line `i` yields before deduplication. */
  function CandidateAt(lines: seq<string>, i: nat): (r: Option<LineItem>)
    requires i < |lines|
  {
    match RecogniseLine(Trim(lines[i]))
    case None => None
    case Some((code, cents, rate)) =>
      Some(LineItem(code, cents, rate, Description(lines, i, code), IsIeepaCode(code)))
  }

  /** What a recognised line holds: an HTS code that starts the trimmed
      line, the last amount after it (leftmost match of the amount
      pattern, all its digits read as cents), the last rate after it, and
      the IEEPA flag. A line without an amount after its code yields
      nothing. */
  lemma CandidateAtIsTheLastAmount(lines: seq<string>, i: nat)
    requires i < |lines|
    ensures CandidateAt(lines, i).Some? ==>
              var item := CandidateAt(lines, i).value;
              var line := Trim(lines[i]);
              var remainder := line[|item.htsCode|..];
              IsHtsCode(item.htsCode) && StartsWith(line, item.htsCode)
              && HtsLineMatch(line) == Some(item.htsCode)
              && (exists p: nat, e: nat ::
                    AmountMatch(remainder, p, e, NoDigitOrDot)
                    && (forall p': nat, e': nat :: p' < p ==> !AmountMatch(remainder, p', e', NoDigitOrDot))
                    && item.dutyCents == DigitsValue(OnlyDigits(remainder[p..e])))
              && item.rate == ExtractRate(remainder)
              && item.description == Description(lines, i, item.htsCode)
              && (item.isIeepa <==> IsIeepaCode(item.htsCode))
    ensures CandidateAt(lines, i).None? <==>
              match HtsLineMatch(Trim(lines[i]))
              case None => true
              case Some(code) =>
                var remainder := Trim(lines[i])[|code|..];
                forall p: nat, e: nat :: !AmountMatch(remainder, p, e, NoDigitOrDot)
  {
    var line := Trim(lines[i]);
    if line == [] {
      assert HtsLineMatch(line).None?;
    } else if HtsLineMatch(line).Some? {
      var code := HtsLineMatch(line).value;
      var remainder := line[|code|..];
      if IsFeeLine(line) {
        FeeLineIsNeverHtsLine(line);
      }
      TrailingAmountIsLeftmostMatch(remainder, NoDigitOrDot);
      match TrailingAmountSpan(remainder, NoDigitOrDot)
      case Some((p, e)) =>
        CentsAreTheDigits(remainder[p..e]);
      case None =>
    }
  }

  /** The keys of a list of items. */
  function KeysOf(items: seq<LineItem>): set<(string, nat)> {
    set k | 0 <= k < |items| :: Key(items[k])
  }

  /** The candidate of every line. */
  function Candidates(lines: seq<string>): (cs: seq<Option<LineItem>>)
    ensures |cs| == |lines|
    ensures forall i :: 0 <= i < |lines| ==> cs[i] == CandidateAt(lines, i)
  {
    seq(|lines|, i requires 0 <= i < |lines| => CandidateAt(lines, i))
  }

  /** The items of `cs[..n]` after deduplication: each candidate whose key
      an earlier item already has is dropped. */
  function Dedup(cs: seq<Option<LineItem>>, n: nat): seq<LineItem>
    requires n <= |cs|
  {
    if n == 0 then []
    else
      var prev := Dedup(cs, n - 1);
      match cs[n - 1]
      case None => prev
      case Some(item) => if Key(item) in KeysOf(prev) then prev else prev + [item]
  }

  /** The index of the candidate each item of `Dedup(cs, n)` comes from. */
  function Origins(cs: seq<Option<LineItem>>, n: nat): seq<nat>
    requires n <= |cs|
  {
    if n == 0 then []
    else
      var prev := Origins(cs, n - 1);
      match cs[n - 1]
      case None => prev
      case Some(item) => if Key(item) in KeysOf(Dedup(cs, n - 1)) then prev else prev + [n - 1]
  }

  /** Candidate `i` is the first one with its key. */
  predicate FirstWithKey(cs: seq<Option<LineItem>>, i: nat)
    requires i < |cs|
  {
    cs[i].Some? && forall j :: 0 <= j < i && cs[j].Some? ==> Key(cs[j].value) != Key(cs[i].value)
  }

  /** Deduplication keeps, in order, exactly the first candidate for each
      `(htsCode, dutyAmount)` key: the items come from strictly increasing
      positions and each is the first candidate with its key. */
  lemma {:induction false} DedupIsFirstOccurrences(cs: seq<Option<LineItem>>, n: nat)
    requires n <= |cs|
    ensures |Origins(cs, n)| == |Dedup(cs, n)|
    ensures forall k :: 0 <= k < |Origins(cs, n)| ==>
              Origins(cs, n)[k] < n && FirstWithKey(cs, Origins(cs, n)[k])
              && cs[Origins(cs, n)[k]] == Some(Dedup(cs, n)[k])
    ensures forall k, k' :: 0 <= k < k' < |Origins(cs, n)| ==> Origins(cs, n)[k] < Origins(cs, n)[k']
  {
    if n > 0 {
      DedupIsFirstOccurrences(cs, n - 1);
      var prev, prevOrigins := Dedup(cs, n - 1), Origins(cs, n - 1);
      if cs[n - 1].Some? && Key(cs[n - 1].value) !in KeysOf(prev) {
        var item := cs[n - 1].value;
        DedupKeepsEveryKey(cs, n - 1);
        assert FirstWithKey(cs, n - 1);
        assert Dedup(cs, n) == prev + [item];
        assert Origins(cs, n) == prevOrigins + [n - 1];
      } else {
        assert Dedup(cs, n) == prev;
        assert Origins(cs, n) == prevOrigins;
      }
    }
  }

  /** Every candidate's key is among the kept items' keys. */
  lemma {:induction false} DedupKeepsEveryKey(cs: seq<Option<LineItem>>, n: nat)
    requires n <= |cs|
    ensures forall i :: 0 <= i < n && cs[i].Some? ==> Key(cs[i].value) in KeysOf(Dedup(cs, n))
  {
    if n > 0 {
      DedupKeepsEveryKey(cs, n - 1);
      var prev := Dedup(cs, n - 1);
      match cs[n - 1]
      case None =>
      case Some(item) =>
        if Key(item) !in KeysOf(prev) {
          KeysOfAppend(prev, item);
        }
    }
  }

  /** The kept items' keys are pairwise distinct. */
  lemma {:induction false} DedupKeysDistinct(cs: seq<Option<LineItem>>, n: nat)
    requires n <= |cs|
    ensures forall k, k' :: 0 <= k < k' < |Dedup(cs, n)| ==> Key(Dedup(cs, n)[k]) != Key(Dedup(cs, n)[k'])
  {
    if n > 0 {
      DedupKeysDistinct(cs, n - 1);
    }
  }

  lemma KeysOfAppend(items: seq<LineItem>, item: LineItem)
    ensures KeysOf(items + [item]) == KeysOf(items) + {Key(item)}
  {
    var all := items + [item];
    forall key | key in KeysOf(items)
      ensures key in KeysOf(all)
    {
      var k :| 0 <= k < |items| && Key(items[k]) == key;
      assert all[k] == items[k];
    }
    assert all[|items|] == item;
  }

  /** The same code with another amount is another item; a repeat of
      code and amount is dropped, wherever it occurs. */
  lemma DedupExample()
    ensures var first := LineItem("9903.01.25", 10000, Some("10%"), "Reciprocal", true);
            var other := first.(dutyCents := 2500);
            var repeat := first.(description := "Reciprocal tariff");
            Dedup([Some(first), None, Some(other), Some(repeat)], 4) == [first, other]
  {
    var first := LineItem("9903.01.25", 10000, Some("10%"), "Reciprocal", true);
    var other := first.(dutyCents := 2500);
    var repeat := first.(description := "Reciprocal tariff");
    var cs := [Some(first), None, Some(other), Some(repeat)];
    assert Dedup(cs, 1) == [first];
    assert Dedup(cs, 2) == [first];
    assert Key(other) !in KeysOf([first]);
    assert Dedup(cs, 3) == [first, other];
    assert Key(repeat) == Key([first, other][0]);
    assert Key(repeat) in KeysOf([first, other]);
  }

  /** The items of the first `n` lines. */
  function ItemsUpTo(lines: seq<string>, n: nat): seq<LineItem>
    requires n <= |lines|
  {
    Dedup(Candidates(lines), n)
  }

  /** A line that yields no candidate leaves the items unchanged. */
  lemma SkipLine(lines: seq<string>, i: nat)
    requires i < |lines| && RecogniseLine(Trim(lines[i])).None?
    ensures ItemsUpTo(lines, i + 1) == ItemsUpTo(lines, i)
  {
    assert Candidates(lines)[i].None?;
  }

  /** A recognised line adds its item unless an item with the same key
      is already kept. */
  lemma TakeLine(lines: seq<string>, i: nat, item: LineItem)
    requires i < |lines|
    requires RecogniseLine(Trim(lines[i])) == Some((item.htsCode, item.dutyCents, item.rate))
    requires item.description == Description(lines, i, item.htsCode)
    requires item.isIeepa == IsIeepaCode(item.htsCode)
    ensures Key(item) in KeysOf(ItemsUpTo(lines, i)) ==> ItemsUpTo(lines, i + 1) == ItemsUpTo(lines, i)
    ensures Key(item) !in KeysOf(ItemsUpTo(lines, i)) ==> ItemsUpTo(lines, i + 1) == ItemsUpTo(lines, i) + [item]
  {
    assert Candidates(lines)[i] == Some(item);
  }

  /** `extractAllLineItems`: the forward loop with its `continue`s and the
      set of seen keys, proved to compute the deduplicated items. */
  method ExtractAllLineItems(lines: seq<string>) returns (items: seq<LineItem>)
    ensures items == ItemsUpTo(lines, |lines|)
  {
    items := [];
    var seenEntries: set<(string, nat)> := {};
    for i := 0 to |lines|
      invariant items == ItemsUpTo(lines, i)
      invariant seenEntries == KeysOf(items)
    {
      var line := Trim(lines[i]);
      if line == [] { SkipLine(lines, i); continue; }
      var htsMatch := HtsLineMatch(line);
      if htsMatch.None? { SkipLine(lines, i); continue; }
      var htsCode := htsMatch.value;
      if IsFeeLine(line) { SkipLine(lines, i); continue; }
      var remainder := line[|htsCode|..];
      var amountMatch := TrailingAmount(remainder, NoDigitOrDot);
      if amountMatch.None? { SkipLine(lines, i); continue; }
      var dutyAmount := AmountCents(amountMatch.value);
      var rate := ExtractRate(remainder);
      var description := ExtractDescription(lines, i, htsCode);
      var isIeepa := IsIeepaCode(htsCode);
      var item := LineItem(htsCode, dutyAmount, rate, description, isIeepa);
      TakeLine(lines, i, item);
      if (htsCode, dutyAmount) in seenEntries { continue; }
      seenEntries := seenEntries + {(htsCode, dutyAmount)};
      KeysOfAppend(items, item);
      items := items + [item];
    }
  }
}
