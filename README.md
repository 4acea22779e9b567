# IEEPA refund checker: entry-summary parsing and the MySQL query builder

This project models two parts of a service that checks CBP Form 7501 entry
summaries for IEEPA tariff duties that may be refunded.

The first part is `parseEntrySummary`. It runs once the PDF's text has been
extracted, and does the following:

- **Format gate.** The text must mention "ENTRY SUMMARY" or "CBP Form 7501".
- **Header fields.** It reads the entry number, filer code, entry date,
  country of origin and total entered value.
- **Line items.** It reads every tariff line item: the HTS code at the
  start of a line, the duty (the line's last two-decimal amount), the rate
  (the last percentage or `Free` token, with a leading-zero artefact
  cleaned), and a description taken from the lines above.
- **Deduplication.** It drops items whose HTS code and duty amount repeat.
- **Result.** It keeps the items whose code is a `9903.01.NN` IEEPA code and
  whose duty is not zero. From those it builds the total refund, the
  distinct codes and the eligibility flag.

The second part is the MySQL query builder:

- `getUpdateQuery` builds a parameterised `update` statement from ordered
  fields and an optional condition.
- The wrappers around the json-sql library rewrite its placeholders
  (`$$N` becomes `?`).
- `getInsertUpdateQuery` builds an upsert from a json-sql insert and the
  set clauses of an update.

Modules, in dependency order:

- `Text` (`text.dfy`) holds characters, trimming, substring tests, line
  splitting and joining, and digit values.
- `Patterns` (`patterns.dfy`) holds the fixed-width character-class patterns,
  the leftmost match and the global (non-overlapping) scan, the HTS-line
  test, the trailing-amount matcher, rate tokens and the filer-code label.
- `Rates` (`rates.dfy`) holds `extractRate`.
- `LineItems` (`line_items.dfy`) holds the known IEEPA descriptions,
  `extractDescription` and `extractAllLineItems`.
- `Header` (`header.dfy`) holds the header extractors.
- `EntrySummary` (`entry_summary.dfy`) holds the gate, the assembly of the
  result and `parseEntrySummary`.
- `QueryBuilder` (`query_builder.dfy`) holds the query builder.

How the model represents the source:

- **Amounts.** Amounts are whole cents. A two-decimal token such as
  `28,263.40` has its commas removed and its digits read as one number
  (2826340).
- **Extractors.** Each extractor that loops in the source is a method with
  the same loop. It is proved equal to a function over the lines, and the
  properties are lemmas about those functions.
- **Regular expressions.** The regular expressions of the source are
  written out as the matchers they stand for. Under the `i` flag, letters
  are folded in ASCII only. `\s` is the ECMAScript white-space set. A global
  scan resumes after each match.
- **Exact form of the code.** The model follows the code's exact form.
  An entry-number line without a date does not stop the date scan, and the
  scan for dates does not overlap its matches.

## Model

| member | source | states |
|---|---|---|
| Text.JoinSplitLines | lib/pdf/parse-entry-summary.mjs:101 | Joining the split lines with line feeds gives the text back, so the filer-code label is searched in the extracted text itself. |
| Text.SplitJoinLines | lib/pdf/parse-entry-summary.mjs:37 | Splitting lines joined by line feeds, none holding one, gives the lines back: the other half of the round trip. |
| Patterns.FirstMatch | lib/pdf/parse-entry-summary.mjs:91 | The position found is a match, and no position before it matches; when there is none, no position matches. |
| Patterns.ScanAll | lib/pdf/parse-entry-summary.mjs:114 | The global scan finds matches in increasing, non-overlapping order. It starts with the leftmost match, is empty exactly when nothing matches, and nothing matches after its last match. |
| Patterns.ScanAllFirstIsLeftmost | lib/pdf/parse-entry-summary.mjs:114 | No match starts between the scan's start and its first match. |
| Patterns.ScanAllSkipsNothing | lib/pdf/parse-entry-summary.mjs:114 | No match starts between the end of one scan match and the start of the next: the scan resumes at each match's end and takes the leftmost match from there. |
| Patterns.HtsLineMatch | lib/pdf/parse-entry-summary.mjs:24-26 | A code is found exactly when the line starts with an 8-digit Chapter 99 code or a 10-digit product code; the code found is an HTS code and starts the line. When the Chapter 99 alternative matches it wins, giving the 8-digit code even where a product code also matches. Otherwise the product code is taken. |
| Patterns.HtsLinePrefersChapter99 | lib/pdf/parse-entry-summary.mjs:24-26 | "9903.88.0312 1,000.00" matches both alternatives and yields "9903.88.03". |
| Patterns.FeeLineIsNeverHtsLine | lib/pdf/parse-entry-summary.mjs:172 | A line starting with 499 or 501 and a space never starts with an HTS code, so the fee-line test after the HTS match never fires. |
| Patterns.IeepaCodeIsChapter99 | lib/pdf/parse-entry-summary.mjs:5 | Every `9903.01.NN` code is an 8-digit Chapter 99 code, and a line starting with it yields exactly that code. |
| Patterns.TrailingAmountIsLeftmostMatch | lib/pdf/parse-entry-summary.mjs:29 | The amount span found from the right is the leftmost match of the last-amount expression (an amount followed only by characters other than digits and points), and that match has only one end; when no span is found, nothing matches. |
| Patterns.CentsAreTheDigits | lib/pdf/parse-entry-summary.mjs:179 | An amount's value in cents is its digits read without commas and the decimal point. |
| Patterns.RateMatchAtIsRateToken | lib/pdf/parse-entry-summary.mjs:32 | A rate match starts at `i` and ends at `e` exactly when the text between is `Free`, digits and `%`, or digits, a point, digits and `%`. |
| Patterns.FirstFilerLabel | lib/pdf/parse-entry-summary.mjs:102 | The capture is 3 or 4 ASCII letters or digits. |
| Patterns.FirstFilerLabelIsLeftmost | lib/pdf/parse-entry-summary.mjs:102 | The capture comes from the leftmost position where the filer label matches; none is found only when it matches nowhere. |
| Rates.RateSpans | lib/pdf/parse-entry-summary.mjs:213 | Every span of the rate scan is a rate token, and the spans are in order and do not overlap. |
| Rates.RateSpansComplete | lib/pdf/parse-entry-summary.mjs:213 | The scan is empty exactly when the text holds no rate token, and no token starts after the last span. |
| Rates.RateSpansFirstIsLeftmost | lib/pdf/parse-entry-summary.mjs:213 | No rate token starts before the scan's first span. |
| Rates.RateSpansSkipNothing | lib/pdf/parse-entry-summary.mjs:213 | No rate token starts between the end of one span and the start of the next, so the spans are exactly the matches of the global scan. |
| Rates.ExtractRateIsLastToken | lib/pdf/parse-entry-summary.mjs:212-224 | The rate is absent exactly when the text holds no rate token. Otherwise it is the cleaned text of the last span of the global scan, a rate token after whose end no token starts. |
| Rates.ExtractRateTakesWholeToken | lib/pdf/parse-entry-summary.mjs:213-216 | In "10%" the rate is "10%", not the token "0%" that also sits inside it. |
| Rates.ExtractRateAsWrittenDiffersOnlyOnZeros | lib/pdf/parse-entry-summary.mjs:212-224 | The source's `extractRate` and the corrected one find a rate on the same texts. They differ only when the last token is zeros and a percent sign. |
| Rates.ExtractRateOnZeroRate | lib/pdf/parse-entry-summary.mjs:220-222 | On "00%" the source's `extractRate` gives "%" and the corrected one gives "0%". |
| Rates.ExtractRateExample | lib/pdf/parse-entry-summary.mjs:210-224 | On "0.00 010%28,263.40" the rate is "10%". |
| Rates.CleanRateAsWrittenLosesDigits | lib/pdf/parse-entry-summary.mjs:220-222 | The clean-up as written turns "00%" into "%", which is not a rate. |
| Rates.CleanRateKeepsTheRate | lib/pdf/parse-entry-summary.mjs:220-223 | The corrected clean-up keeps every rate a rate, with the same numeric value. It leaves `Free` and decimal rates alone. A rate with the leading-zero artefact keeps no leading zero, except that "00%" becomes "0%". |
| LineItems.EligibilityIsPatternOnly | lib/pdf/parse-entry-summary.mjs:5-18 | `9903.01.99` is an IEEPA code though it has no known description; `9903.02.20` is not one. Every code with a known description is an IEEPA code with a non-empty description. |
| LineItems.Classify | lib/pdf/parse-entry-summary.mjs:232-247 | The description a line offers is never empty. |
| LineItems.LookbackIsNearestTake | lib/pdf/parse-entry-summary.mjs:231-248 | The lookback finds a description exactly when a line in the window offers one and no line between it and the HTS line offers one or stops the scan. |
| LineItems.DescriptionIsNonEmpty | lib/pdf/parse-entry-summary.mjs:246-251 | For a non-empty code the description is never empty, whether it comes from a line, the known IEEPA description or the code itself. |
| LineItems.DescriptionReadsOnlyWindow | lib/pdf/parse-entry-summary.mjs:231 | The description depends only on the (at most four) lines above the HTS line. |
| LineItems.HtsLineAboveStopsLookback | lib/pdf/parse-entry-summary.mjs:243 | An HTS line directly above ends the lookback, so the fallback description is used. |
| LineItems.ExtractDescription | lib/pdf/parse-entry-summary.mjs:230-252 | The loop returns the description the lookback defines. |
| LineItems.CandidateAtIsTheLastAmount | lib/pdf/parse-entry-summary.mjs:162-188 | A line yields an item exactly when it starts with an HTS code and has a last amount. The item's duty is that amount in cents; its rate, description and IEEPA flag come from the rate scan, the lookback and the IEEPA pattern. |
| LineItems.DedupIsFirstOccurrences | lib/pdf/parse-entry-summary.mjs:190-193 | Each kept item is the first candidate with its (code, duty) key, taken in line order. |
| LineItems.DedupKeepsEveryKey | lib/pdf/parse-entry-summary.mjs:190-193 | Every candidate's key has an item. |
| LineItems.DedupKeysDistinct | lib/pdf/parse-entry-summary.mjs:190-193 | No two items share a key. |
| LineItems.DedupExample | lib/pdf/parse-entry-summary.mjs:190-193 | The same code with another duty is kept; a repeated code and duty is dropped. |
| LineItems.ExtractAllLineItems | lib/pdf/parse-entry-summary.mjs:158-205 | The loop with its seen-keys set returns the deduplicated candidates of all lines. |
| Text.FirstSomeIsFirstHit | lib/pdf/parse-entry-summary.mjs:89-94 | The first hit of a line-by-line scan is absent exactly when no line hits; otherwise it is the hit of a line above which none hit. |
| Header.EntryNumber | lib/pdf/parse-entry-summary.mjs:88-95 | An entry number is 13 characters of the form `XXX-NNNNNNN-N`. |
| Header.EntryNumberOn | lib/pdf/parse-entry-summary.mjs:91 | A line holds an entry number exactly when the pattern matches somewhere in it; the number is the text of the leftmost match. |
| Header.ExtractEntryNumber | lib/pdf/parse-entry-summary.mjs:88-95 | The loop returns the entry number of the first line that holds one, or none when no line does. |
| Header.ExtractFilerCode | lib/pdf/parse-entry-summary.mjs:100-104 | The fallback filer code is 3 or 4 ASCII letters or digits, captured at the leftmost label match in the joined text. It is absent exactly when no label matches. |
| Header.EntryDateOnIsLastDate | lib/pdf/parse-entry-summary.mjs:112-115 | A line gives a date exactly when it holds an entry number and a date. The date is the text at the last match of the global date scan. That scan starts at the leftmost date and skips no date between its matches. No date starts after the chosen one ends. |
| Header.OverlappingDatesYieldTheFirst | lib/pdf/parse-entry-summary.mjs:114 | In "01/02/2003/04/2005" the scan sees only the first date, though another date starts at position 8. |
| Header.EntryDateSkipsOverlappedDate | lib/pdf/parse-entry-summary.mjs:112-115 | On "ABC-1234567-8 01/02/2003/04/2005/06/2007" the scan finds the dates at 14 and 30. It passes over the date at 22, and the line's date is "05/06/2007". |
| Header.ExtractEntryDate | lib/pdf/parse-entry-summary.mjs:110-118 | The loop returns the date of the first line that gives one, or none. |
| Header.CountryAt | lib/pdf/parse-entry-summary.mjs:127-131 | A country is found at a line exactly when the line mentions "Country of Origin" in any case, a next line exists, and that line holds two digits, two capitals and a date. The country is the two capitals of the leftmost such match on the next line. |
| Header.CountryAtExample | lib/pdf/parse-entry-summary.mjs:127-131 | A "Country of Origin" line followed by "11CN01/15/2025" gives "CN". |
| Header.ExtractCountryOfOrigin | lib/pdf/parse-entry-summary.mjs:125-135 | The loop returns the country of the first header line that yields one, or none. |
| Header.TotalOnIsTheTrailingAmount | lib/pdf/parse-entry-summary.mjs:143-146 | A line gives a total exactly when it is a total line (the label, and neither "Block 39" nor "35."). It must also end in an amount followed only by white space. The value is that amount's digits. |
| Header.ExtractTotalEnteredValue | lib/pdf/parse-entry-summary.mjs:141-149 | The loop returns the total of the first line that gives one, or none. |
| EntrySummary.ParseEntrySummary | lib/pdf/parse-entry-summary.mjs:34-81 | The method runs each extractor and returns the result `Parse` describes. |
| EntrySummary.ParseFailsOnlyAtTheGate | lib/pdf/parse-entry-summary.mjs:42-80 | Parsing fails, with `NotAnEntrySummary`, exactly when the text has neither marker. Otherwise the result carries the hash and the text. It also carries every header field the extractors give, the filer code included; a missing field is absent, never an error. Its line items are the reported shape of the refundable items extracted from all the lines. |
| EntrySummary.FilerCodeComesFromEntryNumber | lib/pdf/parse-entry-summary.mjs:47 | With an entry number, the filer code is its first three characters (capitals or digits); otherwise it is the label's capture. Either way it is made of ASCII letters and digits. |
| EntrySummary.RefundableKeepsExactlyTheRefundable | lib/pdf/parse-entry-summary.mjs:53-55 | The filter keeps exactly the items with an IEEPA flag and a non-zero duty. |
| EntrySummary.RefundableKeepsKeysDistinct | lib/pdf/parse-entry-summary.mjs:53-55 | The filter keeps keys pairwise distinct. |
| EntrySummary.Distinct | lib/pdf/parse-entry-summary.mjs:58 | Every distinct code is one of the codes. |
| EntrySummary.SumDutyOfPositives | lib/pdf/parse-entry-summary.mjs:57 | A sum of non-zero duties is at least each duty, and is non-zero exactly when there is an item. |
| EntrySummary.DistinctIsFirstAppearanceOrder | lib/pdf/parse-entry-summary.mjs:58 | The distinct codes have no repeats and the same members as the codes, in order of first appearance. |
| EntrySummary.BuildIsConsistent | lib/pdf/parse-entry-summary.mjs:53-79 | Reported items are exactly the refundable items, in order, each with its code, duty, rate and description; each has an IEEPA code and a non-zero duty. The total is their sum. The result is eligible exactly when it reports an item, and exactly when the total is positive. The codes found are the reported codes, each once, in order of first appearance. |
| EntrySummary.BuildKeepsKeysDistinct | lib/pdf/parse-entry-summary.mjs:61-66 | Reported items never share a code and duty. |
| EntrySummary.BuildReportsEveryRefundable | lib/pdf/parse-entry-summary.mjs:53-66 | Every refundable extracted item is reported with its code, duty, rate and description. |
| EntrySummary.ItemsAreCandidates | lib/pdf/parse-entry-summary.mjs:188 | Every extracted item's IEEPA flag is the IEEPA pattern applied to its code. |
| EntrySummary.ParseResultIsConsistent | lib/pdf/parse-entry-summary.mjs:52-79 | A parsed result reports only IEEPA items with non-zero duty. It is eligible exactly when it has items and exactly when its refund is positive. Its codes are distinct and exactly the reported ones, and its items have distinct keys. |
| EntrySummary.RefundableCandidateSurvivesDedup | lib/pdf/parse-entry-summary.mjs:188-193 | Refundability depends only on the key, so a refundable line's key has a refundable extracted item. |
| EntrySummary.EveryRefundableLineIsReported | lib/pdf/parse-entry-summary.mjs:52-66 | Every line whose item would be refundable has its code and duty in the result, so deduplication loses no refund. |
| QueryBuilder.RewritePlaceholders | lib/mysql/query-builder.mjs:17 | The global replace of `/\$\$\d+/g` by `?` never lengthens the query. |
| QueryBuilder.RewriteLeavesNoPlaceholder | lib/mysql/query-builder.mjs:17 | After the rewrite no `$$` followed by a digit is left, not even one formed across a replacement. |
| QueryBuilder.RewriteKeepsPlainText | lib/mysql/query-builder.mjs:17 | A text without placeholders is unchanged. |
| QueryBuilder.RewriteIsIdempotent | lib/mysql/query-builder.mjs:27 | Rewriting twice is rewriting once. |
| QueryBuilder.RewriteExample | lib/mysql/query-builder.mjs:80 | "a = $$12" becomes "a = ?": a placeholder and all its digits become one `?`. |
| QueryBuilder.RewriteSplitsBeforeMarker | lib/mysql/query-builder.mjs:17 | A text followed by one starting with `$$` is rewritten piece by piece: no placeholder of the first reaches into the second. |
| QueryBuilder.RewriteSplices | lib/mysql/query-builder.mjs:17 | `$$` with all its digits becomes exactly one `?`, and the text on either side is rewritten on its own. With RewriteKeepsPlainText this means every placeholder becomes `?` and nothing else changes. |
| QueryBuilder.FinishJsonSql | lib/mysql/query-builder.mjs:22-28 | A json-sql query keeps its values and its query is the placeholder rewrite of json-sql's query, which leaves no placeholder. The same holds for the select and delete wrappers. |
| QueryBuilder.Assignments | lib/mysql/query-builder.mjs:40-43 | There is one set clause per field, in entry order: the backquoted key, then " = ?". |
| QueryBuilder.GetUpdateQuery | lib/mysql/query-builder.mjs:31-58 | The two loops return the failure or the query and values `UpdateQuery` describes. |
| QueryBuilder.UpdateQueryFailsOnlyOnNonObjects | lib/mysql/query-builder.mjs:32-35 | The invariant fails exactly when the fields are null, undefined, an array or not an object; an empty object passes. |
| QueryBuilder.UpdateQueryValues | lib/mysql/query-builder.mjs:38-50 | The values are the field values in order, then the condition values in order; there are as many as fields and conditions together. |
| QueryBuilder.WhereClause | lib/mysql/query-builder.mjs:52 | The where clause is empty exactly when there are no condition entries. |
| QueryBuilder.UpdateQueryWhere | lib/mysql/query-builder.mjs:46-55 | The query is the head and the set clauses joined by ", ". It then ends with ";" exactly when the condition is null or empty, and otherwise continues with " where `". |
| QueryBuilder.PlaceholdersMatchValues | lib/mysql/query-builder.mjs:40-57 | When neither the table name nor a key holds a `?`, the query holds exactly one `?` per value. |
| QueryBuilder.Merge | lib/mysql/query-builder.mjs:64 | The spread keeps the first object's keys first, in their places. Those are followed exactly by the additions. |
| QueryBuilder.AdditionsAreTheNewEntries | lib/mysql/query-builder.mjs:64 | The additions are exactly the entries of the second object whose key the first lacks, in the second object's order. |
| QueryBuilder.MergeLookup | lib/mysql/query-builder.mjs:64 | In a spread the later object wins a key both objects have; other keys keep their values. |
| QueryBuilder.MergeHasKey | lib/mysql/query-builder.mjs:61 | The spread has a key exactly when either object has it. |
| QueryBuilder.DropLast | lib/mysql/query-builder.mjs:62 | The insert query loses exactly its last character, and an empty query stays empty. |
| QueryBuilder.UpdateHeadMatches | lib/mysql/query-builder.mjs:65-68 | The upsert's pattern matches the update query's head from its start. The match ends exactly where the head ends, when what follows is not white space. |
| QueryBuilder.UpsertTail | lib/mysql/query-builder.mjs:64-68 | For an update without a condition, the replacement leaves exactly the set clauses and ";". |
| QueryBuilder.GetInsertUpdateQuery | lib/mysql/query-builder.mjs:60-71 | The upsert is the insert without its last character, then " ON DUPLICATE KEY UPDATE ", the set clauses and ";". Its values are the insert's values followed by the update's; the update never fails the invariant. |
| QueryBuilder.UpsertMarks | lib/mysql/query-builder.mjs:65-69 | The update part adds one `?` per merged field, matching the update values appended. |

## Left out

- Reading the PDF (the text extraction library) is left out: the model starts from the extracted text.
- The file's SHA-256 hash is a parameter of `Parse`, because hashing is a foreign call.
- Floating-point amounts are left out. Duties and totals are whole cents, and their sum is exact where the source adds floats.
- The exception thrown at the gate is the `NotAnEntrySummary` error value. Its message text is not modelled.
- Strings are sequences of characters, not UTF-16 code units. The patterns involved are all ASCII.
- The unused exports `IEEPA_HTS_CODES` and `HTS_CODE_DESCRIPTIONS` are not modelled, since nothing in the core reads them.
- Rates.ExtractRate uses the corrected clean-up (`CleanRate`), so the rest of the model gives "0%" where the source gives "%" for a last rate token of zeros and a percent sign. `Rates.ExtractRateAsWritten` is the source's form, and `Rates.ExtractRateAsWrittenDiffersOnlyOnZeros` shows this is the only difference.
- LineItems.ExtractAllLineItems keeps the fee-line test the source has, and `Patterns.FeeLineIsNeverHtsLine` shows that it never fires.
- The SQL that json-sql builds is left out; the library is not part of this model. `GetInsertUpdateQuery` takes the insert builder as a function parameter. `FinishJsonSql` covers the placeholder rewrite shared by `getSelectQuery`, `getInsertQuery` and `getDeleteQuery`.
- QueryBuilder.GetInsertUpdateQuery reads the table name literally in the upsert's pattern. The source builds a regular expression from it, and a name with regular-expression metacharacters would change that pattern.
- QueryBuilder.SetPrefixEnd only tests for a match at the start of the text. The update query always matches there, so a match further on is never needed.
- Object entries are given in `Object.entries` order. JavaScript's reordering of integer-like keys ahead of other keys is not modelled.
- A condition that is falsy but not null or undefined is `NoCondition`, as the source treats it. A non-object truthy condition such as a string is not modelled.
- Bound values are null, integers, strings or booleans; floating-point numbers and other JavaScript values are not modelled.
- The MySQL connection, tables and API handlers, the React components, the formatters and the error classes are not part of this model.

## Findings

| source | as written | input that shows it | evidently intended | confidence | as-written member | corrected member |
|---|---|---|---|---|---|---|
| lib/pdf/parse-entry-summary.mjs:220-222 | A rate of a zero followed by digits and `%` loses all its leading zeros. | The rate token "00%" (a zero column run into a "0%" rate) becomes "%", which is not a rate. | Strip the artefact zeros but keep the last digit, so "00%" becomes "0%" and "010%" becomes "10%". | not executed | Rates.CleanRateAsWrittenLosesDigits | Rates.CleanRateKeepsTheRate |
