/**
 * The availability classifier of `check_course_availability`: after the
 * Region / POU / Course cascade has been driven and "Get List" clicked, three
 * queries to the browser decide whether the result page shows a bookable batch.
 */
module Classifier {
  import opened Text

  /**
   * The result of one query to the browser driver: the value it returned,
   * Selenium's `NoSuchElementException`, or any other exception.
   */
  datatype Probe<T> = Got(value: T) | NoSuchElement | Raised

  /**
   * The result page as the classifier observes it: `driver.page_source`, the
   * number of elements matching the CSS selector `table tr` anywhere on the
   * page, and the `.text` of the first `table` element.
   */
  datatype Page = Page(source: Probe<string>, rowCount: Probe<nat>, firstTableText: Probe<string>)

  /**
   * How far one course check got: the cascade (waits, dropdown selections,
   * the click) raised, or the search was submitted and the page can be read.
   */
  datatype CheckOutcome = CascadeFailed | Submitted(page: Page)

  /** Phrases whose presence in the lower-cased page source means "no slots". */
  const NoBatchIndicators: seq<string> :=
    ["no batch available", "no batch", "no records found", "batch not available"]

  /** The stripped table text must be strictly longer than this to count as data. */
  const MinTableTextLength: nat := 50

  /** Does any of `pats` occur in `text`? */
  function ContainsAny(text: string, pats: seq<string>): (b: bool)
    ensures b <==> exists k :: 0 <= k < |pats| && Contains(text, pats[k])
  {
    if pats == [] then false
    else Contains(text, pats[0]) || ContainsAny(text, pats[1..])
  }

  /** The lower-cased page source holds one of the "no batch" phrases. */
  predicate ShowsNoBatch(source: string) {
    ContainsAny(Lower(source), NoBatchIndicators)
  }

  /**
   * The classification rules, first match wins. Any failure to read the page
   * source gives "no slots"; a `NoSuchElementException` from the row or table
   * lookup is swallowed and falls through to the next rule; any other
   * exception turns into "no slots".
   */
  function Classify(p: Page): bool {
    if !p.source.Got? then false
    else if ShowsNoBatch(p.source.value) then false
    else if p.rowCount.Raised? then false
    else if p.rowCount.Got? && p.rowCount.value > 1 then true
    else
      match p.firstTableText
      case Got(text) => |Strip(text)| > MinTableTextLength
      case NoSuchElement => false
      case Raised => false
  }

  /** The boolean `check_course_availability` returns. */
  function Check(outcome: CheckOutcome): bool {
    match outcome
    case CascadeFailed => false
    case Submitted(page) => Classify(page)
  }

  /** The page has the evidence of a batch that the classifier looks for. */
  ghost predicate HasBatchEvidence(p: Page) {
    p.source.Got? && !ShowsNoBatch(p.source.value) &&
    ((p.rowCount.Got? && p.rowCount.value > 1) ||
     (!p.rowCount.Raised? && p.firstTableText.Got? && |Strip(p.firstTableText.value)| > MinTableTextLength))
  }

  // ---------------------------------------------------------------------------
  // Properties of the classifier
  // ---------------------------------------------------------------------------

  /** The page is classified available exactly when it shows batch evidence. */
  lemma AvailableIffEvidence(p: Page)
    ensures Classify(p) <==> HasBatchEvidence(p)
  {
  }

  /** Every indicator phrase is already lower-case. */
  lemma IndicatorsAreLowerCase()
    ensures forall k :: 0 <= k < |NoBatchIndicators| ==> NoUpper(NoBatchIndicators[k])
  {
  }

  /**
   * The phrase test is case-insensitive: the page shows "no batch" exactly
   * when some indicator occurs in the original source in any mix of cases.
   */
  lemma ShowsNoBatchIgnoresCase(source: string)
    ensures ShowsNoBatch(source) <==>
      exists k, i :: 0 <= k < |NoBatchIndicators| && OccursIgnoringCaseAt(source, NoBatchIndicators[k], i)
  {
    IndicatorsAreLowerCase();
    forall k | 0 <= k < |NoBatchIndicators|
      ensures Contains(Lower(source), NoBatchIndicators[k]) <==>
        exists i :: OccursIgnoringCaseAt(source, NoBatchIndicators[k], i)
    {
      ContainsLowerIgnoresCase(source, NoBatchIndicators[k]);
    }
  }

  /**
   * An indicator phrase, in any case, anywhere in the source makes the page
   * unavailable whatever its rows and table say.
   */
  lemma NoBatchPhraseWins(p: Page, k: nat, i: nat)
    requires p.source.Got? && k < |NoBatchIndicators|
    requires OccursIgnoringCaseAt(p.source.value, NoBatchIndicators[k], i)
    ensures !Classify(p)
  {
    ShowsNoBatchIgnoresCase(p.source.value);
  }

  /** With no indicator, more than one `table tr` row means available. */
  lemma ManyRowsMeanAvailable(p: Page)
    requires p.source.Got? && !ShowsNoBatch(p.source.value)
    requires p.rowCount.Got? && p.rowCount.value > 1
    ensures Classify(p)
  {
  }

  /**
   * With no indicator and at most a header row (or no rows found), the verdict
   * is decided by the first table's stripped text alone.
   */
  lemma FewRowsDecidedByTableText(p: Page)
    requires p.source.Got? && !ShowsNoBatch(p.source.value)
    requires p.rowCount == NoSuchElement || (p.rowCount.Got? && p.rowCount.value <= 1)
    ensures Classify(p) <==>
      p.firstTableText.Got? && |Strip(p.firstTableText.value)| > MinTableTextLength
  {
  }

  /** The length threshold is strict: exactly 50 stripped characters is not enough. */
  lemma FiftyCharactersAreNotEnough(p: Page)
    requires p.source.Got? && p.rowCount.Got? && p.rowCount.value <= 1
    requires p.firstTableText.Got? && |Strip(p.firstTableText.value)| == MinTableTextLength
    ensures !Classify(p)
  {
  }

  /**
   * White space around the table's text never changes the verdict, so padding
   * cannot push a table over the threshold.
   */
  lemma PaddingDoesNotChangeVerdict(p: Page, pre: string, text: string, post: string)
    requires AllSpace(pre) && AllSpace(post)
    requires p.firstTableText == Got(pre + text + post)
    ensures Classify(p) == Classify(p.(firstTableText := Got(text)))
  {
    StripIgnoresPadding(pre, text, post);
  }

  /** Any failure, in the cascade or in reading the page, yields "no slots". */
  lemma FailuresMeanNoSlots(p: Page)
    ensures !Check(CascadeFailed)
    ensures !p.source.Got? ==> !Check(Submitted(p))
    ensures p.rowCount.Raised? ==> !Check(Submitted(p))
    ensures p.firstTableText.Raised? && !(p.rowCount.Got? && p.rowCount.value > 1) ==> !Check(Submitted(p))
  {
  }

  /**
   * "no batch available" contains "no batch", so the first indicator never
   * decides anything the second would not: the list without it classifies alike.
   */
  lemma FirstIndicatorIsRedundant(text: string)
    ensures ContainsAny(text, NoBatchIndicators) == ContainsAny(text, NoBatchIndicators[1..])
  {
    var long, short := NoBatchIndicators[0], NoBatchIndicators[1];
    if Contains(text, long) {
      assert long[0..|short|] == short;
      ContainsFromLonger(text, long, short, 0);
    }
  }
}
