/** The severity rule of `assign_severity`: a negative complaint is High when
    its issue mentions a high-risk keyword or its product names a high-risk
    product, Medium otherwise; every other complaint is Low.

    The issue and product arrive as text already passed through Python's
    `str()`, so a missing cell arrives as "nan" (see `Frame.Str`).
 */
module SeverityClassifier {
  import opened Text
  import opened SentimentScorer

  datatype Severity = High | Medium | Low

  /** High-risk terms looked for in the lower-cased issue. */
  const RiskKeywords: seq<string> :=
    ["fraud", "scam", "identity", "unauthorized", "harassment", "charge", "dispute"]

  /** High-risk products looked for in the lower-cased product. */
  const RiskProducts: seq<string> :=
    ["credit card", "debt collection", "mortgage", "student loan"]

  /** Some term of `terms` is a substring of `text`. */
  function MentionsAny(text: string, terms: seq<string>): (b: bool)
    ensures b <==> exists k :: k in terms && Occurs(k, text)
  {
    if |terms| == 0 then false
    else
      assert forall k :: k in terms <==> k == terms[0] || k in terms[1..];
      Contains(text, terms[0]) || MentionsAny(text, terms[1..])
  }

  /** The condition that lifts a negative complaint to High: a risk keyword
      inside the lower-cased issue or a risk product inside the lower-cased
      product. */
  ghost predicate RiskSignal(issue: string, product: string) {
    || (exists k :: k in RiskKeywords && Occurs(k, ToLower(issue)))
    || (exists p :: p in RiskProducts && Occurs(p, ToLower(product)))
  }

  /** `assign_severity`: total over all texts, and exactly one tier applies. */
  function Assign(issue: string, product: string, sentiment: Sentiment): (sev: Severity)
    ensures sev == High <==> sentiment == Negative && RiskSignal(issue, product)
    ensures sev == Medium <==> sentiment == Negative && !RiskSignal(issue, product)
    ensures sev == Low <==> sentiment != Negative
  {
    var lowIssue := ToLower(issue);
    var lowProduct := ToLower(product);
    if sentiment == Negative && (MentionsAny(lowIssue, RiskKeywords) || MentionsAny(lowProduct, RiskProducts)) then
      High
    else if sentiment == Negative then
      Medium
    else
      Low
  }

  /** Position of a tier, Low lowest. */
  function SeverityRank(s: Severity): int {
    match s
    case Low => 0
    case Medium => 1
    case High => 2
  }

  /** Matching ignores case: texts that agree after lower-casing get the same tier. */
  lemma AssignIgnoresCase(issue1: string, issue2: string, product1: string, product2: string, s: Sentiment)
    requires ToLower(issue1) == ToLower(issue2) && ToLower(product1) == ToLower(product2)
    ensures Assign(issue1, product1, s) == Assign(issue2, product2, s)
  {
  }

  /** In particular lower-casing the inputs beforehand changes nothing. */
  lemma AssignOfLowered(issue: string, product: string, s: Sentiment)
    ensures Assign(ToLower(issue), ToLower(product), s) == Assign(issue, product, s)
  {
    ToLowerIdempotent(issue);
    ToLowerIdempotent(product);
  }

  /** A risk term found in a piece of a text is found in the whole text. */
  lemma SignalGrows(issue: string, issue': string, product: string, product': string)
    requires Occurs(issue, issue') && Occurs(product, product')
    requires RiskSignal(issue, product)
    ensures RiskSignal(issue', product')
  {
    OccursLower(issue, issue');
    OccursLower(product, product');
    if k :| k in RiskKeywords && Occurs(k, ToLower(issue)) {
      OccursTransitive(k, ToLower(issue), ToLower(issue'));
    } else {
      var p :| p in RiskProducts && Occurs(p, ToLower(product));
      OccursTransitive(p, ToLower(product), ToLower(product'));
    }
  }

  /** Embedding the issue and product in longer texts never lowers the tier. */
  lemma AssignMonotone(issue: string, issue': string, product: string, product': string, s: Sentiment)
    requires Occurs(issue, issue') && Occurs(product, product')
    ensures SeverityRank(Assign(issue, product, s)) <= SeverityRank(Assign(issue', product', s))
  {
    if s == Negative && RiskSignal(issue, product) {
      SignalGrows(issue, issue', product, product');
    }
  }

  /** Worked case: an issue opening with the capitalised keyword
      "Unauthorized" makes a negative complaint High, whatever follows and
      whatever the product, because matching is on the lower-cased issue. */
  lemma IssueKeywordExample(rest: string, product: string)
    ensures Assign("Unauthorized" + rest, product, Negative) == High
  {
    var issue := ToLower("Unauthorized" + rest);
    assert LowerChar('U') == 'u';
    assert forall k :: 0 <= k < 12 ==> issue[k] == "unauthorized"[k];
    assert issue[..12] == "unauthorized";
    assert OccursAt("unauthorized", issue, 0);
    assert "unauthorized" in RiskKeywords;
  }

  /** Worked case: the product "Credit card" makes a negative complaint High,
      whatever the issue says. */
  lemma ProductExample(issue: string)
    ensures Assign(issue, "Credit card", Negative) == High
  {
    var product := ToLower("Credit card");
    assert product == "credit card";
    assert OccursAt("credit card", product, 0);
    assert "credit card" in RiskProducts;
  }

  /** Worked case: a negative complaint without any risk term is Medium. */
  lemma NoSignalExample()
    ensures Assign("Late", "Bank", Negative) == Medium
  {
    assert ToLower("Late") == "late" && ToLower("Bank") == "bank";
    assert "late" != "scam";
  }

  /** Worked case: without negative sentiment nothing is elevated. */
  lemma GateExample()
    ensures Assign("fraud", "credit card", Positive) == Low
    ensures Assign("fraud", "credit card", Neutral) == Low
  {
  }
}
