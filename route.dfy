/** The body of the `/recommend` handler of api.py, from the validation of
    the query to the formatted response. The recommender is a parameter:
    `retrieve(query, k)` stands for `recommender.recommend(query, k=k)` and
    `catalog` for `recommender.assessments`. */
module Route {
  import opened Wrappers
  import opened Text
  import opened DurationRules
  import opened Ranking
  import opened Json

  /** The `query` value of the request: a string (a missing key reads as
      the empty string), or a JSON value of any other type. */
  datatype QueryValue = Str(text: string) | NotStr

  /** One entry of `recommended_assessments`, every field filled. */
  datatype Formatted = Formatted(
    url: string,
    name: string,
    adaptiveSupport: string,
    description: string,
    duration: int,
    remoteSupport: string,
    testType: Json)

  /** The handler's reply: 200 with the entries, 400 for a rejected query,
      or 500 carrying the exception that reached the outer `except`. */
  datatype Response = Recommended(items: seq<Formatted>) | BadRequest | ServerError(error: Error)

  type Retriever = (string, nat) -> seq<Assessment>

  const MaxQueryLength: nat := 1000

  /** `query.strip()`, then anything past 1000 characters replaced by "...". */
  function CleanQuery(query: string): (r: string)
    ensures |r| <= MaxQueryLength + 3
    ensures Strip(query)[..Min(MaxQueryLength, |Strip(query)|)] <= r
    ensures |r| <= MaxQueryLength <==> |Strip(query)| <= MaxQueryLength
    ensures |Strip(query)| <= MaxQueryLength ==> r == Strip(query)
    ensures |Strip(query)| > MaxQueryLength ==> r == Strip(query)[..MaxQueryLength] + "..."
  {
    var q := Strip(query);
    if |q| > MaxQueryLength then q[..MaxQueryLength] + "..." else q
  }

  /** An entry of the response, with the defaults of the `.get` calls. */
  function Format(a: Assessment): Formatted {
    Formatted(
      a.url.GetOr(""),
      a.name.GetOr("Unknown Assessment"),
      a.adaptiveSupport.GetOr("No"),
      a.description.GetOr(""),
      DurationOf(a),
      a.remoteSupport.GetOr("Yes"),
      a.testType.GetOr(JList([])))
  }

  function FormatAll(recs: seq<Assessment>): (r: seq<Formatted>)
    ensures |r| == |recs|
    ensures forall i | 0 <= i < |recs| :: r[i] == Format(recs[i])
  {
    seq(|recs|, i requires 0 <= i < |recs| => Format(recs[i]))
  }

  /** The outcome of the top-up loop: it runs only over a non-empty
      `additional`, and its first iteration reads the undefined name
      `recommendments`, which raises. */
  function TopUpOutcome(recs: seq<Assessment>, additional: seq<Assessment>): Result<seq<Assessment>> {
    if additional == [] then Success(recs) else Failure(NameError)
  }

  /** The top-up loop as written: the first iteration appends its entry
      when it is new, then the `len(recommendments)` test raises. */
  method TopUp(recs: seq<Assessment>, additional: seq<Assessment>) returns (r: Result<seq<Assessment>>)
    ensures r == TopUpOutcome(recs, additional)
    ensures r.Success? ==> r.value == recs
  {
    var out := recs;
    for i := 0 to |additional|
      invariant i == 0
    {
      if additional[i] !in out {
        out := out + [additional[i]];
      }
      // `len(recommendments)`: a NameError, whatever `out` holds now
      return Failure(NameError);
    }
    return Success(out);
  }

  /** The recommendations for a cleaned query: duration window, first
      retrieval of 15, filter, balance, top-up when fewer than 5, trim to
      10, and the first 5 catalog entries when nothing is left. */
  function Recommendations(query: string, catalog: seq<Assessment>, retrieve: Retriever): Result<seq<Assessment>> {
    AfterExtraction(ExtractDurationConstraint(query), query, catalog, retrieve)
  }

  /** Everything after `extract_duration_constraint`, whose outcome is
      `extracted`. */
  function AfterExtraction(extracted: Result<Window>, query: string, catalog: seq<Assessment>,
                           retrieve: Retriever): Result<seq<Assessment>> {
    match extracted
    case Failure(e) => Failure(e)
    case Success(window) =>
      var raw := retrieve(query, 15);
      var filtered := if window.Window? then FilterResult(raw, window.lo, window.hi) else raw;
      var balanced := Balance(filtered);
      var topped := if |balanced| < 5 then TopUpOutcome(balanced, retrieve(query, 20)) else Success(balanced);
      match topped
      case Failure(e) => Failure(e)
      case Success(recs) =>
        var trimmed := recs[..Min(10, |recs|)];
        Success(if trimmed == [] then catalog[..Min(5, |catalog|)] else trimmed)
  }

  /** The handler body: validation, cleaning, recommendation, formatting. */
  function HandleRecommend(q: QueryValue, catalog: seq<Assessment>, retrieve: Retriever): Response {
    if q.NotStr? || q.text == "" then BadRequest
    else
      match Recommendations(CleanQuery(q.text), catalog, retrieve)
      case Failure(e) => ServerError(e)
      case Success(recs) => Recommended(FormatAll(recs))
  }

  /** The request is rejected exactly when the query is not a string or is
      the empty string; a query of blanks only is accepted and cleaned to
      the empty string. */
  lemma RejectedIff(q: QueryValue, catalog: seq<Assessment>, retrieve: Retriever)
    ensures HandleRecommend(q, catalog, retrieve).BadRequest? <==> q.NotStr? || q.text == ""
    ensures q.Str? && q.text != "" && (forall i | 0 <= i < |q.text| :: IsSpace(q.text[i])) ==>
              CleanQuery(q.text) == ""
  {
  }

  /** A server error is a ValueError from the `about an hour` pattern or
      the NameError of a top-up that had something to add. */
  lemma ServerErrorIff(q: QueryValue, catalog: seq<Assessment>, retrieve: Retriever)
    requires q.Str? && q.text != ""
    ensures var query := CleanQuery(q.text);
            var window := ExtractDurationConstraint(query);
            HandleRecommend(q, catalog, retrieve).ServerError? <==>
              || window.Failure?
              || (var raw := retrieve(query, 15);
                  var filtered := if window.value.Window? then FilterResult(raw, window.value.lo, window.value.hi) else raw;
                  |Balance(filtered)| < 5 && retrieve(query, 20) != [])
    ensures var query := CleanQuery(q.text);
            HandleRecommend(q, catalog, retrieve).ServerError? ==>
              || (HandleRecommend(q, catalog, retrieve).error == ValueError && !NoMatch(Lower(query), AboutAnHour))
              || (HandleRecommend(q, catalog, retrieve).error == NameError && retrieve(query, 20) != [])
  {
    ExtractRaisesOnlyOnAboutAnHour(CleanQuery(q.text));
  }

  /** What the processing after the extraction can return: at most 10
      recommendations, all from the first retrieval or the catalog, at
      least one when the catalog is not empty, and fewer than 5 only when
      the extra retrieval of 20 found nothing. A success is the balanced
      list itself when that is not empty (a top-up that would add anything
      raises), and the first 5 catalog entries when it is. */
  lemma AfterExtractionBounds(extracted: Result<Window>, query: string, catalog: seq<Assessment>,
                              retrieve: Retriever)
    requires AfterExtraction(extracted, query, catalog, retrieve).Success?
    ensures var recs := AfterExtraction(extracted, query, catalog, retrieve).value;
            && |recs| <= 10
            && (catalog != [] ==> recs != [])
            && (|recs| < 5 ==> retrieve(query, 20) == [])
            && (forall a | a in recs :: a in retrieve(query, 15) + catalog)
  ensures var window := extracted.value;
          var raw := retrieve(query, 15);
          var balanced := Balance(if window.Window? then FilterResult(raw, window.lo, window.hi) else raw);
          AfterExtraction(extracted, query, catalog, retrieve).value
            == if balanced == [] then catalog[..Min(5, |catalog|)] else balanced
  {
    var raw := retrieve(query, 15);
    var window := extracted.value;
    if window.Window? {
      FilterNonEmpty(raw, window.lo, window.hi);
    }
  }

  /** A successful reply holds at most 10 entries, holds at least one when
      the catalog is not empty, and holds fewer than 5 only when the extra
      retrieval of 20 found nothing (a top-up never adds an entry). */
  lemma RecommendedBounds(q: QueryValue, catalog: seq<Assessment>, retrieve: Retriever)
    requires HandleRecommend(q, catalog, retrieve).Recommended?
    ensures var items := HandleRecommend(q, catalog, retrieve).items;
            && |items| <= 10
            && (catalog != [] ==> items != [])
            && (|items| < 5 ==> retrieve(CleanQuery(q.text), 20) == [])
  {
    var query := CleanQuery(q.text);
    AfterExtractionBounds(ExtractDurationConstraint(query), query, catalog, retrieve);
  }

  /** Every entry of a successful reply is a formatted recommendation, from
      the first retrieval or, when that left nothing, from the catalog. */
  lemma RecommendedSources(q: QueryValue, catalog: seq<Assessment>, retrieve: Retriever)
    requires HandleRecommend(q, catalog, retrieve).Recommended?
    ensures var query := CleanQuery(q.text);
            forall f | f in HandleRecommend(q, catalog, retrieve).items ::
              exists a | a in retrieve(query, 15) + catalog :: f == Format(a)
  {
    var query := CleanQuery(q.text);
    AfterExtractionBounds(ExtractDurationConstraint(query), query, catalog, retrieve);
    var recs := Recommendations(query, catalog, retrieve).value;
    var items := HandleRecommend(q, catalog, retrieve).items;
    forall f | f in items ensures exists a | a in retrieve(query, 15) + catalog :: f == Format(a) {
      var i :| 0 <= i < |items| && items[i] == f;
      assert recs[i] in recs;
    }
  }
}
