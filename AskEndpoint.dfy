/**
 * The decision path of the `/ask` endpoint of app.py, after the request body
 * has been parsed: the empty-query gate, the choice of the best article from
 * the similarity scores, the relevance gate, and the intent router that may
 * narrow the answer to one labelled section of the article's summary.
 */
module AskEndpoint {
  import opened Wrappers
  import opened PyText
  import opened SectionExtractor
  import opened QueryMatcher

  /** One research summary of the corpus. */
  datatype Article = Article(title: string, summary: string)

  /** The JSON object the endpoint answers with. */
  datatype Reply = Reply(title: string, summary: string)

  /** What the endpoint produces: a reply, or the exception the similarity step raises on an empty corpus. */
  datatype Response = Json(reply: Reply) | ServerError

  /** An entry of `section_map`: the key looked for in the query and the section labels it asks for. */
  datatype Intent = Intent(key: string, sections: seq<string>)

  /** `section_map`, in the order a Python dict literal iterates it. */
  const SectionMap: seq<Intent> := [
    Intent("impact", ["Impact", "Impacts"]),
    Intent("result", ["Result", "Results"]),
    Intent("knowledge", ["Knowledge Gaps"]),
    Intent("progress", ["Areas_of Scientific Progress"]),
    Intent("consensus", ["Areas_of Consensus or Disagreement"]),
    Intent("insight", ["Actionable Insights to Mission Planners"])
  ]

  const EmptyQueryReply: Reply := Reply("", "Please enter a question.")
  const NoMatchReply: Reply := Reply("", "No relevant NASA summary found.")

  /** What joins the article title and the section label in a sectioned reply: space, em dash, space. */
  const TitleSeparator: string := " \U{2014} "

  /** Every intent names at least one section label, and no label holds a ':'. */
  ghost predicate WellFormed(intents: seq<Intent>) {
    forall it :: it in intents ==> it.sections != [] && ColonFree(it.sections)
  }

  /**
   * The loop over `section_map`: the first intent whose key occurs in the
   * lower-cased query and whose section is present and non-empty in the
   * summary answers with that section; otherwise the whole article.
   */
  function Route(query: string, best: Article, intents: seq<Intent>): (r: Reply)
    requires forall it :: it in intents ==> it.sections != []
    ensures best.title <= r.title
    ensures r.title == best.title ==> r == Reply(best.title, best.summary)
  {
    if intents == [] then Reply(best.title, best.summary)
    else
      var it := intents[0];
      var section := if IsSubstring(it.key, LowerStr(query)) then ExtractSection(best.summary, it.sections) else None;
      if section.Some? && section.value != [] then
        Reply(best.title + TitleSeparator + it.sections[0], section.value)
      else
        Route(query, best, intents[1..])
  }

  /** Intent `it` claims the request: its key is in the lower-cased query and its section is there and not empty. */
  ghost predicate Claims(query: string, best: Article, it: Intent) {
    && IsSubstring(it.key, LowerStr(query))
    && ExtractSection(best.summary, it.sections).Some?
    && ExtractSection(best.summary, it.sections).value != []
  }

  /** The reply an intent gives when it claims the request: the section, titled with the first label. */
  ghost function SectionReply(best: Article, it: Intent): Reply
    requires it.sections != [] && ExtractSection(best.summary, it.sections).Some?
  {
    Reply(best.title + TitleSeparator + it.sections[0], ExtractSection(best.summary, it.sections).value)
  }

  /** The first claiming intent, in order, decides the reply, whatever later intents would say. */
  lemma {:induction false} RouteFirstClaim(query: string, best: Article, intents: seq<Intent>, k: nat)
    requires forall it :: it in intents ==> it.sections != []
    requires k < |intents| && Claims(query, best, intents[k])
    requires forall j :: 0 <= j < k ==> !Claims(query, best, intents[j])
    ensures Route(query, best, intents) == SectionReply(best, intents[k])
  {
    if k > 0 {
      assert !Claims(query, best, intents[0]);
      assert intents[1..][k - 1] == intents[k];
      RouteFirstClaim(query, best, intents[1..], k - 1);
    }
  }

  /** The whole article comes back unchanged exactly when no intent claims the request. */
  lemma {:induction false} RouteFallback(query: string, best: Article, intents: seq<Intent>)
    requires forall it :: it in intents ==> it.sections != []
    ensures Route(query, best, intents) == Reply(best.title, best.summary)
        <==> forall j :: 0 <= j < |intents| ==> !Claims(query, best, intents[j])
  {
    if intents != [] {
      RouteFallback(query, best, intents[1..]);
      if Claims(query, best, intents[0]) {
        // a sectioned title is longer than the article's own
        assert |Route(query, best, intents).title| > |best.title|;
      } else {
        assert forall j :: 0 < j < |intents| ==> intents[j] == intents[1..][j - 1];
      }
    }
  }

  /**
   * `ask` for a request whose `query` field is `rawQuery`, given the
   * similarity of the query to each article, in corpus order.
   */
  function Ask(rawQuery: string, articles: seq<Article>, scores: seq<real>): (r: Response)
    requires |scores| == |articles|
    ensures r.ServerError? <==> Strip(rawQuery) != [] && |articles| == 0
  {
    var query := Strip(rawQuery);
    if query == [] then Json(EmptyQueryReply)
    else if |articles| == 0 then ServerError
    else
      var idx := ArgMax(scores);
      if scores[idx] < Threshold then Json(NoMatchReply)
      else Json(Route(query, articles[idx], SectionMap))
  }

  /** A blank query gets the prompt to enter a question, whatever the corpus and its scores. */
  lemma AskBlankQuery(rawQuery: string, articles: seq<Article>, scores: seq<real>)
    requires |scores| == |articles|
    requires Strip(rawQuery) == []
    ensures Ask(rawQuery, articles, scores) == Json(EmptyQueryReply)
  {
  }

  /** When every score is below 0.3, the answer is "no relevant summary", whatever intent words the query holds. */
  lemma AskBelowThreshold(rawQuery: string, articles: seq<Article>, scores: seq<real>)
    requires |scores| == |articles| && |articles| > 0
    requires Strip(rawQuery) != []
    requires forall j :: 0 <= j < |scores| ==> scores[j] < Threshold
    ensures Ask(rawQuery, articles, scores) == Json(NoMatchReply)
  {
    assert scores[ArgMax(scores)] < Threshold;
  }

  /**
   * When the first maximal score reaches 0.3 (0.3 itself included), the
   * answer is that article, routed on the stripped query.
   */
  lemma AskRoutesFirstMax(rawQuery: string, articles: seq<Article>, scores: seq<real>, i: nat)
    requires |scores| == |articles|
    requires Strip(rawQuery) != []
    requires IsFirstMax(scores, i) && scores[i] >= Threshold
    ensures Ask(rawQuery, articles, scores) == Json(Route(Strip(rawQuery), articles[i], SectionMap))
  {
    FirstMaxIsUnique(scores, ArgMax(scores), i);
  }

  /** `section_map` names a label for every intent and none of its labels holds a ':'. */
  lemma SectionMapWellFormed()
    ensures WellFormed(SectionMap)
  {
    forall i | 0 <= i < |SectionMap|
      ensures SectionMap[i].sections != [] && ColonFree(SectionMap[i].sections)
    {
      var sections := SectionMap[i].sections;
      forall w | w in sections
        ensures ':' !in w
      {
        LabelIsColonFree(i, w);
      }
    }
  }

  /** Each label of `section_map`, one at a time. */
  lemma LabelIsColonFree(i: nat, w: string)
    requires i < |SectionMap| && w in SectionMap[i].sections
    ensures ':' !in w
  {
    if i == 0 {
      assert w == "Impact" || w == "Impacts";
    } else if i == 1 {
      assert w == "Result" || w == "Results";
    } else if i == 2 {
      assert w == "Knowledge Gaps";
    } else if i == 3 {
      assert w == "Areas_of Scientific Progress";
    } else if i == 4 {
      assert w == "Areas_of Consensus or Disagreement";
    } else {
      assert w == "Actionable Insights to Mission Planners";
    }
  }
}
