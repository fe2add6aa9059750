/** `fetch_web_summary`: the guard on the question, the one request sent to
    the instant-answer endpoint, and the choice of a summary from the decoded
    reply. The network is a function from the request to its outcome. */
module WebSearch {
  import opened Outcomes
  import opened Text
  import opened Json

  /** The `WebSummary` record. Its fields hold whatever the decoded reply
      held: a string in the usual case, but nothing in the source checks. */
  datatype WebSummary = WebSummary(snippet: Json, source: Json)

  /** The GET request the fetcher issues. */
  datatype HttpRequest = HttpRequest(url: string, params: seq<(string, string)>, userAgent: string)

  /** What comes back from the network: a decoded body, or a failure, which
      stands for a connection error, a timeout, an error status raised by
      `raise_for_status`, or a body that is not JSON (`ValueError`). */
  datatype Response = Failure | Payload(body: Json)

  const Endpoint: string := "https://api.duckduckgo.com/"
  const UserAgent: string := "ShizuAi/1.0 (+https://example.com)"

  /** The request for an already stripped query. */
  function RequestFor(query: string): (req: HttpRequest)
    ensures req.url == Endpoint && req.userAgent == UserAgent
    ensures ("q", query) in req.params
  {
    HttpRequest(Endpoint, [("q", query), ("format", "json"), ("no_html", "1"), ("skip_disambig", "1")], UserAgent)
  }

  /** The request `fetch_web_summary` sends for `question`, if any: none for a
      blank question, otherwise one carrying the stripped question. */
  function SentRequest(question: string): (r: Option<HttpRequest>)
    ensures r.None? <==> Blank(question)
    ensures r.Some? ==> r.value == RequestFor(Strip(question)) && TightEnds(Strip(question))
  {
    StripEmptyIffBlank(question);
    var query := Strip(question);
    if query == [] then None else Some(RequestFor(query))
  }

  /** A related topic that yields a summary: a dict whose `Text` is truthy. */
  predicate Qualifies(topic: Json) {
    topic.JObj? && Truthy(Get(topic.fields, "Text"))
  }

  /** The summary a qualifying topic yields: its `Text` as is, its `FirstURL`. */
  function TopicSummary(topic: Json): WebSummary
    requires topic.JObj?
  {
    WebSummary(Get(topic.fields, "Text"), Get(topic.fields, "FirstURL"))
  }

  /** The loop over the related topics: the summary of the first qualifying
      topic, or `None` when no topic qualifies. */
  function ScanTopics(topics: seq<Json>): (r: Option<WebSummary>)
    ensures r.None? <==> forall j :: 0 <= j < |topics| ==> !Qualifies(topics[j])
    ensures r.Some? ==> exists k :: 0 <= k < |topics| && Qualifies(topics[k])
                          && (forall j :: 0 <= j < k ==> !Qualifies(topics[j]))
                          && r.value == TopicSummary(topics[k])
  {
    if topics == [] then None
    else if Qualifies(topics[0]) then Some(TopicSummary(topics[0]))
    else
      var r := ScanTopics(topics[1..]);
      assert forall j :: 1 <= j < |topics| ==> topics[j] == topics[1..][j - 1];
      r
  }

  /** The loop stops at the first qualifying topic, wherever it is. */
  lemma {:induction false} ScanFindsFirst(topics: seq<Json>, k: nat)
    requires k < |topics| && Qualifies(topics[k])
    requires forall j :: 0 <= j < k ==> !Qualifies(topics[j])
    ensures ScanTopics(topics) == Some(TopicSummary(topics[k]))
  {
    if k > 0 {
      assert topics[1..][k - 1] == topics[k];
      assert forall j :: 0 <= j < k - 1 ==> topics[1..][j] == topics[j + 1];
      ScanFindsFirst(topics[1..], k - 1);
    }
  }

  /** The choice of a summary from a decoded reply (the code after the
      `try` block). A reply that is not a dict, a truthy `AbstractText` that is
      not a string, and a truthy `RelatedTopics` that cannot be iterated raise
      exceptions the source does not catch. */
  function SelectSummary(payload: Json): (r: Py<Option<WebSummary>>)
    ensures !payload.JObj? ==> r == Raise(AttributeError)
    ensures payload.JObj? && Truthy(Get(payload.fields, "AbstractText")) ==>
              r == (match Get(payload.fields, "AbstractText")
                    case JStr(text) => Ok(Some(WebSummary(JStr(Strip(text)), Get(payload.fields, "AbstractURL"))))
                    case _ => Raise(AttributeError))
    ensures r.Ok? && r.value.Some? && !Truthy(Get(payload.fields, "AbstractText")) ==>
              Truthy(r.value.value.snippet)
  {
    match payload
    case JObj(fields) =>
      var abstractText := Get(fields, "AbstractText");
      if Truthy(abstractText) then
        (match abstractText
         case JStr(text) => Ok(Some(WebSummary(JStr(Strip(text)), Get(fields, "AbstractURL"))))
         case _ => Raise(AttributeError))
      else
        (match Iterate(Or(Get(fields, "RelatedTopics"), JArr([])))
         case Raise(e) => Raise(e)
         case Ok(topics) => Ok(ScanTopics(topics)))
    case _ => Raise(AttributeError)
  }

  /** `fetch_web_summary(question)` with the network as a parameter: the
      network is consulted only for the request `SentRequest` describes, and
      a failed request never escapes as an exception. */
  function FetchWebSummary(question: string, network: HttpRequest -> Response): (r: Py<Option<WebSummary>>)
    ensures Blank(question) ==> r == Ok(None)
    ensures !Blank(question) && network(RequestFor(Strip(question))) == Failure ==> r == Ok(None)
    ensures !Blank(question) && network(RequestFor(Strip(question))).Payload? ==>
              r == SelectSummary(network(RequestFor(Strip(question))).body)
  {
    match SentRequest(question)
    case None => Ok(None)
    case Some(request) =>
      (match network(request)
       case Failure => Ok(None)
       case Payload(body) => SelectSummary(body))
  }

  /** The fetch depends on the question only through its stripped form. */
  lemma FetchSeesStrippedQuestion(question: string, network: HttpRequest -> Response)
    ensures FetchWebSummary(Strip(question), network) == FetchWebSummary(question, network)
  {
    StripIdempotent(question);
    StripEmptyIffBlank(question);
    StripEmptyIffBlank(Strip(question));
  }

  /** A non-empty `AbstractText` made only of whitespace is truthy, so it is
      chosen and gives an empty snippet rather than falling through to the
      related topics. */
  lemma BlankAbstractGivesEmptySnippet(fields: seq<(string, Json)>, text: string)
    requires Get(fields, "AbstractText") == JStr(text) && text != [] && Blank(text)
    ensures SelectSummary(JObj(fields)) == Ok(Some(WebSummary(JStr([]), Get(fields, "AbstractURL"))))
  {
    StripEmptyIffBlank(text);
  }

  /** When the abstract is truthy, whatever `RelatedTopics` holds (here: a
      member appended to the reply) changes nothing. */
  lemma AbstractIgnoresTopics(fields: seq<(string, Json)>, topics: Json)
    requires Truthy(Get(fields, "AbstractText"))
    ensures SelectSummary(JObj(fields + [("RelatedTopics", topics)])) == SelectSummary(JObj(fields))
  {
    GetAppend(fields, "RelatedTopics", topics, "AbstractText");
    GetAppend(fields, "RelatedTopics", topics, "AbstractURL");
  }

  /** Without an abstract, a list of topics yields the summary of its first
      qualifying topic: earlier dicts without text and non-dict items are
      skipped. */
  lemma FirstQualifyingTopicWins(fields: seq<(string, Json)>, topics: seq<Json>, k: nat)
    requires !Truthy(Get(fields, "AbstractText")) && Get(fields, "RelatedTopics") == JArr(topics)
    requires k < |topics| && Qualifies(topics[k])
    requires forall j :: 0 <= j < k ==> !Qualifies(topics[j])
    ensures SelectSummary(JObj(fields)) == Ok(Some(TopicSummary(topics[k])))
  {
    ScanFindsFirst(topics, k);
  }

  /** Without an abstract, a missing, null or empty topic list, or one in
      which no topic qualifies, gives no summary. */
  lemma NoQualifyingTopicGivesNone(fields: seq<(string, Json)>)
    requires !Truthy(Get(fields, "AbstractText"))
    requires var related := Get(fields, "RelatedTopics");
             !Truthy(related)
             || (related.JArr? && forall j :: 0 <= j < |related.items| ==> !Qualifies(related.items[j]))
    ensures SelectSummary(JObj(fields)) == Ok(None)
  {
  }

  /** Without an abstract, a truthy string or dict in `RelatedTopics` is
      iterated (characters, keys) but none of its items is a dict, so there is
      no summary. */
  lemma TextOrDictTopicsGiveNone(fields: seq<(string, Json)>)
    requires !Truthy(Get(fields, "AbstractText"))
    requires var related := Get(fields, "RelatedTopics");
             Truthy(related) && (related.JStr? || related.JObj?)
    ensures SelectSummary(JObj(fields)) == Ok(None)
  {
    var topics := Iterate(Get(fields, "RelatedTopics")).value;
    assert forall j :: 0 <= j < |topics| ==> !Qualifies(topics[j]);
  }

  /** Without an abstract, a truthy number or `true` in `RelatedTopics`
      cannot be iterated: the `TypeError` escapes. */
  lemma ScalarTopicsRaise(fields: seq<(string, Json)>)
    requires !Truthy(Get(fields, "AbstractText"))
    requires var related := Get(fields, "RelatedTopics");
             Truthy(related) && (related.JInt? || related.JFloat? || related.JBool?)
    ensures SelectSummary(JObj(fields)) == Raise(TypeError)
  {
  }

  /** A summary is only ever produced from a successful request for a
      non-blank question, and its snippet is the stripped abstract or a
      truthy topic text. */
  lemma SummaryNeedsPayload(question: string, network: HttpRequest -> Response)
    requires FetchWebSummary(question, network).Ok? && FetchWebSummary(question, network).value.Some?
    ensures !Blank(question) && network(RequestFor(Strip(question))).Payload?
    ensures var fields := network(RequestFor(Strip(question))).body.fields;
            var summary := FetchWebSummary(question, network).value.value;
            (Truthy(Get(fields, "AbstractText")) && summary.snippet.JStr? && TightEnds(summary.snippet.s))
            || (!Truthy(Get(fields, "AbstractText")) && Truthy(summary.snippet))
  {
  }
}
