/** `answer_question`: the offline reply, followed, when a web summary was
    obtained, by the snippet and its source, all passed through
    `textwrap.fill`. */
module Answer {
  import opened Outcomes
  import opened Text
  import opened Json
  import opened WebSearch
  import opened Offline

  const WebLabel: string := "Recherche web : "
  const SourceLabel: string := "\nSource : "

  /** How an f-string shows a field of the summary: a string as it is, `None`,
      `True` and `False` by name, and any other decoded value (int, float, list,
      dict) as `render` spells it, `render` standing for Python's `str()`. */
  function Format(v: Json, render: Json -> string): (t: string)
    ensures v.JStr? ==> t == v.s
    ensures v.JBool? ==> t == (if v.b then "True" else "False")
    ensures v.JNull? ==> t == "None"
    ensures v.JInt? || v.JFloat? || v.JArr? || v.JObj? ==> t == render(v)
  {
    match v
    case JStr(s) => s
    case JNull => "None"
    case JBool(b) => if b then "True" else "False"
    case _ => render(v)
  }

  /** The optional source segment: empty exactly when the source is falsy
      (`None` or the empty string, among others). */
  function SourceSegment(source: Json, render: Json -> string): (t: string)
    ensures t == [] <==> !Truthy(source)
    ensures Truthy(source) ==> |t| >= |SourceLabel| && t[..|SourceLabel|] == SourceLabel
                                 && t[|SourceLabel|..] == Format(source, render)
  {
    if Truthy(source) then SourceLabel + Format(source, render) else ""
  }

  /** The text handed to `textwrap.fill` when a summary was obtained: the
      offline reply, a blank line, the labelled snippet and the optional
      source segment, in that order. */
  function WebText(offline: string, summary: WebSummary, render: Json -> string): (t: string)
    ensures var snippet := Format(summary.snippet, render);
            var n := |offline| + 2 + |WebLabel|;
            && |t| == n + |snippet| + |SourceSegment(summary.source, render)|
            && t[..|offline|] == offline
            && t[|offline|..n] == "\n\n" + WebLabel
            && t[n..n + |snippet|] == snippet
            && t[n + |snippet|..] == SourceSegment(summary.source, render)
  {
    offline + "\n\n" + WebLabel + Format(summary.snippet, render) + SourceSegment(summary.source, render)
  }

  /** `answer_question(question, use_web)` as the reply and the flag saying
      whether web data was used; `fill` is `textwrap.fill`, `network` the
      outcome of the one request, `render` Python's `str()`. An exception the
      fetcher lets escape escapes here too. */
  function AnswerQuestion(question: string, useWeb: bool, network: HttpRequest -> Response,
                          fill: (string, nat) -> string, render: Json -> string): (r: Py<(string, bool)>)
    ensures !useWeb ==> r == Ok((CraftOfflineResponse(question, fill), false))
    ensures r.Raise? <==> useWeb && FetchWebSummary(question, network).Raise?
    ensures r.Ok? ==> (r.value.1 <==> useWeb && FetchWebSummary(question, network).value.Some?)
    ensures r.Ok? && !r.value.1 ==> r.value.0 == CraftOfflineResponse(question, fill)
    ensures r.Ok? && r.value.1 ==>
              r.value.0 == fill(WebText(CraftOfflineResponse(question, fill),
                                        FetchWebSummary(question, network).value.value, render), Width)
  {
    var web := if useWeb then FetchWebSummary(question, network) else Ok(None);
    var offline := CraftOfflineResponse(question, fill);
    match web
    case Raise(e) => Raise(e)
    case Ok(None) => Ok((offline, false))
    case Ok(Some(summary)) => Ok((fill(WebText(offline, summary, render), Width), true))
  }

  /** A blank question gets the prompt and no web data, with or without the
      web enabled: the fetcher sends nothing for it. */
  lemma BlankQuestionGetsPrompt(question: string, useWeb: bool, network: HttpRequest -> Response,
                                fill: (string, nat) -> string, render: Json -> string)
    requires Blank(question)
    ensures AnswerQuestion(question, useWeb, network, fill, render) == Ok((Prompt, false))
  {
  }

  /** A failed request leaves the offline reply alone. */
  lemma FailedRequestFallsBack(question: string, network: HttpRequest -> Response,
                               fill: (string, nat) -> string, render: Json -> string)
    requires network(RequestFor(Strip(question))) == Failure
    ensures AnswerQuestion(question, true, network, fill, render) == Ok((CraftOfflineResponse(question, fill), false))
  {
  }

  /** The text before wrapping starts with the offline reply. */
  lemma WebTextHasOffline(offline: string, summary: WebSummary, render: Json -> string)
    ensures Contains(WebText(offline, summary, render), offline)
  {
    ContainsAt(WebText(offline, summary, render), offline, 0);
  }

  /** The text before wrapping holds the labelled snippet. */
  lemma WebTextHasSnippet(offline: string, summary: WebSummary, render: Json -> string)
    ensures Contains(WebText(offline, summary, render), WebLabel + Format(summary.snippet, render))
  {
    var t := WebText(offline, summary, render);
    var snippet := Format(summary.snippet, render);
    var n := |offline| + 2 + |WebLabel|;
    var block := t[|offline| + 2..n + |snippet|];
    assert block[..|WebLabel|] == t[|offline|..n][2..];
    assert block[|WebLabel|..] == t[n..n + |snippet|];
    assert block == WebLabel + snippet;
    ContainsAt(t, WebLabel + snippet, |offline| + 2);
  }

  /** The labelled source appears exactly when the source is truthy: when it
      is falsy, the text ends with the snippet. */
  lemma WebTextSource(offline: string, summary: WebSummary, render: Json -> string)
    ensures var t := WebText(offline, summary, render);
            && (Truthy(summary.source) ==> Contains(t, SourceLabel + Format(summary.source, render)))
            && (!Truthy(summary.source) ==> |t| == |offline| + 2 + |WebLabel| + |Format(summary.snippet, render)|)
  {
    var t := WebText(offline, summary, render);
    var n := |offline| + 2 + |WebLabel| + |Format(summary.snippet, render)|;
    if Truthy(summary.source) {
      var segment := SourceSegment(summary.source, render);
      assert segment == SourceLabel + Format(summary.source, render);
      assert t[n..n + |segment|] == segment;
      ContainsAt(t, segment, n);
    }
  }

  /** When a summary is obtained the reply is the wrapped `WebText` and the
      flag is set, even for an empty snippet: the record is always truthy. */
  lemma WebAnswer(question: string, network: HttpRequest -> Response,
                  fill: (string, nat) -> string, render: Json -> string, summary: WebSummary)
    requires FetchWebSummary(question, network) == Ok(Some(summary))
    ensures AnswerQuestion(question, true, network, fill, render)
            == Ok((fill(WebText(CraftOfflineResponse(question, fill), summary, render), Width), true))
  {
  }
}
