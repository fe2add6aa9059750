# ShizuAi answer resolver — a Dafny model

ShizuAi is a small command-line assistant (`app.py`). Given a question it
builds a canned French reply offline and can add a short summary from the
DuckDuckGo instant-answer API. It prints the reply after a `[Web]` or
`[Offline]` tag, coloured with ANSI codes when colours are on. This project
models the decision logic of that script and proves what it does:

- `Text`: Python's `str.strip()` (with Python's full whitespace set),
  `str.lower()` on ASCII letters, and the substring test `in`.
- `Json`: decoded JSON values with Python's truthiness, `dict.get`, `or`,
  and what a `for` loop walks over.
- `WebSearch`: `fetch_web_summary`. It covers the blank-question guard, the
  one request sent with the stripped question, the fold of every network or
  decoding failure into `None`, and the choice of a summary from the reply.
  A truthy `AbstractText` is stripped and wins. Otherwise the first related
  topic that is a dict with a truthy `Text` wins.
- `Offline`: `craft_offline_response` and its four ordered rules.
- `Answer`: `answer_question`, meaning the `(reply, used_web)` pair and the
  text handed to `textwrap.fill`.
- `Terminal`: `stylize_gradient`, `color_prefix` and the tag chosen before
  a reply, with a `Visible` function giving what a terminal shows of a
  coloured string.
- `Outcomes`: `Option`, and `Py`, the value an expression returns or the
  exception it lets escape.

The network is a parameter `network: HttpRequest -> Response`. `textwrap.fill`
is a parameter `fill`. Python's `str()` of decoded ints, floats, lists and
dicts is a parameter `render`. Ints and floats are distinct values
(`JInt`, `JFloat`), as `json.loads` makes them, so `1` and `1.0` can be
shown differently. Every property holds for every choice of them.

Three behaviours of the code that are easy to miss, which the model keeps:

- The docstring of `fetch_web_summary` (app.py:29-33) promises that a network
  failure or an empty reply falls back silently on the offline reply. The
  code breaks that promise in three cases, because these lines run outside
  the `try` (app.py:51-57). A decoded reply that is not a dict raises
  `AttributeError`. So does a truthy `AbstractText` that is not a string. A
  truthy number or `true` in `RelatedTopics` raises `TypeError`. The model
  returns `Raise(...)` there, and `answer_question` passes it on.
- An `AbstractText` made only of whitespace is truthy at app.py:52. It is
  chosen, and it strips to an empty snippet
  (`WebSearch.BlankAbstractGivesEmptySnippet`).
- `answer_question` passes the question on unstripped (app.py:86-87). Both
  callees strip it themselves, and the model proves that stripping first
  changes nothing (`Offline.ReplyIgnoresSurroundingSpace`,
  `WebSearch.FetchSeesStrippedQuestion`).

## Model

| member | source | states |
|---|---|---|
| Text.Strip | app.py:35 | the result is the input minus leading and trailing whitespace: it is a contiguous slice, everything cut is whitespace, and neither end of the result is whitespace |
| Text.StripOfSplit | app.py:35 | stripping a blank prefix + a core with non-whitespace ends + a blank suffix gives exactly the core (the characterisation of `strip`) |
| Text.StripIdempotent | app.py:35 | `strip(strip(s)) == strip(s)` |
| Text.StripEmptyIffBlank | app.py:35-37 | `s.strip()` is empty exactly when every character of `s` is whitespace (both directions) |
| Text.ContainsAt | app.py:68 | an occurrence at a known index makes `sub in s` true |
| Text.ContainsWitness | app.py:68 | `sub in s` yields an index where `sub` occurs |
| Text.KeywordSurvivesStrip | app.py:63-71 | a keyword with non-whitespace ends is in `s.lower()` exactly when it is in `s.strip().lower()` |
| Text.StripIgnoresCase | app.py:63-67 | strings equal after lower-casing still are after stripping, and strip to empty together |
| Json.Get | app.py:51 | `dict.get` gives `None` when the key is absent and otherwise a value bound to the key |
| Json.GetLast | app.py:51 | with repeated keys, `get` sees the last member, as `json.loads` keeps it |
| Json.GetAppend | app.py:51-55 | a member appended to an object overrides its own key and leaves every other key's value unchanged |
| Json.Keys | app.py:55 | iterating a dict yields every key of the object, each once, and nothing that is not a key |
| Json.KeysInOrder | app.py:55 | keys come in the order of their first members: a member named by a later key is preceded by one named by each earlier key |
| Json.Iterate | app.py:55 | `for` over a list gives its items; over a string its characters in order, each a one-character string; over a dict exactly its keys, in key order; over `None`, booleans, ints and floats it raises `TypeError` |
| WebSearch.RequestFor | app.py:40-45 | the request goes to the fixed endpoint with the fixed user agent and carries the query as `q` |
| WebSearch.SentRequest | app.py:35-45 | no request exactly when the question is blank; otherwise the request carries the stripped question, which has no surrounding whitespace |
| WebSearch.ScanTopics | app.py:55-59 | `None` exactly when no topic is a dict with truthy `Text`; otherwise the summary of the first such topic, with earlier topics all skipped |
| WebSearch.ScanFindsFirst | app.py:55-57 | the loop returns the summary of topic k when topic k qualifies and no earlier one does |
| WebSearch.SelectSummary | app.py:51-59 | a non-dict reply raises `AttributeError`; a truthy string abstract gives `WebSummary(strip(abstract), AbstractURL)` and a truthy non-string one raises; otherwise a summary's snippet is truthy |
| WebSearch.FetchWebSummary | app.py:28-59 | a blank question gives `None` for every network; a failed request gives `None`; otherwise the result is the selection from the payload received for the stripped question |
| WebSearch.FetchSeesStrippedQuestion | app.py:35-42 | the fetch gives the same result for a question and for its stripped form |
| WebSearch.BlankAbstractGivesEmptySnippet | app.py:51-53 | a non-empty whitespace-only abstract is chosen and gives an empty snippet, not a fall-through |
| WebSearch.AbstractIgnoresTopics | app.py:51-55 | with a truthy abstract, whatever `RelatedTopics` is added changes nothing |
| WebSearch.FirstQualifyingTopicWins | app.py:55-57 | without an abstract, the first dict topic with truthy `Text` gives `WebSummary(Text, FirstURL)`, unstripped |
| WebSearch.NoQualifyingTopicGivesNone | app.py:55-59 | without an abstract, a falsy topic list or one where no topic qualifies gives `None` |
| WebSearch.TextOrDictTopicsGiveNone | app.py:55-59 | a truthy string or dict in `RelatedTopics` is iterated but yields no summary |
| WebSearch.ScalarTopicsRaise | app.py:55 | a truthy number or `true` in `RelatedTopics` raises `TypeError` |
| WebSearch.SummaryNeedsPayload | app.py:35-57 | a summary implies a non-blank question and a received payload; its snippet is the stripped abstract, or a truthy topic text when there is no abstract |
| Offline.MentionedNotBlank | app.py:63-68 | a question containing a keyword is not blank |
| Offline.KeywordsNeedText | app.py:64-71 | a question that greets or asks who the assistant is is not blank |
| Offline.CraftOfflineResponse | app.py:62-80 | the rules in order on the question as given: blank gives the prompt; "bonjour"/"salut" in any case gives the greeting; else "qui es"/"shizu" gives the introduction; else the wrapped generic text |
| Offline.GreetingWins | app.py:67-69 | a greeting word in any ASCII case, anywhere and next to anything (the name included), gives the greeting |
| Offline.NameGivesIntro | app.py:71-72 | "shizu" or "qui es" in any ASCII case gives the introduction when no greeting word occurs |
| Offline.FallbackIgnoresQuestion | app.py:74-80 | every question that triggers no rule gets the same text, `fill(Generic, 90)` |
| Offline.ReplyIgnoresCase | app.py:67 | questions equal up to ASCII case get the same reply |
| Offline.ReplyIgnoresSurroundingSpace | app.py:63 | stripping the question first changes no reply |
| Offline.SalutShizuIsGreeted | app.py:68-69 | `"  Salut Shizu "` gets the greeting, not the introduction |
| Answer.Format | app.py:93-94 | an f-string shows a string field as itself, `None` as "None", booleans as `True`/`False`, and ints, floats, lists and dicts through `render` |
| Answer.SourceSegment | app.py:94 | the "\nSource : …" segment is empty exactly when the source is falsy, and otherwise is the label followed by the source |
| Answer.WebText | app.py:90-96 | the text before wrapping is the offline reply, a blank line, "Recherche web : " and the snippet, then the source segment, at the stated offsets |
| Answer.AnswerQuestion | app.py:83-100 | with the web off the reply is the offline reply and the flag is false; the flag is true exactly when a summary was obtained; the reply is then `fill(WebText(...), 90)` and otherwise the offline reply; a fetch exception escapes |
| Answer.BlankQuestionGetsPrompt | app.py:86-87 | a blank question gives `(prompt, false)` with the web on or off |
| Answer.FailedRequestFallsBack | app.py:86-100 | a failed request gives `(offline reply, false)`, never an error |
| Answer.WebTextHasOffline | app.py:92 | the text before wrapping contains the offline reply |
| Answer.WebTextHasSnippet | app.py:93 | the text before wrapping contains "Recherche web : " followed by the snippet |
| Answer.WebTextSource | app.py:94 | the labelled source is contained when the source is truthy; otherwise the text ends right after the snippet |
| Answer.WebAnswer | app.py:89-98 | an obtained summary, even with an empty snippet, gives the wrapped text and the flag true |
| Terminal.PaletteAt | app.py:106-107 | each palette entry is a 5-character escape code |
| Terminal.ColoredAt | app.py:107 | the k-th 6-character block of the joined pairs, started at index i, is `palette[(i + k) % 3]` followed by the k-th character, whatever follows the blocks |
| Terminal.StylizeGradient | app.py:103-108 | the output has length `6*|t| + 4`; block k is `palette[k % 3] + t[k]`; the output ends with the reset code |
| Terminal.VisibleGradient | app.py:103-108 | on screen the gradient shows exactly the text it colours |
| Terminal.ColorPrefix | app.py:127-130 | disabled: the label unchanged; enabled: the red (web) or grey code, the label, then the reset code |
| Terminal.VisibleColorPrefix | app.py:127-130 | on screen a prefix shows exactly its label, coloured or not |
| Terminal.Tag | app.py:196-199 | the tag is `color_prefix("[Web]", use_color, web=True)` when the reply used web data and `color_prefix("[Offline]", use_color, web=False)` otherwise; it shows exactly that tag text, and coloured it starts with red for web or grey for offline and ends with the reset code |

## Left out

- Network I/O (`requests.get`, the query parameters as sent on the wire, the
  timeout): the outcome of the one request is the parameter `network`, and a
  failure stands for every `RequestException` and for the `ValueError` of a
  body that is not JSON.
- JSON decoding itself: the model starts from the decoded value. Floats are
  reals; `NaN` and `Infinity`, which Python's decoder accepts, are not
  represented. Nor is a string holding a lone surrogate escape such as
  `"\ud800"`, which Python's decoder accepts but which is not a Dafny
  `string`.
- `textwrap.fill`: its wrapping algorithm is not modelled. It is the
  parameter `fill`. No claim is made that the "\n\n" or "\nSource" newlines
  survive wrapping; the properties are stated on the text before wrapping.
- Python's `str()` of a decoded int, float, list or dict in the f-string: the
  parameter `render`. Strings, `None` and booleans are spelled out.
- Text.LowerChar: lowers ASCII letters only. The only other characters whose
  Python lower case contains an ASCII letter are the Kelvin sign (to `k`) and
  `İ` (to `i` plus a combining dot). Neither can complete "bonjour", "salut",
  "qui es" or "shizu", so the four keyword tests are unaffected.
- The timeout value and its `max(timeout, 0.1)` clamp: a float passed only to
  the network call.
- argparse, `banner`, `print`, `input`, the interactive loop with its
  `KeyboardInterrupt`/`EOFError` handling, the joining of the command-line
  words and the printed line `f"{tag} {reply}"`: terminal I/O.
- Order of evaluation: `answer_question` fetches before building the offline
  reply. The offline reply is pure and total, so the order is not observable
  and the model does not record it.
