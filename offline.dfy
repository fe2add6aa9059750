/** `craft_offline_response`: the canned replies, chosen by rules tried in a
    fixed order on the stripped, lower-cased question. */
module Offline {
  import opened Text

  /** Column width passed to `textwrap.fill`. */
  const Width: nat := 90

  const Prompt: string := "Je suis ShizuAi. Pose-moi une question pour commencer !"
  const Greeting: string := "Bonjour ! Je suis ShizuAi, prête à t'aider. Tu cherches quoi aujourd'hui ?"
  const Intro: string := "Je suis ShizuAi, une IA en Python qui peut répondre et chercher des infos sur le web."
  const Generic: string :=
    "Je vais analyser ta question et fournir une réponse concise. "
    + "Active la recherche web si tu veux que je récupère aussi une source en ligne."

  /** `keyword in question.lower()`. */
  predicate Mentions(question: string, keyword: string) {
    Contains(Lower(question), keyword)
  }

  /** The second rule: a greeting keyword. */
  predicate Greets(question: string) {
    Mentions(question, "bonjour") || Mentions(question, "salut")
  }

  /** The third rule: the question asks who the assistant is, or names it. */
  predicate AsksWho(question: string) {
    Mentions(question, "qui es") || Mentions(question, "shizu")
  }

  /** A keyword that occurs in a question rules out a blank question. */
  lemma MentionedNotBlank(question: string, keyword: string)
    requires keyword != [] && TightEnds(keyword) && Mentions(question, keyword)
    ensures !Blank(question)
  {
    var k := ContainsWitness(Lower(question), keyword);
    assert LowerChar(question[k]) == keyword[0];
  }

  /** A question that greets or asks who the assistant is is not blank. */
  lemma KeywordsNeedText(question: string)
    ensures Greets(question) || AsksWho(question) ==> !Blank(question)
  {
    if Mentions(question, "bonjour") { MentionedNotBlank(question, "bonjour"); }
    if Mentions(question, "salut") { MentionedNotBlank(question, "salut"); }
    if Mentions(question, "qui es") { MentionedNotBlank(question, "qui es"); }
    if Mentions(question, "shizu") { MentionedNotBlank(question, "shizu"); }
  }

  /** `craft_offline_response(question)`, with `textwrap.fill` as the
      parameter `fill`. The rules are stated on the question as given: the
      stripping the source does first changes none of them. */
  function CraftOfflineResponse(question: string, fill: (string, nat) -> string): (r: string)
    ensures Blank(question) ==> r == Prompt
    ensures Greets(question) ==> r == Greeting
    ensures !Greets(question) && AsksWho(question) ==> r == Intro
    ensures !Blank(question) && !Greets(question) && !AsksWho(question) ==> r == fill(Generic, Width)
  {
    StripEmptyIffBlank(question);
    KeywordSurvivesStrip(question, "bonjour");
    KeywordSurvivesStrip(question, "salut");
    KeywordSurvivesStrip(question, "qui es");
    KeywordSurvivesStrip(question, "shizu");
    KeywordsNeedText(question);
    var q := Strip(question);
    if q == [] then Prompt
    else
      var lowered := Lower(q);
      if Contains(lowered, "bonjour") || Contains(lowered, "salut") then Greeting
      else if Contains(lowered, "qui es") || Contains(lowered, "shizu") then Intro
      else fill(Generic, Width)
  }

  /** A greeting keyword, in any ASCII case, wins wherever it sits in the
      question and whatever else the question says (the assistant's name
      included). */
  lemma {:induction false} GreetingWins(before: string, word: string, after: string, fill: (string, nat) -> string)
    requires Lower(word) == "bonjour" || Lower(word) == "salut"
    ensures CraftOfflineResponse(before + word + after, fill) == Greeting
  {
    var q := before + word + after;
    LowerSlice(q, |before|, |before| + |word|, word);
    ContainsAt(Lower(q), Lower(word), |before|);
  }

  /** A question that names the assistant, in any ASCII case, and greets in
      neither way gets the introduction. */
  lemma {:induction false} NameGivesIntro(before: string, word: string, after: string, fill: (string, nat) -> string)
    requires Lower(word) == "shizu" || Lower(word) == "qui es"
    requires !Greets(before + word + after)
    ensures CraftOfflineResponse(before + word + after, fill) == Intro
  {
    var q := before + word + after;
    LowerSlice(q, |before|, |before| + |word|, word);
    ContainsAt(Lower(q), Lower(word), |before|);
  }

  /** Every question that triggers no rule gets the same wrapped text. */
  lemma FallbackIgnoresQuestion(q1: string, q2: string, fill: (string, nat) -> string)
    requires !Blank(q1) && !Greets(q1) && !AsksWho(q1)
    requires !Blank(q2) && !Greets(q2) && !AsksWho(q2)
    ensures CraftOfflineResponse(q1, fill) == CraftOfflineResponse(q2, fill) == fill(Generic, Width)
  {
  }

  /** The reply ignores ASCII case. */
  lemma {:induction false} ReplyIgnoresCase(a: string, b: string, fill: (string, nat) -> string)
    requires Lower(a) == Lower(b)
    ensures CraftOfflineResponse(a, fill) == CraftOfflineResponse(b, fill)
  {
    StripIgnoresCase(a, b);
    StripEmptyIffBlank(a);
    StripEmptyIffBlank(b);
    KeywordSurvivesStrip(a, "bonjour");
    KeywordSurvivesStrip(a, "salut");
    KeywordSurvivesStrip(a, "qui es");
    KeywordSurvivesStrip(a, "shizu");
    KeywordSurvivesStrip(b, "bonjour");
    KeywordSurvivesStrip(b, "salut");
    KeywordSurvivesStrip(b, "qui es");
    KeywordSurvivesStrip(b, "shizu");
  }

  /** The reply ignores surrounding whitespace: stripping the question first
      changes nothing. */
  lemma ReplyIgnoresSurroundingSpace(question: string, fill: (string, nat) -> string)
    ensures CraftOfflineResponse(Strip(question), fill) == CraftOfflineResponse(question, fill)
  {
    StripIdempotent(question);
    StripEmptyIffBlank(question);
    StripEmptyIffBlank(Strip(question));
    KeywordSurvivesStrip(question, "bonjour");
    KeywordSurvivesStrip(question, "salut");
    KeywordSurvivesStrip(question, "qui es");
    KeywordSurvivesStrip(question, "shizu");
  }

  /** A concrete case: a greeting that also names the assistant, with
      surrounding spaces, is answered with the greeting. */
  lemma SalutShizuIsGreeted(fill: (string, nat) -> string)
    ensures CraftOfflineResponse("  Salut Shizu ", fill) == Greeting
  {
    assert Lower("Salut") == "salut";
    assert "  " + "Salut" + " Shizu " == "  Salut Shizu ";
    GreetingWins("  ", "Salut", " Shizu ", fill);
  }
}
