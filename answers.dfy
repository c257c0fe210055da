/**
  The replies VoiceBook_aiscript.js gives without the language model: the
  two canned answers, the questions behind the quick-action buttons, the
  choice of reply to a failed model request, and the check of an entered
  API key. Texts are kept code point for code point as the file holds them
  (its emoji and bullets read back as Mac Roman, so each shows as three or
  four characters), with the file's line breaks as single newlines, as a
  template literal reads them.
*/
module Answers {
  import opened Text

  // ---------------------------------------------------------------------
  // Canned answers

  /** The two canned answers. */
  datatype Reply = Help | Invitation

  /** The words of each canned answer. */
  function ReplyText(reply: Reply): string {
    match reply
    case Help =>
      "I can help you explore all 61 chapters of Pride and Prejudice:\n\n\U{F8FF}\U{FC}\U{EC}\U{F1} **BOOK READING**: Say \"read chapter 1\" or \"go to chapter 25\" to hear any chapter.\n\n\U{F8FF}\U{FC}\U{DF}\U{2020} **LITERARY ANALYSIS**: Activate OpenAI for detailed analysis of:\n\U{201A}\U{C4}\U{A2} Characters and their development across all chapters\n\U{201A}\U{C4}\U{A2} Themes and social commentary throughout the novel\n\U{201A}\U{C4}\U{A2} Literary techniques and Austen\'s writing style\n\U{201A}\U{C4}\U{A2} Historical context of Regency England\n\U{201A}\U{C4}\U{A2} Complete plot analysis\n\n\U{F8FF}\U{FC}\U{E9}\U{D8} **QUICK COMMANDS**:\n\U{201A}\U{C4}\U{A2} \"Read Chapter [1-61]\" - Hear any chapter\n\U{201A}\U{C4}\U{A2} \"Tell me about Elizabeth\'s development\" - Character analysis\n\U{201A}\U{C4}\U{A2} \"What are the marriage themes?\" - Theme exploration\n\U{201A}\U{C4}\U{A2} \"Analyze Darcy\'s proposal\" - Scene analysis\n\nActivate OpenAI using your API key for advanced literary analysis of all 61 chapters!"
    case Invitation =>
      "I\'d love to help you explore all 61 chapters of Pride and Prejudice! \n\nYou can:\n\U{201A}\U{C4}\U{A2} Say \"read chapter 1\" to hear the beginning (or any chapter 1-61)\n\U{201A}\U{C4}\U{A2} Ask about characters, themes, or specific scenes\n\U{201A}\U{C4}\U{A2} Activate OpenAI for detailed literary analysis of the entire novel\n\nTry saying \"help\" to see all available commands."
  }

  /** `getBasicResponse`: the help text when the question, lower-cased,
      mentions help, the general invitation otherwise. */
  function GetBasicResponse(question: string): (r: Reply)
    ensures r == Help <==> Contains(Lower(question), "help")
  {
    if Contains(Lower(question), "help") then Help else Invitation
  }

  /** Lower-casing twice is lower-casing once. */
  lemma LowerTwice(s: string)
    ensures Lower(Lower(s)) == Lower(s)
  {
    forall i | 0 <= i < |s|
      ensures Lower(Lower(s))[i] == Lower(s)[i]
    {
      assert Lower(s)[i] == LowerChar(s[i]);
    }
  }

  /** The answer does not depend on the case of the question. */
  lemma BasicResponseIgnoresCase(question: string)
    ensures GetBasicResponse(Lower(question)) == GetBasicResponse(question)
  {
    LowerTwice(question);
  }

  // ---------------------------------------------------------------------
  // Quick actions

  const CharactersQuestion := "tell me about the main characters in pride and prejudice"
  const ThemesQuestion := "what are the main themes in pride and prejudice"
  const PlotQuestion := "give me a plot summary of pride and prejudice"

  /** `handleQuickAction`: the question a button stands for; a command the
      switch does not know leaves the question empty. */
  function QuickActionQuestion(command: string): (q: string)
    ensures command == "help" ==> q == "help"
    ensures command == "characters" ==> q == CharactersQuestion
    ensures command == "themes" ==> q == ThemesQuestion
    ensures command == "plot" ==> q == PlotQuestion
    ensures command !in {"help", "characters", "themes", "plot"} ==> q == []
  {
    match command
    case "help" => "help"
    case "characters" => CharactersQuestion
    case "themes" => ThemesQuestion
    case "plot" => PlotQuestion
    case _ => ""
  }

  /** The help button asks for help, and so gets the help text. */
  lemma QuickHelpGetsHelp()
    ensures GetBasicResponse(QuickActionQuestion("help")) == Help
  {
    ContainsInside("", "help", "");
    assert Lower("help") == "help";
  }

  /** An unknown button asks the empty question, which gets the
      invitation. */
  lemma UnknownActionGetsInvitation(command: string)
    requires command !in {"help", "characters", "themes", "plot"}
    ensures GetBasicResponse(QuickActionQuestion(command)) == Invitation
  {
    assert !StartsWith(Lower(""), "help");
  }

  // ---------------------------------------------------------------------
  // Failed model requests

  /** What went wrong with a model request, as `handleAIError` tells it
      from the error message. */
  datatype AIErrorKind = InvalidKey | QuotaExceeded | RateLimited | Technical

  /** `handleAIError`'s tests, in order: the invalid-key phrase first, then
      "quota", then "rate limit"; anything else is a technical issue. */
  function ClassifyAIError(message: string): (k: AIErrorKind)
    ensures k == InvalidKey <==> Contains(message, "Incorrect API key")
    ensures k == QuotaExceeded <==> !Contains(message, "Incorrect API key") && Contains(message, "quota")
    ensures k == RateLimited <==> !Contains(message, "Incorrect API key") && !Contains(message, "quota")
                                  && Contains(message, "rate limit")
  {
    if Contains(message, "Incorrect API key") then InvalidKey
    else if Contains(message, "quota") then QuotaExceeded
    else if Contains(message, "rate limit") then RateLimited
    else Technical
  }

  const InvalidKeyReply := "Your OpenAI API key appears to be invalid. Please check it and try again."
  const QuotaReply := "Your OpenAI quota has been exceeded. Check your usage or billing setup."
  const RateLimitReply := "Too many requests to OpenAI. Please wait a moment and try again."

  /** The reply shown for each kind of failure: a fixed advice for each
      known cause; when no known cause is named, the reply passes the error
      message on to the listener. */
  function AIErrorMessage(message: string): (r: string)
    ensures ClassifyAIError(message) == InvalidKey ==> r == InvalidKeyReply
    ensures ClassifyAIError(message) == QuotaExceeded ==> r == QuotaReply
    ensures ClassifyAIError(message) == RateLimited ==> r == RateLimitReply
    ensures ClassifyAIError(message) == Technical ==> Contains(r, message)
  {
    match ClassifyAIError(message)
    case InvalidKey => InvalidKeyReply
    case QuotaExceeded => QuotaReply
    case RateLimited => RateLimitReply
    case Technical =>
      ContainsInside("Technical issue: ", message, ". Please try again.");
      "Technical issue: " + message + ". Please try again."
  }

  /** Only an invalid key makes the session forget the key. */
  predicate ResetsCredential(k: AIErrorKind) {
    k == InvalidKey
  }

  /** A message that names several causes is read as the first of them:
      an invalid key outranks an exhausted quota, which outranks a rate
      limit. */
  lemma ErrorPrecedence(a: string, b: string, c: string)
    ensures ClassifyAIError(a + "Incorrect API key" + b + "quota" + c) == InvalidKey
    ensures !Contains(a + "quota" + b + "rate limit" + c, "Incorrect API key")
            ==> ClassifyAIError(a + "quota" + b + "rate limit" + c) == QuotaExceeded
  {
    ContainsInside(a, "Incorrect API key", b + "quota" + c);
    assert a + "Incorrect API key" + b + "quota" + c == a + "Incorrect API key" + (b + "quota" + c);
    ContainsInside(a, "quota", b + "rate limit" + c);
    assert a + "quota" + b + "rate limit" + c == a + "quota" + (b + "rate limit" + c);
  }

  // ---------------------------------------------------------------------
  // Entering the API key

  /** `activateAI`'s first step: the entered key with surrounding
      whitespace trimmed, or nothing when that leaves it empty. */
  function ActivationKey(input: string): (r: Option<string>)
    ensures r.None? <==> forall i :: 0 <= i < |input| ==> IsSpace(input[i])
    ensures r.Some? ==> r.value != [] && !IsSpace(r.value[0]) && !IsSpace(r.value[|r.value| - 1])
  {
    var key := Trim(input);
    if key == [] then None else Some(key)
  }
}
