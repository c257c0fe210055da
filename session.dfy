/**
  The session of VoiceBook_aiscript.js: how a spoken command picks a
  chapter, how each utterance is sorted, and the `VoiceBookAI` object whose
  fields the command handlers update. Everything the object shows or says
  is appended to an event log; the browser's speech output, the model
  request and the 30-minute timer are stood in for by parameters and by
  explicit steps.
*/
module Session {
  import opened Text
  import opened Patterns
  import opened BookStore
  import opened Speech
  import opened Answers

  // ---------------------------------------------------------------------
  // Picking the chapter

  /** The chapter a transcript asks for (`handleChapterCommand`): the
      number after "chapter" if there is one, else the first run of digits,
      else the number after "read", else the current chapter. */
  function RequestedChapter(transcript: string, current: int): (n: int)
    ensures SearchKeywordNumber(transcript, "chapter").Some? ==> n == SearchKeywordNumber(transcript, "chapter").value
    ensures SearchKeywordNumber(transcript, "chapter").None? && FirstNumber(transcript).Some?
            ==> n == FirstNumber(transcript).value
  {
    match SearchKeywordNumber(transcript, "chapter")
    case Some(v) => v
    case None =>
      match FirstNumber(transcript)
      case Some(v) => v
      case None =>
        match SearchKeywordNumber(transcript, "read")
        case Some(v) => v
        case None => current
  }

  /** The "read" pattern never decides: two patterns give the same
      chapter, and a transcript without digits keeps the current one. */
  lemma ReadPatternNeverDecides(transcript: string, current: int)
    ensures RequestedChapter(transcript, current) ==
      match SearchKeywordNumber(transcript, "chapter")
      case Some(v) => v
      case None => if FirstNumber(transcript).Some? then FirstNumber(transcript).value else current
    ensures NoDigits(transcript) ==> RequestedChapter(transcript, current) == current
  {
    if SearchKeywordNumber(transcript, "read").Some? {
      KeywordMatchImpliesNumber(transcript, "read");
    }
    if NoDigits(transcript) && SearchKeywordNumber(transcript, "chapter").Some? {
      KeywordMatchImpliesNumber(transcript, "chapter");
    }
  }

  /** The command the navigation buttons issue reads back the chapter it
      names. */
  lemma NavigationRoundTrip(c: nat, current: int)
    ensures RequestedChapter("read chapter " + NatToString(c), current) == c
  {
    var d := NatToString(c);
    assert "read chapter " + d == "read " + "chapter " + d + "";
    assert NoDigits("read ") by {
      forall i | 0 <= i < |"read "| ensures !IsDigit("read "[i]) {
      }
    }
    ChapterPhraseMatches("read ", d, "");
    DecimalRoundTrip(c);
  }

  /** A negative chapter stored by navigation is printed with its minus
      sign, which the "chapter" pattern cannot read; the digit pattern then
      reads the number without its sign. */
  lemma NegativeNavigation(c: nat, current: int)
    requires c > 0
    ensures RequestedChapter("read chapter " + IntToString(-(c as int)), current) == c
  {
    var d := NatToString(c);
    assert "read chapter " + IntToString(-(c as int)) == "read " + "chapter -" + d;
    assert NoDigits("read ") by {
      forall i | 0 <= i < |"read "| ensures !IsDigit("read "[i]) {
      }
    }
    MinusNumberRead("read ", d, current);
    DecimalRoundTrip(c);
  }

  /** After "chapter -" only the digit pattern can match. */
  lemma MinusNumberRead(pre: string, d: string, current: int)
    requires NoDigits(pre) && Avoids(pre, {'c', 'C'})
    requires AllDigits(d) && d != []
    ensures RequestedChapter(pre + "chapter -" + d, current) == DecimalValue(d)
  {
    MinusDefeatsKeyword(pre, d);
    var p := pre + "chapter -";
    assert NoDigits(p) by {
      forall i | 0 <= i < |p| ensures !IsDigit(p[i]) {
        if i < |pre| {
          assert p[i] == pre[i];
        }
      }
    }
    assert pre + "chapter -" + d == p + d + "";
    FirstNumberAfter(p, d, "");
  }

  /** The chapter `handleChapterNavigation` stores before reading it:
      "prev" and "next" step from a chapter in range to a chapter in range,
      by one unless already at that end; any other argument is stored as
      `parseInt` reads it. */
  function NavigationValue(chapter: string, current: int): (v: int)
    requires chapter == "prev" || chapter == "next" || ParseInt(chapter).Some?
    ensures (chapter == "prev" || chapter == "next") && IsChapterNumber(current) ==> IsChapterNumber(v)
    ensures chapter == "prev" && IsChapterNumber(current) ==> v == (if current == 1 then 1 else current - 1)
    ensures chapter == "next" && IsChapterNumber(current) ==> v == (if current == ChapterCount then ChapterCount else current + 1)
    ensures chapter == "prev" ==> v == Max(1, current - 1)
    ensures chapter == "next" ==> v == Min(ChapterCount, current + 1)
    ensures chapter != "prev" && chapter != "next" ==> Some(v) == ParseInt(chapter)
  {
    if chapter == "prev" then Max(1, current - 1)
    else if chapter == "next" then Min(ChapterCount, current + 1)
    else ParseInt(chapter).value
  }

  /** The command navigation issues for a stored value selects that value
      without its sign. */
  lemma NavigationReads(v: int, current: int)
    ensures RequestedChapter("read chapter " + IntToString(v), current) == Abs(v)
  {
    if v >= 0 {
      NavigationRoundTrip(v, current);
    } else {
      NegativeNavigation(-v, current);
    }
  }

  function Abs(i: int): nat {
    if i >= 0 then i else -i
  }

  // ---------------------------------------------------------------------
  // Sorting an utterance

  const WakeWord := "hey book"

  /** What `processVoiceCommand` does with a transcript. */
  datatype Command = Acknowledge | Wake | Ignore | ReadChapter | AskQuestion

  function ClassifyCommand(transcript: string, awake: bool): (c: Command)
    ensures c == Acknowledge <==> awake && Contains(transcript, WakeWord)
    ensures c == Wake <==> !awake && Contains(transcript, WakeWord)
    ensures c == Ignore <==> !awake && !Contains(transcript, WakeWord)
    ensures c == ReadChapter <==>
      (awake && !Contains(transcript, WakeWord)
       && (Contains(transcript, "chapter") || Contains(transcript, "read") || !NoDigits(transcript)))
  {
    if awake && Contains(transcript, WakeWord) then Acknowledge
    else if !awake && Contains(transcript, WakeWord) then Wake
    else if !awake then Ignore
    else if Contains(transcript, "chapter") || Contains(transcript, "read") || !NoDigits(transcript) then ReadChapter
    else AskQuestion
  }

  /** "read" is looked for as a substring, so a question that merely
      contains "ready" or "already" is taken for a chapter command. */
  lemma ReadInsideWord(a: string, b: string)
    requires !Contains(a + "ready" + b, WakeWord)
    ensures ClassifyCommand(a + "ready" + b, true) == ReadChapter
  {
    ContainsInside(a, "read", "y" + b);
    assert a + "read" + ("y" + b) == a + "ready" + b;
  }

  // ---------------------------------------------------------------------
  // What the session shows and says

  /** Each text the session shows or speaks, named by where it comes from;
      `MessageText` gives its exact words. */
  datatype Message =
    | Verbatim(text: string)
    | NoSuchChapter(n: int)
    | LoadingChapter(n: int)
    | TroubleLoading
    | ChapterShown(n: int, content: string)
    | ChapterRead(n: int, content: string)
    | AlreadyListening
    | WakeNotice(loaded: bool, ready: bool)
    | WakeGreeting(loaded: bool, ready: bool)
    | SleepNotice
    | GoingToSleep
    | BasicAnswer(reply: Reply)
    | AIErrorReply(error: string)
    | TechnicalDifficulties
    | ActivatedNotice
    | ActivatedGreeting

  function BookStatus(loaded: bool): string {
    if loaded then "I have access to all 61 chapters of Pride and Prejudice."
    else "I'm still loading the complete book content."
  }

  /** "Chapter N. ", spoken before a chapter's text; it names the number. */
  function Announcement(n: int): (r: string)
    ensures Contains(r, IntToString(n))
  {
    ContainsInside("Chapter ", IntToString(n), ". ");
    "Chapter " + IntToString(n) + ". "
  }

  /** The words of each message, as the file writes them. */
  function MessageText(m: Message): string {
    match m
    case Verbatim(text) => text
    case NoSuchChapter(n) =>
      "Chapter " + IntToString(n) + " doesn't exist. Pride and Prejudice has 61 chapters (1-61)."
    case LoadingChapter(n) => "\U{F8FF}\U{FC}\U{EC}\U{F1} Loading Chapter " + IntToString(n) + "..."
    case TroubleLoading => "I'm having trouble loading that chapter. Please try another chapter or wait a moment."
    case ChapterShown(n, content) => "**Chapter " + IntToString(n) + "**\n\n" + content
    case ChapterRead(n, content) => Announcement(n) + ProcessContentForSpeech(content)
    case AlreadyListening => "I'm already listening! What would you like to know?"
    case WakeNotice(loaded, ready) =>
      if ready then
        "\U{F8FF}\U{FC}\U{DF}\U{2020} OpenAI is active! " + BookStatus(loaded)
        + " Ask me any literary questions or say \"read chapter\" to hear the book."
      else
        "\U{F8FF}\U{FC}\U{EC}\U{F6} VoiceBook AI is active! " + BookStatus(loaded)
        + " For detailed literary analysis, please activate OpenAI."
    case WakeGreeting(loaded, ready) =>
      if ready then
        "Hello! OpenAI is ready. " + BookStatus(loaded)
        + " Try saying \"read chapter one\" or ask me about characters and themes."
      else
        "Hello! " + BookStatus(loaded)
        + " I can help with basic navigation and read chapters. For detailed literary analysis with OpenAI, please activate it."
    case SleepNotice => "VoiceBook AI is in sleep mode. Say \"Hey Book\" to wake me up."
    case GoingToSleep => "Going to sleep now. Say Hey Book when you need me again."
    case BasicAnswer(reply) => ReplyText(reply)
    case AIErrorReply(error) => AIErrorMessage(error)
    case TechnicalDifficulties => "I'm having technical difficulties with the AI connection."
    case ActivatedNotice =>
      "\U{F8FF}\U{FC}\U{DF}\U{2020} OpenAI Literary Expert is now active! I can provide detailed analysis and read all 61 chapters of Pride and Prejudice."
    case ActivatedGreeting =>
      "OpenAI Literary Expert activated! I have access to all 61 chapters of Pride and Prejudice and can provide deep literary analysis."
  }

  /** Every message about a chapter names its number (the chapter read
      aloud does so in its `Announcement`). */
  lemma ChapterNamed(n: int, content: string)
    ensures Contains(MessageText(NoSuchChapter(n)), IntToString(n))
    ensures Contains(MessageText(LoadingChapter(n)), IntToString(n))
    ensures Contains(MessageText(ChapterShown(n, content)), IntToString(n))
  {
    RefusalNamed(n);
    LoadingNamed(n);
    ShownNamed(n, content);
  }

  lemma RefusalNamed(n: int)
    ensures Contains(MessageText(NoSuchChapter(n)), IntToString(n))
  {
    ContainsInside("Chapter ", IntToString(n), " doesn't exist. Pride and Prejudice has 61 chapters (1-61).");
  }

  lemma LoadingNamed(n: int)
    ensures Contains(MessageText(LoadingChapter(n)), IntToString(n))
  {
    ContainsInside("\U{F8FF}\U{FC}\U{EC}\U{F1} Loading Chapter ", IntToString(n), "...");
  }

  lemma ShownNamed(n: int, content: string)
    ensures Contains(MessageText(ChapterShown(n, content)), IntToString(n))
  {
    ContainsBefore("**Chapter ", IntToString(n), "**\n\n", content);
  }

  /** The chapter shown on screen is shown whole. */
  lemma ChapterShownWhole(n: int, content: string)
    ensures Contains(MessageText(ChapterShown(n, content)), content)
  {
    var head := "**Chapter " + IntToString(n) + "**\n\n";
    ContainsInside(head, content, "");
    assert head + content + "" == MessageText(ChapterShown(n, content));
  }

  /** One entry of the conversation: a message shown, or handed to the
      speech synthesiser. */
  datatype Event =
    | SystemMessage(message: Message)
    | UserMessage(text: string)
    | AIMessage(message: Message)
    | Spoke(message: Message)

  /** What the synthesiser is given for a spoken message: the words made
      fit for speech, and the voice chosen for them. */
  datatype Utterance = Utterance(text: string, voice: Option<Voice>)

  function Said(m: Message, voices: seq<Voice>): Utterance {
    Utterance(ProcessTextForSpeech(MessageText(m)), FeminineVoice(voices))
  }

  /** Whatever is spoken reaches the synthesiser free of markup and with
      single spaces, in a voice the browser offers whenever it offers one. */
  lemma SaidIsClean(m: Message, voices: seq<Voice>)
    ensures var u := Said(m, voices);
      Avoids(u.text, QuoteChars) && Avoids(u.text, SymbolChars) && WellSpaced(u.text)
      && (u.voice.Some? <==> voices != []) && (u.voice.Some? ==> u.voice.value in voices)
  {
  }

  /** The chapter read aloud never runs past the speech limit by more than
      its short announcement. */
  lemma ChapterReadLength(n: int, content: string)
    requires IsChapterNumber(n)
    ensures |MessageText(ChapterRead(n, content))| <= 12 + SpeechLimit + |ContinuesMark|
  {
    assert |IntToString(n)| <= 2 by {
      if n >= 10 {
        assert NatToString(n) == NatToString(n / 10) + [DigitChar(n % 10)];
      }
    }
  }

  // Chapter command

  /** What `handleChapterCommand` shows and says for chapter `n`: an
      out-of-range number is refused; otherwise the chapter is announced,
      then either the lookup's failure message is shown and an apology
      spoken, or the chapter is shown whole and read out shortened. Every
      outcome ends in speech. */
  function ChapterEvents(n: int, loaded: bool, book: Option<map<int, string>>): (e: seq<Event>)
    ensures 2 <= |e| <= 3 && e[|e| - 1].Spoke?
    ensures |e| == 3 <==> IsChapterNumber(n)
    ensures !IsChapterNumber(n) ==> e == [AIMessage(NoSuchChapter(n)), Spoke(NoSuchChapter(n))]
    ensures IsChapterNumber(n) ==> e[0] == SystemMessage(LoadingChapter(n))
  {
    if !IsChapterNumber(n) then [AIMessage(NoSuchChapter(n)), Spoke(NoSuchChapter(n))]
    else
      var content := GetBookContent(loaded, book, n);
      [SystemMessage(LoadingChapter(n))]
      + if LooksLikeFailure(content) then [AIMessage(Verbatim(content)), Spoke(TroubleLoading)]
        else [AIMessage(ChapterShown(n, content)), Spoke(ChapterRead(n, content))]
  }

  /** A stored chapter free of the two failure phrases is shown whole and
      read out in its shortened form. */
  lemma ChapterReadAloud(n: int, book: map<int, string>)
    requires IsChapterNumber(n) && n in book && book[n] != ""
    requires !LooksLikeFailure(book[n])
    ensures ChapterEvents(n, true, Some(book)) ==
      [SystemMessage(LoadingChapter(n)), AIMessage(ChapterShown(n, book[n])), Spoke(ChapterRead(n, book[n]))]
  {
  }

  /** Before the book has loaded, every chapter in range gets the loading
      message and the apology. */
  lemma ChapterBeforeLoading(n: int, book: Option<map<int, string>>)
    requires IsChapterNumber(n)
    ensures ChapterEvents(n, false, book) ==
      [SystemMessage(LoadingChapter(n)), AIMessage(Verbatim(LoadingMessage)), Spoke(TroubleLoading)]
  {
    FailureDetection(false, book, n);
  }

  /** Once the book has loaded, a chapter in range that the text did not
      provide (absent, or stored empty) gets the "not available" message
      shown and the apology spoken. */
  lemma ChapterMissing(n: int, book: map<int, string>)
    requires IsChapterNumber(n)
    requires n !in book || book[n] == ""
    ensures ChapterEvents(n, true, Some(book)) ==
      [SystemMessage(LoadingChapter(n)), AIMessage(Verbatim(NotAvailableMessage(n))), Spoke(TroubleLoading)]
  {
    FailureDetection(true, Some(book), n);
  }

  // Questions

  /** How a request to the language model came back: an answer, or an
      error with its message. */
  datatype ApiReply = Answer(text: string) | Failure(message: string)

  /** `processQuestion` asks the model only when it is ready and a key is
      held (an empty key counts as none). */
  predicate UsesModel(key: Option<string>, ready: bool) {
    ready && key.Some? && key.value != []
  }

  /** A key that activation accepts puts the model in use once the test
      request has passed; with no key, or before that, it is not used. */
  lemma ActivatedKeyUsesModel(input: string, key: Option<string>)
    ensures ActivationKey(input).Some? ==> UsesModel(ActivationKey(input), true)
    ensures !UsesModel(None, true) && !UsesModel(key, false)
  {
  }

  /** What `processQuestion` shows and says: the model's answer, the reply
      for its error, or the canned answer when the model is not in use. */
  function AnswerEvents(question: string, reply: ApiReply, useModel: bool): (e: seq<Event>)
    ensures |e| == 2 && e[0].AIMessage? && e[1].Spoke?
    ensures !useModel ==> e[0] == AIMessage(BasicAnswer(GetBasicResponse(question)))
    ensures !useModel ==> e[1] == Spoke(BasicAnswer(GetBasicResponse(question)))
    ensures useModel && reply.Answer? ==> e == [AIMessage(Verbatim(reply.text)), Spoke(Verbatim(reply.text))]
    ensures useModel && reply.Failure? ==> e[0] == AIMessage(AIErrorReply(reply.message))
    ensures useModel && reply.Failure? ==> e[1] == Spoke(TechnicalDifficulties)
  {
    if !useModel then
      var m := BasicAnswer(GetBasicResponse(question));
      [AIMessage(m), Spoke(m)]
    else
      match reply
      case Answer(t) => [AIMessage(Verbatim(t)), Spoke(Verbatim(t))]
      case Failure(error) => [AIMessage(AIErrorReply(error)), Spoke(TechnicalDifficulties)]
  }

  /** The credential after a question: only a model error naming an
      invalid key clears it. */
  function CredentialAfter(key: Option<string>, ready: bool, reply: ApiReply, useModel: bool): (r: (Option<string>, bool))
    ensures r != (key, ready) ==> r == (None, false)
    ensures r == (None, false) && (key, ready) != (None, false) ==>
      useModel && reply.Failure? && ClassifyAIError(reply.message) == InvalidKey
    ensures useModel && reply.Failure? && ClassifyAIError(reply.message) == InvalidKey ==> r == (None, false)
  {
    if useModel && reply.Failure? && ResetsCredential(ClassifyAIError(reply.message)) then (None, false)
    else (key, ready)
  }

  // ---------------------------------------------------------------------
  // Recognition results

  /** One recognition result: whether it is final, and the transcript of
      its best alternative. */
  datatype RecognitionResult = RecognitionResult(isFinal: bool, transcript: string)

  function FinalPiece(r: RecognitionResult): string {
    if r.isFinal then Lower(r.transcript) else []
  }

  /** The final results' transcripts, lower-cased and joined in order. */
  function FinalText(results: seq<RecognitionResult>): string {
    if results == [] then []
    else FinalText(results[..|results| - 1]) + FinalPiece(results[|results| - 1])
  }

  /** The `onresult` loop: from `resultIndex` on, the transcript of every
      final result is lower-cased and appended. */
  method CollectFinal(results: seq<RecognitionResult>, resultIndex: nat) returns (finalTranscript: string)
    ensures finalTranscript == if resultIndex < |results| then FinalText(results[resultIndex..]) else []
  {
    finalTranscript := "";
    var i := resultIndex;
    while i < |results|
      invariant resultIndex < |results| ==> resultIndex <= i <= |results|
      invariant resultIndex < |results| ==> finalTranscript == FinalText(results[resultIndex..i])
      invariant resultIndex >= |results| ==> i == resultIndex && finalTranscript == []
      decreases |results| - i
    {
      FinalTextStep(results, resultIndex, i);
      if results[i].isFinal {
        finalTranscript := finalTranscript + Lower(results[i].transcript);
      }
      i := i + 1;
    }
    if resultIndex < |results| {
      assert results[resultIndex..i] == results[resultIndex..];
    }
  }

  lemma FinalTextStep(results: seq<RecognitionResult>, from: nat, i: nat)
    requires from <= i < |results|
    ensures FinalText(results[from..i + 1]) == FinalText(results[from..i]) + FinalPiece(results[i])
  {
    assert results[from..i + 1][..i - from] == results[from..i];
  }

  /** Nothing is passed on exactly when every final result in range has an
      empty transcript. */
  lemma {:induction false} FinalTextEmpty(results: seq<RecognitionResult>)
    ensures FinalText(results) == [] <==>
      forall i :: 0 <= i < |results| && results[i].isFinal ==> results[i].transcript == []
  {
    if results != [] {
      var init := results[..|results| - 1];
      FinalTextEmpty(init);
      assert forall i :: 0 <= i < |init| ==> init[i] == results[i];
    }
  }

  /** What is passed on is already lower case, so "Hey Book" said in any
      case is heard as the wake word. */
  lemma {:induction false} FinalTextLower(results: seq<RecognitionResult>)
    ensures Lower(FinalText(results)) == FinalText(results)
  {
    if results != [] {
      var init := results[..|results| - 1];
      FinalTextLower(init);
      LowerTwice(results[|results| - 1].transcript);
      LowerAppend(FinalText(init), FinalPiece(results[|results| - 1]));
    }
  }

  lemma LowerAppend(a: string, b: string)
    ensures Lower(a + b) == Lower(a) + Lower(b)
  {
  }

  // ---------------------------------------------------------------------
  // The session object

  class VoiceBookAI {
    var isAwake: bool
    var isSpeaking: bool
    var ignoreNextResult: bool
    /** Whether the 30-minute sleep timer is pending. */
    var sleepTimerArmed: bool
    var currentChapter: int
    var openAIKey: Option<string>
    var isAPIReady: bool
    var isBookLoaded: bool
    var bookContent: Option<map<int, string>>
    /** Everything shown and said, in order. */
    var log: seq<Event>
    /** The voices the browser offers. */
    const voices: seq<Voice>

    /** The timer runs only while awake, readiness implies a key, and the
        book is loaded exactly when there is content. */
    ghost predicate Valid()
      reads this
    {
      && (sleepTimerArmed ==> isAwake)
      && (isAPIReady ==> openAIKey.Some?)
      && (isBookLoaded <==> bookContent.Some?)
    }

    twostate predicate BookKept()
      reads this
    {
      isBookLoaded == old(isBookLoaded) && bookContent == old(bookContent)
    }

    twostate predicate CredentialKept()
      reads this
    {
      openAIKey == old(openAIKey) && isAPIReady == old(isAPIReady)
    }

    /** The session flags and the chapter are as they were. */
    twostate predicate FlagsKept()
      reads this
    {
      && isAwake == old(isAwake) && sleepTimerArmed == old(sleepTimerArmed)
      && ignoreNextResult == old(ignoreNextResult) && currentChapter == old(currentChapter)
    }

    constructor(voices: seq<Voice>)
      ensures Valid()
      ensures !isAwake && !isSpeaking && !ignoreNextResult && !sleepTimerArmed
      ensures currentChapter == 1 && openAIKey.None? && !isAPIReady
      ensures !isBookLoaded && bookContent.None? && log == [] && this.voices == voices
    {
      isAwake := false;
      isSpeaking := false;
      ignoreNextResult := false;
      sleepTimerArmed := false;
      currentChapter := 1;
      openAIKey := None;
      isAPIReady := false;
      isBookLoaded := false;
      bookContent := None;
      log := [];
      this.voices := voices;
    }

    /** `speakText`: the message goes to the synthesiser (as `Said` gives
        it) and the session is speaking. */
    method Speak(m: Message)
      requires Valid()
      modifies this
      ensures Valid() && isSpeaking && log == old(log) + [Spoke(m)]
      ensures FlagsKept() && BookKept() && CredentialKept()
    {
      isSpeaking := true;
      log := log + [Spoke(m)];
    }

    /** The utterance's `onend` and `onerror` handlers: speaking is over. */
    method SpeechEnded()
      requires Valid()
      modifies this
      ensures Valid() && !isSpeaking && log == old(log)
      ensures FlagsKept() && BookKept() && CredentialKept()
    {
      isSpeaking := false;
    }

    /** `resetSleepTimer`: the pending timer is cleared, and a fresh one is
        started only while awake. */
    method ResetSleepTimer()
      requires Valid()
      modifies this
      ensures Valid() && sleepTimerArmed == isAwake
      ensures log == old(log) && isSpeaking == old(isSpeaking) && isAwake == old(isAwake)
      ensures ignoreNextResult == old(ignoreNextResult) && currentChapter == old(currentChapter)
      ensures BookKept() && CredentialKept()
    {
      sleepTimerArmed := false;
      if isAwake {
        sleepTimerArmed := true;
      }
    }

    /** `wakeUp`: awake, with the timer started, and greeted. */
    method WakeUp()
      requires Valid()
      modifies this
      ensures Valid() && isAwake && sleepTimerArmed && isSpeaking
      ensures log == old(log) + [SystemMessage(WakeNotice(isBookLoaded, isAPIReady)),
                                 Spoke(WakeGreeting(isBookLoaded, isAPIReady))]
      ensures ignoreNextResult == old(ignoreNextResult) && currentChapter == old(currentChapter)
      ensures BookKept() && CredentialKept()
    {
      isAwake := true;
      ResetSleepTimer();
      log := log + [SystemMessage(WakeNotice(isBookLoaded, isAPIReady))];
      Speak(WakeGreeting(isBookLoaded, isAPIReady));
    }

    /** `sleep`, which only the spent sleep timer calls: asleep, and the
        user told how to wake the session. */
    method Sleep()
      requires Valid() && !sleepTimerArmed
      modifies this
      ensures Valid() && !isAwake && !sleepTimerArmed && isSpeaking
      ensures log == old(log) + [SystemMessage(SleepNotice), Spoke(GoingToSleep)]
      ensures ignoreNextResult == old(ignoreNextResult) && currentChapter == old(currentChapter)
      ensures BookKept() && CredentialKept()
    {
      isAwake := false;
      log := log + [SystemMessage(SleepNotice)];
      Speak(GoingToSleep);
    }

    /** The sleep timer running out: when one is pending, the session goes
        to sleep; otherwise nothing happens. */
    method TimerFires()
      requires Valid()
      modifies this
      ensures Valid() && !sleepTimerArmed
      ensures old(sleepTimerArmed) ==>
        !isAwake && isSpeaking && log == old(log) + [SystemMessage(SleepNotice), Spoke(GoingToSleep)]
      ensures !old(sleepTimerArmed) ==> isAwake == old(isAwake) && isSpeaking == old(isSpeaking) && log == old(log)
      ensures ignoreNextResult == old(ignoreNextResult) && currentChapter == old(currentChapter)
      ensures BookKept() && CredentialKept()
    {
      if sleepTimerArmed {
        sleepTimerArmed := false;
        Sleep();
      }
    }

    /** The outcome of a chapter command relative to the state before it. */
    twostate predicate ChapterCommandDone(transcript: string)
      reads this
    {
      var n := RequestedChapter(transcript, old(currentChapter));
      && currentChapter == (if IsChapterNumber(n) then n else old(currentChapter))
      && log == old(log) + ChapterEvents(n, isBookLoaded, bookContent)
      && isSpeaking && ignoreNextResult == old(ignoreNextResult)
      && BookKept() && CredentialKept()
    }

    /** `handleChapterCommand`: the requested chapter becomes current when
        it is in range, and is shown and read; otherwise the current
        chapter stays and the number is refused. */
    method HandleChapterCommand(transcript: string)
      requires Valid()
      modifies this
      ensures Valid() && ChapterCommandDone(transcript)
      ensures isAwake == old(isAwake) && sleepTimerArmed == old(sleepTimerArmed)
    {
      var chapterNum := RequestedChapter(transcript, currentChapter);
      if chapterNum < 1 || chapterNum > 61 {
        log := log + [AIMessage(NoSuchChapter(chapterNum))];
        Speak(NoSuchChapter(chapterNum));
        return;
      }
      currentChapter := chapterNum;
      log := log + [SystemMessage(LoadingChapter(chapterNum))];
      var chapterContent := GetBookContent(isBookLoaded, bookContent, chapterNum);
      if LooksLikeFailure(chapterContent) {
        log := log + [AIMessage(Verbatim(chapterContent))];
        Speak(TroubleLoading);
        return;
      }
      log := log + [AIMessage(ChapterShown(chapterNum, chapterContent))];
      Speak(ChapterRead(chapterNum, chapterContent));
    }

    /** `handleChapterNavigation`: "prev" and "next" step one chapter and
        stop at the ends; anything else is parsed and stored as it is; then
        the chapter is read through a chapter command naming it. */
    method Navigate(chapter: string)
      requires Valid()
      requires chapter == "prev" || chapter == "next" || ParseInt(chapter).Some?
      modifies this
      ensures Valid() && isSpeaking
      ensures var v := NavigationValue(chapter, old(currentChapter));
        currentChapter == (if IsChapterNumber(Abs(v)) then Abs(v) else v)
        && log == old(log) + ChapterEvents(Abs(v), isBookLoaded, bookContent)
      ensures isAwake == old(isAwake) && sleepTimerArmed == old(sleepTimerArmed)
      ensures ignoreNextResult == old(ignoreNextResult)
      ensures BookKept() && CredentialKept()
    {
      if chapter == "prev" {
        currentChapter := Max(1, currentChapter - 1);
      } else if chapter == "next" {
        currentChapter := Min(ChapterCount, currentChapter + 1);
      } else {
        currentChapter := ParseInt(chapter).value;
      }
      NavigationReads(currentChapter, currentChapter);
      HandleChapterCommand("read chapter " + IntToString(currentChapter));
    }

    /** The outcome of a question relative to the state before it, after
        the entries in `first`. */
    twostate predicate Answered(question: string, reply: ApiReply, first: seq<Event>)
      reads this
    {
      var useModel := UsesModel(old(openAIKey), old(isAPIReady));
      && log == old(log) + first + AnswerEvents(question, reply, useModel)
      && (openAIKey, isAPIReady) == CredentialAfter(old(openAIKey), old(isAPIReady), reply, useModel)
      && isSpeaking && currentChapter == old(currentChapter) && BookKept()
    }

    /** `processQuestion`: the model's answer when it is in use, the canned
        answer otherwise; a model error goes to `handleAIError`. */
    method ProcessQuestion(question: string, reply: ApiReply)
      requires Valid()
      modifies this
      ensures Valid() && Answered(question, reply, [])
      ensures isAwake == old(isAwake) && sleepTimerArmed == old(sleepTimerArmed)
      ensures ignoreNextResult == old(ignoreNextResult)
    {
      if isAPIReady && openAIKey.Some? && openAIKey.value != [] {
        match reply
        case Answer(response) =>
          log := log + [AIMessage(Verbatim(response))];
          Speak(Verbatim(response));
        case Failure(message) =>
          HandleAIError(message);
      } else {
        var response := BasicAnswer(GetBasicResponse(question));
        log := log + [AIMessage(response)];
        Speak(response);
      }
    }

    /** `handleAIError` with `resetAPIState`: the reply for the error is
        shown, an apology spoken, and the credential dropped only for an
        invalid key. */
    method HandleAIError(message: string)
      requires Valid()
      modifies this
      ensures Valid() && isSpeaking
      ensures log == old(log) + [AIMessage(AIErrorReply(message)), Spoke(TechnicalDifficulties)]
      ensures ResetsCredential(ClassifyAIError(message)) ==> openAIKey.None? && !isAPIReady
      ensures !ResetsCredential(ClassifyAIError(message)) ==> CredentialKept()
      ensures FlagsKept() && BookKept()
    {
      if ClassifyAIError(message) == InvalidKey {
        ResetAPIState();
      }
      log := log + [AIMessage(AIErrorReply(message))];
      Speak(TechnicalDifficulties);
    }

    /** `resetAPIState`: the key is forgotten and the model is no longer
        ready. */
    method ResetAPIState()
      requires Valid()
      modifies this
      ensures Valid() && openAIKey.None? && !isAPIReady
      ensures log == old(log) && isSpeaking == old(isSpeaking)
      ensures FlagsKept() && BookKept()
    {
      openAIKey := None;
      isAPIReady := false;
    }

    /** `handleUserQuestion`: the timer is restarted, the question shown,
        the next recognition result marked to be ignored, and the question
        answered. */
    method HandleUserQuestion(question: string, reply: ApiReply)
      requires Valid()
      modifies this
      ensures Valid() && Answered(question, reply, [UserMessage(question)])
      ensures ignoreNextResult && isAwake == old(isAwake) && sleepTimerArmed == isAwake
    {
      ResetSleepTimer();
      log := log + [UserMessage(question)];
      ignoreNextResult := true;
      ProcessQuestion(question, reply);
    }

    /** `handleQuickAction`: the button's question is shown and answered. */
    method HandleQuickAction(command: string, reply: ApiReply)
      requires Valid()
      modifies this
      ensures Valid() && Answered(QuickActionQuestion(command), reply, [UserMessage(QuickActionQuestion(command))])
      ensures isAwake == old(isAwake) && sleepTimerArmed == old(sleepTimerArmed)
      ensures ignoreNextResult == old(ignoreNextResult)
    {
      var question := QuickActionQuestion(command);
      log := log + [UserMessage(question)];
      ProcessQuestion(question, reply);
    }

    /** The outcome of `processVoiceCommand` relative to the state before
        it: the timer is cleared and restarted only when awake, and the
        transcript acknowledged, woken to, ignored, read as a chapter
        command or answered as a question. */
    twostate predicate CommandHandled(transcript: string, reply: ApiReply)
      reads this
    {
      var c := ClassifyCommand(transcript, old(isAwake));
      && sleepTimerArmed == isAwake
      && isAwake == (old(isAwake) || c == Wake)
      && BookKept()
      && (c == Acknowledge ==>
            log == old(log) + [Spoke(AlreadyListening)] && isSpeaking && CredentialKept()
            && currentChapter == old(currentChapter) && ignoreNextResult == old(ignoreNextResult))
      && (c == Wake ==>
            log == old(log) + [SystemMessage(WakeNotice(isBookLoaded, isAPIReady)),
                               Spoke(WakeGreeting(isBookLoaded, isAPIReady))]
            && isSpeaking && CredentialKept()
            && currentChapter == old(currentChapter) && ignoreNextResult == old(ignoreNextResult))
      && (c == Ignore ==>
            log == old(log) && isSpeaking == old(isSpeaking) && CredentialKept()
            && currentChapter == old(currentChapter) && ignoreNextResult == old(ignoreNextResult))
      && (c == ReadChapter ==> ChapterCommandDone(transcript))
      && (c == AskQuestion ==> Answered(transcript, reply, [UserMessage(transcript)]) && ignoreNextResult)
    }

    /** `processVoiceCommand`. */
    method ProcessVoiceCommand(transcript: string, reply: ApiReply)
      requires Valid()
      modifies this
      ensures Valid() && CommandHandled(transcript, reply)
    {
      ResetSleepTimer();
      if isAwake && Contains(transcript, WakeWord) {
        Speak(AlreadyListening);
        return;
      }
      if !isAwake && Contains(transcript, WakeWord) {
        WakeUp();
        return;
      }
      if isAwake {
        if Contains(transcript, "chapter") || Contains(transcript, "read") || !NoDigits(transcript) {
          HandleChapterCommand(transcript);
        } else {
          HandleUserQuestion(transcript, reply);
        }
      }
    }

    /** The recognition `onresult` handler: while speaking, or when told
        to ignore one result, the result is dropped and the flag cleared;
        otherwise the final transcripts are joined and, when not empty,
        handled as a command. */
    method OnResult(results: seq<RecognitionResult>, resultIndex: nat, reply: ApiReply)
      requires Valid()
      modifies this
      ensures Valid()
      ensures old(isSpeaking || ignoreNextResult) ==>
        !ignoreNextResult && log == old(log) && isAwake == old(isAwake)
        && sleepTimerArmed == old(sleepTimerArmed) && currentChapter == old(currentChapter)
        && isSpeaking == old(isSpeaking) && BookKept() && CredentialKept()
      ensures !old(isSpeaking || ignoreNextResult) ==>
        var t := if resultIndex < |results| then FinalText(results[resultIndex..]) else [];
        (t == [] ==> log == old(log) && isSpeaking == old(isSpeaking)
                     && FlagsKept() && BookKept() && CredentialKept())
        && (t != [] ==> CommandHandled(t, reply))
    {
      if isSpeaking || ignoreNextResult {
        ignoreNextResult := false;
        return;
      }
      var finalTranscript := CollectFinal(results, resultIndex);
      if finalTranscript != [] {
        ProcessVoiceCommand(finalTranscript, reply);
      }
    }

    /** `activateAI` given whether the connection test passed: an empty
        key is refused and a failed test changes nothing; otherwise the
        trimmed key is kept, the model is ready, and the user is told. */
    method ActivateAI(input: string, testPassed: bool)
      requires Valid()
      modifies this
      ensures Valid()
      ensures ActivationKey(input).None? || !testPassed ==>
        log == old(log) && isSpeaking == old(isSpeaking) && CredentialKept()
      ensures ActivationKey(input).Some? && testPassed ==>
        openAIKey == ActivationKey(input) && isAPIReady && isSpeaking
        && log == old(log) + [SystemMessage(ActivatedNotice), Spoke(ActivatedGreeting)]
      ensures FlagsKept() && BookKept()
    {
      var apiKey := ActivationKey(input);
      if apiKey.None? {
        return;
      }
      if testPassed {
        openAIKey := apiKey;
        isAPIReady := true;
        log := log + [SystemMessage(ActivatedNotice)];
        Speak(ActivatedGreeting);
      }
    }

    /** `loadBookFromGutenberg` once the text has arrived: the chapters
        split from it become the book. */
    method UseGutenbergText(text: string)
      requires Valid()
      modifies this
      ensures Valid() && isBookLoaded && bookContent == Some(Book(text))
      ensures log == old(log) && isSpeaking == old(isSpeaking)
      ensures FlagsKept() && CredentialKept()
    {
      var chapters := ParseGutenbergContent(text);
      StoreBook(chapters);
    }

    /** The parsed chapters become the book. */
    method StoreBook(chapters: map<int, string>)
      requires Valid()
      modifies this
      ensures Valid() && isBookLoaded && bookContent == Some(chapters)
      ensures log == old(log) && isSpeaking == old(isSpeaking)
      ensures FlagsKept() && CredentialKept()
    {
      bookContent := Some(chapters);
      isBookLoaded := true;
    }

    /** `useFallbackBookContent`: the two built-in chapters become the book. */
    method UseFallbackBookContent()
      requires Valid()
      modifies this
      ensures Valid() && isBookLoaded && bookContent == Some(FallbackBookContent())
      ensures log == old(log) && isSpeaking == old(isSpeaking)
      ensures FlagsKept() && CredentialKept()
    {
      StoreBook(FallbackBookContent());
    }
  }

  function Max(a: int, b: int): int {
    if a >= b then a else b
  }

  function Min(a: int, b: int): int {
    if a <= b then a else b
  }
}
