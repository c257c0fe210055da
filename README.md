# VoiceBook AI in Dafny

VoiceBook AI is a browser companion for *Pride and Prejudice* that is driven
by voice. It listens for the wake phrase "hey book" and reads chapters aloud
on request. It answers questions with a language model, or with canned
replies when no model key has been activated. All of it is one JavaScript
class, `VoiceBookAI`, in `VoiceBook_aiscript.js`. This project models the
deterministic core of that class and proves properties about it:

- `text.dfy` (module `Text`) holds the string primitives the class relies on:
  - `includes`, `toLowerCase`, `trim`, `split` and `join`;
  - the `/\s+/g` whitespace collapse, and global character-class and literal replaces;
  - decimal printing and `parseInt`.
- `patterns.dfy` (module `Patterns`) writes out the regular expressions that
  find chapter headers and chapter numbers, each as a function on strings.
- `book.dfy` (module `BookStore`) holds the Gutenberg chapter splitter, the
  two-chapter fallback book and the chapter lookup with its three messages.
- `speech.dfy` (module `Speech`) holds:
  - the two normalisers that prepare text for the synthesiser;
  - the chapter shortening with its 1500-character limit;
  - the choice of voice.
- `answers.dfy` (module `Answers`) holds the canned answers, the quick-action
  questions, the classification of model errors and the activation key check.
- `session.dfy` (module `Session`) holds:
  - the choice of chapter from a transcript, and the sorting of an utterance;
  - the recognition-result loop;
  - the class `VoiceBookAI` itself, whose methods update the session's fields
    as the source does.

### How side effects appear

Everything the session shows or speaks is appended to the field `log` as an
`Event`. Each event carries a symbolic `Message`, and `MessageText` gives the
message's exact words as the file writes them.

Outside inputs become parameters:

- the model's answer to a question is an `ApiReply`;
- the result of the connection test is a `bool`;
- the voices the browser offers are passed to the constructor, once;
- the text fetched from Project Gutenberg is an argument.

The 30-minute sleep timer is a flag, `sleepTimerArmed`. The method
`TimerFires` is the step in which the timer runs out.

### Text as the file holds it

Non-ASCII literals are kept code point for code point as the file holds
them. The file's UTF-8 emoji and dash were decoded as Mac Roman. So the dash
that line 729 replaces is the three characters U+201A U+00C4 U+00EE, and the
book emoji at line 290 is four characters.

### Character classes

Character classes are ASCII:

- `\s` is space, tab, line feed, vertical tab, form feed and carriage return;
- `\w` is letters, digits and `_`;
- case folding maps `A`-`Z` only.

## Model

| member | source | states |
|---|---|---|
| Text.Trim | VoiceBook_aiscript.js:125 | `trim()`: the result has no whitespace at either end; it is empty exactly when the input is all whitespace; an already-trimmed string is unchanged |
| Text.TrimDropsOnlySpace | VoiceBook_aiscript.js:125 | `trim()` keeps one contiguous stretch of the text and drops only whitespace, before it and after it |
| Text.ContainsInside | VoiceBook_aiscript.js:456 | `includes`: a string contains every piece it was built around |
| Text.ContainsWitness | VoiceBook_aiscript.js:456 | `includes` is true only when some window of the text equals the piece |
| Text.LowerSpec | VoiceBook_aiscript.js:645 | `toLowerCase()` keeps the length, turns each upper-case letter into a lower-case one and leaves every other character alone |
| Text.Split | VoiceBook_aiscript.js:119 | `split('\n')`: at least one piece, and no piece holds the separator |
| Text.JoinSplit | VoiceBook_aiscript.js:119 | joining the pieces of a split gives back the text |
| Text.SplitJoin | VoiceBook_aiscript.js:130 | splitting a join of separator-free pieces gives back the pieces |
| Text.Squeeze | VoiceBook_aiscript.js:733-734 | `replace(/\s+/g, ' ').trim()`: single plain spaces only, none at either end |
| Text.SqueezeIdentity | VoiceBook_aiscript.js:733-734 | text that is already single-spaced and trimmed is left unchanged |
| Text.SqueezeIdempotent | VoiceBook_aiscript.js:733-734 | squeezing twice is squeezing once |
| Text.SqueezeKeepsText | VoiceBook_aiscript.js:733-734 | the collapse and trim change only whitespace: every other character stays, in order |
| Text.CollapseKeepsText | VoiceBook_aiscript.js:733 | `replace(/\s+/g, ' ')` changes only whitespace: every other character stays, in order |
| Text.CollapseJoins | VoiceBook_aiscript.js:733 | a whitespace run between two non-spaces becomes exactly one space, and the text on either side is collapsed on its own |
| Text.CollapseAppend | VoiceBook_aiscript.js:733 | text ending in a non-space is collapsed independently of what follows it |
| Text.SqueezeJoins | VoiceBook_aiscript.js:733-734 | a whitespace run between two pieces of text leaves exactly one space between the squeezed pieces: words are never run together |
| Text.CollapseNoAdjacent | VoiceBook_aiscript.js:733 | after `replace(/\s+/g, ' ')` no two whitespace characters stand side by side |
| Text.CollapsePlainSpaces | VoiceBook_aiscript.js:733 | after `replace(/\s+/g, ' ')` the only whitespace character is the plain space |
| Text.Strip | VoiceBook_aiscript.js:727-728 | a character-class replace with '' leaves none of the class |
| Text.StripNothing | VoiceBook_aiscript.js:727-728 | text with no character of the class is unchanged |
| Text.StripCounts | VoiceBook_aiscript.js:727-728 | every character outside the class is kept as often as it occurs |
| Text.StripAppend | VoiceBook_aiscript.js:727-728 | stripping works piece by piece, so the kept characters keep their order |
| Text.ReplaceAllAbsent | VoiceBook_aiscript.js:730 | a literal replace changes nothing when the pattern cannot occur |
| Text.ReplaceAll | VoiceBook_aiscript.js:729-730 | a literal replace leaves text that does not contain the pattern unchanged |
| Text.ReplaceAllHit | VoiceBook_aiscript.js:729-730 | an occurrence after text that cannot start the pattern is replaced, and that text is copied |
| Text.ReplaceAllAvoids | VoiceBook_aiscript.js:729-730 | a literal replace brings in only the characters of the replacement |
| Text.ReplaceWordStart | VoiceBook_aiscript.js:731-732 | a `\b`-anchored replace leaves text that does not contain the pattern unchanged |
| Text.ReplaceWordStartHit | VoiceBook_aiscript.js:731-732 | an occurrence at the start of the text is replaced |
| Text.ReplaceWordStartAfter | VoiceBook_aiscript.js:731-732 | text that cannot start the pattern is copied, and the scan goes on knowing whether a word character came last |
| Text.ReplaceWordStartAvoids | VoiceBook_aiscript.js:731-732 | a `\b`-anchored replace brings in only the characters of the replacement |
| Text.NatToString | VoiceBook_aiscript.js:276 | a chapter number is printed as a nonempty run of digits with no leading zero |
| Text.DecimalRoundTrip | VoiceBook_aiscript.js:273 | reading back a printed number gives the number |
| Text.ParseIntRoundTrip | VoiceBook_aiscript.js:338 | `parseInt` of a printed integer gives that integer |
| Text.ParseIntNoDigits | VoiceBook_aiscript.js:338 | text without a digit gives no number (`NaN`) |
| Text.ParseNatural | VoiceBook_aiscript.js:338 | `parseInt` of a printed natural number gives that number |
| Text.ParseNegative | VoiceBook_aiscript.js:338 | `parseInt` of a minus sign and a printed positive number gives the negative number |
| Patterns.HeaderMatchLength | VoiceBook_aiscript.js:319 | `/CHAPTER\s+\w+/i` matches at the start exactly when "chapter" in any case is followed by whitespace and a word character |
| Patterns.ExactMarkerIsHeader | VoiceBook_aiscript.js:128 | every line the case-sensitive `/^Chapter\s+\d+/` accepts is also accepted by the `/i` test |
| Patterns.KeywordNumberAt | VoiceBook_aiscript.js:269 | `/chapter\s+(\d+)/i` matches at a position exactly when "chapter" in any case stands there, followed by whitespace and then a digit |
| Patterns.SearchFindsNothing | VoiceBook_aiscript.js:269 | `match` finds nothing exactly when the pattern fails at every position |
| Patterns.SearchLeftmost | VoiceBook_aiscript.js:269 | what `match` finds is the match at the leftmost position where the pattern succeeds |
| Patterns.FirstNumber | VoiceBook_aiscript.js:270 | `/(\d+)(?:\s+chapter)?/i` is absent exactly when there is no digit, and otherwise reads the whole first digit run |
| Patterns.KeywordMatchImpliesNumber | VoiceBook_aiscript.js:269-271 | whenever `/chapter\s+(\d+)/i` or `/read\s+(\d+)/i` matches, the digit pattern matches too |
| Patterns.FirstNumberAfter | VoiceBook_aiscript.js:270 | the first digit run is read whole when no digit precedes or follows it |
| Patterns.MinusDefeatsKeyword | VoiceBook_aiscript.js:269 | `/chapter\s+(\d+)/i` finds nothing in "chapter -N" preceded by text without a 'c' |
| Patterns.ChapterPhraseMatches | VoiceBook_aiscript.js:269 | "chapter N" after text with no digit is read as N |
| BookStore.Classify | VoiceBook_aiscript.js:125-145 | a line the splitter keeps is trimmed, nonempty, not a marker and not a licence frame line |
| BookStore.BookFrom | VoiceBook_aiscript.js:129-151 | chapter keys lie between 1 and the number of chapters seen |
| BookStore.Book | VoiceBook_aiscript.js:117-154 | the chapters of the book are numbered from 1 up to the number of marker lines |
| BookStore.BodiesCount | VoiceBook_aiscript.js:129-151 | there is one chapter body per marker line |
| BookStore.NoMarkerNoBodies | VoiceBook_aiscript.js:129-151 | a text without a marker line yields no chapter |
| BookStore.ParseGutenbergContent | VoiceBook_aiscript.js:117-154 | the loop builds exactly the book that `Book` defines from the lines |
| BookStore.ParseLine | VoiceBook_aiscript.js:125-145 | one trimmed line moves the running counter, flag, buffer and map exactly as that line's classification extends the chapter bodies |
| BookStore.BookKeys | VoiceBook_aiscript.js:117-154 | each key is between 1 and the number of marker lines; each stored text is that chapter's nonempty trimmed lines joined by line feeds |
| BookStore.BookFromKeys | VoiceBook_aiscript.js:129-151 | a chapter has an entry exactly when it has at least one line |
| BookStore.PreambleIgnored | VoiceBook_aiscript.js:143-145 | lines before the first marker never reach the book |
| BookStore.BodiesStoredLines | VoiceBook_aiscript.js:139-145 | no stored line is empty, a marker or a licence frame line |
| BookStore.StoredLinesJoinTrimmed | VoiceBook_aiscript.js:130 | the final `trim()` of a joined chapter changes nothing |
| BookStore.FallbackBookContent | VoiceBook_aiscript.js:156-165 | the fallback book holds chapters 1 and 2 exactly, both nonempty |
| BookStore.GetBookContent | VoiceBook_aiscript.js:167-182 | "still loading" before any range check; then "doesn't exist" outside 1..61; then "not available" for a missing or empty entry; otherwise the stored text |
| BookStore.FailureDetection | VoiceBook_aiscript.js:293-295 | for a chapter in range, the failure test fires exactly when the lookup gave a message or the stored text contains one of the two phrases |
| Speech.ProcessTextForSpeech | VoiceBook_aiscript.js:725-735 | no quote, bracket or markup symbol remains; single plain spaces only, none at either end |
| Speech.SpeechClean | VoiceBook_aiscript.js:727-734 | the replacement texts bring back none of the removed characters |
| Speech.PlainTextUnchanged | VoiceBook_aiscript.js:725-735 | single-spaced text of word characters passes through unchanged |
| Speech.NotIdempotent | VoiceBook_aiscript.js:729-733 | "x\n-\ny" becomes "x - y", which a second pass turns into "x, y", so the normaliser is not idempotent |
| Speech.MisterSpelled | VoiceBook_aiscript.js:731 | "Mr." before a phrase of words is spoken "Mister", the rest unchanged |
| Speech.MissusSpelled | VoiceBook_aiscript.js:732 | "Mrs." before a phrase of words is spoken "Missus", the rest unchanged; the "Mr." step does not touch it |
| Speech.DashSpoken | VoiceBook_aiscript.js:729 | an em dash between two phrases of words is spoken as ", " |
| Speech.RemoveChapterHeaders | VoiceBook_aiscript.js:319 | removing headers never lengthens the text |
| Speech.RemoveHeadersAvoids | VoiceBook_aiscript.js:319 | removing headers brings in no new character |
| Speech.NoHeadingUnchanged | VoiceBook_aiscript.js:319 | text without a 'c' or 'C' has no header to remove |
| Speech.HeadingCut | VoiceBook_aiscript.js:319 | "CHAPTER 12" in any case, followed by a non-word character, is removed |
| Speech.CleanChapter | VoiceBook_aiscript.js:318-322 | the cleaned chapter has no quote or bracket, and single plain spaces only, none at either end |
| Speech.ProcessContentForSpeech | VoiceBook_aiscript.js:316-330 | at most 1523 characters; cleaned text of up to 1500 characters is returned as is; longer text becomes its first 1500 characters followed by "... [Chapter continues]" |
| Speech.PlainChapterUnchanged | VoiceBook_aiscript.js:316-330 | a short single-spaced chapter of word characters with no 'c' is read out as is |
| Speech.FindIndex | VoiceBook_aiscript.js:373 | `find`: the first voice satisfying the test, or none exactly when no voice does |
| Speech.GetFeminineVoice | VoiceBook_aiscript.js:365-383 | the loop over preferred names returns the voice that `FeminineVoice` defines |
| Speech.FeminineVoice | VoiceBook_aiscript.js:365-383 | a voice is chosen exactly when the browser offers one, and it is one of those offered |
| Speech.FirstPreferenceWins | VoiceBook_aiscript.js:367-375 | a voice named after the first preferred name wins over any other |
| Speech.FallbackLooksFeminine | VoiceBook_aiscript.js:377-382 | with no preferred voice, a voice that looks feminine is chosen whenever one is offered |
| Speech.MaleNamesNeedFemale | VoiceBook_aiscript.js:377-379 | a name saying "male" passes the fallback test only if it also says "female"; an English voice whose name says neither passes |
| Answers.GetBasicResponse | VoiceBook_aiscript.js:644-676 | the help text exactly when the lower-cased question contains "help", otherwise the invitation |
| Answers.BasicResponseIgnoresCase | VoiceBook_aiscript.js:645 | the answer does not depend on letter case |
| Answers.QuickActionQuestion | VoiceBook_aiscript.js:545-561 | each of the four buttons gets its question; any other command gets the empty question |
| Answers.QuickHelpGetsHelp | VoiceBook_aiscript.js:549 | the help button gets the help text |
| Answers.UnknownActionGetsInvitation | VoiceBook_aiscript.js:546 | an unknown button gets the invitation |
| Answers.ClassifyAIError | VoiceBook_aiscript.js:854-863 | "Incorrect API key" first, then "quota", then "rate limit", then a technical issue |
| Answers.ErrorPrecedence | VoiceBook_aiscript.js:854-860 | an invalid key wins over a quota error in the same message |
| Answers.AIErrorMessage | VoiceBook_aiscript.js:854-863 | each known cause gets its fixed advice; the technical-issue reply repeats the error message |
| Answers.ActivationKey | VoiceBook_aiscript.js:194-201 | the key is refused exactly when the input is all whitespace; an accepted key is nonempty and trimmed |
| Session.RequestedChapter | VoiceBook_aiscript.js:269-273 | "chapter N" wins; otherwise the first digit run; otherwise the current chapter |
| Session.ReadPatternNeverDecides | VoiceBook_aiscript.js:269-273 | two patterns give the same chapter as three; a transcript without digits keeps the current chapter |
| Session.NavigationRoundTrip | VoiceBook_aiscript.js:343 | the command "read chapter N" that navigation issues selects N |
| Session.ClassifyCommand | VoiceBook_aiscript.js:452-478 | the wake phrase while awake is acknowledged; while asleep it wakes; asleep without it, nothing; awake, "chapter", "read" or a digit goes to the chapter path, anything else is a question |
| Session.ReadInsideWord | VoiceBook_aiscript.js:469 | a question containing "ready" is taken for a chapter command |
| Session.SaidIsClean | VoiceBook_aiscript.js:693-699 | every utterance is free of markup and single-spaced; a voice is set exactly when one is offered |
| Session.ChapterReadLength | VoiceBook_aiscript.js:305-306 | the spoken chapter is at most its announcement plus 1523 characters |
| Session.ChapterEvents | VoiceBook_aiscript.js:275-306 | an out-of-range number is refused, shown and spoken, in two events; an in-range one gets three, starting with the loading message; every outcome ends in speech |
| Session.ChapterReadAloud | VoiceBook_aiscript.js:290-306 | a stored chapter without the failure phrases is announced, shown whole and read shortened |
| Session.ChapterBeforeLoading | VoiceBook_aiscript.js:290-298 | before the book loads, each chapter in range gets the loading message and the apology |
| Session.ChapterMissing | VoiceBook_aiscript.js:290-298 | once loaded, a chapter in range that the text did not provide shows the "not available" message and speaks the apology |
| Session.ChapterNamed | VoiceBook_aiscript.js:276-302 | the refusal, the loading message and the chapter shown all name the chapter's number |
| Session.Announcement | VoiceBook_aiscript.js:306 | the spoken chapter opens with an announcement that names the chapter's number |
| Session.ChapterShownWhole | VoiceBook_aiscript.js:301 | the chapter shown on screen holds the whole chapter text |
| Session.AnswerEvents | VoiceBook_aiscript.js:566-592 | without the model, the canned answer shown and spoken; with it, the answer shown and spoken, or the error's reply shown and the apology spoken |
| Session.ActivatedKeyUsesModel | VoiceBook_aiscript.js:574 | a key that activation accepts puts the model in use once the test has passed; no key, or no passed test, means no model |
| Session.CredentialAfter | VoiceBook_aiscript.js:850-877 | a model error naming an invalid key clears the credential; nothing else changes it |
| Session.CollectFinal | VoiceBook_aiscript.js:406-411 | the loop joins the lower-cased final transcripts from `resultIndex` on |
| Session.FinalTextEmpty | VoiceBook_aiscript.js:413 | nothing is passed on exactly when every final result in range is empty |
| Session.FinalTextLower | VoiceBook_aiscript.js:409 | what is passed on is already lower case |
| Session.VoiceBookAI.constructor | VoiceBook_aiscript.js:3-20 | asleep, silent, chapter 1, no key, no book, empty log |
| Session.VoiceBookAI.Speak | VoiceBook_aiscript.js:678-683 | speaking starts and the message is logged as spoken; nothing else changes |
| Session.VoiceBookAI.SpeechEnded | VoiceBook_aiscript.js:705-720 | speaking ends; nothing else changes |
| Session.VoiceBookAI.ResetSleepTimer | VoiceBook_aiscript.js:480-485 | afterwards the timer is pending exactly when awake |
| Session.VoiceBookAI.WakeUp | VoiceBook_aiscript.js:507-526 | awake with the timer pending; the notice and greeting match the book and model state |
| Session.VoiceBookAI.Sleep | VoiceBook_aiscript.js:528-534 | asleep, with the sleep notice shown and spoken |
| Session.VoiceBookAI.TimerFires | VoiceBook_aiscript.js:483 | a pending timer puts the session to sleep; otherwise nothing happens |
| Session.VoiceBookAI.HandleChapterCommand | VoiceBook_aiscript.js:268-306 | an in-range chapter becomes current and is shown and read; an out-of-range one leaves the chapter and is refused |
| Session.NavigationValue | VoiceBook_aiscript.js:333-339 | "prev" gives `Math.max(1, current - 1)` and "next" `Math.min(61, current + 1)`, so from a chapter in range they stay in range, moving by one unless at that end; any other argument is stored as `parseInt` reads it |
| Session.NavigationReads | VoiceBook_aiscript.js:343 | the command issued for a stored value selects that value without its sign |
| Session.NegativeNavigation | VoiceBook_aiscript.js:269-273 | "read chapter -N" selects chapter N, because the minus sign defeats the "chapter" pattern and the digit pattern reads N |
| Session.VoiceBookAI.Navigate | VoiceBook_aiscript.js:332-344 | the stored value is `NavigationValue`; then its absolute value is read as a chapter command, which keeps it as current when in range |
| Session.VoiceBookAI.ProcessQuestion | VoiceBook_aiscript.js:566-592 | the log grows by `AnswerEvents`, and the credential becomes `CredentialAfter` |
| Session.VoiceBookAI.HandleAIError | VoiceBook_aiscript.js:850-868 | the error's reply and the apology are logged; only an invalid key clears the credential; the session flags are untouched |
| Session.VoiceBookAI.ResetAPIState | VoiceBook_aiscript.js:870-872 | no key and not ready; nothing else changes |
| Session.VoiceBookAI.HandleUserQuestion | VoiceBook_aiscript.js:536-543 | the timer restarts, the question is logged, the next result is ignored and the question answered |
| Session.VoiceBookAI.HandleQuickAction | VoiceBook_aiscript.js:545-564 | the button's question is logged and answered |
| Session.VoiceBookAI.ProcessVoiceCommand | VoiceBook_aiscript.js:452-478 | the timer is cleared and restarted only when awake; then each kind of command has the outcome its branch gives |
| Session.VoiceBookAI.OnResult | VoiceBook_aiscript.js:400-417 | while speaking or flagged, the result is dropped and the flag cleared; otherwise the joined final text, when nonempty, is handled as a command |
| Session.VoiceBookAI.ActivateAI | VoiceBook_aiscript.js:193-232 | a blank key or a failed test changes nothing; otherwise the trimmed key is stored, the model is ready and the user is told |
| Session.VoiceBookAI.UseGutenbergText | VoiceBook_aiscript.js:111-113 | the book becomes the chapters split from the text |
| Session.VoiceBookAI.StoreBook | VoiceBook_aiscript.js:112-113 | the given chapters become the book, which is now loaded |
| Session.VoiceBookAI.UseFallbackBookContent | VoiceBook_aiscript.js:156-165 | the two built-in chapters become the book |

## Left out

- User interface: the DOM updates, notifications, status texts, the thinking
  indicator and chapter navigation buttons are rendering only.
- `initializeApp`, `loadCompleteBook` and the fetch in `loadBookFromGutenberg`
  are network I/O. The fetched text is the argument of `UseGutenbergText`.
- `parseBookContent`, called at line 86, is defined nowhere in the file, so
  there is nothing to model.
- `testOpenAIAPI` and `getOpenAIResponse` are network calls. Their outcome is
  the parameter `testPassed` or `reply`. The request text and the
  conversation history are not modelled.
- The voice list is fixed for the whole session. The source asks the browser
  for the voices on every `speakText` (line 366), and the list can still
  change after a `voiceschanged` event (line 359); the model does not see
  such a change.
- Speech recognition wiring is not modelled: `isListening`, `start`/`stop`,
  `toggleListening`, the recognition `onend` restart and `loadVoices`.
- The 1000 ms, 1500 ms and 2000 ms delays are not modelled. The activation
  greeting is logged at once, not after one second.
- Session.VoiceBookAI.Speak: the utterance is not stored in a field. What the
  synthesiser receives for a message `m` is `Said(m, voices)`, that is
  `ProcessTextForSpeech(MessageText(m))` in the voice `FeminineVoice(voices)`.
  `SaidIsClean` states its properties.
- Session.VoiceBookAI.Speak: the cancel of a running utterance and the
  asynchronous `onstart` are not modelled.
- The utterance's rate, pitch and volume are floating point and are not modelled.
- Session.VoiceBookAI.ProcessQuestion: the model's answer arrives after an
  `await`, but the model handles the question as one atomic step. Results
  that arrive in between are not interleaved.
- Session.VoiceBookAI.HandleChapterCommand: the `catch` at lines 308-313 is
  not modelled. Its "Unable to load" message and apology would follow an
  exception thrown inside the `try`, for example by `speakText` when the
  browser has no speech synthesis; the model assumes that none is thrown.
- Session.NavigationValue and Session.VoiceBookAI.Navigate: require the
  argument to be "prev", "next" or text that `parseInt` reads. A `NaN` from `parseInt` cannot be stored in an
  integer field, so navigating to an unreadable argument is not modelled.
- Session.RequestedChapter: `parseInt` of a very long digit run loses
  precision in JavaScript's floating point. The model reads it exactly.
- Session.VoiceBookAI.Sleep: requires that no timer is pending. In the
  source, only the timer calls it.
- JavaScript strings are UTF-16. Lengths here count code points, so the
  1500-character limit differs for text outside the Basic Multilingual
  Plane.
- Unicode `\s`, `\w` and case folding are reduced to the ASCII classes
  listed above.
- Speech.NotIdempotent: the speech normaliser is sometimes described as
  idempotent. The code is not idempotent, and the model follows the code.
- Answers.ReplyText: the two canned answers are kept as exact strings with
  no contract of their own. A statement about their contents makes the
  verifier evaluate the long literals character by character.
