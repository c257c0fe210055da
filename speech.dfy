/**
  What the assistant says aloud: the clean-up applied to every utterance,
  the clean-up and length limit applied to a chapter before it is read, and
  the choice of a feminine voice among those the browser offers.
*/
module Speech {
  import opened Text
  import opened Patterns

  // ---------------------------------------------------------------------
  // Cleaning a text for speech

  /** `["'`\[\](){}]`: quotes and brackets, removed by both normalisers. */
  const QuoteChars: set<char> := {'"', '\'', '`', '[', ']', '(', ')', '{', '}'}

  /** `[#*$@\\|<>]`: markup symbols, removed before speaking. */
  const SymbolChars: set<char> := {'#', '*', '$', '@', '\\', '|', '<', '>'}

  /** The em dash of the source file as it is stored there: the three
      characters U+201A U+00C4 U+00EE (a UTF-8 em dash decoded as Mac Roman). */
  const Dash := "\U{201A}\U{C4}\U{EE}"

  /** `processTextForSpeech`: drop quotes, brackets and markup symbols, turn
      dashes into commas, spell out "Mr." and "Mrs." where a word starts,
      collapse whitespace runs to one space and trim. The result holds none
      of the dropped characters, has no whitespace at either end and none
      doubled, and its only whitespace character is the plain space. */
  function ProcessTextForSpeech(text: string): (r: string)
    ensures Avoids(r, QuoteChars) && Avoids(r, SymbolChars)
    ensures WellSpaced(r) && Avoids(r, OtherSpaces)
  {
    var r := Squeeze(SpellTitles(CommaDashes(StripMarkup(text))));
    SpeechClean(text);
    r
  }

  /** The two character classes removed first. */
  function StripMarkup(text: string): string {
    Strip(Strip(text, QuoteChars), SymbolChars)
  }

  /** `replace(/—/g, ', ').replace(/ - /g, ', ')`. */
  function CommaDashes(s: string): string {
    ReplaceAll(ReplaceAll(s, Dash, ", "), " - ", ", ")
  }

  /** `replace(/\bMr\./g, 'Mister').replace(/\bMrs\./g, 'Missus')`. */
  function SpellTitles(s: string): string {
    ReplaceWordStart(ReplaceWordStart(s, "Mr.", "Mister", false), "Mrs.", "Missus", false)
  }

  /** No later step brings a removed character back: the replacements hold
      none, and the whitespace clean-up adds only the plain space. */
  lemma SpeechClean(text: string)
    ensures var r := Squeeze(SpellTitles(CommaDashes(StripMarkup(text))));
      Avoids(r, QuoteChars) && Avoids(r, SymbolChars)
  {
    var a := Strip(text, QuoteChars);
    StripAvoids(a, SymbolChars, QuoteChars);
    var b := Strip(a, SymbolChars);
    ReplacementsClean();
    StepsClean(b, QuoteChars);
    StepsClean(b, SymbolChars);
  }

  lemma StepsClean(b: string, chars: set<char>)
    requires ' ' !in chars && Avoids(b, chars)
    requires Avoids(", ", chars) && Avoids("Mister", chars) && Avoids("Missus", chars)
    ensures Avoids(Squeeze(SpellTitles(CommaDashes(b))), chars)
  {
    ReplaceAllAvoids(b, Dash, ", ", chars);
    var c := ReplaceAll(b, Dash, ", ");
    ReplaceAllAvoids(c, " - ", ", ", chars);
    var d := CommaDashes(b);
    ReplaceWordStartAvoids(d, "Mr.", "Mister", false, chars);
    var e := ReplaceWordStart(d, "Mr.", "Mister", false);
    ReplaceWordStartAvoids(e, "Mrs.", "Missus", false, chars);
    SqueezeAvoids(SpellTitles(d), chars);
  }

  /** The replacement texts hold no character that is being removed. */
  lemma ReplacementsClean()
    ensures ' ' !in QuoteChars && ' ' !in SymbolChars
    ensures Avoids(", ", QuoteChars) && Avoids(", ", SymbolChars)
    ensures Avoids("Mister", QuoteChars) && Avoids("Mister", SymbolChars)
    ensures Avoids("Missus", QuoteChars) && Avoids("Missus", SymbolChars)
  {
    assert forall c :: PlainChar(c) ==> c !in QuoteChars && c !in SymbolChars;
    assert forall i :: 0 <= i < 2 ==> PlainChar(", "[i]);
    assert forall i :: 0 <= i < 6 ==> PlainChar("Mister"[i]);
    assert forall i :: 0 <= i < 6 ==> PlainChar("Missus"[i]);
  }

  /** A word character, a space or a comma. */
  predicate PlainChar(c: char) {
    IsWordChar(c) || c == ' ' || c == ','
  }

  /** Plain prose, words separated by single spaces, is spoken as written. */
  lemma PlainTextUnchanged(s: string)
    requires WellSpaced(s)
    requires forall i :: 0 <= i < |s| ==> IsWordChar(s[i]) || s[i] == ' '
    ensures ProcessTextForSpeech(s) == s
  {
    assert forall c :: IsWordChar(c) || c == ' ' ==> PlainChar(c) && c !in OtherSpaces;
    assert forall c :: PlainChar(c) ==> c !in QuoteChars && c !in SymbolChars;
    StripNothing(s, QuoteChars);
    StripNothing(s, SymbolChars);
    assert !PlainChar(Dash[0]) && !PlainChar(" - "[1]) && !PlainChar("Mr."[2]) && !PlainChar("Mrs."[3]);
    ReplaceAllAbsent(s, Dash, ", ", 0);
    ReplaceAllAbsent(s, " - ", ", ", 1);
    ReplaceWordStartAbsent(s, "Mr.", "Mister", false, 2);
    ReplaceWordStartAbsent(s, "Mrs.", "Missus", false, 3);
    SqueezeIdentity(s);
  }

  /** Cleaning is not idempotent: a dash on a line of its own only becomes
      " - " once the whitespace around it is collapsed, so a second pass
      turns it into a comma. */
  lemma NotIdempotent()
    ensures ProcessTextForSpeech("x\n-\ny") == "x - y"
    ensures ProcessTextForSpeech("x - y") == "x, y"
  {
    FirstPass('x', 'y');
    SecondPass('x', 'y');
    assert ['x', '\n', '-', '\n', 'y'] == "x\n-\ny";
    assert ['x', ' ', '-', ' ', 'y'] == "x - y";
    assert ['x', ',', ' ', 'y'] == "x, y";
  }

  /** A lower-case letter: no quote, symbol, dash or title letter. */
  predicate Letter(c: char) {
    'a' <= c <= 'z'
  }

  lemma FirstPass(a: char, b: char)
    requires Letter(a) && Letter(b)
    ensures ProcessTextForSpeech([a, '\n', '-', '\n', b]) == [a, ' ', '-', ' ', b]
  {
    var s := [a, '\n', '-', '\n', b];
    var t := [a, ' ', '-', ' ', b];
    FirstPassSteps(a, b);
    CollapseDash(a, b);
    assert t[0] == a && t[4] == b;
    assert Trim(t) == t;
    assert Squeeze(s) == t;
  }

  lemma FirstPassSteps(a: char, b: char)
    requires Letter(a) && Letter(b)
    ensures var s := [a, '\n', '-', '\n', b];
      SpellTitles(CommaDashes(StripMarkup(s))) == s
  {
    var s := [a, '\n', '-', '\n', b];
    assert forall i :: 0 <= i < |s| ==> Harmless(s[i]) && s[i] != ' ';
    Untouched(s);
    assert " - "[0] !in s;
    ReplaceAllAbsent(s, " - ", ", ", 0);
    HarmlessChars();
    TitlesUntouched(s);
  }

  lemma CollapseDash(a: char, b: char)
    requires Letter(a) && Letter(b)
    ensures CollapseSpaces([a, '\n', '-', '\n', b]) == [a, ' ', '-', ' ', b]
  {
    var s := [a, '\n', '-', '\n', b];
    forall i | 0 <= i < 4 ensures !(IsSpace(s[i]) && IsSpace(s[i + 1])) {
      assert i == 0 || i == 1 || i == 2 || i == 3;
    }
    CollapseSingleSpaces(s);
  }

  lemma SecondPass(a: char, b: char)
    requires Letter(a) && Letter(b)
    ensures ProcessTextForSpeech([a, ' ', '-', ' ', b]) == [a, ',', ' ', b]
  {
    var s := [a, ' ', '-', ' ', b];
    Untouched(s);
    var d := [a, ',', ' ', b];
    DashReplaced(a, b);
    TitlesUntouched(d);
    CommaSpaced(a, b);
    SqueezeIdentity(d);
  }

  lemma CommaSpaced(a: char, b: char)
    requires Letter(a) && Letter(b)
    ensures WellSpaced([a, ',', ' ', b]) && Avoids([a, ',', ' ', b], OtherSpaces)
  {
    var d := [a, ',', ' ', b];
    forall i | 0 <= i < 3 ensures !(IsSpace(d[i]) && IsSpace(d[i + 1])) {
      assert i == 0 || i == 1 || i == 2;
    }
  }

  lemma DashReplaced(a: char, b: char)
    requires Letter(a) && Letter(b)
    ensures ReplaceAll([a, ' ', '-', ' ', b], " - ", ", ") == [a, ',', ' ', b]
  {
    var s := [a, ' ', '-', ' ', b];
    assert s[..3][0] == a && " - "[0] == ' ';
    assert s[1..] == " - " + [b];
    assert (" - " + [b])[..3] == " - ";
    assert (" - " + [b])[3..] == [b];
    assert ReplaceAll([b], " - ", ", ") == [b];
  }

  /** A text of letters, whitespace and hyphens reaches the " - " step
      as it is. */
  lemma Untouched(s: string)
    requires forall i :: 0 <= i < |s| ==> Harmless(s[i])
    ensures CommaDashes(StripMarkup(s)) == ReplaceAll(s, " - ", ", ")
  {
    HarmlessChars();
    assert Avoids(s, QuoteChars) && Avoids(s, SymbolChars);
    StripNothing(s, QuoteChars);
    StripNothing(s, SymbolChars);
    assert Dash[0] !in s;
    ReplaceAllAbsent(s, Dash, ", ", 0);
  }

  predicate Harmless(c: char) {
    Letter(c) || c == ' ' || c == '\n' || c == '-' || c == ','
  }

  lemma HarmlessChars()
    ensures forall c :: Harmless(c) ==> c !in QuoteChars && c !in SymbolChars && c != Dash[0] && c != 'M'
  {
  }

  /** Without an "M" there is no title to spell out. */
  lemma TitlesUntouched(s: string)
    requires 'M' !in s
    ensures SpellTitles(s) == s
  {
    ReplaceWordStartAbsent(s, "Mr.", "Mister", false, 0);
    ReplaceWordStartAbsent(s, "Mrs.", "Missus", false, 0);
  }

  /** Words of letters, digits and underscores separated by single spaces. */
  predicate Prose(s: string) {
    s != [] && WellSpaced(s) && forall i :: 0 <= i < |s| ==> IsWordChar(s[i]) || s[i] == ' '
  }

  lemma ProseChars(s: string)
    requires Prose(s)
    ensures Avoids(s, QuoteChars) && Avoids(s, SymbolChars) && Avoids(s, OtherSpaces)
    ensures Dash[0] !in s && '-' !in s && '.' !in s
  {
  }

  /** "Mr." before a word is spoken "Mister". */
  lemma MisterSpelled(w: string)
    requires Prose(w)
    ensures ProcessTextForSpeech("Mr. " + w) == "Mister " + w
  {
    MisterSteps(w);
    SpokenAsIs("Mister ", w);
    SpokenAfterSteps("Mr. " + w, "Mister " + w);
  }

  lemma MisterSteps(w: string)
    requires Prose(w)
    ensures SpellTitles(CommaDashes(StripMarkup("Mr. " + w))) == "Mister " + w
  {
    PlainSteps("Mr. ", w);
    MisterReplaced(w);
    MisterKeptByMissus(w);
  }

  lemma MisterReplaced(w: string)
    requires Prose(w)
    ensures ReplaceWordStart("Mr. " + w, "Mr.", "Mister", false) == "Mister " + w
  {
    ProseChars(w);
    assert '.' !in " " + w;
    ReplaceWordStartAbsent(" " + w, "Mr.", "Mister", false, 2);
    ReplaceWordStartOnce("Mr.", " ", w, "Mister");
    assert "Mr." + " " == "Mr. " && "Mister" + " " == "Mister ";
  }

  /** "Mister" holds no "Mrs." to spell out. */
  lemma MisterKeptByMissus(w: string)
    requires Prose(w)
    ensures ReplaceWordStart("Mister " + w, "Mrs.", "Missus", false) == "Mister " + w
  {
    ProseChars(w);
    var s := "Mister " + w;
    assert '.' !in s by {
      forall i | 0 <= i < |s| ensures s[i] != '.' {
        if i >= 7 { assert s[i] == w[i - 7]; }
      }
    }
    ReplaceWordStartAbsent(s, "Mrs.", "Missus", false, 3);
  }

  /** "Mrs." before a word is spoken "Missus". */
  lemma MissusSpelled(w: string)
    requires Prose(w)
    ensures ProcessTextForSpeech("Mrs. " + w) == "Missus " + w
  {
    MissusSteps(w);
    SpokenAsIs("Missus ", w);
    SpokenAfterSteps("Mrs. " + w, "Missus " + w);
  }

  /** Text that the first three steps turn into an already squeezed text is
      spoken as that text. */
  lemma SpokenAfterSteps(s: string, t: string)
    requires SpellTitles(CommaDashes(StripMarkup(s))) == t && Squeeze(t) == t
    ensures ProcessTextForSpeech(s) == t
  {
  }

  lemma MissusSteps(w: string)
    requires Prose(w)
    ensures SpellTitles(CommaDashes(StripMarkup("Mrs. " + w))) == "Missus " + w
  {
    PlainSteps("Mrs. ", w);
    MissusNotMister(w);
    MissusReplaced(w);
  }

  /** "Mrs." is not an occurrence of "Mr.". */
  lemma MissusNotMister(w: string)
    requires Prose(w)
    ensures ReplaceWordStart("Mrs. " + w, "Mr.", "Mister", false) == "Mrs. " + w
  {
    var s := "Mrs. " + w;
    ProseChars(w);
    assert s[..3] == "Mrs" && s[1..] == "rs. " + w;
    ReplaceWordStartSkip(s, "Mr.", "Mister", false);
    ReplaceWordStartAfter("rs. ", w, "Mr.", "Mister", true);
    ReplaceWordStartAbsent(w, "Mr.", "Mister", false, 2);
    assert [s[0]] + ("rs. " + w) == s;
  }

  lemma MissusReplaced(w: string)
    requires Prose(w)
    ensures ReplaceWordStart("Mrs. " + w, "Mrs.", "Missus", false) == "Missus " + w
  {
    ProseChars(w);
    assert '.' !in " " + w;
    ReplaceWordStartAbsent(" " + w, "Mrs.", "Missus", false, 3);
    ReplaceWordStartOnce("Mrs.", " ", w, "Missus");
    assert "Mrs." + " " == "Mrs. " && "Missus" + " " == "Missus ";
  }

  /** A title in front of prose has no markup and no dash to change. */
  lemma PlainSteps(title: string, w: string)
    requires Avoids(title, QuoteChars) && Avoids(title, SymbolChars)
    requires Dash[0] !in title && '-' !in title
    requires Prose(w)
    ensures CommaDashes(StripMarkup(title + w)) == title + w
  {
    var s := title + w;
    ProseChars(w);
    assert Avoids(s, QuoteChars) && Avoids(s, SymbolChars) by {
      forall i | |title| <= i < |s| ensures s[i] !in QuoteChars && s[i] !in SymbolChars {
        assert s[i] == w[i - |title|];
      }
    }
    assert Dash[0] !in s && '-' !in s;
    StripNothing(s, QuoteChars);
    StripNothing(s, SymbolChars);
    ReplaceAllAbsent(s, Dash, ", ", 0);
    ReplaceAllAbsent(s, " - ", ", ", 1);
  }

  /** An em dash between two phrases is spoken as a comma pause. */
  lemma DashSpoken(a: string, b: string)
    requires Prose(a) && Prose(b)
    ensures ProcessTextForSpeech(a + Dash + b) == a + ", " + b
  {
    DashSteps(a, b);
    CommaAfter(a);
    SpokenAsIs(a + ", ", b);
  }

  lemma CommaAfter(a: string)
    requires Prose(a)
    ensures var p := a + ", "; !IsSpace(p[0]) && NoAdjacentSpaces(p) && Avoids(p, OtherSpaces)
  {
    var p := a + ", ";
    ProseChars(a);
    forall i | 0 <= i < |p| - 1 ensures !(IsSpace(p[i]) && IsSpace(p[i + 1])) {
      if i + 1 < |a| {
        assert p[i] == a[i] && p[i + 1] == a[i + 1];
      } else if i + 1 == |a| {
        assert p[i] == a[|a| - 1];
      } else {
        assert p[i] == ',';
      }
    }
  }

  lemma DashSteps(a: string, b: string)
    requires Prose(a) && Prose(b)
    ensures SpellTitles(CommaDashes(StripMarkup(a + Dash + b))) == a + ", " + b
  {
    var s := a + Dash + b;
    ProseChars(a);
    ProseChars(b);
    assert Avoids(s, QuoteChars) && Avoids(s, SymbolChars) by {
      forall i | 0 <= i < |s| ensures s[i] !in QuoteChars && s[i] !in SymbolChars {
        if i < |a| {
          assert s[i] == a[i];
        } else if i < |a| + 3 {
          assert s[i] == Dash[i - |a|];
        } else {
          assert s[i] == b[i - |a| - 3];
        }
      }
    }
    StripNothing(s, QuoteChars);
    StripNothing(s, SymbolChars);
    ReplaceAllHit(a, b, Dash, ", ");
    ReplaceAllAbsent(b, Dash, ", ", 0);
    var t := a + ", " + b;
    assert '-' !in t && '.' !in t;
    ReplaceAllAbsent(t, " - ", ", ", 1);
    ReplaceWordStartAbsent(t, "Mr.", "Mister", false, 2);
    ReplaceWordStartAbsent(t, "Mrs.", "Missus", false, 3);
  }

  /** Two well-spaced pieces, the first ending in a single space or in a
      character that is not whitespace, and the second in prose, are already
      squeezed. */
  lemma SpokenAsIs(p: string, w: string)
    requires p != [] && !IsSpace(p[0]) && NoAdjacentSpaces(p) && Avoids(p, OtherSpaces)
    requires Prose(w)
    ensures Squeeze(p + w) == p + w
  {
    var s := p + w;
    ProseChars(w);
    assert NoAdjacentSpaces(s) by {
      forall i | 0 <= i < |s| - 1 ensures !(IsSpace(s[i]) && IsSpace(s[i + 1])) {
        if i + 1 < |p| {
          assert s[i] == p[i] && s[i + 1] == p[i + 1];
        } else if i + 1 == |p| {
          assert s[i + 1] == w[0];
        } else {
          assert s[i] == w[i - |p|] && s[i + 1] == w[i + 1 - |p|];
        }
      }
    }
    assert s[|s| - 1] == w[|w| - 1];
    SqueezeIdentity(s);
  }

  // ---------------------------------------------------------------------
  // Preparing a chapter for reading aloud

  /** `replace(/CHAPTER\s+\w+/gi, '')`: every chapter heading, wherever it
      stands, is cut out, scanning left to right. */
  function RemoveChapterHeaders(s: string): (r: string)
    ensures |r| <= |s|
    decreases |s|
  {
    if s == [] then []
    else if HeaderMatchLength(s) > 0 then RemoveChapterHeaders(s[HeaderMatchLength(s)..])
    else [s[0]] + RemoveChapterHeaders(s[1..])
  }

  /** Cutting headings out adds no character. */
  lemma {:induction false} RemoveHeadersAvoids(s: string, chars: set<char>)
    requires Avoids(s, chars)
    ensures Avoids(RemoveChapterHeaders(s), chars)
    decreases |s|
  {
    if s != [] {
      if HeaderMatchLength(s) > 0 {
        RemoveHeadersAvoids(s[HeaderMatchLength(s)..], chars);
      } else {
        RemoveHeadersAvoids(s[1..], chars);
      }
    }
  }

  /** A text with no letter c in it has no heading to cut. */
  lemma {:induction false} NoHeadingUnchanged(s: string)
    requires 'c' !in s && 'C' !in s
    ensures RemoveChapterHeaders(s) == s
    decreases |s|
  {
    if s != [] {
      assert HeaderMatchLength(s) == 0 by {
        if |s| >= 7 {
          assert Lower(s[..7])[0] == LowerChar(s[0]);
        }
      }
      NoHeadingUnchanged(s[1..]);
      assert [s[0]] + s[1..] == s;
    }
  }

  /** A heading at the front, "chapter" in any case, one space and a
      number, goes, and so does nothing of what follows it when that starts
      with a non-word character. */
  lemma HeadingCut(h: string, d: string, rest: string)
    requires |h| == 7 && Lower(h) == "chapter"
    requires d != [] && AllDigits(d)
    requires rest == [] || !IsWordChar(rest[0])
    ensures RemoveChapterHeaders(h + " " + d + rest) == RemoveChapterHeaders(rest)
  {
    var s := h + " " + d + rest;
    HeadingLength(h, d, rest);
    assert s[8 + |d|..] == rest;
  }

  lemma HeadingLength(h: string, d: string, rest: string)
    requires |h| == 7 && Lower(h) == "chapter"
    requires d != [] && AllDigits(d)
    requires rest == [] || !IsWordChar(rest[0])
    ensures HeaderMatchLength(h + " " + d + rest) == 8 + |d|
  {
    var s := h + " " + d + rest;
    assert s[..7] == h;
    assert s[7..] == [' '] + (d + rest);
    assert SpanLength(s[7..], IsSpace) == 1 by {
      assert (d + rest)[0] == d[0];
    }
    assert s[8..] == d + rest;
    WordSpan(d, rest);
  }

  lemma {:induction false} WordSpan(d: string, rest: string)
    requires AllDigits(d)
    requires rest == [] || !IsWordChar(rest[0])
    ensures SpanLength(d + rest, IsWordChar) == |d|
    decreases |d|
  {
    if d != [] {
      assert (d + rest)[1..] == d[1..] + rest;
      WordSpan(d[1..], rest);
    } else {
      assert d + rest == rest;
    }
  }

  /** The most characters of a chapter read aloud. */
  const SpeechLimit := 1500

  /** What is appended to a chapter cut short. */
  const ContinuesMark := "... [Chapter continues]"

  /** Headings cut, quotes and brackets dropped, whitespace collapsed and
      trimmed. */
  function CleanChapter(content: string): (r: string)
    ensures WellSpaced(r) && Avoids(r, OtherSpaces) && Avoids(r, QuoteChars)
  {
    var stripped := Strip(RemoveChapterHeaders(content), QuoteChars);
    assert ' ' !in QuoteChars;
    SqueezeAvoids(stripped, QuoteChars);
    Squeeze(stripped)
  }

  /** `processContentForSpeech`: the cleaned chapter, cut to its first 1500
      characters followed by the continuation mark when it is longer. The
      result is never longer than 1500 characters plus the mark; a cleaned
      chapter within the limit is read whole; a longer one is read from its
      start, and the mark tells the listener it goes on. */
  function ProcessContentForSpeech(content: string): (r: string)
    ensures |r| <= SpeechLimit + |ContinuesMark|
    ensures var clean := CleanChapter(content);
      if |clean| <= SpeechLimit then r == clean
      else |r| == SpeechLimit + |ContinuesMark| && r[..SpeechLimit] == clean[..SpeechLimit]
           && r[SpeechLimit..] == ContinuesMark
  {
    var processed := CleanChapter(content);
    if |processed| > SpeechLimit then processed[..SpeechLimit] + ContinuesMark else processed
  }

  /** A short chapter of plain prose with no heading is read exactly as it
      stands. */
  lemma PlainChapterUnchanged(s: string)
    requires |s| <= SpeechLimit && WellSpaced(s)
    requires forall i :: 0 <= i < |s| ==> (IsWordChar(s[i]) && s[i] != 'c' && s[i] != 'C') || s[i] == ' '
    ensures ProcessContentForSpeech(s) == s
  {
    assert 'c' !in s && 'C' !in s;
    NoHeadingUnchanged(s);
    assert forall c :: (IsWordChar(c) || c == ' ') ==> c !in QuoteChars && c !in OtherSpaces;
    StripNothing(s, QuoteChars);
    SqueezeIdentity(s);
  }

  // ---------------------------------------------------------------------
  // Choosing a voice

  /** A voice the browser offers. */
  datatype Voice = Voice(name: string, lang: string)

  /** The voices tried first, in order of preference. */
  const PreferredVoices: seq<string> := [
    "Google UK English Female", "Microsoft Zira Desktop",
    "Samantha", "Karen", "Tessa", "Victoria", "Fiona"
  ]

  /** `voices.find(p)`: the position of the first voice that satisfies `p`. */
  function FindIndex(voices: seq<Voice>, p: Voice -> bool): (r: Option<nat>)
    ensures r.Some? ==> r.value < |voices| && p(voices[r.value])
                        && forall j :: 0 <= j < r.value ==> !p(voices[j])
    ensures r.None? ==> forall j :: 0 <= j < |voices| ==> !p(voices[j])
    decreases |voices|
  {
    if voices == [] then None
    else if p(voices[0]) then Some(0)
    else
      match FindIndex(voices[1..], p)
      case None => None
      case Some(i) => Some(i + 1)
  }

  predicate NameHas(v: Voice, part: string) {
    Contains(v.name, part)
  }

  /** The fallback test: a name that says "female", or an English voice
      whose name does not say "male". */
  predicate LooksFeminine(v: Voice) {
    Contains(Lower(v.name), "female") || (Contains(v.lang, "en") && !Contains(Lower(v.name), "male"))
  }

  /** The fallback test lets a name that says "male" through only when it
      also says "female"; an English voice with neither word passes. */
  lemma MaleNamesNeedFemale(v: Voice)
    ensures LooksFeminine(v) && Contains(Lower(v.name), "male") ==> Contains(Lower(v.name), "female")
    ensures Contains(v.lang, "en") && !Contains(Lower(v.name), "male") ==> LooksFeminine(v)
  {
  }

  /** The first preferred name, from `k` on, that some voice carries, with
      the first voice that carries it. */
  function PreferredFrom(voices: seq<Voice>, k: nat): (r: Option<Voice>)
    requires k <= |PreferredVoices|
    decreases |PreferredVoices| - k
  {
    if k == |PreferredVoices| then None
    else
      match FindIndex(voices, v => NameHas(v, PreferredVoices[k]))
      case Some(i) => Some(voices[i])
      case None => PreferredFrom(voices, k + 1)
  }

  /** The voice `getFeminineVoice` settles on: a preferred one, else one
      that looks feminine, else the first on offer; none when there are no
      voices at all. There is a voice exactly when the browser offers one,
      and it is one of those on offer. */
  function FeminineVoice(voices: seq<Voice>): (r: Option<Voice>)
    ensures r.Some? <==> voices != []
    ensures r.Some? ==> r.value in voices
  {
    PreferredOffered(voices, 0);
    match PreferredFrom(voices, 0)
    case Some(v) => Some(v)
    case None =>
      match FindIndex(voices, LooksFeminine)
      case Some(i) => Some(voices[i])
      case None => if voices == [] then None else Some(voices[0])
  }

  /** `getFeminineVoice`: the preferred names in order, each looked up
      among the voices, then the fallback test, then the first voice. */
  method GetFeminineVoice(voices: seq<Voice>) returns (voice: Option<Voice>)
    ensures voice == FeminineVoice(voices)
  {
    for k := 0 to |PreferredVoices|
      invariant PreferredFrom(voices, 0) == PreferredFrom(voices, k)
    {
      var voiceName := PreferredVoices[k];
      var found := FindIndex(voices, v => NameHas(v, voiceName));
      if found.Some? {
        return Some(voices[found.value]);
      }
    }
    var femaleVoice := FindIndex(voices, LooksFeminine);
    if femaleVoice.Some? {
      return Some(voices[femaleVoice.value]);
    }
    if voices == [] {
      return None;
    }
    return Some(voices[0]);
  }

  lemma {:induction false} PreferredOffered(voices: seq<Voice>, k: nat)
    requires k <= |PreferredVoices|
    ensures PreferredFrom(voices, k).Some? ==> PreferredFrom(voices, k).value in voices
    decreases |PreferredVoices| - k
  {
    if k < |PreferredVoices| {
      PreferredOffered(voices, k + 1);
    }
  }

  /** A voice carrying the first preferred name wins, and the first such
      voice on offer is the one taken. */
  lemma FirstPreferenceWins(voices: seq<Voice>, i: nat)
    requires i < |voices| && NameHas(voices[i], PreferredVoices[0])
    requires forall j :: 0 <= j < i ==> !NameHas(voices[j], PreferredVoices[0])
    ensures FeminineVoice(voices) == Some(voices[i])
  {
    var p := v => NameHas(v, PreferredVoices[0]);
    assert p(voices[i]);
    var r := FindIndex(voices, p);
    assert r == Some(i);
  }

  /** With no preferred name on offer, a voice that passes the fallback
      test is preferred to the first voice. */
  lemma FallbackLooksFeminine(voices: seq<Voice>, i: nat)
    requires PreferredFrom(voices, 0).None?
    requires i < |voices| && LooksFeminine(voices[i])
    ensures FeminineVoice(voices).Some? && LooksFeminine(FeminineVoice(voices).value)
  {
    assert FindIndex(voices, LooksFeminine).Some?;
  }
}
