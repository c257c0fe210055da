/**
  The book store: the chapter splitter that turns a Project Gutenberg text
  into a map from chapter number to chapter text, the two-chapter fallback,
  and the chapter lookup that answers with the text or with a message.
*/
module BookStore {
  import opened Text
  import opened Patterns

  /** Pride and Prejudice has 61 chapters. */
  const ChapterCount := 61

  predicate IsChapterNumber(n: int) {
    1 <= n <= ChapterCount
  }

  // ---------------------------------------------------------------------
  // Splitting a Gutenberg text into chapters

  /** A (trimmed) line that opens a chapter: `/^CHAPTER\s+\w+/i` or `/^Chapter\s+\d+/`. */
  predicate IsChapterMarker(line: string) {
    HeaderMatchLength(line) > 0 || ExactChapterMarker(line)
  }

  /** The Gutenberg licence frame lines, which are never stored. */
  predicate IsFrameLine(line: string) {
    Contains(line, "*** START OF") || Contains(line, "*** END OF")
  }

  /** What a stored chapter line looks like: trimmed, not empty, neither a
      marker nor a frame line. */
  predicate IsStoredLine(line: string) {
    line != [] && !IsSpace(line[0]) && !IsSpace(line[|line| - 1])
    && !IsChapterMarker(line) && !IsFrameLine(line)
  }

  predicate AllStoredLines(body: seq<string>) {
    forall j :: 0 <= j < |body| ==> IsStoredLine(body[j])
  }

  /** What the splitter makes of one line of the text, after trimming it, in
      the order of its tests. */
  datatype Line = Marker | Frame | Blank | Text(line: string)

  function Classify(raw: string): (l: Line)
    ensures l.Text? ==> IsStoredLine(l.line)
  {
    var line := Trim(raw);
    if IsChapterMarker(line) then Marker
    else if IsFrameLine(line) then Frame
    else if line == [] then Blank
    else Text(line)
  }

  function ClassifyAll(lines: seq<string>): (items: seq<Line>)
    ensures |items| == |lines|
    ensures forall i :: 0 <= i < |lines| ==> items[i] == Classify(lines[i])
  {
    seq(|lines|, i requires 0 <= i < |lines| => Classify(lines[i]))
  }

  predicate TextIsStored(items: seq<Line>) {
    forall i :: 0 <= i < |items| && items[i].Text? ==> IsStoredLine(items[i].line)
  }

  /** The reference reading of a text's lines: one entry per chapter marker,
      in marker order, holding the text lines that follow that marker up to
      the next one. Lines before the first marker belong to no chapter. */
  function Bodies(items: seq<Line>): seq<seq<string>>
    decreases |items|
  {
    if items == [] then [] else Extend(Bodies(items[..|items| - 1]), items[|items| - 1])
  }

  /** One more line: a marker opens a new, empty chapter; a text line joins
      the last chapter, if there is one; anything else changes nothing. */
  function Extend(bodies: seq<seq<string>>, item: Line): seq<seq<string>> {
    match item
    case Marker => bodies + [[]]
    case Text(line) =>
      if bodies == [] then bodies else bodies[..|bodies| - 1] + [bodies[|bodies| - 1] + [line]]
    case _ => bodies
  }

  /** The number of marker lines. */
  function MarkerCount(items: seq<Line>): nat
    decreases |items|
  {
    if items == [] then 0
    else MarkerCount(items[..|items| - 1]) + if items[|items| - 1].Marker? then 1 else 0
  }

  /** The chapters 1..upto of `bodies` that have at least one line, each as
      its lines joined by line feeds. */
  function BookFrom(bodies: seq<seq<string>>, upto: nat): (m: map<int, string>)
    requires upto <= |bodies|
    ensures forall k :: k in m ==> 1 <= k <= upto
    decreases upto
  {
    if upto == 0 then map[]
    else
      var m := BookFrom(bodies, upto - 1);
      if bodies[upto - 1] == [] then m else m[upto := Join(bodies[upto - 1], '\n')]
  }

  /** The book a Gutenberg text yields: its chapters are numbered from 1 up
      to the number of marker lines. */
  function Book(text: string): (m: map<int, string>)
    ensures forall k :: k in m ==> 1 <= k <= MarkerCount(ClassifyAll(Split(text, '\n')))
  {
    var items := ClassifyAll(Split(text, '\n'));
    var b := Bodies(items);
    BodiesCount(items);
    BookFrom(b, |b|)
  }

  /** `parseGutenbergContent`: one pass over the lines with a running chapter
      counter, an in-chapter flag and a buffer of the current chapter's lines,
      flushed into the map at the next marker and at the end. */
  method ParseGutenbergContent(text: string) returns (chapters: map<int, string>)
    ensures chapters == Book(text)
  {
    chapters := map[];
    var lines := Split(text, '\n');
    ghost var items := ClassifyAll(lines);
    var currentChapter := 0;
    var inChapter := false;
    var chapterContent: seq<string> := [];
    for i := 0 to |lines|
      invariant ParseState(Bodies(items[..i]), currentChapter, inChapter, chapterContent, chapters)
    {
      BodiesPrefixStored(items, i);
      BodiesStep(items, i);
      currentChapter, inChapter, chapterContent, chapters :=
        ParseLine(Bodies(items[..i]), lines[i], currentChapter, inChapter, chapterContent, chapters);
    }
    assert items[..|lines|] == items;
    BodiesPrefixStored(items, |lines|);
    FlushStep(Bodies(items), chapterContent, chapters);
    if |chapterContent| > 0 {
      chapters := chapters[currentChapter := Trim(Join(chapterContent, '\n'))];
    }
  }

  /** One turn of the splitter's loop: the line is trimmed and either opens
      a chapter (storing the one before it), is skipped as part of the
      Gutenberg frame, or joins the current chapter. */
  method ParseLine(ghost before: seq<seq<string>>, raw: string, currentChapter: int, inChapter: bool,
                   chapterContent: seq<string>, chapters: map<int, string>)
    returns (currentChapter': int, inChapter': bool, chapterContent': seq<string>, chapters': map<int, string>)
    requires ParseState(before, currentChapter, inChapter, chapterContent, chapters)
    requires forall k :: 0 <= k < |before| ==> AllStoredLines(before[k])
    ensures ParseState(Extend(before, Classify(raw)), currentChapter', inChapter', chapterContent', chapters')
  {
    currentChapter', inChapter', chapterContent', chapters' := currentChapter, inChapter, chapterContent, chapters;
    var line := Trim(raw);
    if IsChapterMarker(line) {
      assert Classify(raw) == Marker;
      FlushStep(before, chapterContent, chapters);
      if inChapter && |chapterContent| > 0 {
        chapters' := chapters[currentChapter := Trim(Join(chapterContent, '\n'))];
      }
      MarkerStep(before, chapters');
      currentChapter' := currentChapter + 1;
      inChapter' := true;
      chapterContent' := [];
    } else if IsFrameLine(line) {
      assert Classify(raw) == Frame;
      SkipStep(before, Classify(raw));
    } else if inChapter && |line| > 0 {
      assert Classify(raw) == Text(line);
      TextStep(before, chapterContent, chapters, line);
      chapterContent' := chapterContent + [line];
    } else {
      assert Classify(raw) == Blank || (Classify(raw) == Text(line) && before == []);
      SkipStep(before, Classify(raw));
    }
  }

  /** What the splitter's loop knows after a prefix of the lines whose
      chapter bodies are `b`. */
  ghost predicate ParseState(b: seq<seq<string>>, currentChapter: int, inChapter: bool,
                             chapterContent: seq<string>, chapters: map<int, string>) {
    currentChapter == |b|
    && (inChapter <==> currentChapter > 0)
    && chapterContent == (if currentChapter == 0 then [] else b[currentChapter - 1])
    && chapters == BookFrom(b, if currentChapter == 0 then 0 else currentChapter - 1)
  }

  /** One more line: how the bodies of a prefix grow. */
  lemma BodiesStep(items: seq<Line>, i: nat)
    requires i < |items|
    ensures Bodies(items[..i + 1]) == Extend(Bodies(items[..i]), items[i])
  {
    assert items[..i + 1][..i] == items[..i];
  }

  /** Storing the buffered chapter, when it has lines, completes the map up to
      the current chapter; the trim changes nothing. */
  lemma FlushStep(b: seq<seq<string>>, chapterContent: seq<string>, chapters: map<int, string>)
    requires ParseState(b, |b|, |b| > 0, chapterContent, chapters)
    requires forall k :: 0 <= k < |b| ==> AllStoredLines(b[k])
    ensures BookFrom(b, |b|) ==
      if |b| > 0 && |chapterContent| > 0
      then chapters[|b| := Trim(Join(chapterContent, '\n'))] else chapters
  {
    if |b| > 0 && |chapterContent| > 0 {
      StoredLinesJoinTrimmed(chapterContent);
    }
  }

  /** A frame line, a blank line, or a text line before the first marker
      leaves the bodies as they are. */
  lemma SkipStep(b: seq<seq<string>>, item: Line)
    requires item.Frame? || item.Blank? || (item.Text? && b == [])
    ensures Extend(b, item) == b
  {
  }

  /** A marker opens an empty chapter, which adds nothing to the map yet. */
  lemma MarkerStep(b: seq<seq<string>>, chapters: map<int, string>)
    requires chapters == BookFrom(b, |b|)
    ensures ParseState(Extend(b, Marker), |b| + 1, true, [], chapters)
  {
    BookFromGrows(b, b + [[]], |b|);
  }

  /** A text line inside a chapter joins the buffer, and the map of the
      finished chapters stays as it is. */
  lemma TextStep(b: seq<seq<string>>, chapterContent: seq<string>, chapters: map<int, string>, line: string)
    requires |b| > 0
    requires ParseState(b, |b|, true, chapterContent, chapters)
    ensures ParseState(Extend(b, Text(line)), |b|, true, chapterContent + [line], chapters)
  {
    var b' := b[..|b| - 1] + [b[|b| - 1] + [line]];
    assert b'[..|b| - 1] == b[..|b| - 1];
    BookFromGrows(b, b', |b| - 1);
  }

  /** The map up to `upto` depends only on the first `upto` bodies. */
  lemma {:induction false} BookFromGrows(b: seq<seq<string>>, b': seq<seq<string>>, upto: nat)
    requires upto <= |b| && upto <= |b'|
    requires b[..upto] == b'[..upto]
    ensures BookFrom(b', upto) == BookFrom(b, upto)
    decreases upto
  {
    if upto > 0 {
      assert b[upto - 1] == b[..upto][upto - 1];
      assert b'[upto - 1] == b'[..upto][upto - 1];
      assert b[..upto - 1] == b[..upto][..upto - 1];
      assert b'[..upto - 1] == b'[..upto][..upto - 1];
      BookFromGrows(b, b', upto - 1);
    }
  }

  /** The keys of the map up to `upto` are the numbers 1..upto whose body has
      a line, and each maps to that body joined by line feeds. */
  lemma {:induction false} BookFromKeys(b: seq<seq<string>>, upto: nat, k: int)
    requires upto <= |b|
    ensures k in BookFrom(b, upto) <==> 1 <= k <= upto && b[k - 1] != []
    ensures k in BookFrom(b, upto) ==> BookFrom(b, upto)[k] == Join(b[k - 1], '\n')
    decreases upto
  {
    if upto > 0 {
      BookFromKeys(b, upto - 1, k);
    }
  }

  /** Every line `Bodies` keeps is a text line of its input. */
  lemma {:induction false} BodiesStoredLines(items: seq<Line>)
    requires TextIsStored(items)
    ensures forall k :: 0 <= k < |Bodies(items)| ==> AllStoredLines(Bodies(items)[k])
    decreases |items|
  {
    if items != [] {
      var init := items[..|items| - 1];
      assert TextIsStored(init) by {
        forall i | 0 <= i < |init| && init[i].Text? ensures IsStoredLine(init[i].line) {
          assert init[i] == items[i];
        }
      }
      BodiesStoredLines(init);
    }
  }

  /** The text lines of classified lines are stored lines, prefix by prefix. */
  lemma BodiesPrefixStored(items: seq<Line>, i: nat)
    requires i <= |items|
    requires forall j :: 0 <= j < |items| && items[j].Text? ==> IsStoredLine(items[j].line)
    ensures forall k :: 0 <= k < |Bodies(items[..i])| ==> AllStoredLines(Bodies(items[..i])[k])
  {
    BodiesStoredLines(items[..i]);
  }

  /** Joining trimmed, non-empty lines gives a text that `trim()` leaves alone. */
  lemma StoredLinesJoinTrimmed(parts: seq<string>)
    requires parts != []
    requires AllStoredLines(parts)
    ensures Trim(Join(parts, '\n')) == Join(parts, '\n')
  {
    JoinEnds(parts, '\n');
  }

  lemma {:induction false} JoinEnds(parts: seq<string>, sep: char)
    requires parts != []
    requires forall j :: 0 <= j < |parts| ==> parts[j] != []
    ensures var s := Join(parts, sep);
      s != [] && s[0] == parts[0][0] && s[|s| - 1] == parts[|parts| - 1][|parts[|parts| - 1]| - 1]
    decreases |parts|
  {
    if |parts| > 1 {
      JoinEnds(parts[1..], sep);
    }
  }

  /** There is one chapter entry per marker line. */
  lemma {:induction false} BodiesCount(items: seq<Line>)
    ensures |Bodies(items)| == MarkerCount(items)
    decreases |items|
  {
    if items != [] {
      BodiesCount(items[..|items| - 1]);
    }
  }

  /** Every chapter number the splitter stores lies between 1 and the number
      of marker lines, and its text is the chapter's stored lines joined by
      line feeds. */
  lemma BookKeys(text: string, k: int)
    requires k in Book(text)
    ensures var items := ClassifyAll(Split(text, '\n'));
      && 1 <= k <= MarkerCount(items)
      && Bodies(items)[k - 1] != []
      && Book(text)[k] == Join(Bodies(items)[k - 1], '\n')
      && AllStoredLines(Bodies(items)[k - 1])
  {
    var items := ClassifyAll(Split(text, '\n'));
    var b := Bodies(items);
    BookFromKeys(b, |b|, k);
    BodiesCount(items);
    BodiesStoredLines(items);
  }

  /** Lines with no marker among them contribute nothing. */
  lemma {:induction false} NoMarkerNoBodies(items: seq<Line>)
    requires MarkerCount(items) == 0
    ensures Bodies(items) == []
    decreases |items|
  {
    if items != [] {
      NoMarkerNoBodies(items[..|items| - 1]);
    }
  }

  /** Whatever comes before the first chapter marker is never stored. */
  lemma {:induction false} PreambleIgnored(preamble: seq<Line>, rest: seq<Line>)
    requires MarkerCount(preamble) == 0
    ensures Bodies(preamble + rest) == Bodies(rest)
    decreases |rest|
  {
    var all := preamble + rest;
    if rest == [] {
      assert all == preamble;
      NoMarkerNoBodies(preamble);
    } else {
      var init := rest[..|rest| - 1];
      assert all[..|all| - 1] == preamble + init;
      PreambleIgnored(preamble, init);
      assert all[|all| - 1] == rest[|rest| - 1];
    }
  }

  // ---------------------------------------------------------------------
  // The embedded fallback

  /** `useFallbackBookContent`: the first two chapters, abridged. */
  function FallbackBookContent(): (book: map<int, string>)
    ensures book.Keys == {1, 2}
    ensures forall k :: k in book ==> IsChapterNumber(k) && book[k] != ""
  {
    assert |FallbackChapterOne| > 0 && |FallbackChapterTwo| > 0;
    map[1 := FallbackChapterOne, 2 := FallbackChapterTwo]
  }

  const FallbackChapterOne := "CHAPTER 1\n\nIt is a truth universally acknowledged, that a single man in possession of a good fortune, must be in want of a wife..."
  const FallbackChapterTwo := "CHAPTER 2\n\nMr. Bennet was among the earliest of those who waited on Mr. Bingley..."

  // ---------------------------------------------------------------------
  // Looking a chapter up

  const StillLoading := "still loading"
  const NotAvailable := "not available"

  const LoadingMessage := "The book content is " + StillLoading + ". Please try again in a moment."

  function NoSuchChapterMessage(chapter: int): string {
    "Chapter " + IntToString(chapter) + " doesn't exist. Pride and Prejudice has 61 chapters."
  }

  function NotAvailableMessage(chapter: int): string {
    "Chapter " + IntToString(chapter) + " is " + NotAvailable
    + " in the current book version. Try another chapter between 1 and 61."
  }

  /** `getBookContent`: never fails. It checks that the book is loaded before
      it checks the range, the range before the key, and answers with the
      stored text only when there is a non-empty one (an empty string is
      falsy in the source). */
  function GetBookContent(isBookLoaded: bool, bookContent: Option<map<int, string>>, chapter: int): (r: string)
    ensures !isBookLoaded || bookContent.None? ==> r == LoadingMessage
    ensures isBookLoaded && bookContent.Some? && !IsChapterNumber(chapter) ==> r == NoSuchChapterMessage(chapter)
    ensures isBookLoaded && bookContent.Some? && IsChapterNumber(chapter)
            ==> r == (if chapter in bookContent.value && bookContent.value[chapter] != ""
                      then bookContent.value[chapter] else NotAvailableMessage(chapter))
  {
    if !isBookLoaded || bookContent.None? then LoadingMessage
    else if chapter < 1 || chapter > 61 then NoSuchChapterMessage(chapter)
    else if chapter !in bookContent.value || bookContent.value[chapter] == "" then NotAvailableMessage(chapter)
    else bookContent.value[chapter]
  }

  /** The chapter command's test for a failed lookup (line 295). */
  predicate LooksLikeFailure(content: string) {
    Contains(content, NotAvailable) || Contains(content, StillLoading)
  }

  /** For a chapter number in range, the failure test fires exactly when the
      lookup answered with one of its two messages, or when the stored text
      itself happens to contain one of the two phrases. */
  lemma FailureDetection(isBookLoaded: bool, bookContent: Option<map<int, string>>, chapter: int)
    requires IsChapterNumber(chapter)
    ensures var r := GetBookContent(isBookLoaded, bookContent, chapter);
      var stored := isBookLoaded && bookContent.Some? && chapter in bookContent.value
                    && bookContent.value[chapter] != "";
      LooksLikeFailure(r) <==> !stored || LooksLikeFailure(bookContent.value[chapter])
  {
    ContainsInside("The book content is ", StillLoading, ". Please try again in a moment.");
    ContainsInside("Chapter " + IntToString(chapter) + " is ", NotAvailable,
      " in the current book version. Try another chapter between 1 and 61.");
  }
}
