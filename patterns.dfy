/**
  The regular expressions of VoiceBook_aiscript.js that read chapter numbers
  and chapter headers, each written out as a function on strings. A regex
  search is the leftmost position where the anchored match succeeds; each
  greedy `\s+`, `\d+` or `\w+` takes the longest run, and because these
  classes do not overlap no backtracking ever changes the outcome.
*/
module Patterns {
  import opened Text

  /** Length of a match of `/CHAPTER\s+\w+/i` at the very start of `s`, 0 when
      the pattern does not match there. */
  function HeaderMatchLength(s: string): (n: nat)
    ensures n <= |s|
    ensures n > 0 <==>
      |s| > 7 && Lower(s[..7]) == "chapter"
      && SpanLength(s[7..], IsSpace) > 0
      && SpanLength(s[7..], IsSpace) < |s| - 7
      && IsWordChar(s[7 + SpanLength(s[7..], IsSpace)])
  {
    if |s| < 7 || Lower(s[..7]) != "chapter" then 0
    else
      var ws := SpanLength(s[7..], IsSpace);
      var w := SpanLength(s[7 + ws..], IsWordChar);
      if ws == 0 || w == 0 then 0 else 7 + ws + w
  }

  /** `/^Chapter\s+\d+/`: the case-sensitive second marker test. */
  predicate ExactChapterMarker(s: string) {
    |s| > 7 && s[..7] == "Chapter"
    && SpanLength(s[7..], IsSpace) > 0
    && SpanLength(s[7..], IsSpace) < |s| - 7
    && IsDigit(s[7 + SpanLength(s[7..], IsSpace)])
  }

  /** Every line the case-sensitive marker accepts, the `/i` one accepts too. */
  lemma ExactMarkerIsHeader(s: string)
    requires ExactChapterMarker(s)
    ensures HeaderMatchLength(s) > 0
  {
    assert Lower(s[..7]) == "chapter";
  }

  /** `/kw\s+(\d+)/i` tried at the very start of `s` (`kw` in lower case):
      the number the captured digits denote. It matches exactly when the
      keyword is followed by whitespace and the whitespace by a digit. */
  function KeywordNumberAt(s: string, kw: string): (r: Option<nat>)
    ensures r.Some? <==>
      |kw| < |s| && Lower(s[..|kw|]) == kw && IsSpace(s[|kw|])
      && |kw| + SpanLength(s[|kw|..], IsSpace) < |s|
      && IsDigit(s[|kw| + SpanLength(s[|kw|..], IsSpace)])
  {
    if |s| < |kw| || Lower(s[..|kw|]) != kw then None
    else
      var ws := SpanLength(s[|kw|..], IsSpace);
      assert |kw| < |s| ==> s[|kw|..][0] == s[|kw|];
      assert |kw| + ws < |s| ==> s[|kw| + ws..][0] == s[|kw| + ws];
      var digits := s[|kw| + ws..][..SpanLength(s[|kw| + ws..], IsDigit)];
      if ws == 0 || digits == [] then None else Some(DecimalValue(digits))
  }

  /** `s.match(/kw\s+(\d+)/i)`: the leftmost match, if any. */
  function SearchKeywordNumber(s: string, kw: string): Option<nat>
    decreases |s|
  {
    if s == [] then None
    else if KeywordNumberAt(s, kw).Some? then KeywordNumberAt(s, kw)
    else SearchKeywordNumber(s[1..], kw)
  }

  /** The search finds nothing exactly when the match fails at every
      position. */
  lemma {:induction false} SearchFindsNothing(s: string, kw: string)
    ensures SearchKeywordNumber(s, kw).None? <==>
      forall i :: 0 <= i < |s| ==> KeywordNumberAt(s[i..], kw).None?
    decreases |s|
  {
    assert s[0..] == s;
    if s != [] && KeywordNumberAt(s, kw).None? {
      SearchFindsNothing(s[1..], kw);
      assert forall i :: 1 <= i < |s| ==> s[1..][i - 1..] == s[i..];
    }
  }

  /** A search that finds something found it at the leftmost position
      where the match succeeds. */
  lemma {:induction false} SearchLeftmost(s: string, kw: string) returns (i: nat)
    requires SearchKeywordNumber(s, kw).Some?
    ensures i < |s| && KeywordNumberAt(s[i..], kw) == SearchKeywordNumber(s, kw)
    ensures forall k :: 0 <= k < i ==> KeywordNumberAt(s[k..], kw).None?
    decreases |s|
  {
    assert s[0..] == s;
    if KeywordNumberAt(s, kw).Some? {
      i := 0;
    } else {
      var j := SearchLeftmost(s[1..], kw);
      i := j + 1;
      assert s[1..][j..] == s[i..];
      forall k | 0 <= k < i ensures KeywordNumberAt(s[k..], kw).None? {
        if k > 0 {
          assert s[1..][k - 1..] == s[k..];
        }
      }
    }
  }

  predicate NotDigit(c: char) {
    !IsDigit(c)
  }

  /** `s.match(/(\d+)(?:\s+chapter)?/i)` and `s.match(/\d+/)`: the first run of
      digits. It is absent exactly when `s` has no digit; when present it is
      the whole run that starts at the first digit of `s`. */
  function FirstNumber(s: string): (r: Option<nat>)
    ensures r.None? <==> NoDigits(s)
    ensures r.Some? ==> var p := SpanLength(s, NotDigit);
      p < |s| && NoDigits(s[..p]) && IsDigit(s[p])
      && r.value == DecimalValue(s[p..][..SpanLength(s[p..], IsDigit)])
  {
    var p := SpanLength(s, NotDigit);
    if p == |s| then None
    else
      assert s[p..][0] == s[p];
      Some(DecimalValue(s[p..][..SpanLength(s[p..], IsDigit)]))
  }

  /** Where a keyword-number match stands: the keyword, at least one
      whitespace character, then a digit. */
  lemma KeywordMatchShape(s: string, kw: string) returns (j: nat)
    requires KeywordNumberAt(s, kw).Some?
    ensures |kw| < j < |s| && IsDigit(s[j])
    ensures forall k :: |kw| <= k < j ==> IsSpace(s[k])
  {
    var ws := SpanLength(s[|kw|..], IsSpace);
    j := |kw| + ws;
    assert s[|kw| + ws..][0] == s[j];
  }

  /** A keyword-number match always holds a digit, so the first digit run is
      there whenever it is: the third chapter pattern (`/read\s+(\d+)/i`)
      can never be the one that decides. */
  lemma {:induction false} KeywordMatchImpliesNumber(s: string, kw: string)
    requires SearchKeywordNumber(s, kw).Some?
    ensures FirstNumber(s).Some?
    decreases |s|
  {
    if KeywordNumberAt(s, kw).Some? {
      var j := KeywordMatchShape(s, kw);
    } else {
      KeywordMatchImpliesNumber(s[1..], kw);
      assert !NoDigits(s[1..]);
    }
  }

  /** The digits that follow "chapter " are read whole when nothing before
      them is a digit and no digit follows them. */
  lemma ChapterPhraseMatches(pre: string, digits: string, post: string)
    requires NoDigits(pre)
    requires AllDigits(digits) && digits != []
    requires post == [] || !IsDigit(post[0])
    ensures SearchKeywordNumber(pre + "chapter " + digits + post, "chapter") == Some(DecimalValue(digits))
  {
    var rest := "chapter " + digits + post;
    assert pre + "chapter " + digits + post == pre + rest;
    PhraseAtStart(digits, post);
    SearchSkipsPrefix(pre, rest);
  }

  /** A digit-free prefix before "chapter " holds no match of its own. */
  lemma {:induction false} SearchSkipsPrefix(pre: string, rest: string)
    requires NoDigits(pre)
    requires |rest| >= 8 && rest[..8] == "chapter "
    ensures SearchKeywordNumber(pre + rest, "chapter") == SearchKeywordNumber(rest, "chapter")
    decreases |pre|
  {
    if pre != [] {
      var s := pre + rest;
      NoMatchBeforePhrase(pre, rest);
      SearchStep(s, "chapter");
      assert s[1..] == pre[1..] + rest;
      NoDigitsTail(pre);
      SearchSkipsPrefix(pre[1..], rest);
    } else {
      assert pre + rest == rest;
    }
  }

  /** Where no match starts at the first position, the search goes on from
      the second. */
  lemma SearchStep(s: string, kw: string)
    requires s != [] && KeywordNumberAt(s, kw).None?
    ensures SearchKeywordNumber(s, kw) == SearchKeywordNumber(s[1..], kw)
  {
  }

  lemma NoDigitsTail(s: string)
    requires s != [] && NoDigits(s)
    ensures NoDigits(s[1..])
  {
    forall i | 0 <= i < |s| - 1 ensures !IsDigit(s[1..][i]) {
      assert s[1..][i] == s[i + 1];
    }
  }

  lemma PhraseAtStart(digits: string, post: string)
    requires AllDigits(digits) && digits != []
    requires post == [] || !IsDigit(post[0])
    ensures KeywordNumberAt("chapter " + digits + post, "chapter") == Some(DecimalValue(digits))
  {
    var s := "chapter " + digits + post;
    assert s[..7] == "chapter";
    assert Lower(s[..7]) == "chapter";
    var t := s[7..];
    assert t == " " + digits + post;
    assert t[1..] == digits + post;
    assert SpanLength(t, IsSpace) == 1;
    var u := s[8..];
    assert u == digits + post;
    SpanOfDigits(digits, post);
    assert u[..|digits|] == digits;
  }

  /** A match of "chapter" + whitespace + digits cannot start inside a
      digit-free prefix that comes before the keyword: the whitespace run
      after a keyword found there stops at a letter or earlier, never at a
      digit. */
  lemma NoMatchBeforePhrase(pre: string, rest: string)
    requires pre != [] && NoDigits(pre)
    requires |rest| >= 8 && rest[..8] == "chapter "
    ensures KeywordNumberAt(pre + rest, "chapter").None?
  {
    var s := pre + rest;
    if Lower(s[..7]) == "chapter" {
      var t := s[7..];
      var ws := SpanLength(t, IsSpace);
      assert t[|pre| - 1] == rest[6] == 'r';
      assert ws <= |pre| - 1;
      assert !IsDigit(s[7 + ws]) by {
        if 7 + ws >= |pre| {
          assert s[7 + ws] == rest[..8][7 + ws - |pre|];
        }
      }
      var u := s[7 + ws..];
      assert u[0] == s[7 + ws];
      assert SpanLength(u, IsDigit) == 0;
    }
  }

  lemma SpanOfDigits(digits: string, post: string)
    requires AllDigits(digits)
    requires post == [] || !IsDigit(post[0])
    ensures SpanLength(digits + post, IsDigit) == |digits|
    decreases |digits|
  {
    if digits != [] {
      assert (digits + post)[1..] == digits[1..] + post;
      SpanOfDigits(digits[1..], post);
    }
  }

  /** The first digit run of a text is read whole when nothing before it is a
      digit and no digit follows it. */
  lemma FirstNumberAfter(pre: string, digits: string, post: string)
    requires NoDigits(pre)
    requires AllDigits(digits) && digits != []
    requires post == [] || !IsDigit(post[0])
    ensures FirstNumber(pre + digits + post) == Some(DecimalValue(digits))
  {
    var s := pre + digits + post;
    assert s == pre + (digits + post);
    SpanOfNonDigits(pre, digits + post);
    assert s[|pre|..] == digits + post;
    SpanOfDigits(digits, post);
    assert (digits + post)[..|digits|] == digits;
  }

  lemma {:induction false} SpanOfNonDigits(pre: string, rest: string)
    requires NoDigits(pre)
    requires rest != [] && IsDigit(rest[0])
    ensures SpanLength(pre + rest, NotDigit) == |pre|
    decreases |pre|
  {
    if pre == [] {
      assert pre + rest == rest;
    } else {
      assert (pre + rest)[1..] == pre[1..] + rest;
      NoDigitsTail(pre);
      SpanOfNonDigits(pre[1..], rest);
    }
  }

  /** "chapter" cannot be matched where the text has no 'c' or 'C'. */
  lemma {:induction false} NoKeywordWithoutC(s: string)
    requires Avoids(s, {'c', 'C'})
    ensures SearchKeywordNumber(s, "chapter").None?
    decreases |s|
  {
    if s != [] {
      if |s| >= 7 {
        assert Lower(s[..7])[0] == LowerChar(s[0]) != 'c';
      }
      assert Avoids(s[1..], {'c', 'C'}) by {
        forall i | 0 <= i < |s[1..]| ensures s[1..][i] !in {'c', 'C'} {
          assert s[1..][i] == s[i + 1];
        }
      }
      NoKeywordWithoutC(s[1..]);
    }
  }

  /** At "chapter -" itself there is no match, nor anywhere after it. */
  lemma MinusAtKeyword(digits: string)
    requires AllDigits(digits)
    ensures SearchKeywordNumber("chapter -" + digits, "chapter").None?
  {
    var s := "chapter -" + digits;
    assert s[..7] == "chapter";
    var t := s[7..];
    assert t == " -" + digits;
    assert t[1..] == "-" + digits;
    assert SpanLength(t, IsSpace) == 1;
    assert s[8..][0] == '-';
    assert SpanLength(s[8..], IsDigit) == 0;
    assert KeywordNumberAt(s, "chapter").None?;
    var tail := "hapter -" + digits;
    assert s[1..] == tail;
    assert Avoids(tail, {'c', 'C'}) by {
      forall i | 0 <= i < |tail| ensures tail[i] !in {'c', 'C'} {
        if i >= 8 {
          assert tail[i] == digits[i - 8];
        }
      }
    }
    NoKeywordWithoutC(tail);
  }

  /** A minus sign between "chapter" and its number defeats the
      `/chapter\s+(\d+)/i` pattern, however the text before it reads as long
      as it holds no 'c' or 'C'. */
  lemma {:induction false} MinusDefeatsKeyword(pre: string, digits: string)
    requires Avoids(pre, {'c', 'C'})
    requires AllDigits(digits)
    ensures SearchKeywordNumber(pre + "chapter -" + digits, "chapter").None?
    decreases |pre|
  {
    var s := pre + "chapter -" + digits;
    if pre == [] {
      assert s == "chapter -" + digits;
      MinusAtKeyword(digits);
    } else {
      assert Lower(s[..7])[0] == LowerChar(s[0]) != 'c';
      assert s[1..] == pre[1..] + "chapter -" + digits;
      assert Avoids(pre[1..], {'c', 'C'}) by {
        forall i | 0 <= i < |pre[1..]| ensures pre[1..][i] !in {'c', 'C'} {
          assert pre[1..][i] == pre[i + 1];
        }
      }
      MinusDefeatsKeyword(pre[1..], digits);
    }
  }
}
