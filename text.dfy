/**
  The pieces of JavaScript's String API that the assistant relies on, over
  `string` (= `seq<char>`). Character classes are the ASCII parts of the
  JavaScript ones: `\s` is space, tab, line feed, vertical tab, form feed and
  carriage return; `\w` is `[A-Za-z0-9_]`; case folding is ASCII only.
*/
module Text {

  datatype Option<+T> = None | Some(value: T)

  // ---------------------------------------------------------------------
  // Character classes

  /** JavaScript `\s`, restricted to ASCII. */
  predicate IsSpace(c: char) {
    c == ' ' || c == '\t' || c == '\n' || c == '\U{B}' || c == '\U{C}' || c == '\r'
  }

  /** JavaScript `\d`. */
  predicate IsDigit(c: char) {
    '0' <= c <= '9'
  }

  /** JavaScript `\w`. */
  predicate IsWordChar(c: char) {
    ('a' <= c <= 'z') || ('A' <= c <= 'Z') || IsDigit(c) || c == '_'
  }

  predicate IsHexDigit(c: char) {
    IsDigit(c) || ('a' <= c <= 'f') || ('A' <= c <= 'F')
  }

  /** `toLowerCase` on one character (ASCII letters only). */
  function LowerChar(c: char): char {
    if 'A' <= c <= 'Z' then (c as int + 32) as char else c
  }

  /** `toLowerCase()`. */
  function Lower(s: string): string {
    seq(|s|, i requires 0 <= i < |s| => LowerChar(s[i]))
  }

  /** Lower-casing keeps the length, leaves no upper-case ASCII letter, and
      changes no other character; each upper-case letter becomes its
      lower-case partner. */
  lemma LowerSpec(s: string)
    ensures |Lower(s)| == |s|
    ensures forall i :: 0 <= i < |s| ==> !('A' <= Lower(s)[i] <= 'Z')
    ensures forall i :: 0 <= i < |s| && !('A' <= s[i] <= 'Z') ==> Lower(s)[i] == s[i]
    ensures forall i :: 0 <= i < |s| && 'A' <= s[i] <= 'Z' ==> 'a' <= Lower(s)[i] <= 'z'
  {
  }

  predicate AllDigits(s: string) {
    forall i :: 0 <= i < |s| ==> IsDigit(s[i])
  }

  predicate NoDigits(s: string) {
    forall i :: 0 <= i < |s| ==> !IsDigit(s[i])
  }

  // ---------------------------------------------------------------------
  // Searching

  predicate StartsWith(s: string, prefix: string) {
    |prefix| <= |s| && s[..|prefix|] == prefix
  }

  /** `s.includes(sub)`. */
  predicate Contains(s: string, sub: string)
    decreases |s|
  {
    StartsWith(s, sub) || (s != [] && Contains(s[1..], sub))
  }

  /** An occurrence of `sub` at any position of `s` makes `s.includes(sub)` true. */
  lemma {:induction false} ContainsAt(s: string, sub: string, i: nat)
    requires i + |sub| <= |s| && s[i..i + |sub|] == sub
    ensures Contains(s, sub)
    decreases i
  {
    if i > 0 {
      assert s[1..][i - 1..i - 1 + |sub|] == s[i..i + |sub|];
      ContainsAt(s[1..], sub, i - 1);
    }
  }

  /** `sub` occurs in any string built around it. */
  lemma ContainsInside(a: string, sub: string, b: string)
    ensures Contains(a + sub + b, sub)
  {
    var s := a + sub + b;
    assert s[|a|..|a| + |sub|] == sub;
    ContainsAt(s, sub, |a|);
  }

  /** The same, with the text after `sub` in two pieces. */
  lemma ContainsBefore(a: string, sub: string, b: string, c: string)
    ensures Contains(a + sub + b + c, sub)
  {
    ContainsInside(a, sub, b + c);
    assert a + sub + b + c == a + sub + (b + c);
  }

  /** `s.includes(sub)` only when some window of `s` equals `sub`. */
  lemma {:induction false} ContainsWitness(s: string, sub: string) returns (i: nat)
    requires Contains(s, sub)
    ensures i + |sub| <= |s| && s[i..i + |sub|] == sub
    decreases |s|
  {
    if StartsWith(s, sub) {
      i := 0;
    } else {
      var j := ContainsWitness(s[1..], sub);
      assert s[1..][j..j + |sub|] == s[j + 1..j + 1 + |sub|];
      i := j + 1;
    }
  }

  /** Number of leading characters of `s` that satisfy `p` (a greedy `p*`). */
  function SpanLength(s: string, p: char -> bool): (n: nat)
    ensures n <= |s|
    ensures forall i :: 0 <= i < n ==> p(s[i])
    ensures n < |s| ==> !p(s[n])
    decreases |s|
  {
    if s != [] && p(s[0]) then 1 + SpanLength(s[1..], p) else 0
  }

  // ---------------------------------------------------------------------
  // Whitespace

  /** `trimStart()`: drops the leading whitespace, keeps everything else. */
  function TrimStart(s: string): (r: string)
    ensures |r| <= |s| && r == s[|s| - |r|..]
    ensures r == [] || !IsSpace(r[0])
    ensures forall i :: 0 <= i < |s| - |r| ==> IsSpace(s[i])
    decreases |s|
  {
    if s != [] && IsSpace(s[0]) then TrimStart(s[1..]) else s
  }

  /** `trimEnd()`: drops the trailing whitespace, keeps everything else. */
  function TrimEnd(s: string): (r: string)
    ensures |r| <= |s| && r == s[..|r|]
    ensures r == [] || !IsSpace(r[|r| - 1])
    ensures forall i :: |r| <= i < |s| ==> IsSpace(s[i])
    decreases |s|
  {
    if s != [] && IsSpace(s[|s| - 1]) then TrimEnd(s[..|s| - 1]) else s
  }

  /** `trim()`: the result neither starts nor ends with whitespace, is empty
      exactly when `s` is all whitespace, and leaves an already trimmed
      string alone. */
  function Trim(s: string): (r: string)
    ensures r == [] || (!IsSpace(r[0]) && !IsSpace(r[|r| - 1]))
    ensures r == [] <==> forall i :: 0 <= i < |s| ==> IsSpace(s[i])
    ensures (s == [] || (!IsSpace(s[0]) && !IsSpace(s[|s| - 1]))) ==> r == s
  {
    var t := TrimStart(s);
    TrimEmpty(s);
    TrimEnd(t)
  }

  /** `trim()` keeps one contiguous stretch of `s` and drops only
      whitespace, before it and after it. */
  lemma {:induction false} TrimDropsOnlySpace(s: string)
    ensures var k := |s| - |TrimStart(s)|; var r := Trim(s);
      k + |r| <= |s| && (forall i :: 0 <= i < |r| ==> r[i] == s[k + i])
      && (forall i :: 0 <= i < k ==> IsSpace(s[i]))
      && (forall i :: k + |r| <= i < |s| ==> IsSpace(s[i]))
  {
    TrimParts(s);
    SuffixPrefix(s, TrimStart(s), TrimEnd(TrimStart(s)));
  }

  /** `trim()` is `trimStart()` followed by `trimEnd()`. */
  lemma TrimParts(s: string)
    ensures Trim(s) == TrimEnd(TrimStart(s))
  {
  }

  /** A prefix `r` of a suffix `t` of `s` is a slice of `s`; when `t`
      holds only whitespace after `r`, so does `s`. */
  lemma SuffixPrefix(s: string, t: string, r: string)
    requires |t| <= |s| && t == s[|s| - |t|..]
    requires |r| <= |t| && r == t[..|r|]
    requires forall i :: |r| <= i < |t| ==> IsSpace(t[i])
    ensures forall i :: 0 <= i < |r| ==> r[i] == s[|s| - |t| + i]
    ensures forall i :: |s| - |t| + |r| <= i < |s| ==> IsSpace(s[i])
  {
    var k := |s| - |t|;
    forall i | k + |r| <= i < |s| ensures IsSpace(s[i]) {
      assert s[i] == t[i - k];
    }
  }

  lemma TrimEmpty(s: string)
    ensures TrimEnd(TrimStart(s)) == [] <==> forall i :: 0 <= i < |s| ==> IsSpace(s[i])
  {
    var t := TrimStart(s);
    if t != [] {
      assert t[0] == s[|s| - |t|];
    }
  }

  /** No character of `s` belongs to `chars`. */
  predicate Avoids(s: string, chars: set<char>) {
    forall i :: 0 <= i < |s| ==> s[i] !in chars
  }

  /** The whitespace characters other than the plain space. */
  const OtherSpaces: set<char> := {'\t', '\n', '\U{B}', '\U{C}', '\r'}

  /** No two whitespace characters stand next to each other. */
  predicate NoAdjacentSpaces(s: string) {
    forall i :: 0 <= i < |s| - 1 ==> !(IsSpace(s[i]) && IsSpace(s[i + 1]))
  }

  /** `replace(/\s+/g, ' ')`: every run of whitespace becomes one space. */
  function CollapseSpaces(s: string): string
    decreases |s|
  {
    if s == [] then []
    else if IsSpace(s[0]) then [' '] + CollapseSpaces(TrimStart(s[1..]))
    else [s[0]] + CollapseSpaces(s[1..])
  }

  /** Collapsing keeps the text empty or not, and keeps whether it starts
      with whitespace. */
  lemma CollapseStart(s: string)
    ensures var r := CollapseSpaces(s);
      (r == [] <==> s == []) && (s != [] ==> (IsSpace(r[0]) <==> IsSpace(s[0])))
  {
  }

  /** After collapsing, no two whitespace characters stand side by side. */
  lemma {:induction false} CollapseNoAdjacent(s: string)
    ensures NoAdjacentSpaces(CollapseSpaces(s))
    decreases |s|
  {
    if s != [] {
      var r := CollapseSpaces(s);
      var t := if IsSpace(s[0]) then TrimStart(s[1..]) else s[1..];
      var rest := CollapseSpaces(t);
      CollapseNoAdjacent(t);
      CollapseStart(t);
      assert r == [if IsSpace(s[0]) then ' ' else s[0]] + rest;
      forall i | 0 <= i < |r| - 1 ensures !(IsSpace(r[i]) && IsSpace(r[i + 1])) {
        if i > 0 {
          assert r[i] == rest[i - 1] && r[i + 1] == rest[i];
        } else {
          assert r[1] == rest[0];
        }
      }
    }
  }

  /** Collapsing adds no character but the plain space: whatever `s` keeps
      out, apart from that space, its collapsed form keeps out too. */
  lemma {:induction false} CollapseAvoids(s: string, chars: set<char>)
    requires ' ' !in chars && Avoids(s, chars)
    ensures Avoids(CollapseSpaces(s), chars)
    decreases |s|
  {
    if s != [] {
      if IsSpace(s[0]) {
        var t := TrimStart(s[1..]);
        assert forall i :: 0 <= i < |t| ==> t[i] == s[|s| - |t| + i];
        CollapseAvoids(t, chars);
      } else {
        CollapseAvoids(s[1..], chars);
      }
    }
  }

  /** After collapsing, every whitespace character is a plain space. */
  lemma {:induction false} CollapsePlainSpaces(s: string)
    ensures Avoids(CollapseSpaces(s), OtherSpaces)
    decreases |s|
  {
    if s != [] {
      if IsSpace(s[0]) {
        CollapsePlainSpaces(TrimStart(s[1..]));
      } else {
        CollapsePlainSpaces(s[1..]);
        assert s[0] !in OtherSpaces;
      }
    }
  }

  /** Trimming a string with no adjacent whitespace leaves it with none. */
  lemma TrimKeepsNoAdjacentSpaces(s: string)
    requires NoAdjacentSpaces(s)
    ensures NoAdjacentSpaces(Trim(s))
  {
    var t := TrimStart(s);
    var r := TrimEnd(t);
    assert forall i :: 0 <= i < |r| ==> r[i] == s[|s| - |t| + i];
  }

  /** Trimming adds no character. */
  lemma TrimAvoids(s: string, chars: set<char>)
    requires Avoids(s, chars)
    ensures Avoids(Trim(s), chars)
  {
    TrimDropsOnlySpace(s);
  }

  /** No whitespace at either end and none doubled: what `replace(/\s+/g, ' ').trim()` yields. */
  predicate WellSpaced(s: string) {
    NoAdjacentSpaces(s) && (s == [] || (!IsSpace(s[0]) && !IsSpace(s[|s| - 1])))
  }

  /** `replace(/\s+/g, ' ').trim()`, the last step of both speech
      normalisers: the result is well spaced and its only whitespace
      character is the plain space. */
  function Squeeze(s: string): (r: string)
    ensures WellSpaced(r)
    ensures Avoids(r, OtherSpaces)
  {
    SqueezeFacts(s);
    Trim(CollapseSpaces(s))
  }

  lemma SqueezeFacts(s: string)
    ensures WellSpaced(Trim(CollapseSpaces(s))) && Avoids(Trim(CollapseSpaces(s)), OtherSpaces)
  {
    var c := CollapseSpaces(s);
    CollapseNoAdjacent(s);
    TrimKeepsNoAdjacentSpaces(c);
    CollapsePlainSpaces(s);
    TrimAvoids(c, OtherSpaces);
  }

  /** Squeezing adds no character but the plain space. */
  lemma SqueezeAvoids(s: string, chars: set<char>)
    requires ' ' !in chars && Avoids(s, chars)
    ensures Avoids(Squeeze(s), chars)
  {
    CollapseAvoids(s, chars);
    TrimAvoids(CollapseSpaces(s), chars);
  }

  /** Every whitespace character replaced by a plain space. */
  function SpacesToBlanks(s: string): (r: string)
    ensures |r| == |s|
  {
    seq(|s|, i requires 0 <= i < |s| => if IsSpace(s[i]) then ' ' else s[i])
  }

  /** Where no two whitespace characters stand together, collapsing only
      turns each of them into a plain space. */
  lemma {:induction false} CollapseSingleSpaces(s: string)
    requires NoAdjacentSpaces(s)
    ensures CollapseSpaces(s) == SpacesToBlanks(s)
    decreases |s|
  {
    if s != [] {
      var t := s[1..];
      assert NoAdjacentSpaces(t) by {
        forall i | 0 <= i < |t| - 1 ensures !(IsSpace(t[i]) && IsSpace(t[i + 1])) {
          assert t[i] == s[i + 1] && t[i + 1] == s[i + 2];
        }
      }
      CollapseSingleSpaces(t);
      if IsSpace(s[0]) {
        assert t == [] || !IsSpace(t[0]) by {
          if t != [] {
            assert t[0] == s[1];
          }
        }
        assert TrimStart(t) == t;
      }
      assert SpacesToBlanks(s) == [if IsSpace(s[0]) then ' ' else s[0]] + SpacesToBlanks(t);
    }
  }

  /** What `Squeeze` yields, it leaves alone. */
  lemma SqueezeIdentity(s: string)
    requires WellSpaced(s) && Avoids(s, OtherSpaces)
    ensures Squeeze(s) == s
  {
    CollapseSingleSpaces(s);
    assert SpacesToBlanks(s) == s;
  }

  /** `replace(/\s+/g, ' ').trim()` is idempotent. */
  lemma SqueezeIdempotent(s: string)
    ensures Squeeze(Squeeze(s)) == Squeeze(s)
  {
    SqueezeIdentity(Squeeze(s));
  }

  /** Concatenation regroups freely. */
  lemma AppendAssoc(a: string, w: string, b: string)
    ensures a + w + b == a + (w + b)
  {
  }

  /** Leading whitespace is dropped only up to the first other character,
      so what follows that character passes through. */
  lemma {:induction false} TrimStartAppend(x: string, y: string)
    requires x != [] && !IsSpace(x[|x| - 1])
    ensures TrimStart(x + y) == TrimStart(x) + y
    decreases |x|
  {
    if IsSpace(x[0]) {
      assert (x + y)[1..] == x[1..] + y;
      TrimStartAppend(x[1..], y);
    }
  }

  /** Trailing whitespace is dropped only back to the last other character. */
  lemma {:induction false} TrimEndAppend(x: string, y: string)
    requires y != [] && !IsSpace(y[0])
    ensures TrimEnd(x + y) == x + TrimEnd(y)
    decreases |y|
  {
    if IsSpace(y[|y| - 1]) {
      var y' := y[..|y| - 1];
      assert (x + y)[..|x + y| - 1] == x + y';
      TrimEndAppend(x, y');
    }
  }

  /** Whitespace in front of a non-space is trimmed away entirely. */
  lemma {:induction false} TrimStartSpaces(w: string, b: string)
    requires forall i :: 0 <= i < |w| ==> IsSpace(w[i])
    requires b == [] || !IsSpace(b[0])
    ensures TrimStart(w + b) == b
    decreases |w|
  {
    if w != [] {
      assert (w + b)[1..] == w[1..] + b;
      TrimStartSpaces(w[1..], b);
    } else {
      assert w + b == b;
    }
  }

  /** Text ending in a non-space collapses on its own: what follows it is
      collapsed separately. */
  lemma {:induction false} CollapseAppend(a: string, b: string)
    requires a == [] || !IsSpace(a[|a| - 1])
    ensures CollapseSpaces(a + b) == CollapseSpaces(a) + CollapseSpaces(b)
    decreases |a|
  {
    if a == [] {
      assert a + b == b;
    } else {
      var rest := a[1..];
      DropAppend(a, b);
      if IsSpace(a[0]) {
        var t := TrimStart(rest);
        assert t != [] && t[|t| - 1] == a[|a| - 1];
        calc {
          CollapseSpaces(a + b);
          [' '] + CollapseSpaces(TrimStart(rest + b));
          { TrimStartAppend(rest, b); }
          [' '] + CollapseSpaces(t + b);
          { CollapseAppend(t, b); }
          [' '] + (CollapseSpaces(t) + CollapseSpaces(b));
          { AppendAssoc([' '], CollapseSpaces(t), CollapseSpaces(b)); }
          CollapseSpaces(a) + CollapseSpaces(b);
        }
      } else {
        calc {
          CollapseSpaces(a + b);
          [a[0]] + CollapseSpaces(rest + b);
          { CollapseAppend(rest, b); }
          [a[0]] + (CollapseSpaces(rest) + CollapseSpaces(b));
          { AppendAssoc([a[0]], CollapseSpaces(rest), CollapseSpaces(b)); }
          CollapseSpaces(a) + CollapseSpaces(b);
        }
      }
    }
  }

  /** A nonempty text is its head followed by its tail. */
  lemma HeadTail(a: string)
    requires a != []
    ensures [a[0]] + a[1..] == a
  {
  }

  /** The head and tail of a concatenation with a nonempty front. */
  lemma DropAppend(a: string, b: string)
    requires a != []
    ensures (a + b)[0] == a[0] && (a + b)[1..] == a[1..] + b
  {
  }

  /** A run of whitespace in front of a non-space becomes one space. */
  lemma {:induction false} CollapseRun(w: string, b: string)
    requires w != [] && forall i :: 0 <= i < |w| ==> IsSpace(w[i])
    requires b == [] || !IsSpace(b[0])
    ensures CollapseSpaces(w + b) == [' '] + CollapseSpaces(b)
  {
    assert (w + b)[0] == w[0] && (w + b)[1..] == w[1..] + b;
    TrimStartSpaces(w[1..], b);
  }

  /** `replace(/\s+/g, ' ')` turns a whitespace run between two
      non-spaces into exactly one space. */
  lemma {:induction false} CollapseJoins(a: string, w: string, b: string)
    requires w != [] && forall i :: 0 <= i < |w| ==> IsSpace(w[i])
    requires a == [] || !IsSpace(a[|a| - 1])
    requires b == [] || !IsSpace(b[0])
    ensures CollapseSpaces(a + w + b) == CollapseSpaces(a) + " " + CollapseSpaces(b)
  {
    AppendAssoc(a, w, b);
    calc {
      CollapseSpaces(a + (w + b));
      { CollapseAppend(a, w + b); }
      CollapseSpaces(a) + CollapseSpaces(w + b);
      { CollapseRun(w, b); }
      CollapseSpaces(a) + ([' '] + CollapseSpaces(b));
      CollapseSpaces(a) + " " + CollapseSpaces(b);
    }
  }

  /** Collapsing keeps a final non-space at the end. */
  lemma {:induction false} CollapseEnd(a: string)
    requires a != [] && !IsSpace(a[|a| - 1])
    ensures var c := CollapseSpaces(a); c != [] && !IsSpace(c[|c| - 1])
    decreases |a|
  {
    if IsSpace(a[0]) {
      var t := TrimStart(a[1..]);
      assert t != [] && t[|t| - 1] == a[|a| - 1];
      CollapseEnd(t);
    } else if |a| > 1 {
      CollapseEnd(a[1..]);
    }
  }

  /** `replace(/\s+/g, ' ').trim()` keeps exactly one space between two
      pieces of text that the whitespace run separates, and squeezes each
      piece on its own. */
  lemma {:induction false} SqueezeJoins(a: string, w: string, b: string)
    requires w != [] && forall i :: 0 <= i < |w| ==> IsSpace(w[i])
    requires a != [] && !IsSpace(a[|a| - 1])
    requires b != [] && !IsSpace(b[0])
    ensures Squeeze(a + w + b) == Squeeze(a) + " " + Squeeze(b)
  {
    var ca, cb := CollapseSpaces(a), CollapseSpaces(b);
    var x := TrimStart(ca);
    SqueezeEndingWord(a);
    SqueezeStartingWord(b);
    calc {
      Squeeze(a + w + b);
      Trim(CollapseSpaces(a + w + b));
      { CollapseJoins(a, w, b); }
      Trim(ca + " " + cb);
      { AppendAssoc(ca, " ", cb); }
      TrimEnd(TrimStart(ca + (" " + cb)));
      { TrimStartAppend(ca, " " + cb); }
      TrimEnd(x + (" " + cb));
      { AppendAssoc(x, " ", cb); }
      TrimEnd((x + " ") + cb);
      { TrimEndAppend(x + " ", cb); }
      x + " " + TrimEnd(cb);
      Squeeze(a) + " " + Squeeze(b);
    }
  }

  /** A text that ends in a non-space only loses leading whitespace. */
  lemma SqueezeEndingWord(a: string)
    requires a != [] && !IsSpace(a[|a| - 1])
    ensures var ca := CollapseSpaces(a);
      ca != [] && !IsSpace(ca[|ca| - 1]) && Squeeze(a) == TrimStart(ca)
  {
    var ca := CollapseSpaces(a);
    CollapseEnd(a);
    var x := TrimStart(ca);
    assert x != [] && x[|x| - 1] == ca[|ca| - 1];
  }

  /** A text that starts with a non-space only loses trailing whitespace. */
  lemma SqueezeStartingWord(b: string)
    requires b != [] && !IsSpace(b[0])
    ensures var cb := CollapseSpaces(b);
      cb != [] && !IsSpace(cb[0]) && Squeeze(b) == TrimEnd(cb)
  {
    CollapseStart(b);
  }

  // ---------------------------------------------------------------------
  // Removing and replacing

  /** `replace(/[...]/g, '')` for the character class `chars`: none of them
      is left. */
  function Strip(s: string, chars: set<char>): (r: string)
    ensures Avoids(r, chars)
    decreases |s|
  {
    if s == [] then []
    else if s[0] in chars then Strip(s[1..], chars)
    else [s[0]] + Strip(s[1..], chars)
  }

  /** Every character outside `chars` is kept as often as it occurs. */
  lemma {:induction false} StripCounts(s: string, chars: set<char>)
    ensures forall c :: c !in chars ==> multiset(Strip(s, chars))[c] == multiset(s)[c]
    decreases |s|
  {
    if s != [] {
      StripCounts(s[1..], chars);
      assert s == [s[0]] + s[1..];
    }
  }

  /** Removing characters from two pieces, or from them joined, comes to the
      same: what `Strip` keeps stays in its original order. */
  lemma {:induction false} StripAppend(a: string, b: string, chars: set<char>)
    ensures Strip(a + b, chars) == Strip(a, chars) + Strip(b, chars)
    decreases |a|
  {
    if a == [] {
      assert a + b == b;
    } else {
      assert (a + b)[1..] == a[1..] + b;
      StripAppend(a[1..], b, chars);
    }
  }

  /** Every whitespace character. */
  const WhiteSpace: set<char> := {' ', '\t', '\n', '\U{B}', '\U{C}', '\r'}

  /** A string of whitespace only loses everything to `Strip(_, WhiteSpace)`. */
  lemma {:induction false} StripAllSpace(s: string)
    requires forall i :: 0 <= i < |s| ==> IsSpace(s[i])
    ensures Strip(s, WhiteSpace) == []
    decreases |s|
  {
    if s != [] {
      StripAllSpace(s[1..]);
    }
  }

  /** `trim()` removes only whitespace: the text without whitespace is the
      same before and after. */
  lemma TrimKeepsText(s: string)
    ensures Strip(Trim(s), WhiteSpace) == Strip(s, WhiteSpace)
  {
    TrimStartKeepsText(s);
    TrimEndKeepsText(TrimStart(s));
  }

  /** `trimEnd()` removes only whitespace. */
  lemma TrimEndKeepsText(s: string)
    ensures Strip(TrimEnd(s), WhiteSpace) == Strip(s, WhiteSpace)
  {
    var r := TrimEnd(s);
    assert s == r + s[|r|..];
    StripAppend(r, s[|r|..], WhiteSpace);
    StripAllSpace(s[|r|..]);
  }

  /** `trimStart()` removes only whitespace. */
  lemma {:induction false} TrimStartKeepsText(s: string)
    ensures Strip(TrimStart(s), WhiteSpace) == Strip(s, WhiteSpace)
    decreases |s|
  {
    if s != [] && IsSpace(s[0]) {
      TrimStartKeepsText(s[1..]);
    }
  }

  /** Collapsing whitespace runs changes only whitespace: the text without
      whitespace is the same before and after. */
  lemma {:induction false} CollapseKeepsText(s: string)
    ensures Strip(CollapseSpaces(s), WhiteSpace) == Strip(s, WhiteSpace)
    decreases |s|
  {
    if s != [] {
      var r := CollapseSpaces(s);
      if IsSpace(s[0]) {
        var t := TrimStart(s[1..]);
        CollapseKeepsText(t);
        TrimStartKeepsText(s[1..]);
        assert r[1..] == CollapseSpaces(t);
      } else {
        CollapseKeepsText(s[1..]);
        assert r[1..] == CollapseSpaces(s[1..]);
      }
    }
  }

  /** `replace(/\s+/g, ' ').trim()` changes only whitespace: every other
      character stays, in order. */
  lemma SqueezeKeepsText(s: string)
    ensures Strip(Squeeze(s), WhiteSpace) == Strip(s, WhiteSpace)
  {
    CollapseKeepsText(s);
    TrimKeepsText(CollapseSpaces(s));
  }

  /** Removing characters adds none. */
  lemma {:induction false} StripAvoids(s: string, chars: set<char>, other: set<char>)
    requires Avoids(s, other)
    ensures Avoids(Strip(s, chars), other)
    decreases |s|
  {
    if s != [] {
      StripAvoids(s[1..], chars, other);
    }
  }

  /** Removing characters that do not occur changes nothing. */
  lemma {:induction false} StripNothing(s: string, chars: set<char>)
    requires Avoids(s, chars)
    ensures Strip(s, chars) == s
    decreases |s|
  {
    if s != [] {
      StripNothing(s[1..], chars);
      assert [s[0]] + s[1..] == s;
    }
  }

  /** `replace(/pat/g, rep)` for a literal pattern: leftmost, non-overlapping
      occurrences, scanning left to right. */
  function ReplaceAll(s: string, pat: string, rep: string): (r: string)
    requires pat != []
    ensures !Contains(s, pat) ==> r == s
    decreases |s|
  {
    if |s| < |pat| then s
    else if s[..|pat|] == pat then rep + ReplaceAll(s[|pat|..], pat, rep)
    else [s[0]] + ReplaceAll(s[1..], pat, rep)
  }

  /** Text before the first possible occurrence is copied unchanged. */
  lemma {:induction false} ReplaceAllAfter(a: string, b: string, pat: string, rep: string)
    requires pat != [] && pat[0] !in a
    ensures ReplaceAll(a + b, pat, rep) == a + ReplaceAll(b, pat, rep)
    decreases |a|
  {
    if a != [] {
      assert (a + b)[1..] == a[1..] + b;
      ReplaceAllAfter(a[1..], b, pat, rep);
      assert (a + b)[0] == a[0];
    } else {
      assert a + b == b;
    }
  }

  /** An occurrence that follows text without the pattern's first character
      is replaced. */
  lemma ReplaceAllHit(a: string, b: string, pat: string, rep: string)
    requires pat != [] && pat[0] !in a
    ensures ReplaceAll(a + pat + b, pat, rep) == a + rep + ReplaceAll(b, pat, rep)
  {
    assert a + pat + b == a + (pat + b);
    ReplaceAllAfter(a, pat + b, pat, rep);
    assert (pat + b)[..|pat|] == pat && (pat + b)[|pat|..] == b;
  }

  /** Replacing brings in only the characters of the replacement. */
  lemma {:induction false} ReplaceAllAvoids(s: string, pat: string, rep: string, chars: set<char>)
    requires pat != []
    requires Avoids(s, chars) && Avoids(rep, chars)
    ensures Avoids(ReplaceAll(s, pat, rep), chars)
    decreases |s|
  {
    if |s| >= |pat| {
      if s[..|pat|] == pat {
        ReplaceAllAvoids(s[|pat|..], pat, rep, chars);
      } else {
        ReplaceAllAvoids(s[1..], pat, rep, chars);
      }
    }
  }

  /** A pattern that holds a character the text lacks is never replaced. */
  lemma {:induction false} ReplaceAllAbsent(s: string, pat: string, rep: string, j: nat)
    requires j < |pat| && pat[j] !in s
    ensures ReplaceAll(s, pat, rep) == s
    decreases |s|
  {
    if |s| >= |pat| {
      assert s[..|pat|] != pat by {
        assert s[j] == s[..|pat|][j];
      }
      ReplaceAllAbsent(s[1..], pat, rep, j);
      assert [s[0]] + s[1..] == s;
    }
  }

  /** `replace(/\bpat/g, rep)` for a literal pattern that begins with a word
      character: an occurrence is replaced only when the character before it
      (`prevIsWord` says whether that one is a word character) is not a word
      character, or when it starts the text. */
  function ReplaceWordStart(s: string, pat: string, rep: string, prevIsWord: bool): (r: string)
    requires pat != [] && IsWordChar(pat[0])
    ensures !Contains(s, pat) ==> r == s
    decreases |s|
  {
    if |s| < |pat| then s
    else if !prevIsWord && s[..|pat|] == pat then
      rep + ReplaceWordStart(s[|pat|..], pat, rep, IsWordChar(pat[|pat| - 1]))
    else [s[0]] + ReplaceWordStart(s[1..], pat, rep, IsWordChar(s[0]))
  }

  /** Text without the pattern's first character is copied unchanged; what
      follows it is scanned knowing whether its last character is a word
      character. */
  lemma {:induction false} ReplaceWordStartAfter(a: string, b: string, pat: string, rep: string, prevIsWord: bool)
    requires pat != [] && IsWordChar(pat[0])
    requires a != [] && pat[0] !in a
    ensures ReplaceWordStart(a + b, pat, rep, prevIsWord)
      == a + ReplaceWordStart(b, pat, rep, IsWordChar(a[|a| - 1]))
    decreases |a|
  {
    if |a| > 1 {
      var t := a[1..];
      assert pat[0] !in t && t[|t| - 1] == a[|a| - 1];
      ReplaceWordStartAfter(t, b, pat, rep, IsWordChar(a[0]));
    }
    ReplaceWordStartCons(a, b, pat, rep, prevIsWord);
  }

  /** One step of `ReplaceWordStartAfter`: the first character of `a` is
      copied, and the rest of `a` is handled as the hypothesis says. */
  lemma ReplaceWordStartCons(a: string, b: string, pat: string, rep: string, prevIsWord: bool)
    requires pat != [] && IsWordChar(pat[0])
    requires a != [] && pat[0] != a[0]
    requires |a| > 1 ==>
      ReplaceWordStart(a[1..] + b, pat, rep, IsWordChar(a[0]))
        == a[1..] + ReplaceWordStart(b, pat, rep, IsWordChar(a[|a| - 1]))
    ensures ReplaceWordStart(a + b, pat, rep, prevIsWord)
      == a + ReplaceWordStart(b, pat, rep, IsWordChar(a[|a| - 1]))
  {
    var x := ReplaceWordStart(b, pat, rep, IsWordChar(a[|a| - 1]));
    var y := ReplaceWordStart(a[1..] + b, pat, rep, IsWordChar(a[0]));
    ReplaceWordStartFirst(a, b, pat, rep, prevIsWord);
    if |a| == 1 {
      assert a[1..] + b == b;
    }
    assert y == a[1..] + x;
    calc {
      ReplaceWordStart(a + b, pat, rep, prevIsWord);
      [a[0]] + y;
      [a[0]] + (a[1..] + x);
      { AppendAssoc([a[0]], a[1..], x); }
      [a[0]] + a[1..] + x;
      { HeadTail(a); }
      a + x;
    }
  }

  /** The first character of `a + b` is copied when it cannot start the
      pattern. */
  lemma ReplaceWordStartFirst(a: string, b: string, pat: string, rep: string, prevIsWord: bool)
    requires pat != [] && IsWordChar(pat[0])
    requires a != [] && pat[0] != a[0]
    ensures ReplaceWordStart(a + b, pat, rep, prevIsWord)
      == [a[0]] + ReplaceWordStart(a[1..] + b, pat, rep, IsWordChar(a[0]))
  {
    var s := a + b;
    DropAppend(a, b);
    if |s| >= |pat| {
      assert s[..|pat|][0] == s[0];
    }
    ReplaceWordStartSkip(s, pat, rep, prevIsWord);
  }

  /** A first character where no replacement starts is copied. */
  lemma ReplaceWordStartSkip(s: string, pat: string, rep: string, prevIsWord: bool)
    requires pat != [] && IsWordChar(pat[0])
    requires s != [] && !(|s| >= |pat| && !prevIsWord && s[..|pat|] == pat)
    ensures ReplaceWordStart(s, pat, rep, prevIsWord)
      == [s[0]] + ReplaceWordStart(s[1..], pat, rep, IsWordChar(s[0]))
  {
    if |s| < |pat| {
      assert [s[0]] + s[1..] == s;
    }
  }

  /** An occurrence at a word start is replaced. */
  lemma ReplaceWordStartHit(pat: string, rest: string, rep: string)
    requires pat != [] && IsWordChar(pat[0])
    ensures ReplaceWordStart(pat + rest, pat, rep, false)
      == rep + ReplaceWordStart(rest, pat, rep, IsWordChar(pat[|pat| - 1]))
  {
    assert (pat + rest)[..|pat|] == pat && (pat + rest)[|pat|..] == rest;
  }

  /** A pattern followed by text that holds no further occurrence is
      replaced once. */
  lemma ReplaceWordStartOnce(pat: string, sep: string, w: string, rep: string)
    requires pat != [] && IsWordChar(pat[0])
    requires ReplaceWordStart(sep + w, pat, rep, IsWordChar(pat[|pat| - 1])) == sep + w
    ensures ReplaceWordStart(pat + sep + w, pat, rep, false) == rep + sep + w
  {
    ReplaceWordStartHit(pat, sep + w, rep);
    assert pat + sep + w == pat + (sep + w);
    assert rep + (sep + w) == rep + sep + w;
  }

  lemma {:induction false} ReplaceWordStartAvoids(s: string, pat: string, rep: string, prevIsWord: bool, chars: set<char>)
    requires pat != [] && IsWordChar(pat[0])
    requires Avoids(s, chars) && Avoids(rep, chars)
    ensures Avoids(ReplaceWordStart(s, pat, rep, prevIsWord), chars)
    decreases |s|
  {
    if |s| >= |pat| {
      if !prevIsWord && s[..|pat|] == pat {
        ReplaceWordStartAvoids(s[|pat|..], pat, rep, IsWordChar(pat[|pat| - 1]), chars);
      } else {
        ReplaceWordStartAvoids(s[1..], pat, rep, IsWordChar(s[0]), chars);
      }
    }
  }

  lemma {:induction false} ReplaceWordStartAbsent(s: string, pat: string, rep: string, prevIsWord: bool, j: nat)
    requires pat != [] && IsWordChar(pat[0])
    requires j < |pat| && pat[j] !in s
    ensures ReplaceWordStart(s, pat, rep, prevIsWord) == s
    decreases |s|
  {
    if |s| >= |pat| {
      assert s[..|pat|] != pat by {
        assert s[j] == s[..|pat|][j];
      }
      ReplaceWordStartAbsent(s[1..], pat, rep, IsWordChar(s[0]), j);
      assert [s[0]] + s[1..] == s;
    }
  }

  // ---------------------------------------------------------------------
  // Lines

  /** `parts.join(sep)`. */
  function Join(parts: seq<string>, sep: char): string
    decreases |parts|
  {
    if parts == [] then ""
    else if |parts| == 1 then parts[0]
    else parts[0] + [sep] + Join(parts[1..], sep)
  }

  /** `s.split(sep)` for a one-character separator: never empty, and no piece
      holds the separator. */
  function Split(s: string, sep: char): (r: seq<string>)
    ensures |r| > 0
    ensures forall k :: 0 <= k < |r| ==> sep !in r[k]
    decreases |s|
  {
    if s == [] then [""]
    else
      var rest := Split(s[1..], sep);
      if s[0] == sep then [""] + rest
      else [[s[0]] + rest[0]] + rest[1..]
  }

  /** Splitting and joining again gives back the text. */
  lemma {:induction false} JoinSplit(s: string, sep: char)
    ensures Join(Split(s, sep), sep) == s
    decreases |s|
  {
    if s != [] {
      JoinSplit(s[1..], sep);
      var rest := Split(s[1..], sep);
      if s[0] == sep {
        assert Split(s, sep)[1..] == rest;
      } else if |rest| == 1 {
        assert Join(Split(s, sep), sep) == [s[0]] + rest[0];
      } else {
        var parts := Split(s, sep);
        assert parts[1..] == rest[1..];
        calc {
          Join(parts, sep);
          ([s[0]] + rest[0]) + [sep] + Join(rest[1..], sep);
          [s[0]] + (rest[0] + [sep] + Join(rest[1..], sep));
          [s[0]] + Join(rest, sep);
        }
      }
    }
  }

  /** Joining pieces that hold no separator and splitting again gives back
      the pieces. */
  lemma {:induction false} SplitJoin(parts: seq<string>, sep: char)
    requires parts != []
    requires forall k :: 0 <= k < |parts| ==> sep !in parts[k]
    ensures Split(Join(parts, sep), sep) == parts
    decreases |parts|, |parts[0]|
  {
    var p := parts[0];
    if p == [] {
      if |parts| > 1 {
        SplitJoin(parts[1..], sep);
        SplitJoinEmptyFirst(parts, sep);
      }
    } else {
      var tail := [p[1..]] + parts[1..];
      assert sep !in p[1..];
      assert forall k :: 1 <= k < |tail| ==> tail[k] == parts[k];
      SplitJoin(tail, sep);
      SplitJoinCons(parts, sep);
    }
  }

  /** Step of `SplitJoin` when the first piece is empty: the text starts
      with the separator. */
  lemma SplitJoinEmptyFirst(parts: seq<string>, sep: char)
    requires |parts| > 1 && parts[0] == []
    requires Split(Join(parts[1..], sep), sep) == parts[1..]
    ensures Split(Join(parts, sep), sep) == parts
  {
    var s := Join(parts, sep);
    assert s == [sep] + Join(parts[1..], sep);
    assert s[1..] == Join(parts[1..], sep);
    assert Split(s, sep) == [""] + parts[1..];
  }

  /** Step of `SplitJoin` when the first piece is not empty: its first
      character heads the first piece split from the rest. */
  lemma SplitJoinCons(parts: seq<string>, sep: char)
    requires parts != [] && parts[0] != [] && sep !in parts[0]
    requires Split(Join([parts[0][1..]] + parts[1..], sep), sep) == [parts[0][1..]] + parts[1..]
    ensures Split(Join(parts, sep), sep) == parts
  {
    var p := parts[0];
    var tail := [p[1..]] + parts[1..];
    var s := Join(parts, sep);
    JoinCons(parts, sep);
    assert s[0] == p[0] && s[1..] == Join(tail, sep);
    var rest := Split(s[1..], sep);
    assert rest == tail;
    assert [p[0]] + rest[0] == p;
    assert Split(s, sep) == [p] + parts[1..];
    assert [p] + parts[1..] == parts;
  }

  /** Joining pieces whose first is not empty starts with that piece's
      first character. */
  lemma JoinCons(parts: seq<string>, sep: char)
    requires parts != [] && parts[0] != []
    ensures Join(parts, sep) == [parts[0][0]] + Join([parts[0][1..]] + parts[1..], sep)
  {
    var p := parts[0];
    var tail := [p[1..]] + parts[1..];
    assert tail[1..] == parts[1..];
    if |parts| == 1 {
      assert Join(tail, sep) == p[1..];
    } else {
      assert Join(tail, sep) == p[1..] + [sep] + Join(parts[1..], sep);
    }
    HeadTail(p);
  }

  // ---------------------------------------------------------------------
  // Numbers

  function DigitValue(c: char): nat
    requires IsDigit(c)
  {
    c as int - '0' as int
  }

  function HexDigitValue(c: char): nat
    requires IsHexDigit(c)
  {
    if IsDigit(c) then DigitValue(c)
    else if 'a' <= c <= 'f' then c as int - 'a' as int + 10
    else c as int - 'A' as int + 10
  }

  /** The number a run of decimal digits denotes. */
  function DecimalValue(s: string): nat
    requires AllDigits(s)
    decreases |s|
  {
    if s == [] then 0 else 10 * DecimalValue(s[..|s| - 1]) + DigitValue(s[|s| - 1])
  }

  function HexValue(s: string): nat
    requires forall i :: 0 <= i < |s| ==> IsHexDigit(s[i])
    decreases |s|
  {
    if s == [] then 0 else 16 * HexValue(s[..|s| - 1]) + HexDigitValue(s[|s| - 1])
  }

  function DigitChar(d: nat): (c: char)
    requires d < 10
    ensures IsDigit(c) && DigitValue(c) == d
  {
    ('0' as int + d) as char
  }

  /** Decimal text of a natural number, as template literals print it: only
      digits, never empty, and no leading zero. */
  function NatToString(n: nat): (r: string)
    ensures AllDigits(r) && r != []
    ensures r[0] == '0' ==> n == 0
    decreases n
  {
    if n < 10 then [DigitChar(n)] else NatToString(n / 10) + [DigitChar(n % 10)]
  }

  /** Reading back the digits printed for `n` gives `n`. */
  lemma {:induction false} DecimalRoundTrip(n: nat)
    ensures DecimalValue(NatToString(n)) == n
    decreases n
  {
    if n >= 10 {
      DecimalRoundTrip(n / 10);
      var s := NatToString(n);
      assert s[..|s| - 1] == NatToString(n / 10);
    }
  }

  /** `${i}` for an integer. */
  function IntToString(i: int): string {
    if i < 0 then "-" + NatToString(-i) else NatToString(i)
  }

  /** Length of the run of decimal digits that starts `s`. */
  function DigitRun(s: string): (n: nat)
    ensures n <= |s|
    ensures forall i :: 0 <= i < n ==> IsDigit(s[i])
    ensures n < |s| ==> !IsDigit(s[n])
    decreases |s|
  {
    if s != [] && IsDigit(s[0]) then 1 + DigitRun(s[1..]) else 0
  }

  /** Length of the run of hexadecimal digits that starts `s`. */
  function HexRun(s: string): (n: nat)
    ensures n <= |s|
    ensures forall i :: 0 <= i < n ==> IsHexDigit(s[i])
    decreases |s|
  {
    if s != [] && IsHexDigit(s[0]) then 1 + HexRun(s[1..]) else 0
  }

  /** `parseInt(s)` without a radix: leading whitespace is skipped, one sign
      is read, a `0x`/`0X` prefix selects base 16, and the longest run of
      digits that follows is read; no digit at all gives `None` (NaN). */
  function ParseInt(s: string): Option<int> {
    var t := TrimStart(s);
    var negative := t != [] && t[0] == '-';
    var u := if t != [] && (t[0] == '-' || t[0] == '+') then t[1..] else t;
    if |u| >= 2 && u[0] == '0' && (u[1] == 'x' || u[1] == 'X') then
      var h := u[2..][..HexRun(u[2..])];
      if h == [] then None
      else var v: int := HexValue(h); Some(if negative then -v else v)
    else
      var d := u[..DigitRun(u)];
      if d == [] then None
      else var v: int := DecimalValue(d); Some(if negative then -v else v)
  }

  /** `parseInt` reads back every integer that a template literal prints. */
  lemma ParseIntRoundTrip(i: int)
    ensures ParseInt(IntToString(i)) == Some(i)
  {
    if i < 0 {
      ParseNegative(-i);
    } else {
      ParseNatural(i);
    }
  }

  /** Text without a digit gives `NaN`. */
  lemma ParseIntNoDigits(s: string)
    requires NoDigits(s)
    ensures ParseInt(s).None?
  {
    var t := TrimStart(s);
    assert forall i :: 0 <= i < |t| ==> t[i] == s[|s| - |t| + i];
    var u := if t != [] && (t[0] == '-' || t[0] == '+') then t[1..] else t;
    assert u == [] || !IsDigit(u[0]);
    assert DigitRun(u) == 0 && !(|u| >= 2 && u[0] == '0');
  }

  lemma ParseNatural(n: nat)
    ensures ParseInt(NatToString(n)) == Some(n)
  {
    DecimalRoundTrip(n);
    NoHexPrefix(n);
    UnsignedDigits(NatToString(n));
  }

  lemma ParseNegative(n: nat)
    requires n > 0
    ensures ParseInt("-" + NatToString(n)) == Some(-(n as int))
  {
    DecimalRoundTrip(n);
    NoHexPrefix(n);
    SignedDigits(NatToString(n));
  }

  /** Digits without a leading zero are read back as their decimal value. */
  lemma UnsignedDigits(d: string)
    requires AllDigits(d) && d != [] && !(|d| >= 2 && d[0] == '0')
    ensures ParseInt(d) == Some(DecimalValue(d) as int)
  {
    DigitsSpan(d);
    TrimStartKeeps(d);
  }

  /** The same digits after a minus sign are read back negated. */
  lemma SignedDigits(d: string)
    requires AllDigits(d) && d != [] && !(|d| >= 2 && d[0] == '0')
    ensures ParseInt("-" + d) == Some(-(DecimalValue(d) as int))
  {
    var s := "-" + d;
    DigitsSpan(d);
    assert s[0] == '-' && s[1..] == d;
    TrimStartKeeps(s);
  }

  lemma TrimStartKeeps(s: string)
    requires s != [] && !IsSpace(s[0])
    ensures TrimStart(s) == s
  {
  }

  lemma NoHexPrefix(n: nat)
    ensures var d := NatToString(n); !(|d| >= 2 && d[0] == '0')
  {
    if n == 0 {
      assert NatToString(n) == [DigitChar(0)];
    }
  }

  lemma DigitsSpan(d: string)
    requires AllDigits(d)
    ensures DigitRun(d) == |d| && d[..|d|] == d
  {
  }
}
