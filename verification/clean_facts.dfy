/** What `clean_keyword` does to text that is already clean, and to plain words. */
module CleanFacts {
  import opened Chars
  import opened Text
  import opened Results
  import opened Normalizer

  /** Canonical shape survives taking any slice. */
  lemma CanonicalSlice(s: string, a: nat, b: nat)
    requires a <= b <= |s| && Canonical(s)
    ensures Canonical(s[a..b])
  {
    OpensOkSlice(s, a, b);
    ClosesOkSlice(s, a, b);
  }

  /** Two canonical texts joined by an operator are canonical: a `(` that starts the
      right one follows the operator, and a `)` that ends the left one precedes it. */
  lemma CanonicalJoin(x: string, o: char, y: string)
    requires Canonical(x) && Canonical(y) && IsOp(o)
    ensures Canonical(x + [o] + y)
  {
    var s := x + [o] + y;
    forall i | 0 <= i < |s| ensures CanonicalChar(s[i]) {
      if i < |x| {
        assert s[i] == x[i];
      } else if i > |x| {
        assert s[i] == y[i - |x| - 1];
      } else {
        DelimCanonical(o);
      }
    }
    forall j | 0 < j < |s| && s[j] == '(' ensures IsOp(s[j - 1]) {
      if j < |x| {
        assert s[j] == x[j] && s[j - 1] == x[j - 1];
      } else if j > |x| + 1 {
        assert s[j] == y[j - |x| - 1] && s[j - 1] == y[j - |x| - 2];
      }
    }
    forall j | 0 <= j < |s| - 1 && s[j] == ')' ensures IsOp(s[j + 1]) {
      if j < |x| - 1 {
        assert s[j] == x[j] && s[j + 1] == x[j + 1];
      } else if j > |x| {
        assert s[j] == y[j - |x| - 1] && s[j + 1] == y[j - |x|];
      }
    }
  }

  /** Canonical text that neither starts with `(` nor ends with `)` stays canonical
      inside a pair of parentheses. */
  lemma WrapCanonical(y: string)
    requires Canonical(y) && |y| > 0 && y[0] != '(' && y[|y| - 1] != ')'
    ensures Canonical("(" + y + ")")
  {
    var s := "(" + y + ")";
    forall i | 0 <= i < |s| ensures CanonicalChar(s[i]) {
      if 0 < i < |s| - 1 {
        assert s[i] == y[i - 1];
      }
    }
    forall j | 0 < j < |s| && s[j] == '(' ensures IsOp(s[j - 1]) {
      assert 1 < j < |s| - 1;
      assert s[j] == y[j - 1] && s[j - 1] == y[j - 2];
    }
    forall j | 0 <= j < |s| - 1 && s[j] == ')' ensures IsOp(s[j + 1]) {
      assert 0 < j < |s| - 2;
      assert s[j] == y[j - 1] && s[j + 1] == y[j];
    }
  }

  /** Text already in canonical shape passes lines 51-78 unchanged. */
  lemma TokensOfCanonical(s: string)
    requires Canonical(s)
    ensures Tokenize(Prepare(s)) == Success(s)
  {
    assert Prepare(s) == s;
    assert NoSpace(s);
  }

  /** On text whose parentheses are already separated, lines 80-81 only strip
      the `&` at both ends. */
  lemma SeparateOfSeparated(t: string)
    requires OpensOk(t) && ClosesOk(t)
    ensures Separate(t) == TrimRight(TrimLeft(t, IsAmp), IsAmp)
  {
    var left := TrimLeft(t, IsAmp);
    assert SeparateOpens(t) == left;
    ClosesOkSlice(t, |t| - |left|, |t|);
    assert ClosesOk(left);
    assert SeparateCloses(left) == TrimRight(left, IsAmp);
  }

  /** `clean_keyword` on canonical text removes the `&` at both ends and nothing else. */
  lemma {:induction false} CleanOfCanonical(s: string)
    requires Canonical(s)
    ensures Clean(s) == TrimRight(TrimLeft(s, IsAmp), IsAmp)
  {
    TokensOfCanonical(s);
    SeparateOfSeparated(s);
    var r := Separate(s);
    assert RemoveRedundantParens(r) == r;
  }

  /** Trimming `&` changes nothing when neither end is `&`. */
  lemma TrimAmpOfTrimmed(s: string)
    requires AmpTrimmed(s)
    ensures TrimRight(TrimLeft(s, IsAmp), IsAmp) == s
  {
  }

  /** Cleaning a clean keyword gives it back. */
  lemma CleanIdempotent(keyword: string)
    ensures Clean(Clean(keyword)) == Clean(keyword)
  {
    CleanKeeps(Clean(keyword));
  }

  /** Cleaning never lengthens canonical text, which the evaluator's recursion relies on. */
  lemma CleanShrinksCanonical(s: string)
    requires Canonical(s)
    ensures |Clean(s)| <= |s|
  {
    CleanOfCanonical(s);
  }

  /** Clean text with no `&` at either end is its own cleaning. */
  lemma CleanKeeps(s: string)
    requires Canonical(s) && AmpTrimmed(s)
    ensures Clean(s) == s
  {
    CleanOfCanonical(s);
    TrimAmpOfTrimmed(s);
  }

  // ---------------------------------------------------------------------------
  // Words separated by whitespace
  // ---------------------------------------------------------------------------

  /** A search word: non-empty, and made of characters that survive cleaning and
      are neither operators nor parentheses. */
  predicate Word(w: string) {
    |w| > 0 && forall i :: 0 <= i < |w| ==> CanonicalChar(w[i]) && !IsDelim(w[i])
  }

  /** Lines 52 and 60: two words separated by any run of whitespace come out joined
      by `&` ("a b" becomes "a&b"). */
  lemma CleanJoinsWords(w1: string, gap: string, w2: string)
    requires Word(w1) && Word(w2) && |gap| > 0 && AllSpace(gap)
    ensures Clean(w1 + gap + w2) == w1 + "&" + w2
  {
    var t := w1 + "&" + w2;
    PrepareOfGap(w1, gap, w2);
    TokensOfSpace(w1, w2);
    JoinedCanonical(w1, w2);
    TokensOfCanonical(t);
    CleanKeeps(t);
  }

  /** Lines 51-53 turn the whitespace run into one plain space. */
  lemma PrepareOfGap(w1: string, gap: string, w2: string)
    requires Word(w1) && Word(w2) && |gap| > 0 && AllSpace(gap)
    ensures Prepare(w1 + gap + w2) == w1 + " " + w2
  {
    GapKept(w1, gap, w2);
    CollapseOfGap(w1, gap, w2);
    NoFullWidth(w1, w2);
  }

  /** Line 48 deletes nothing from words and whitespace. */
  lemma GapKept(w1: string, gap: string, w2: string)
    requires Word(w1) && Word(w2) && AllSpace(gap)
    ensures RemoveExcluded(w1 + gap + w2) == w1 + gap + w2
  {
    var k := w1 + gap + w2;
    GapPieces(w1, gap, w2);
    forall i | 0 <= i < |k| ensures !IsExcluded(k[i]) {
      if |w1| <= i < |w1| + |gap| {
        SpaceKept(k[i]);
      } else if i >= |w1| + |gap| {
        assert k[i] == w2[i - |w1| - |gap|];
      }
    }
  }

  /** Line 52 turns the run into one space and has nothing to strip. */
  lemma CollapseOfGap(w1: string, gap: string, w2: string)
    requires Word(w1) && Word(w2) && |gap| > 0 && AllSpace(gap)
    ensures Collapse(w1 + gap + w2) == w1 + " " + w2
  {
    WordNoSpace(w1);
    WordNoSpace(w2);
    ReplaceRunsGap(w1, gap, w2, " ");
    var m := w1 + " " + w2;
    assert m[0] == w1[0] && m[|m| - 1] == w2[|w2| - 1];
  }

  /** Line 53 has nothing to replace. */
  lemma NoFullWidth(w1: string, w2: string)
    requires Word(w1) && Word(w2)
    ensures var m := w1 + " " + w2;
            ReplaceChar(ReplaceChar(m, FullWidthAmp, '&'), IdeographicSpace, '&') == m
  {
    WordNoSpace(w1);
    WordNoSpace(w2);
  }

  lemma WordNoSpace(w: string)
    requires Word(w)
    ensures NoSpace(w) && FullWidthAmp !in w && IdeographicSpace !in w && NoDelim(w)
  {
    assert NoSpace(w);
  }

  /** Lines 55-78 turn the single space inside the operand into `&`. */
  lemma TokensOfSpace(w1: string, w2: string)
    requires Word(w1) && Word(w2)
    ensures Tokenize(w1 + " " + w2) == Success(w1 + "&" + w2)
  {
    var m := w1 + " " + w2;
    SpacedNoDelim(w1, w2);
    SplitOfNoDelim(m);
    ProcessSpaced(w1, w2);
    ProcessSingle(m);
    JoinIsConcat([w1 + "&" + w2]);
    ConcatSingle(w1 + "&" + w2);
  }

  lemma SpacedNoDelim(w1: string, w2: string)
    requires Word(w1) && Word(w2)
    ensures NoDelim(w1 + " " + w2)
  {
    var m := w1 + " " + w2;
    GapPieces(w1, " ", w2);
    forall i | 0 <= i < |m| ensures !IsDelim(m[i]) {
      if i > |w1| {
        assert m[i] == w2[i - |w1| - 1];
      }
    }
  }

  /** Line 60 on the operand: nothing to strip, and the space becomes `&`. */
  lemma ProcessSpaced(w1: string, w2: string)
    requires Word(w1) && Word(w2)
    ensures ProcessPart(w1 + " " + w2) == w1 + "&" + w2
  {
    var m := w1 + " " + w2;
    WordNoSpace(w1);
    WordNoSpace(w2);
    assert '(' !in m;
    assert m[0] == w1[0] && m[|m| - 1] == w2[|w2| - 1];
    ReplaceRunsGap(w1, " ", w2, "&");
  }

  /** Two words joined by `&` are clean. */
  lemma JoinedCanonical(w1: string, w2: string)
    requires Word(w1) && Word(w2)
    ensures Canonical(w1 + "&" + w2) && AmpTrimmed(w1 + "&" + w2)
  {
    var t := w1 + "&" + w2;
    GapPieces(w1, "&", w2);
    forall i | 0 <= i < |t| ensures CanonicalChar(t[i]) && t[i] != '(' && t[i] != ')' {
      if i == |w1| {
        DelimCanonical('&');
      } else if i > |w1| {
        assert t[i] == w2[i - |w1| - 1];
      }
    }
    assert t[|t| - 1] == w2[|w2| - 1];
  }

  // ---------------------------------------------------------------------------
  // An operator between two words (lines 52, 60 and 63)
  // ---------------------------------------------------------------------------

  /** Whitespace beside an operator disappears rather than becoming `&`: line 63
      splits the text at the operator and line 60 strips each side, so
      "a + b" gives "a+b". Either gap may be empty. */
  lemma CleanSpacedOperator(w1: string, g1: string, o: char, g2: string, w2: string)
    requires Word(w1) && Word(w2) && IsOp(o) && AllSpace(g1) && AllSpace(g2)
    ensures Clean(w1 + g1 + [o] + g2 + w2) == w1 + [o] + w2
  {
    var h1, h2 := OneSpace(g1), OneSpace(g2);
    PrepareOfSpacedOperator(w1, g1, o, g2, w2);
    OneSpaceIsSpace(g1);
    OneSpaceIsSpace(g2);
    TokensOfSpacedOperator(w1, h1, o, h2, w2);
    OperatorJoinedClean(w1, o, w2);
    CleanVia(w1 + g1 + [o] + g2 + w2, w1 + h1 + [o] + h2 + w2, w1 + [o] + w2);
  }

  /** `clean_keyword` looks at its input only through the tokens of line 78. */
  lemma CleanVia(s: string, m: string, t: string)
    requires Prepare(s) == m && Tokenize(m) == Success(t) && Canonical(t) && Clean(t) == t
    ensures Clean(s) == t
  {
    TokensOfCanonical(t);
  }

  /** What line 52 leaves of a whitespace run: one space, or nothing for no run. */
  function OneSpace(gap: string): string {
    if |gap| > 0 then " " else ""
  }

  lemma OneSpaceIsSpace(gap: string)
    ensures AllSpace(OneSpace(gap)) && FullWidthAmp !in OneSpace(gap) && IdeographicSpace !in OneSpace(gap)
  {
  }

  /** Lines 45-53 shrink each whitespace gap to at most one space. */
  lemma PrepareOfSpacedOperator(w1: string, g1: string, o: char, g2: string, w2: string)
    requires Word(w1) && Word(w2) && IsOp(o) && AllSpace(g1) && AllSpace(g2)
    ensures Prepare(w1 + g1 + [o] + g2 + w2) == w1 + OneSpace(g1) + [o] + OneSpace(g2) + w2
  {
    var m := w1 + OneSpace(g1) + [o] + OneSpace(g2) + w2;
    SpacedOperatorKept(w1, g1, o, g2, w2);
    CollapseOfSpacedOperator(w1, g1, o, g2, w2);
    WordNoSpace(w1);
    WordNoSpace(w2);
    OneSpaceIsSpace(g1);
    OneSpaceIsSpace(g2);
    assert FullWidthAmp !in m && IdeographicSpace !in m;
    PrepareVia(w1 + g1 + [o] + g2 + w2, m);
  }

  lemma PrepareVia(s: string, m: string)
    requires RemoveExcluded(s) == s && Collapse(s) == m && FullWidthAmp !in m && IdeographicSpace !in m
    ensures Prepare(s) == m
  {
  }

  /** No excluded character: every character is `!IsExcluded`. */
  predicate Unexcluded(s: string) {
    forall i :: 0 <= i < |s| ==> !IsExcluded(s[i])
  }

  lemma UnexcludedAppend(a: string, b: string)
    requires Unexcluded(a) && Unexcluded(b)
    ensures Unexcluded(a + b)
  {
    forall i | |a| <= i < |a + b| ensures !IsExcluded((a + b)[i]) {
      assert (a + b)[i] == b[i - |a|];
    }
  }

  /** Line 48 deletes nothing from words, whitespace and an operator. */
  lemma SpacedOperatorKept(w1: string, g1: string, o: char, g2: string, w2: string)
    requires Word(w1) && Word(w2) && IsOp(o) && AllSpace(g1) && AllSpace(g2)
    ensures RemoveExcluded(w1 + g1 + [o] + g2 + w2) == w1 + g1 + [o] + g2 + w2
  {
    forall i | 0 <= i < |g1| ensures !IsExcluded(g1[i]) {
      SpaceKept(g1[i]);
    }
    forall i | 0 <= i < |g2| ensures !IsExcluded(g2[i]) {
      SpaceKept(g2[i]);
    }
    DelimCanonical(o);
    UnexcludedAppend(w1, g1);
    UnexcludedAppend(w1 + g1, [o]);
    UnexcludedAppend(w1 + g1 + [o], g2);
    UnexcludedAppend(w1 + g1 + [o] + g2, w2);
  }

  /** Line 52 on words around an operator: each gap becomes at most one space, and
      there is nothing to strip. */
  lemma CollapseOfSpacedOperator(w1: string, g1: string, o: char, g2: string, w2: string)
    requires Word(w1) && Word(w2) && IsOp(o) && AllSpace(g1) && AllSpace(g2)
    ensures Collapse(w1 + g1 + [o] + g2 + w2) == w1 + OneSpace(g1) + [o] + OneSpace(g2) + w2
  {
    var m := w1 + OneSpace(g1) + [o] + OneSpace(g2) + w2;
    RunsOfSpacedOperator(w1, g1, o, g2, w2);
    assert m[0] == w1[0] && m[|m| - 1] == w2[|w2| - 1];
    CollapseVia(w1 + g1 + [o] + g2 + w2, m);
  }

  lemma CollapseVia(s: string, m: string)
    requires ReplaceRuns(s, " ") == m && |m| > 0 && !IsSpace(m[0]) && !IsSpace(m[|m| - 1])
    ensures Collapse(s) == m
  {
  }

  lemma RunsOfSpacedOperator(w1: string, g1: string, o: char, g2: string, w2: string)
    requires Word(w1) && Word(w2) && IsOp(o) && AllSpace(g1) && AllSpace(g2)
    ensures ReplaceRuns(w1 + g1 + [o] + g2 + w2, " ") == w1 + OneSpace(g1) + [o] + OneSpace(g2) + w2
  {
    var rest := [o] + g2 + w2;
    WordNoSpace(w1);
    DelimNotSpace(o);
    assert w1 + g1 + [o] + g2 + w2 == w1 + g1 + rest;
    ReplaceRunsOptGap(w1, g1, rest, " ");
    RunsAfterOperator(o, g2, w2);
  }

  lemma RunsAfterOperator(o: char, g: string, w: string)
    requires Word(w) && IsOp(o) && AllSpace(g)
    ensures ReplaceRuns([o] + g + w, " ") == [o] + OneSpace(g) + w
  {
    WordNoSpace(w);
    DelimNotSpace(o);
    assert NoSpace([o]);
    ReplaceRunsOptGap([o], g, w, " ");
  }

  /** Line 63 splits at the operator and line 60 strips both sides, so the
      tokeniser returns the two words around the bare operator. */
  lemma TokensOfSpacedOperator(w1: string, h1: string, o: char, h2: string, w2: string)
    requires Word(w1) && Word(w2) && IsOp(o) && AllSpace(h1) && AllSpace(h2)
    ensures Tokenize(w1 + h1 + [o] + h2 + w2) == Success(w1 + [o] + w2)
  {
    var x, y := w1 + h1, h2 + w2;
    assert w1 + h1 + [o] + h2 + w2 == x + [o] + y;
    assert "" + w1 + h1 == x && h2 + w2 + "" == y;
    PaddedWordPart("", w1, h1);
    PaddedWordPart(h2, w2, "");
    TokensVia(x, o, y, w1, w2);
  }

  /** The tokeniser on one operator between two operand parts. */
  lemma TokensVia(x: string, o: char, y: string, w1: string, w2: string)
    requires NoDelim(x) && NoDelim(y) && IsOp(o) && !IsDelimPart(x) && !IsDelimPart(y)
    requires ProcessPart(x) == w1 && ProcessPart(y) == w2
    ensures Tokenize(x + [o] + y) == Success(w1 + [o] + w2)
  {
    SplitAroundDelim(x, o, y);
    ProcessThree(x, o, y);
    JoinThree(w1, o, w2);
  }

  lemma ProcessThree(x: string, o: char, y: string)
    requires IsOp(o) && !IsDelimPart(x) && !IsDelimPart(y)
    ensures ProcessParts([x, [o], y]) == [ProcessPart(x), [o], ProcessPart(y)]
  {
    var r := ProcessParts([x, [o], y]);
    assert IsDelimPart([o]);
    assert r[0] == ProcessPart(x) && r[1] == [o] && r[2] == ProcessPart(y);
  }

  lemma JoinThree(w1: string, o: char, w2: string)
    requires IsOp(o)
    ensures JoinParts([w1, [o], w2]) == Success(w1 + [o] + w2)
  {
    var parts := [w1, [o], w2];
    assert DelimsAtOdd(parts) by {
      assert IsDelimPart(parts[1]);
    }
    JoinIsConcat(parts);
    assert parts[1..] == [[o], w2] && parts[1..][1..] == [w2];
    ConcatSingle(w2);
    assert Concat(parts) == w1 + [o] + w2;
  }

  /** A word with whitespace around it is an operand part that line 60 strips back
      to the word. */
  lemma PaddedWordPart(g1: string, w: string, g2: string)
    requires Word(w) && AllSpace(g1) && AllSpace(g2)
    ensures NoDelim(g1 + w + g2) && !IsDelimPart(g1 + w + g2) && ProcessPart(g1 + w + g2) == w
  {
    var p := g1 + w + g2;
    forall i | 0 <= i < |p| ensures !IsDelim(p[i]) {
      if i < |g1| {
        assert IsSpace(p[i]);
        SpaceNotDelim(p[i]);
      } else if i < |g1| + |w| {
        assert p[i] == w[i - |g1|];
      } else {
        assert p[i] == g2[i - |g1| - |w|];
        SpaceNotDelim(p[i]);
      }
    }
    assert '(' !in p;
    WordNoSpace(w);
    StripPadded(g1, w, g2);
  }

  lemma SpaceNotDelim(c: char)
    requires IsSpace(c)
    ensures !IsDelim(c)
  {
  }

  /** Line 63 on text with exactly one delimiter: the text before it, the
      delimiter, and the text after it. */
  lemma {:induction false} SplitAroundDelim(x: string, o: char, y: string)
    requires NoDelim(x) && NoDelim(y) && IsDelim(o)
    ensures SplitParts(x + [o] + y) == [x, [o], y]
    decreases |x|
  {
    var s := x + [o] + y;
    if |x| == 0 {
      assert s == [o] + y && s[1..] == y;
      SplitOfNoDelim(y);
    } else {
      assert s[0] == x[0] && s[1..] == x[1..] + [o] + y;
      assert NoDelim(x[1..]) by {
        forall k | 0 <= k < |x[1..]| ensures !IsDelim(x[1..][k]) {
          assert x[1..][k] == x[k + 1];
        }
      }
      SplitAroundDelim(x[1..], o, y);
      assert [x[0]] + x[1..] == x;
    }
  }

  /** Two words around an operator are clean. */
  lemma OperatorJoinedClean(w1: string, o: char, w2: string)
    requires Word(w1) && Word(w2) && IsOp(o)
    ensures Canonical(w1 + [o] + w2) && Clean(w1 + [o] + w2) == w1 + [o] + w2
  {
    var t := w1 + [o] + w2;
    WordCanonical(w1);
    WordCanonical(w2);
    CanonicalJoin(w1, o, w2);
    assert t[0] == w1[0] && t[|t| - 1] == w2[|w2| - 1];
    CleanKeeps(t);
  }

  lemma WordCanonical(w: string)
    requires Word(w)
    ensures Canonical(w)
  {
  }

  // ---------------------------------------------------------------------------
  // A word next to a parenthesised word (lines 80-81)
  // ---------------------------------------------------------------------------

  /** Line 80 on a word directly followed by a parenthesised word: an `&` goes in
      front of the `(` ("a(b)" becomes "a&(b)"). */
  lemma CleanOpensGroup(w1: string, w2: string)
    requires Word(w1) && Word(w2)
    ensures Clean(w1 + "(" + w2 + ")") == w1 + "&(" + w2 + ")"
  {
    var t := w1 + "(" + w2 + ")";
    OpenGroupChars(w1, w2);
    CleanOfPlain(t);
    OpensBeforeGroup(w1, w2);
    ClosesAtEnd(w1, w2);
  }

  /** Line 81 on a parenthesised word directly followed by a word: an `&` goes
      after the `)` ("(a)b" becomes "(a)&b"). */
  lemma CleanClosesGroup(w1: string, w2: string)
    requires Word(w1) && Word(w2)
    ensures Clean("(" + w1 + ")" + w2) == "(" + w1 + ")&" + w2
  {
    var t := "(" + w1 + ")" + w2;
    CloseGroupChars(w1, w2);
    CleanOfPlain(t);
    OpensFirstOnly(t);
    ClosesAfterGroup(w1, w2);
  }

  /** Text of characters that survive normalisation and no whitespace reaches line 80
      unchanged, and lines 83-89 leave line 81's result as it is. */
  lemma CleanOfPlain(t: string)
    requires forall i :: 0 <= i < |t| ==> CanonicalChar(t[i])
    ensures Clean(t) == Separate(t)
  {
    assert Prepare(t) == t;
    assert NoSpace(t);
    assert Tokenize(t) == Success(t);
  }

  /** Text whose only `(` is first passes line 80 unchanged unless it starts with `&`. */
  lemma OpensFirstOnly(t: string)
    requires |t| > 0 && t[0] == '(' && OpensOk(t)
    ensures SeparateOpens(t) == t
  {
  }

  /** Every character of `w1(w2)` survives lines 51-78, and its only `(` follows `w1`. */
  lemma OpenGroupChars(w1: string, w2: string)
    requires Word(w1) && Word(w2)
    ensures var t := w1 + "(" + w2 + ")";
            && (forall i :: 0 <= i < |t| ==> CanonicalChar(t[i]))
            && NoSpace(t)
            && (forall i :: 0 <= i < |t| && i != |w1| ==> t[i] != '(')
            && t[|w1|] == '(' && !IsOp(t[|w1| - 1])
  {
    var t := w1 + "(" + w2 + ")";
    forall i | 0 <= i < |t| ensures CanonicalChar(t[i]) && (i != |w1| ==> t[i] != '(') {
      if i < |w1| {
        assert t[i] == w1[i];
      } else if |w1| < i < |t| - 1 {
        assert t[i] == w2[i - |w1| - 1];
      }
    }
    assert t[|w1| - 1] == w1[|w1| - 1];
  }

  /** Every character of `(w1)w2` survives lines 51-78, its only `(` is first, and
      its only `)` precedes `w2`. */
  lemma CloseGroupChars(w1: string, w2: string)
    requires Word(w1) && Word(w2)
    ensures var t := "(" + w1 + ")" + w2;
            && (forall i :: 0 <= i < |t| ==> CanonicalChar(t[i]))
            && NoSpace(t)
            && OpensOk(t)
            && (forall i :: 0 <= i < |t| && i != |w1| + 1 ==> t[i] != ')')
            && t[|w1| + 1] == ')' && !IsOp(t[|w1| + 2]) && t[|t| - 1] != '&'
  {
    var t := "(" + w1 + ")" + w2;
    forall i | 0 <= i < |t| ensures CanonicalChar(t[i]) && (i != 0 ==> t[i] != '(') && (i != |w1| + 1 ==> t[i] != ')') {
      if 0 < i <= |w1| {
        assert t[i] == w1[i - 1];
      } else if i > |w1| + 1 {
        assert t[i] == w2[i - |w1| - 2];
      }
    }
    assert t[|t| - 1] == w2[|w2| - 1];
  }

  /** The substitution of line 80 copies a stretch without `(` as it is. */
  lemma {:induction false} SeparateOpensCopies(s: string, i: nat, j: nat)
    requires i <= j <= |s| && forall k :: i <= k < j ==> s[k] != '('
    ensures SeparateOpensFrom(s, i) == s[i..j] + SeparateOpensFrom(s, j)
    decreases j - i
  {
    if i < j {
      assert !OpenNeedsAmp(s, i);
      SeparateOpensCopies(s, i + 1, j);
      ConsRange(s, i, j);
      ConsAssoc(s[i], s[i + 1..j], SeparateOpensFrom(s, j));
    } else {
      assert s[i..j] == "";
    }
  }

  /** The substitution of line 81 copies a stretch without `)` as it is. */
  lemma {:induction false} SeparateClosesCopies(s: string, i: nat, j: nat)
    requires i <= j <= |s| && forall k :: i <= k < j ==> s[k] != ')'
    ensures SeparateClosesFrom(s, i) == s[i..j] + SeparateClosesFrom(s, j)
    decreases j - i
  {
    if i < j {
      assert !CloseNeedsAmp(s, i);
      SeparateClosesCopies(s, i + 1, j);
      ConsRange(s, i, j);
      ConsAssoc(s[i], s[i + 1..j], SeparateClosesFrom(s, j));
    } else {
      assert s[i..j] == "";
    }
  }

  lemma OpensBeforeGroup(w1: string, w2: string)
    requires Word(w1) && Word(w2)
    requires var t := w1 + "(" + w2 + ")";
             && (forall i :: 0 <= i < |t| && i != |w1| ==> t[i] != '(')
             && t[|w1|] == '(' && !IsOp(t[|w1| - 1])
    ensures SeparateOpens(w1 + "(" + w2 + ")") == w1 + "&(" + w2 + ")"
  {
    var t := w1 + "(" + w2 + ")";
    InsertedBeforeGroup(t, |w1|);
    assert t[0..|w1|] == w1 && t[|w1| + 1..] == w2 + ")";
    GroupAssoc(w1, "&(", w2, ")");
    assert w1[0] != '&';
  }

  /** Line 80's substitution on text whose only `(` sits at `n`, after a non-operator. */
  lemma InsertedBeforeGroup(t: string, n: nat)
    requires 0 < n < |t| && t[n] == '(' && !IsOp(t[n - 1])
    requires forall i :: 0 <= i < |t| && i != n ==> t[i] != '('
    ensures SeparateOpensFrom(t, 0) == t[0..n] + "&(" + t[n + 1..]
  {
    SeparateOpensCopies(t, 0, n);
    InsertedAtOpen(t, n);
  }

  lemma InsertedAtOpen(t: string, n: nat)
    requires 0 < n < |t| && t[n] == '(' && !IsOp(t[n - 1])
    requires forall i :: n < i < |t| ==> t[i] != '('
    ensures SeparateOpensFrom(t, n) == "&(" + t[n + 1..]
  {
    assert OpenNeedsAmp(t, n);
    SeparateOpensCopies(t, n + 1, |t|);
    assert t[n + 1..|t|] == t[n + 1..];
  }

  lemma ClosesAfterGroup(w1: string, w2: string)
    requires Word(w1) && Word(w2)
    requires var t := "(" + w1 + ")" + w2;
             && (forall i :: 0 <= i < |t| && i != |w1| + 1 ==> t[i] != ')')
             && t[|w1| + 1] == ')' && !IsOp(t[|w1| + 2]) && t[|t| - 1] != '&'
    ensures SeparateCloses("(" + w1 + ")" + w2) == "(" + w1 + ")&" + w2
  {
    var t := "(" + w1 + ")" + w2;
    var u := "(" + w1 + ")&" + w2;
    InsertedAfterGroup(t, |w1| + 1);
    assert t[0..|w1| + 1] == "(" + w1 && t[|w1| + 2..] == w2;
    assert u[|u| - 1] == w2[|w2| - 1] == t[|t| - 1];
  }

  /** Line 81's substitution on text whose only `)` sits at `n`, before a non-operator. */
  lemma InsertedAfterGroup(t: string, n: nat)
    requires n + 1 < |t| && t[n] == ')' && !IsOp(t[n + 1])
    requires forall i :: 0 <= i < |t| && i != n ==> t[i] != ')'
    ensures SeparateClosesFrom(t, 0) == t[0..n] + ")&" + t[n + 1..]
  {
    SeparateClosesCopies(t, 0, n);
    InsertedAtClose(t, n);
  }

  lemma InsertedAtClose(t: string, n: nat)
    requires n + 1 < |t| && t[n] == ')' && !IsOp(t[n + 1])
    requires forall i :: n < i < |t| ==> t[i] != ')'
    ensures SeparateClosesFrom(t, n) == ")&" + t[n + 1..]
  {
    assert CloseNeedsAmp(t, n);
    SeparateClosesCopies(t, n + 1, |t|);
    assert t[n + 1..|t|] == t[n + 1..];
  }

  /** `w1&(w2)` ends with its only `)`, so line 81 leaves it as it is. */
  lemma ClosesAtEnd(w1: string, w2: string)
    requires Word(w1) && Word(w2)
    ensures SeparateCloses(w1 + "&(" + w2 + ")") == w1 + "&(" + w2 + ")"
  {
    var u := w1 + "&(" + w2 + ")";
    forall j | 0 <= j < |u| - 1 ensures u[j] != ')' {
      if j < |w1| {
        assert u[j] == w1[j];
      } else if j > |w1| + 1 {
        assert u[j] == w2[j - |w1| - 2];
      }
    }
    assert ClosesOk(u);
  }

  lemma ConsRange(s: string, i: nat, j: nat)
    requires i < j <= |s|
    ensures [s[i]] + s[i + 1..j] == s[i..j]
  {
  }

  lemma GroupAssoc(a: string, b: string, c: string, d: string)
    ensures a + (b + (c + d)) == a + b + c + d
  {
  }
}
