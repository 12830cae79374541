/** The merge and recursion of `query_keyword`: clean the keyword, split it at its
    last operator outside parentheses, evaluate both sides, and combine the two
    answers with the operator. The knowledge-base lookup of lines 236-242 is the
    parameter `Q`. */
module Evaluator {
  import opened Chars
  import opened Text
  import opened Results
  import opened Normalizer
  import opened CleanFacts
  import opened Splitter
  import opened Nodes

  /** Lines 228-233: `+` is union, `-` is difference, anything else is intersection.
      So `+` yields the id-keyed union of both answers, and every other operator
      keeps the first answer's nodes in order with their evidence filtered: `-`
      drops the files the second answer mentions, the others keep only those. */
  function Merge(op: char, answer1: seq<Node>, answer2: seq<Node>): (r: seq<Node>)
    ensures op == '+' ==> UnionOf(r, answer1 + answer2)
    ensures op != '+' ==> |r| == |answer1|
    ensures op != '+' ==>
              forall i :: 0 <= i < |r| ==> PrunedFrom(r[i], answer1[i], EvidenceIds(answer2), op != '-')
  {
    if op == '+' then UnionNodes(answer1, answer2)
    else if op == '-' then DiffNodes(answer1, answer2)
    else IntersectNodes(answer1, answer2)
  }

  /** `query_keyword` with the knowledge-base lookup `Q`. A keyword that cleans to
      the empty text, or to text whose right-to-left scan meets an unmatched `(`,
      raises; the join error of line 76 never arises. */
  function Eval(Q: string -> seq<Node>, keyword: string): (r: Result<seq<Node>>)
    ensures |Clean(keyword)| == 0 ==> r == Failure(EmptyExpression)
    ensures r.Failure? ==> r.error == EmptyExpression || r.error == UnmatchedOpenParen
  {
    EvalClean(Q, Clean(keyword))
  }

  /** `query_keyword` from line 220 on, once the keyword is clean. */
  function EvalClean(Q: string -> seq<Node>, cleaned: string): (r: Result<seq<Node>>)
    requires Canonical(cleaned)
    ensures |cleaned| == 0 ==> r == Failure(EmptyExpression)
    ensures r.Failure? ==> r.error == EmptyExpression || r.error == UnmatchedOpenParen
    decreases |cleaned|
  {
    var split :- ExtractLast(cleaned);
    match split.op
    case None => Success(Q(cleaned))
    case Some(op) =>
      SplitShrinks(cleaned, split);
      var answer1 :- EvalClean(Q, Clean(split.left));
      var answer2 :- EvalClean(Q, Clean(split.right));
      Success(Merge(op, answer1, answer2))
  }

  /** Both sides of a split of clean text clean to something shorter, so the
      recursion of lines 224-225 terminates. */
  lemma SplitShrinks(cleaned: string, split: Split)
    requires Canonical(cleaned) && ExtractLast(cleaned) == Success(split) && split.op.Some?
    ensures |Clean(split.left)| < |cleaned| && |Clean(split.right)| < |cleaned|
  {
    var e := Unwrap(cleaned);
    UnwrapCanonical(cleaned);
    var i: nat :| SplitsAt(e, i, split);
    LeftShrinks(e, i);
    RightShrinks(e, i);
  }

  lemma UnwrapCanonical(s: string)
    requires |s| > 0 && Canonical(s)
    ensures Canonical(Unwrap(s)) && |Unwrap(s)| <= |s|
  {
    if s[0] == '(' && s[|s| - 1] == ')' {
      CanonicalSlice(s, 1, |s| - 1);
    }
  }

  /** The text left of position `i` in clean text, stripped and cleaned, is shorter
      than the text. */
  lemma LeftShrinks(e: string, i: nat)
    requires i < |e| && Canonical(e)
    ensures |Clean(Strip(e[..i]))| < |e|
  {
    CanonicalSlice(e, 0, i);
    assert e[0..i] == e[..i];
    StripCleanShrinks(e[..i]);
  }

  /** So is the text right of it. */
  lemma RightShrinks(e: string, i: nat)
    requires i < |e| && Canonical(e)
    ensures |Clean(Strip(e[i + 1..]))| < |e|
  {
    CanonicalSlice(e, i + 1, |e|);
    assert e[i + 1..|e|] == e[i + 1..];
    StripCleanShrinks(e[i + 1..]);
  }

  lemma StripCleanShrinks(t: string)
    requires Canonical(t)
    ensures |Clean(Strip(t))| <= |t|
  {
    CanonicalHasNoSpace(t);
    CleanShrinksCanonical(t);
  }

  lemma CanonicalHasNoSpace(s: string)
    requires Canonical(s)
    ensures NoSpace(s) && Strip(s) == s
  {
    assert NoSpace(s);
  }

  // ---------------------------------------------------------------------------
  // Operator chains
  // ---------------------------------------------------------------------------

  /** `w0 o1 w1 ... on wn` written out. */
  function Chain(words: seq<string>, ops: seq<char>): string
    requires |words| == |ops| + 1
    decreases |ops|
  {
    if |ops| == 0 then words[0]
    else Chain(words[..|words| - 1], ops[..|ops| - 1]) + [ops[|ops| - 1]] + words[|words| - 1]
  }

  /** The reading of a chain that the recursion gives: strictly left to right,
      every operator binding equally. */
  function FoldLeft(Q: string -> seq<Node>, words: seq<string>, ops: seq<char>): seq<Node>
    requires |words| == |ops| + 1
    decreases |ops|
  {
    if |ops| == 0 then Q(words[0])
    else Merge(ops[|ops| - 1], FoldLeft(Q, words[..|words| - 1], ops[..|ops| - 1]), Q(words[|words| - 1]))
  }

  predicate WordsAndOps(words: seq<string>, ops: seq<char>) {
    && |words| == |ops| + 1
    && (forall i :: 0 <= i < |words| ==> Word(words[i]))
    && (forall i :: 0 <= i < |ops| ==> IsOp(ops[i]))
  }

  /** A chain of words is already clean: no parentheses, no whitespace, and it
      starts and ends with a word character. */
  lemma {:induction false} ChainShape(words: seq<string>, ops: seq<char>)
    requires WordsAndOps(words, ops)
    ensures var s := Chain(words, ops);
            && |s| > 0 && !IsDelim(s[0]) && !IsDelim(s[|s| - 1])
            && forall i :: 0 <= i < |s| ==> CanonicalChar(s[i]) && s[i] != '(' && s[i] != ')'
    decreases |ops|
  {
    if |ops| > 0 {
      var p := Chain(words[..|words| - 1], ops[..|ops| - 1]);
      var o := ops[|ops| - 1];
      var w := words[|words| - 1];
      assert WordsAndOps(words[..|words| - 1], ops[..|ops| - 1]);
      ChainShape(words[..|words| - 1], ops[..|ops| - 1]);
      var s := p + [o] + w;
      assert Chain(words, ops) == s;
      assert Word(w);
      forall i | 0 <= i < |s| ensures CanonicalChar(s[i]) && s[i] != '(' && s[i] != ')' {
        if i < |p| {
          assert s[i] == p[i];
        } else if i > |p| {
          assert s[i] == w[i - |p| - 1];
        } else {
          assert s[i] == o;
        }
      }
      assert s[|s| - 1] == w[|w| - 1];
    }
  }

  /** A chain is already clean. */
  lemma ChainClean(words: seq<string>, ops: seq<char>)
    requires WordsAndOps(words, ops)
    ensures Canonical(Chain(words, ops)) && Clean(Chain(words, ops)) == Chain(words, ops)
  {
    var s := Chain(words, ops);
    ChainShape(words, ops);
    assert Canonical(s);
    CleanKeeps(s);
  }

  /** A word is clean and has no operator to split at. */
  lemma WordSplit(w: string)
    requires Word(w)
    ensures Canonical(w) && Clean(w) == w && ExtractLast(w) == Success(Split(w, None, ""))
  {
    ChainClean([w], []);
    assert Chain([w], []) == w;
    ExtractLastNoDelim(w);
  }

  /** A single word is looked up as it is. */
  lemma EvalWord(Q: string -> seq<Node>, w: string)
    requires Word(w)
    ensures Eval(Q, w) == Success(Q(w))
  {
    WordSplit(w);
  }

  /** A chain is split at its last operator into the shorter chain and the last word. */
  lemma ChainSplit(words: seq<string>, ops: seq<char>)
    requires WordsAndOps(words, ops) && |ops| > 0
    ensures ExtractLast(Chain(words, ops)) ==
            Success(Split(Chain(words[..|words| - 1], ops[..|ops| - 1]), Some(ops[|ops| - 1]), words[|words| - 1]))
  {
    var p := Chain(words[..|words| - 1], ops[..|ops| - 1]);
    var w := words[|words| - 1];
    assert WordsAndOps(words[..|words| - 1], ops[..|ops| - 1]);
    assert Word(w);
    ExtractLastBeforeWord(p, ops[|ops| - 1], w);
    WordSplit(w);
    CanonicalHasNoSpace(w);
    ChainClean(words[..|words| - 1], ops[..|ops| - 1]);
    CanonicalHasNoSpace(p);
  }

  /** Evaluating a chain of words reads it strictly from left to right: the
      recursion always splits off the last word. */
  lemma {:induction false} EvalChain(Q: string -> seq<Node>, words: seq<string>, ops: seq<char>)
    requires WordsAndOps(words, ops)
    ensures Eval(Q, Chain(words, ops)) == Success(FoldLeft(Q, words, ops))
    decreases |ops|
  {
    if |ops| == 0 {
      EvalWord(Q, words[0]);
    } else {
      assert WordsAndOps(words[..|words| - 1], ops[..|ops| - 1]);
      var s := Chain(words, ops);
      var p := Chain(words[..|words| - 1], ops[..|ops| - 1]);
      ChainClean(words, ops);
      ChainSplit(words, ops);
      EvalSplit(Q, s, p, ops[|ops| - 1], words[|words| - 1]);
      EvalChain(Q, words[..|words| - 1], ops[..|ops| - 1]);
      EvalWord(Q, words[|words| - 1]);
    }
  }

  /** "A-B-C" is (A minus B) minus C, not A minus (B minus C). */
  lemma EvalLeftAssociative(Q: string -> seq<Node>)
    ensures Eval(Q, "A-B-C") == Success(DiffNodes(DiffNodes(Q("A"), Q("B")), Q("C")))
  {
    var words := ["A", "B", "C"];
    var ops := ['-', '-'];
    ChainOfThree();
    EvalChain(Q, words, ops);
    FoldOfThree(Q);
  }

  lemma ChainOfThree()
    ensures WordsAndOps(["A", "B", "C"], ['-', '-'])
    ensures Chain(["A", "B", "C"], ['-', '-']) == "A-B-C"
  {
    var words := ["A", "B", "C"];
    var ops := ['-', '-'];
    assert words[..2] == ["A", "B"] && ops[..1] == ['-'];
    assert ["A", "B"][..1] == ["A"] && ['-'][..0] == [];
    assert Word("A") && Word("B") && Word("C");
  }

  lemma FoldOfThree(Q: string -> seq<Node>)
    ensures FoldLeft(Q, ["A", "B", "C"], ['-', '-']) == DiffNodes(DiffNodes(Q("A"), Q("B")), Q("C"))
  {
    var words := ["A", "B", "C"];
    var ops := ['-', '-'];
    assert words[..2] == ["A", "B"] && ops[..1] == ['-'];
    assert ["A", "B"][..1] == ["A"] && ['-'][..0] == [];
  }

  // ---------------------------------------------------------------------------
  // Other consequences
  // ---------------------------------------------------------------------------

  /** Line 238 sends the cleaned keyword, not the unwrapped one: a parenthesised
      word is looked up with its parentheses. */
  lemma EvalWrappedWord(Q: string -> seq<Node>, w: string)
    requires Word(w)
    ensures Eval(Q, "(" + w + ")") == Success(Q("(" + w + ")"))
  {
    WrappedWordClean(w);
    ExtractLastWrappedNoDelim(w);
    EvalUnsplit(Q, "(" + w + ")", w);
  }

  /** Lines 224-234 with the two recursive answers given: an error on the left
      side propagates first, then one on the right side; otherwise the answers
      are merged. */
  function Combine(op: char, answer1: Result<seq<Node>>, answer2: Result<seq<Node>>): Result<seq<Node>> {
    if answer1.Failure? then Failure(answer1.error)
    else if answer2.Failure? then Failure(answer2.error)
    else Success(Merge(op, answer1.value, answer2.value))
  }

  /** Clean text split at an operator evaluates both sides and combines them. */
  lemma EvalSplit(Q: string -> seq<Node>, s: string, left: string, op: char, right: string)
    requires Canonical(s) && Clean(s) == s && ExtractLast(s) == Success(Split(left, Some(op), right))
    ensures Eval(Q, s) == Combine(op, Eval(Q, left), Eval(Q, right))
  {
    EvalCleanSplit(Q, s, Split(left, Some(op), right));
  }

  lemma EvalCleanSplit(Q: string -> seq<Node>, s: string, split: Split)
    requires Canonical(s) && ExtractLast(s) == Success(split) && split.op.Some?
    ensures EvalClean(Q, s) == Combine(split.op.value, Eval(Q, split.left), Eval(Q, split.right))
  {
    SplitShrinks(s, split);
  }

  /** Clean text with no operator outside parentheses is looked up whole. */
  lemma EvalUnsplit(Q: string -> seq<Node>, s: string, inner: string)
    requires Canonical(s) && Clean(s) == s && ExtractLast(s) == Success(Split(inner, None, ""))
    ensures Eval(Q, s) == Success(Q(s))
  {
  }

  /** A word, an operator and a parenthesised pair of words: the text is split at
      the operator before the group, the group is unwrapped and split at its own
      operator, and the answers are merged inside out ("w&(a+b)" is the
      intersection of Q(w) with the union of Q(a) and Q(b)). */
  lemma EvalOperatorThenGroup(Q: string -> seq<Node>, w: string, o1: char, a: string, o2: char, b: string)
    requires Word(w) && Word(a) && Word(b) && IsOp(o1) && IsOp(o2)
    ensures Eval(Q, w + [o1] + "(" + a + [o2] + b + ")") == Success(Merge(o1, Q(w), Merge(o2, Q(a), Q(b))))
  {
    var inner := a + [o2] + b;
    var g := "(" + inner + ")";
    var s := w + [o1] + g;
    GroupShape(w, o1, a, o2, b);
    GroupOfTwo(a, o2, b);
    OperatorThenGroup(w, o1, inner);
    EvalNested(Q, s, w, o1, g, a, o2, b);
  }

  /** Two splits, one inside the right operand of the other, each between words. */
  lemma EvalNested(Q: string -> seq<Node>, s: string, w: string, o1: char, g: string, a: string, o2: char, b: string)
    requires Word(w) && Word(a) && Word(b)
    requires Canonical(s) && Clean(s) == s && ExtractLast(s) == Success(Split(w, Some(o1), g))
    requires Canonical(g) && Clean(g) == g && ExtractLast(g) == Success(Split(a, Some(o2), b))
    ensures Eval(Q, s) == Success(Merge(o1, Q(w), Merge(o2, Q(a), Q(b))))
  {
    EvalWord(Q, a);
    EvalWord(Q, b);
    EvalSplit(Q, g, a, o2, b);
    EvalWord(Q, w);
    EvalSplit(Q, s, w, o1, g);
  }

  lemma GroupShape(w: string, o1: char, a: string, o2: char, b: string)
    ensures w + [o1] + "(" + a + [o2] + b + ")" == w + [o1] + ("(" + (a + [o2] + b) + ")")
  {
  }

  /** A parenthesised pair of words is clean and splits at its operator. */
  lemma GroupOfTwo(a: string, o: char, b: string)
    requires Word(a) && Word(b) && IsOp(o)
    ensures var inner := a + [o] + b;
            var g := "(" + inner + ")";
            && (forall k :: 0 <= k < |inner| ==> inner[k] != '(' && inner[k] != ')')
            && Canonical(g) && Clean(g) == g && ExtractLast(g) == Success(Split(a, Some(o), b))
  {
    WordsJoined(a, o, b);
    GroupClean(a + [o] + b);
    WordCanonical(a);
    WordCanonical(b);
    CanonicalHasNoSpace(a);
    CanonicalHasNoSpace(b);
    ExtractLastWrappedBeforeWord(a, o, b);
  }

  lemma GroupClean(inner: string)
    requires Canonical(inner) && |inner| > 0 && inner[0] != '(' && inner[|inner| - 1] != ')'
    ensures Canonical("(" + inner + ")") && Clean("(" + inner + ")") == "(" + inner + ")"
  {
    WrapCanonical(inner);
    CleanKeeps("(" + inner + ")");
  }

  /** Two words joined by an operator: canonical, and without parentheses. */
  lemma WordsJoined(a: string, o: char, b: string)
    requires Word(a) && Word(b) && IsOp(o)
    ensures var inner := a + [o] + b;
            && Canonical(inner) && inner[0] != '(' && inner[|inner| - 1] != ')'
            && forall k :: 0 <= k < |inner| ==> inner[k] != '(' && inner[k] != ')'
  {
    var inner := a + [o] + b;
    forall k | 0 <= k < |inner| ensures CanonicalChar(inner[k]) && inner[k] != '(' && inner[k] != ')' {
      if k < |a| {
        assert inner[k] == a[k];
      } else if k > |a| {
        assert inner[k] == b[k - |a| - 1];
      } else {
        DelimCanonical(o);
      }
    }
  }

  /** A word, an operator and a clean group: clean, and split at the operator. */
  lemma OperatorThenGroup(w: string, o: char, inner: string)
    requires Word(w) && IsOp(o)
    requires forall k :: 0 <= k < |inner| ==> inner[k] != '(' && inner[k] != ')'
    requires Canonical("(" + inner + ")")
    ensures var s := w + [o] + ("(" + inner + ")");
            Canonical(s) && Clean(s) == s && ExtractLast(s) == Success(Split(w, Some(o), "(" + inner + ")"))
  {
    OperatorThenGroupClean(w, o, "(" + inner + ")");
    WordCanonical(w);
    CanonicalHasNoSpace(w);
    CanonicalHasNoSpace("(" + inner + ")");
    ExtractLastBeforeGroup(w, o, inner);
  }

  lemma OperatorThenGroupClean(w: string, o: char, g: string)
    requires Word(w) && IsOp(o) && Canonical(g) && |g| > 0 && g[|g| - 1] == ')'
    ensures Canonical(w + [o] + g) && Clean(w + [o] + g) == w + [o] + g
  {
    var s := w + [o] + g;
    WordCanonical(w);
    CanonicalJoin(w, o, g);
    assert s[0] == w[0] && s[|s| - 1] == ')';
    CleanKeeps(s);
  }

  lemma WrappedWordClean(w: string)
    requires Word(w)
    ensures Canonical("(" + w + ")") && Clean("(" + w + ")") == "(" + w + ")"
  {
    var s := "(" + w + ")";
    forall i | 0 <= i < |s| ensures CanonicalChar(s[i]) {
      if 0 < i < |s| - 1 {
        assert s[i] == w[i - 1];
      }
    }
    forall j | 0 < j < |s| - 1 ensures s[j] != '(' && s[j] != ')' {
      assert s[j] == w[j - 1];
    }
    assert Canonical(s);
    CleanKeeps(s);
  }

  /** Cleaning the keyword first changes nothing: the recursion cleans again. */
  lemma EvalOfCleaned(Q: string -> seq<Node>, keyword: string)
    ensures Eval(Q, Clean(keyword)) == Eval(Q, keyword)
  {
    CleanIdempotent(keyword);
  }

  /** "(a)&(b)" is already clean; `extract_last_operand` unwraps it to "a)&(b" and
      raises at line 131, so the whole query raises. */
  lemma EvalTwoGroupsFails(Q: string -> seq<Node>)
    ensures Eval(Q, "(a)&(b)") == Failure(UnmatchedOpenParen)
  {
    TwoGroupsClean("(a)&(b)");
    TwoGroupsUnbalanced();
  }

  lemma TwoGroupsClean(s: string)
    requires s == "(a)&(b)"
    ensures Canonical(s) && Clean(s) == s
  {
    forall i | 0 <= i < |s| ensures CanonicalChar(s[i]) {
      if s[i] != 'a' && s[i] != 'b' {
        DelimCanonical(s[i]);
      }
    }
    assert OpensOk(s) && ClosesOk(s);
    CleanKeeps(s);
  }

  lemma TwoGroupsUnbalanced()
    ensures ExtractLast("(a)&(b)") == Failure(UnmatchedOpenParen)
  {
    var s := "(a)&(b)";
    var e := "a)&(b";
    assert Unwrap(s) == e;
    assert RDepth(e, 5) == 0 && RDepth(e, 4) == 0;
    assert ScanLast(e, 4, 0) == Failure(UnmatchedOpenParen);
  }

  /** A keyword that starts with `-` leaves an empty left side, which raises
      at line 138 in the recursive call. */
  lemma EvalLeadingOperatorFails(Q: string -> seq<Node>, w: string)
    requires Word(w)
    ensures Eval(Q, "-" + w) == Failure(EmptyExpression)
  {
    LeadingOperatorClean(w);
    LeadingOperatorSplit(w);
    CleanKeeps("");
    EvalSplit(Q, "-" + w, "", '-', w);
  }

  lemma LeadingOperatorSplit(w: string)
    requires Word(w)
    ensures ExtractLast("-" + w) == Success(Split("", Some('-'), w))
  {
    assert "" + ['-'] + w == "-" + w;
    ExtractLastBeforeWord("", '-', w);
    assert Strip("") == "";
    WordSplit(w);
    CanonicalHasNoSpace(w);
  }

  lemma LeadingOperatorClean(w: string)
    requires Word(w)
    ensures Canonical("-" + w) && Clean("-" + w) == "-" + w
  {
    var s := "-" + w;
    forall i | 0 <= i < |s| ensures CanonicalChar(s[i]) {
      if 0 < i {
        assert s[i] == w[i - 1];
      }
    }
    forall j | 0 < j < |s| ensures s[j] != '(' && s[j] != ')' {
      assert s[j] == w[j - 1];
    }
    assert s[|s| - 1] == w[|w| - 1];
    CleanKeeps(s);
  }
}
