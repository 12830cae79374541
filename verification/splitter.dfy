/** `extract_last_operand` and `extract_first_operand`: one scan each that finds the
    last (first) operator outside parentheses, after removing one pair of outer
    parentheses. */
module Splitter {
  import opened Chars
  import opened Text
  import opened Results

  /** The triple both functions return: the text left of the operator, the operator,
      and the text right of it. `op == None` stands for the "no operator" marker,
      which is `""` in `extract_last_operand` and `None` in `extract_first_operand`. */
  datatype Split = Split(left: string, op: Option<char>, right: string)

  // ---------------------------------------------------------------------------
  // extract_last_operand (lines 124-153)
  // ---------------------------------------------------------------------------

  /** Line 138-139: when the text starts with `(` and ends with `)`, drop both. */
  function Unwrap(e: string): (r: string)
    requires |e| > 0
    ensures e[0] == '(' && e[|e| - 1] == ')' ==> |e| >= 2 && r == e[1..|e| - 1]
    ensures !(e[0] == '(' && e[|e| - 1] == ')') ==> r == e
  {
    if e[0] == '(' && e[|e| - 1] == ')' then e[1..|e| - 1] else e
  }

  /** The size of the stack of `find_last_operator` once it has scanned `e[j..]`
      from the right: closing parentheses seen minus opening ones. */
  function RDepth(e: string, j: nat): int
    requires j <= |e|
    decreases |e| - j
  {
    if j == |e| then 0
    else if e[j] == ')' then RDepth(e, j + 1) + 1
    else if e[j] == '(' then RDepth(e, j + 1) - 1
    else RDepth(e, j + 1)
  }

  /** Line 131: the scan reaches `e[j]`, a `(`, with an empty stack, and `pop` raises. */
  predicate PopUnderflows(e: string, j: nat)
    requires j < |e|
  {
    e[j] == '(' && RDepth(e, j + 1) == 0
  }

  /** Lines 132-134: the scan reaches an operator at `e[j]` with an empty stack and returns `j`. */
  predicate LastScanStops(e: string, j: nat)
    requires j < |e|
  {
    IsOp(e[j]) && RDepth(e, j + 1) == 0
  }

  /** The scan moves past position `j` to the left. */
  predicate PassesLeftward(e: string, j: nat)
    requires j < |e|
  {
    !PopUnderflows(e, j) && !LastScanStops(e, j)
  }

  /** The scan passes every position from `j` to the end. */
  predicate PassesFrom(e: string, j: nat) {
    forall k :: j <= k < |e| ==> PassesLeftward(e, k)
  }

  /** The scan raises at `e[i]`: it passes everything to the right and pops an empty stack there. */
  predicate UnmatchedAt(e: string, i: nat) {
    i < |e| && PopUnderflows(e, i) && PassesFrom(e, i + 1)
  }

  /** The scan stops at `e[i]`, and `split` is the triple lines 149-153 build from it. */
  predicate SplitsAt(e: string, i: nat, split: Split) {
    && i < |e| && LastScanStops(e, i) && PassesFrom(e, i + 1)
    && split == Split(Strip(e[..i]), Some(e[i]), Strip(e[i + 1..]))
  }

  /** `find_last_operator` from position `j - 1` down to 0 with `depth` entries on the
      stack. The result is the position it returns (`None` for -1), or the failure
      of the unguarded `pop`. */
  function ScanLast(e: string, j: nat, depth: nat): (r: Result<Option<nat>>)
    requires j <= |e|
    requires depth == RDepth(e, j)
    requires PassesFrom(e, j)
    ensures r.Success? && r.value.Some? ==>
              r.value.value < j && LastScanStops(e, r.value.value) && PassesFrom(e, r.value.value + 1)
    ensures r.Success? && r.value.None? ==> PassesFrom(e, 0)
    ensures r.Failure? ==> r.error == UnmatchedOpenParen && exists i: nat :: i < j && UnmatchedAt(e, i)
    decreases j
  {
    if j == 0 then Success(None)
    else
      var c := e[j - 1];
      if c == ')' then ScanLast(e, j - 1, depth + 1)
      else if c == '(' then
        if depth == 0 then
          assert UnmatchedAt(e, j - 1);
          Failure(UnmatchedOpenParen)
        else ScanLast(e, j - 1, depth - 1)
      else if depth == 0 && IsOp(c) then Success(Some(j - 1))
      else ScanLast(e, j - 1, depth)
  }

  /** `find_last_operator`. */
  function FindLastOp(e: string): (r: Result<Option<nat>>)
    ensures r.Success? && r.value.Some? ==>
              r.value.value < |e| && LastScanStops(e, r.value.value) && PassesFrom(e, r.value.value + 1)
    ensures r.Success? && r.value.None? ==> PassesFrom(e, 0)
    ensures r.Failure? ==> r.error == UnmatchedOpenParen && exists i: nat :: UnmatchedAt(e, i)
  {
    assert PassesFrom(e, |e|);
    ScanLast(e, |e|, 0)
  }

  /** `extract_last_operand`. The empty input fails at line 138; an unbalanced `(`
      fails at line 131; otherwise the text is split at its last operator outside
      parentheses into stripped remainder and operand, or returned whole. */
  function ExtractLast(expression: string): (r: Result<Split>)
    ensures |expression| == 0 <==> r == Failure(EmptyExpression)
    ensures r.Failure? && |expression| > 0 ==>
              r.error == UnmatchedOpenParen && exists i: nat :: UnmatchedAt(Unwrap(expression), i)
    ensures r.Success? && r.value.op.None? ==>
              r.value == Split(Unwrap(expression), None, "") && PassesFrom(Unwrap(expression), 0)
    ensures r.Success? && r.value.op.Some? ==> exists i: nat :: SplitsAt(Unwrap(expression), i, r.value)
  {
    if |expression| == 0 then Failure(EmptyExpression)
    else
      var e := Unwrap(expression);
      var found :- FindLastOp(e);
      match found
      case None => Success(Split(e, None, ""))
      case Some(i) =>
        var split := Split(Strip(e[..i]), Some(e[i]), Strip(e[i + 1..]));
        assert SplitsAt(e, i, split);
        Success(split)
  }

  // ---------------------------------------------------------------------------
  // extract_first_operand (lines 94-121)
  // ---------------------------------------------------------------------------

  /** The size of the stack of `find_first_operator` once it has scanned `e[..i]`;
      a `)` with an empty stack is ignored (line 102). */
  function LDepth(e: string, i: nat): nat
    requires i <= |e|
  {
    if i == 0 then 0
    else if e[i - 1] == '(' then LDepth(e, i - 1) + 1
    else if e[i - 1] == ')' && LDepth(e, i - 1) > 0 then LDepth(e, i - 1) - 1
    else LDepth(e, i - 1)
  }

  /** Line 104: the scan reaches an operator at `e[i]` with an empty stack. */
  predicate FirstScanStops(e: string, i: nat)
    requires i < |e|
  {
    IsOp(e[i]) && LDepth(e, i) == 0
  }

  /** The scan passes every position before `i`. */
  predicate PassesBefore(e: string, i: nat) {
    forall k :: 0 <= k < i && k < |e| ==> !FirstScanStops(e, k)
  }

  /** The scan stops first at `e[i]`, and `split` is the triple lines 117-121 build from it. */
  predicate FirstSplitsAt(e: string, i: nat, split: Split) {
    && i < |e| && FirstScanStops(e, i) && PassesBefore(e, i)
    && split == Split(Strip(e[..i]), Some(e[i]), Strip(e[i + 1..]))
  }

  /** `find_first_operator` from position `i` on with `depth` entries on the stack. */
  function ScanFirst(e: string, i: nat, depth: nat): (r: Option<nat>)
    requires i <= |e| && depth == LDepth(e, i) && PassesBefore(e, i)
    ensures r.Some? ==> i <= r.value < |e| && FirstScanStops(e, r.value) && PassesBefore(e, r.value)
    ensures r.None? ==> PassesBefore(e, |e|)
    decreases |e| - i
  {
    if i == |e| then None
    else
      var c := e[i];
      if c == '(' then ScanFirst(e, i + 1, depth + 1)
      else if c == ')' then ScanFirst(e, i + 1, if depth > 0 then depth - 1 else depth)
      else if IsOp(c) && depth == 0 then Some(i)
      else ScanFirst(e, i + 1, depth)
  }

  /** `find_first_operator`. */
  function FindFirstOp(e: string): (r: Option<nat>)
    ensures r.Some? ==> r.value < |e| && FirstScanStops(e, r.value) && PassesBefore(e, r.value)
    ensures r.None? ==> PassesBefore(e, |e|)
  {
    ScanFirst(e, 0, 0)
  }

  /** Lines 108-112: strip, and when the result is wrapped in parentheses, drop them
      and strip again. The empty stripped text fails at line 110. */
  function UnwrapFirst(expression: string): (r: Result<string>)
    ensures r.Failure? <==> |Strip(expression)| == 0
    ensures r.Failure? ==> r.error == EmptyExpression
    ensures r.Success? ==> var s := Strip(expression);
              r.value == if s[0] == '(' && s[|s| - 1] == ')' then Strip(s[1..|s| - 1]) else s
  {
    var s := Strip(expression);
    if |s| == 0 then Failure(EmptyExpression)
    else if s[0] == '(' && s[|s| - 1] == ')' then Success(Strip(s[1..|s| - 1]))
    else Success(s)
  }

  /** `extract_first_operand`: split at the first operator outside parentheses into
      stripped operand and remainder, or return the unwrapped text whole. */
  function ExtractFirst(expression: string): (r: Result<Split>)
    ensures r.Failure? <==> |Strip(expression)| == 0
    ensures r.Failure? ==> r.error == EmptyExpression
    ensures r.Success? && r.value.op.None? ==>
              r.value == Split(UnwrapFirst(expression).value, None, "")
              && PassesBefore(UnwrapFirst(expression).value, |UnwrapFirst(expression).value|)
    ensures r.Success? && r.value.op.Some? ==>
              exists i: nat :: FirstSplitsAt(UnwrapFirst(expression).value, i, r.value)
  {
    var e :- UnwrapFirst(expression);
    match FindFirstOp(e)
    case None => Success(Split(e, None, ""))
    case Some(i) =>
      var split := Split(Strip(e[..i]), Some(e[i]), Strip(e[i + 1..]));
      assert FirstSplitsAt(e, i, split);
      Success(split)
  }

  // ---------------------------------------------------------------------------
  // The scans against their reference descriptions
  // ---------------------------------------------------------------------------

  /** `find_last_operator` returns `i` exactly when `e[i]` is an operator outside
      parentheses and the scan passes every position to its right. */
  lemma FindLastOpAt(e: string, i: nat)
    ensures FindLastOp(e) == Success(Some(i)) <==> i < |e| && LastScanStops(e, i) && PassesFrom(e, i + 1)
  {
    var r := FindLastOp(e);
    if i < |e| && LastScanStops(e, i) && PassesFrom(e, i + 1) {
      if r.Failure? {
        var j: nat :| UnmatchedAt(e, j);
        if j < i {
          PassesAt(e, j + 1, i);
        } else if i < j {
          PassesAt(e, i + 1, j);
        }
      } else if r.value.Some? {
        var j := r.value.value;
        if j < i {
          PassesAt(e, j + 1, i);
        } else if i < j {
          PassesAt(e, i + 1, j);
        }
      } else {
        PassesAt(e, 0, i);
      }
    }
  }

  /** `find_last_operator` raises exactly when, reading from the right, a `(` with no
      pending `)` comes before any operator outside parentheses. */
  lemma FindLastOpFails(e: string)
    ensures FindLastOp(e).Failure? <==> exists i: nat :: UnmatchedAt(e, i)
  {
    var r := FindLastOp(e);
    if exists i: nat :: UnmatchedAt(e, i) {
      var i: nat :| UnmatchedAt(e, i);
      if r.Success? && r.value.Some? {
        var j := r.value.value;
        if j < i {
          PassesAt(e, j + 1, i);
        } else if i < j {
          PassesAt(e, i + 1, j);
        }
      } else if r.Success? {
        PassesAt(e, 0, i);
      }
    }
  }

  /** When `e[lo..]` holds no operator or parenthesis, every position from `j` on is
      passed with an empty stack. */
  lemma {:induction false} PassesNoDelim(e: string, lo: nat, j: nat)
    requires lo <= j <= |e|
    requires forall k :: lo <= k < |e| ==> !IsDelim(e[k])
    ensures RDepth(e, j) == 0 && PassesFrom(e, j)
    decreases |e| - j
  {
    if j < |e| {
      PassesNoDelim(e, lo, j + 1);
      assert !IsDelim(e[j]);
    }
  }

  lemma {:induction false} ScanLastNoDelim(e: string, j: nat)
    requires j <= |e|
    requires forall k :: 0 <= k < |e| ==> !IsDelim(e[k])
    requires RDepth(e, j) == 0 && PassesFrom(e, j)
    ensures ScanLast(e, j, 0) == Success(None)
    decreases j
  {
    if j > 0 {
      assert !IsDelim(e[j - 1]);
      PassesNoDelim(e, 0, j - 1);
      ScanLastNoDelim(e, j - 1);
    }
  }

  /** Text without operators or parentheses has no operator to split at. */
  lemma FindLastOpNoDelim(e: string)
    requires forall k :: 0 <= k < |e| ==> !IsDelim(e[k])
    ensures FindLastOp(e) == Success(None)
  {
    PassesNoDelim(e, 0, |e|);
    ScanLastNoDelim(e, |e|);
  }

  /** Text ending in an operator followed by a word, with no operator or parenthesis
      in the word, is split at that operator. */
  lemma ExtractLastBeforeWord(p: string, o: char, w: string)
    requires IsOp(o) && |w| > 0
    requires forall k :: 0 <= k < |w| ==> !IsDelim(w[k])
    ensures ExtractLast(p + [o] + w) == Success(Split(Strip(p), Some(o), Strip(w)))
  {
    var s := p + [o] + w;
    var i := |p|;
    AroundOperator(p, o, w);
    assert Unwrap(s) == s;
    PassesNoDelim(s, i + 1, i + 1);
    FindLastOpAt(s, i);
  }

  /** The pieces of `p + [o] + w` around position `|p|`. */
  lemma AroundOperator(p: string, o: char, w: string)
    requires |w| > 0 && forall k :: 0 <= k < |w| ==> !IsDelim(w[k])
    ensures var s := p + [o] + w;
            && s[..|p|] == p && s[|p|] == o && s[|p| + 1..] == w && s[|s| - 1] == w[|w| - 1]
            && forall k :: |p| + 1 <= k < |s| ==> !IsDelim(s[k])
  {
    var s := p + [o] + w;
    forall k | |p| + 1 <= k < |s| ensures !IsDelim(s[k]) {
      assert s[k] == w[k - |p| - 1];
    }
    assert s[|p| + 1..] == w;
  }

  /** Text ending in an operator followed by a parenthesised group, with no
      parenthesis inside the group, is split at that operator: the scan from the
      right pushes the group's `)`, pops it at the group's `(`, and stops at the
      operator with an empty stack. */
  lemma ExtractLastBeforeGroup(p: string, o: char, inner: string)
    requires IsOp(o) && |p| > 0 && p[0] != '('
    requires forall k :: 0 <= k < |inner| ==> inner[k] != '(' && inner[k] != ')'
    ensures ExtractLast(p + [o] + ("(" + inner + ")")) == Success(Split(Strip(p), Some(o), Strip("(" + inner + ")")))
  {
    var s := p + [o] + ("(" + inner + ")");
    AroundGroup(p, o, inner);
    assert Unwrap(s) == s;
    FindLastOpBeforeGroup(p, o, inner);
  }

  lemma FindLastOpBeforeGroup(p: string, o: char, inner: string)
    requires IsOp(o)
    requires forall k :: 0 <= k < |inner| ==> inner[k] != '(' && inner[k] != ')'
    ensures FindLastOp(p + [o] + ("(" + inner + ")")) == Success(Some(|p|))
  {
    var s := p + [o] + ("(" + inner + ")");
    var i := |p|;
    AroundGroup(p, o, inner);
    InsideGroup(s, i + 1, i + 2);
    assert PassesLeftward(s, i + 1);
    FindLastOpAt(s, i);
  }

  /** The pieces of `p + [o] + "(" + inner + ")"` around position `|p|`. */
  lemma AroundGroup(p: string, o: char, inner: string)
    requires forall k :: 0 <= k < |inner| ==> inner[k] != '(' && inner[k] != ')'
    ensures var s := p + [o] + ("(" + inner + ")");
            && s[..|p|] == p && s[|p|] == o && s[|p| + 1..] == "(" + inner + ")"
            && s[|p| + 1] == '(' && s[|s| - 1] == ')' && (|p| > 0 ==> s[0] == p[0])
            && forall k :: |p| + 1 < k < |s| - 1 ==> s[k] != '(' && s[k] != ')'
  {
    var s := p + [o] + ("(" + inner + ")");
    forall k | |p| + 1 < k < |s| - 1 ensures s[k] != '(' && s[k] != ')' {
      assert s[k] == inner[k - |p| - 2];
    }
    assert s[|p| + 1..] == "(" + inner + ")";
  }

  /** Inside a final group without inner parentheses the scan from the right holds
      exactly the group's `)` and passes every position. */
  lemma {:induction false} InsideGroup(s: string, lo: nat, j: nat)
    requires lo < j < |s| && s[|s| - 1] == ')'
    requires forall k :: lo < k < |s| - 1 ==> s[k] != '(' && s[k] != ')'
    ensures RDepth(s, j) == 1 && PassesFrom(s, j)
    decreases |s| - j
  {
    if j < |s| - 1 {
      InsideGroup(s, lo, j + 1);
      assert PassesLeftward(s, j);
    } else {
      assert RDepth(s, j + 1) == 0;
      assert PassesLeftward(s, j);
    }
  }

  /** The same inside a pair of parentheses: the outer pair is dropped first. */
  lemma ExtractLastWrappedBeforeWord(p: string, o: char, w: string)
    requires IsOp(o) && |w| > 0
    requires forall k :: 0 <= k < |w| ==> !IsDelim(w[k])
    ensures ExtractLast("(" + (p + [o] + w) + ")") == Success(Split(Strip(p), Some(o), Strip(w)))
  {
    var e := p + [o] + w;
    var s := "(" + e + ")";
    var i := |p|;
    assert Unwrap(s) == e by {
      assert s[1..|s| - 1] == e;
    }
    FindLastOpBeforeWord(p, o, w);
    AroundOperator(p, o, w);
    ExtractLastFound(s, i);
  }

  lemma FindLastOpBeforeWord(p: string, o: char, w: string)
    requires IsOp(o) && |w| > 0
    requires forall k :: 0 <= k < |w| ==> !IsDelim(w[k])
    ensures FindLastOp(p + [o] + w) == Success(Some(|p|))
  {
    var e := p + [o] + w;
    AroundOperator(p, o, w);
    PassesNoDelim(e, |p| + 1, |p| + 1);
    FindLastOpAt(e, |p|);
  }

  /** Once the scan has found position `i` of the unwrapped text, the split is the
      two stripped slices around it. */
  lemma ExtractLastFound(x: string, i: nat)
    requires |x| > 0 && FindLastOp(Unwrap(x)) == Success(Some(i))
    ensures i < |Unwrap(x)|
    ensures ExtractLast(x) == Success(Split(Strip(Unwrap(x)[..i]), Some(Unwrap(x)[i]), Strip(Unwrap(x)[i + 1..])))
  {
  }

  /** Text without operators or parentheses that is not wrapped in a pair of
      parentheses is returned whole. */
  lemma ExtractLastNoDelim(e: string)
    requires |e| > 0 && forall k :: 0 <= k < |e| ==> !IsDelim(e[k])
    ensures ExtractLast(e) == Success(Split(e, None, ""))
  {
    assert Unwrap(e) == e;
    FindLastOpNoDelim(e);
  }

  /** A parenthesised text without operators or parentheses inside is unwrapped and
      returned without an operator. */
  lemma ExtractLastWrappedNoDelim(w: string)
    requires |w| > 0 && forall k :: 0 <= k < |w| ==> !IsDelim(w[k])
    ensures ExtractLast("(" + w + ")") == Success(Split(w, None, ""))
  {
    var s := "(" + w + ")";
    assert s[1..|s| - 1] == w;
    FindLastOpNoDelim(w);
  }

  lemma PassesAt(e: string, j: nat, k: nat)
    requires PassesFrom(e, j) && j <= k < |e|
    ensures PassesLeftward(e, k)
  {
  }

  /** `find_first_operator` returns `i` exactly when `e[i]` is the first operator
      outside parentheses. */
  lemma FindFirstOpAt(e: string, i: nat)
    ensures FindFirstOp(e) == Some(i) <==> i < |e| && FirstScanStops(e, i) && PassesBefore(e, i)
  {
    var r := FindFirstOp(e);
    if i < |e| && FirstScanStops(e, i) && PassesBefore(e, i) {
      if r.Some? {
        assert !(r.value < i) && !(i < r.value);
      }
    }
  }

  // ---------------------------------------------------------------------------
  // Worked examples
  // ---------------------------------------------------------------------------

  /** The split is at the last operator: "A&B+C" gives ("A&B", "+", "C"). */
  lemma ExtractLastSplitsAtLastOperator()
    ensures ExtractLast("A&B+C") == Success(Split("A&B", Some('+'), "C"))
  {
    var e := "A&B+C";
    assert Unwrap(e) == e;
    assert RDepth(e, 5) == 0 && RDepth(e, 4) == 0;
    assert ScanLast(e, 4, 0) == Success(Some(3));
    assert e[..3] == "A&B" && NoSpace("A&B");
    assert e[4..] == "C" && NoSpace("C");
  }

  /** A parenthesised remainder stays whole: "(A+B)-C" gives ("(A+B)", "-", "C"). */
  lemma ExtractLastKeepsGroup()
    ensures ExtractLast("(A+B)-C") == Success(Split("(A+B)", Some('-'), "C"))
  {
    var e := "(A+B)-C";
    assert Unwrap(e) == e;
    assert RDepth(e, 7) == 0 && RDepth(e, 6) == 0;
    assert ScanLast(e, 6, 0) == Success(Some(5));
    assert e[..5] == "(A+B)" && NoSpace("(A+B)");
    assert e[6..] == "C" && NoSpace("C");
  }

  /** Outer parentheses are dropped before the scan: "(A+B)" gives ("A", "+", "B"). */
  lemma ExtractLastUnwraps()
    ensures ExtractLast("(A+B)") == Success(Split("A", Some('+'), "B"))
  {
    var e := "A+B";
    assert Unwrap("(A+B)") == e;
    assert RDepth(e, 3) == 0 && RDepth(e, 2) == 0;
    assert ScanLast(e, 2, 0) == Success(Some(1));
    assert e[..1] == "A" && NoSpace("A");
    assert e[2..] == "B" && NoSpace("B");
  }

  /** Without an operator the text comes back whole: "A" gives ("A", "", ""). */
  lemma ExtractLastSingleOperand()
    ensures ExtractLast("A") == Success(Split("A", None, ""))
  {
    var e := "A";
    assert Unwrap(e) == e;
    assert RDepth(e, 1) == 0 && RDepth(e, 0) == 0;
    assert ScanLast(e, 0, 0) == Success(None);
  }

  /** "(A)&(B)" starts with `(` and ends with `)`, so it is unwrapped to "A)&(B",
      whose `(` has no pending `)`: the `pop` of line 131 raises. */
  lemma ExtractLastUnbalancedAfterUnwrap()
    ensures ExtractLast("(A)&(B)") == Failure(UnmatchedOpenParen)
  {
    var e := "A)&(B";
    assert Unwrap("(A)&(B)") == e;
    assert RDepth(e, 5) == 0 && RDepth(e, 4) == 0;
    assert ScanLast(e, 4, 0) == Failure(UnmatchedOpenParen);
  }

  /** The same text through `extract_first_operand`: the stray `)` is ignored and
      the split is at `&`, giving ("A)", "&", "(B"). */
  lemma ExtractFirstIgnoresStrayClose()
    ensures ExtractFirst("(A)&(B)") == Success(Split("A)", Some('&'), "(B"))
  {
    UnwrapFirstOfWrapped("(A)&(B)");
    FirstOpAfterStrayClose("A)&(B");
    StrayCloseSides("A)&(B");
  }

  lemma UnwrapFirstOfWrapped(s: string)
    requires s == "(A)&(B)"
    ensures UnwrapFirst(s) == Success("A)&(B")
  {
    assert NoSpace(s);
    var e := "A)&(B";
    assert s[1..6] == e;
    assert NoSpace(e);
  }

  lemma FirstOpAfterStrayClose(e: string)
    requires e == "A)&(B"
    ensures FindFirstOp(e) == Some(2)
  {
    assert LDepth(e, 1) == 0 && LDepth(e, 2) == 0;
    assert !FirstScanStops(e, 0) && !FirstScanStops(e, 1);
    assert ScanFirst(e, 2, 0) == Some(2);
    assert ScanFirst(e, 1, 0) == Some(2);
  }

  lemma StrayCloseSides(e: string)
    requires e == "A)&(B"
    ensures Strip(e[..2]) == "A)" && e[2] == '&' && Strip(e[3..]) == "(B"
  {
    var left, right := e[..2], e[3..];
    assert left == "A)" && right == "(B";
    assert !IsSpace(left[0]) && !IsSpace(left[1]);
    assert !IsSpace(right[0]) && !IsSpace(right[1]);
  }
}
