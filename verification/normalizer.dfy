/** `Queryer.clean_keyword`: the five textual passes that turn free text into an
    infix expression over `&`, `+`, `-`, `(` and `)`. Each regex pass is a
    hand-written function on `seq<char>`; the passes are composed in `Clean`. */
module Normalizer {
  import opened Chars
  import opened Text
  import opened Results
  import opened Filters

  // ---------------------------------------------------------------------------
  // Lines 45-53: exclusion, whitespace collapse, full-width replacements
  // ---------------------------------------------------------------------------

  /** `remove_excluded_characters`: `str.translate` with a deletion table. The
      result is the input with the excluded characters left out and the others in
      their order: a subsequence holding every other character as often as the input. */
  function RemoveExcluded(s: string): (r: string)
    ensures r == Filter(s, NotExcluded)
    ensures forall c :: c in r <==> c in s && !IsExcluded(c)
    ensures (forall i :: 0 <= i < |s| ==> !IsExcluded(s[i])) ==> r == s
  {
    if |s| == 0 then ""
    else
      var rest := RemoveExcluded(s[1..]);
      HeadTail(s);
      FilterCons(s[0], s[1..], NotExcluded);
      (if IsExcluded(s[0]) then "" else [s[0]]) + rest
  }

  /** The deletion table's result, stated as a filter: the excluded characters are
      gone, and every other character stays, in order and as often as in the input. */
  lemma RemoveExcludedKeeps(s: string)
    ensures IsSubseq(RemoveExcluded(s), s)
    ensures forall c :: multiset(RemoveExcluded(s))[c] == if IsExcluded(c) then 0 else multiset(s)[c]
  {
    FilterKeeps(s, NotExcluded);
  }

  /** Line 52: `re.sub(r'\s+', ' ', keyword).strip()`. The only whitespace left is
      the plain space; that the non-whitespace characters stay, in their order, is
      `CollapseContent`. */
  function Collapse(s: string): (r: string)
    ensures forall c :: c in r ==> c == ' ' || (c in s && !IsSpace(c))
    ensures NoSpace(s) ==> r == s
  {
    var runs := ReplaceRuns(s, " ");
    assert NoSpace(s) ==> runs == s;
    assert forall c :: c in runs ==> c == ' ' || (c in s && !IsSpace(c));
    Strip(runs)
  }

  /** Line 52 keeps every non-whitespace character, in order. */
  lemma CollapseContent(s: string)
    ensures Filter(Collapse(s), NonSpace) == Filter(s, NonSpace)
  {
    FilterReplaceRuns(s, " ", NonSpace);
    FilterStrip(ReplaceRuns(s, " "), NonSpace);
  }

  /** Lines 51-53: the text handed to the tokeniser. The only whitespace left is
      the plain space, and every other character is `&` or a character of the
      input that survives normalisation. */
  function Prepare(keyword: string): (r: string)
    ensures forall c :: c in r ==> c == ' ' || c == '&' || (c in keyword && CanonicalChar(c))
    ensures (forall i :: 0 <= i < |keyword| ==> CanonicalChar(keyword[i])) ==> r == keyword
  {
    var collapsed := Collapse(RemoveExcluded(keyword));
    PrepareChars(keyword);
    PrepareOfCanonical(keyword);
    ReplaceChar(ReplaceChar(collapsed, FullWidthAmp, '&'), IdeographicSpace, '&')
  }

  /** Lines 51-53 keep every significant character of the keyword, in order: the
      deletion and the collapse only drop or add characters that are excluded or
      whitespace, and the replacements only rewrite the full-width ampersand and the
      ideographic space into `&`. */
  lemma PrepareContent(keyword: string)
    ensures Filter(Prepare(keyword), Significant) == Filter(keyword, Significant)
  {
    var removed := RemoveExcluded(keyword);
    var collapsed := Collapse(removed);
    var amps := ReplaceChar(collapsed, FullWidthAmp, '&');
    CollapseContent(removed);
    FilterReplaceChar(amps, IdeographicSpace, '&', Significant);
    FilterReplaceChar(collapsed, FullWidthAmp, '&', Significant);
    FilterFilter(collapsed, NonSpace, Significant);
    FilterFilter(removed, NonSpace, Significant);
    FilterFilter(keyword, NotExcluded, Significant);
  }

  lemma PrepareChars(keyword: string)
    ensures var r := ReplaceChar(ReplaceChar(Collapse(RemoveExcluded(keyword)), FullWidthAmp, '&'), IdeographicSpace, '&');
            forall c :: c in r ==> c == ' ' || c == '&' || (c in keyword && CanonicalChar(c))
  {
    var removed := RemoveExcluded(keyword);
    var collapsed := Collapse(removed);
    var amps := ReplaceChar(collapsed, FullWidthAmp, '&');
    var r := ReplaceChar(amps, IdeographicSpace, '&');
    forall c | c in r ensures c == ' ' || c == '&' || (c in keyword && CanonicalChar(c)) {
      if c != '&' {
        assert c in amps;
        assert c in collapsed && c != FullWidthAmp;
        if c != ' ' {
          assert c in removed && !IsSpace(c);
        }
      }
    }
  }

  lemma PrepareOfCanonical(keyword: string)
    ensures (forall i :: 0 <= i < |keyword| ==> CanonicalChar(keyword[i])) ==>
            ReplaceChar(ReplaceChar(Collapse(RemoveExcluded(keyword)), FullWidthAmp, '&'), IdeographicSpace, '&') == keyword
  {
    if forall i :: 0 <= i < |keyword| ==> CanonicalChar(keyword[i]) {
      assert RemoveExcluded(keyword) == keyword;
      assert NoSpace(keyword);
      assert Collapse(keyword) == keyword;
      assert FullWidthAmp !in keyword;
      assert IdeographicSpace !in keyword;
    }
  }

  /** The second replacement of line 53 never changes anything: line 52 has already
      turned every ideographic space into a plain space or removed it. */
  lemma IdeographicSpaceAlreadyCollapsed(keyword: string)
    ensures var amps := ReplaceChar(Collapse(RemoveExcluded(keyword)), FullWidthAmp, '&');
            IdeographicSpace !in amps && ReplaceChar(amps, IdeographicSpace, '&') == amps
  {
    var collapsed := Collapse(RemoveExcluded(keyword));
    var amps := ReplaceChar(collapsed, FullWidthAmp, '&');
    assert IsSpace(IdeographicSpace);
    forall i | 0 <= i < |amps| ensures amps[i] != IdeographicSpace {
      var c := collapsed[i];
      assert c in collapsed;
      assert c == ' ' || !IsSpace(c);
    }
  }

  // ---------------------------------------------------------------------------
  // Lines 55-78: split on operators and parentheses, process, join
  // ---------------------------------------------------------------------------

  predicate NoDelim(s: string) {
    forall i :: 0 <= i < |s| ==> !IsDelim(s[i])
  }

  /** The test of lines 68 and 76: the part is one of `& + - ( )`. */
  predicate IsDelimPart(part: string) {
    |part| == 1 && IsDelim(part[0])
  }

  /** The shape of `re.split` with a capturing group: text at even positions,
      one captured delimiter at each odd position. */
  predicate Alternating(parts: seq<string>) {
    && |parts| % 2 == 1
    && (forall k :: 0 <= k < |parts| && k % 2 == 0 ==> NoDelim(parts[k]))
    && (forall k :: 0 <= k < |parts| && k % 2 == 1 ==> IsDelimPart(parts[k]))
  }

  /** Line 63: `re.split(r'([&+\-()])', keyword)`. The pieces join back to the input. */
  function SplitParts(s: string): (parts: seq<string>)
    ensures Alternating(parts)
    ensures Concat(parts) == s
  {
    if |s| == 0 then [""]
    else
      var rest := SplitParts(s[1..]);
      SplitStep(s[0], rest);
      assert s == [s[0]] + s[1..];
      if IsDelim(s[0]) then ["", [s[0]]] + rest else [[s[0]] + rest[0]] + rest[1..]
  }

  /** Text without operators or parentheses is split into one part, itself. */
  lemma {:induction false} SplitOfNoDelim(s: string)
    requires NoDelim(s)
    ensures SplitParts(s) == [s]
    decreases |s|
  {
    if |s| > 0 {
      assert !IsDelim(s[0]);
      assert NoDelim(s[1..]) by {
        forall k | 0 <= k < |s[1..]| ensures !IsDelim(s[1..][k]) {
          assert s[1..][k] == s[k + 1];
        }
      }
      SplitOfNoDelim(s[1..]);
      assert [s[0]] + s[1..] == s;
    }
  }

  /** One character in front of a split: a delimiter opens an empty text part and
      a part of its own; any other character joins the first text part. */
  lemma SplitStep(c: char, rest: seq<string>)
    requires Alternating(rest)
    ensures IsDelim(c) ==> Alternating(["", [c]] + rest) && Concat(["", [c]] + rest) == [c] + Concat(rest)
    ensures !IsDelim(c) ==> Alternating([[c] + rest[0]] + rest[1..])
                            && Concat([[c] + rest[0]] + rest[1..]) == [c] + Concat(rest)
  {
    if IsDelim(c) {
      SplitStepDelim(c, rest);
    } else {
      SplitStepText(c, rest);
    }
  }

  lemma SplitStepDelim(c: char, rest: seq<string>)
    requires Alternating(rest) && IsDelim(c)
    ensures Alternating(["", [c]] + rest) && Concat(["", [c]] + rest) == [c] + Concat(rest)
  {
    var parts := ["", [c]] + rest;
    assert parts[1..][1..] == rest;
    assert Concat(parts) == "" + ([c] + Concat(rest));
    forall k | 0 <= k < |parts| && k % 2 == 1 ensures IsDelimPart(parts[k]) {
      if k > 1 {
        assert parts[k] == rest[k - 2];
      }
    }
    forall k | 0 <= k < |parts| && k % 2 == 0 ensures NoDelim(parts[k]) {
      if k > 1 {
        assert parts[k] == rest[k - 2];
      }
    }
  }

  lemma SplitStepText(c: char, rest: seq<string>)
    requires Alternating(rest) && !IsDelim(c)
    ensures Alternating([[c] + rest[0]] + rest[1..]) && Concat([[c] + rest[0]] + rest[1..]) == [c] + Concat(rest)
  {
    var head := [c] + rest[0];
    assert head[1..] == rest[0];
    assert NoDelim(rest[0]);
    AlternatingNewHead(rest, head);
    ConcatNewHead(c, rest);
  }

  /** Replacing the first text part by another text part keeps the alternation. */
  lemma AlternatingNewHead(rest: seq<string>, head: string)
    requires Alternating(rest) && |head| > 0 && !IsDelim(head[0]) && NoDelim(head[1..])
    ensures Alternating([head] + rest[1..])
  {
    var parts := [head] + rest[1..];
    assert NoDelim(head) by {
      forall i | 0 < i < |head| ensures !IsDelim(head[i]) {
        assert head[i] == head[1..][i - 1];
      }
    }
    forall k | 0 < k < |parts| ensures parts[k] == rest[k] { }
  }

  /** `process_part` (lines 56-60): a part holding both parentheses is kept
      verbatim; otherwise it is stripped and its inner whitespace runs become `&`. */
  function ProcessPart(part: string): (r: string)
    ensures '(' in part && ')' in part ==> r == part
    ensures !('(' in part && ')' in part) ==> NoSpace(r)
    ensures forall c :: c in r ==> c == '&' || c in part
  {
    if '(' in part && ')' in part then part
    else
      OperandPartChars(part);
      ReplaceRuns(Strip(part), "&")
  }

  /** Line 60 on two whitespace-free words with whitespace around and between them:
      the outer whitespace is stripped and the inner run becomes one `&`, so
      "a b" gives "a&b". */
  lemma ProcessPartSpaced(g0: string, w1: string, g: string, w2: string, g2: string)
    requires AllSpace(g0) && AllSpace(g) && AllSpace(g2) && |g| > 0
    requires |w1| > 0 && |w2| > 0 && NoSpace(w1) && NoSpace(w2) && '(' !in w1 && '(' !in w2
    ensures ProcessPart(g0 + w1 + g + w2 + g2) == w1 + "&" + w2
  {
    var x := w1 + g + w2;
    var part := g0 + w1 + g + w2 + g2;
    assert part == g0 + x + g2;
    assert '(' !in part by {
      forall i | 0 <= i < |part| ensures part[i] != '(' {
        if i < |g0| {
          assert part[i] == g0[i];
        } else if i < |g0| + |w1| {
          assert part[i] == w1[i - |g0|];
        } else if i < |g0| + |w1| + |g| {
          assert part[i] == g[i - |g0| - |w1|];
        } else if i < |g0| + |w1| + |g| + |w2| {
          assert part[i] == w2[i - |g0| - |w1| - |g|];
        } else {
          assert part[i] == g2[i - |g0| - |w1| - |g| - |w2|];
        }
      }
    }
    assert x[0] == w1[0] && x[|x| - 1] == w2[|w2| - 1];
    StripAround(g0, x, g2);
    ReplaceRunsGap(w1, g, w2, "&");
  }

  lemma OperandPartChars(part: string)
    ensures var r := ReplaceRuns(Strip(part), "&");
            NoSpace(r) && forall c :: c in r ==> c == '&' || c in part
  {
    var stripped := Strip(part);
    var r := ReplaceRuns(stripped, "&");
    forall c | c in r ensures c == '&' || (c in part && !IsSpace(c)) {
      if c !in "&" {
        assert c in stripped;
      }
    }
    forall i | 0 <= i < |r| ensures !IsSpace(r[i]) {
      assert r[i] in r;
    }
  }

  /** Lines 66-71: delimiters are kept, every other part goes through `ProcessPart`. */
  function ProcessParts(parts: seq<string>): (r: seq<string>)
    ensures |r| == |parts|
    ensures forall k :: 0 <= k < |parts| ==>
              r[k] == if IsDelimPart(parts[k]) then parts[k] else ProcessPart(parts[k])
  {
    if |parts| == 0 then []
    else [if IsDelimPart(parts[0]) then parts[0] else ProcessPart(parts[0])] + ProcessParts(parts[1..])
  }

  lemma ProcessSingle(part: string)
    requires !IsDelimPart(part)
    ensures ProcessParts([part]) == [ProcessPart(part)]
  {
    assert [part][1..] == [];
  }

  /** Line 57 never fires: the split of line 63 isolates every parenthesis, so
      no non-delimiter part contains one and every such part is stripped and
      `&`-joined. */
  lemma ParenPartTestNeverFires(s: string)
    ensures var parts := SplitParts(s);
            forall k :: 0 <= k < |parts| && !IsDelimPart(parts[k]) ==>
              '(' !in parts[k] && ProcessPart(parts[k]) == ReplaceRuns(Strip(parts[k]), "&")
  {
    var parts := SplitParts(s);
    forall k | 0 <= k < |parts| && !IsDelimPart(parts[k])
      ensures '(' !in parts[k]
    {
      assert k % 2 == 0;
    }
  }

  /** Lines 74-78, from position `i` on with `acc` already built. Reading
      `acc[-1]` on an empty `acc` is Python's `IndexError`. */
  function JoinFrom(parts: seq<string>, i: nat, acc: string): (r: Result<string>)
    requires i <= |parts|
    ensures r.Failure? ==> r.error == EmptyJoinBuffer && acc == "" && i < |parts|
    decreases |parts| - i
  {
    if i == |parts| then Success(acc)
    else
      var part := parts[i];
      if i > 0 && !IsDelimPart(part) && |acc| == 0 then Failure(EmptyJoinBuffer)
      else if i > 0 && !IsDelimPart(part) && !IsDelim(acc[|acc| - 1]) then
        JoinFrom(parts, i + 1, acc + "&" + part)
      else
        JoinFrom(parts, i + 1, acc + part)
  }

  /** Lines 74-78: join the processed parts, inserting `&` between two operands.
      The only error is the `IndexError` of line 76, and it needs an empty first
      part followed by at least one more part. */
  function JoinParts(parts: seq<string>): (r: Result<string>)
    ensures r.Failure? ==> r.error == EmptyJoinBuffer && |parts| >= 2 && parts[0] == ""
  {
    JoinFrom(parts, 0, "")
  }

  /** Every odd-position part is a single delimiter. */
  predicate DelimsAtOdd(parts: seq<string>) {
    forall k :: 0 <= k < |parts| && k % 2 == 1 ==> IsDelimPart(parts[k])
  }

  lemma {:induction false} JoinFromIsConcat(parts: seq<string>, i: nat, acc: string)
    requires DelimsAtOdd(parts)
    requires i <= |parts|
    requires i > 0 && i % 2 == 0 ==> |acc| > 0 && IsDelim(acc[|acc| - 1])
    ensures JoinFrom(parts, i, acc) == Success(acc + Concat(parts[i..]))
    decreases |parts| - i
  {
    if i < |parts| {
      var part := parts[i];
      assert Concat(parts[i..]) == part + Concat(parts[i + 1..]) by {
        assert parts[i..][1..] == parts[i + 1..];
      }
      if i % 2 == 1 {
        assert IsDelimPart(part);
        assert (acc + part)[|acc + part| - 1] == part[0];
      }
      assert JoinFrom(parts, i, acc) == JoinFrom(parts, i + 1, acc + part);
      JoinFromIsConcat(parts, i + 1, acc + part);
      assert acc + part + Concat(parts[i + 1..]) == acc + (part + Concat(parts[i + 1..]));
    } else {
      assert acc + Concat(parts[i..]) == acc;
    }
  }

  /** Lines 76-77 never insert and never raise: every operand part follows a
      delimiter part, so the join of split output is plain concatenation. */
  lemma JoinIsConcat(parts: seq<string>)
    requires DelimsAtOdd(parts)
    ensures JoinParts(parts) == Success(Concat(parts))
  {
    JoinFromIsConcat(parts, 0, "");
    assert parts[0..] == parts;
    assert "" + Concat(parts) == Concat(parts);
  }

  /** Lines 55-78: the tokeniser. It never fails; the result has no whitespace,
      and every character is `&` or a non-whitespace character of the input.
      Text that already has no whitespace comes back unchanged. */
  function Tokenize(s: string): (r: Result<string>)
    ensures r.Success?
    ensures forall c :: c in r.value ==> c == '&' || (c in s && !IsSpace(c))
    ensures NoSpace(s) ==> r == Success(s)
  {
    var parts := SplitParts(s);
    var processed := ProcessParts(parts);
    ProcessedDelimsAtOdd(s);
    JoinIsConcat(processed);
    ProcessedChars(s);
    ProcessedNoSpace(s);
    JoinParts(processed)
  }

  /** The tokeniser keeps everything but whitespace and `&`, in order. */
  lemma TokenizeContent(s: string)
    ensures Filter(Tokenize(s).value, Solid) == Filter(s, Solid)
  {
    var parts := SplitParts(s);
    ProcessedDelimsAtOdd(s);
    JoinIsConcat(ProcessParts(parts));
    ProcessedContent(parts);
  }

  /** Processing the parts keeps everything but whitespace and `&`, in order. */
  lemma {:induction false} ProcessedContent(parts: seq<string>)
    ensures Filter(Concat(ProcessParts(parts)), Solid) == Filter(Concat(parts), Solid)
    decreases |parts|
  {
    if |parts| > 0 {
      var head := parts[0];
      var done := if IsDelimPart(head) then head else ProcessPart(head);
      var rest := ProcessParts(parts[1..]);
      assert ProcessParts(parts) == [done] + rest;
      ConcatCons(done, rest);
      ConcatUnfold(parts);
      FilterAppend(done, Concat(rest), Solid);
      FilterAppend(head, Concat(parts[1..]), Solid);
      ProcessedContent(parts[1..]);
      if !IsDelimPart(head) {
        ProcessPartContent(head);
      }
    }
  }

  /** `process_part` drops only whitespace and adds only `&`. */
  lemma ProcessPartContent(part: string)
    ensures Filter(ProcessPart(part), Solid) == Filter(part, Solid)
  {
    FilterStrip(part, Solid);
    FilterReplaceRuns(Strip(part), "&", Solid);
  }

  lemma ProcessedDelimsAtOdd(s: string)
    ensures DelimsAtOdd(ProcessParts(SplitParts(s)))
  {
    var parts := SplitParts(s);
    var processed := ProcessParts(parts);
    forall k | 0 <= k < |processed| && k % 2 == 1 ensures IsDelimPart(processed[k]) {
      assert IsDelimPart(parts[k]);
    }
  }

  /** A character of a split part occurs in the split text. */
  lemma SplitPartChar(s: string, k: nat, c: char)
    requires k < |SplitParts(s)| && c in SplitParts(s)[k]
    ensures c in s
  {
    ConcatContainsPart(SplitParts(s), k, c);
  }

  /** The processed parts hold only `&` and non-whitespace characters of the input. */
  lemma ProcessedChars(s: string)
    ensures forall c :: c in Concat(ProcessParts(SplitParts(s))) ==> c == '&' || (c in s && !IsSpace(c))
  {
    var processed := ProcessParts(SplitParts(s));
    forall c | c in Concat(processed) ensures c == '&' || (c in s && !IsSpace(c)) {
      ConcatChars(processed, c);
      var k :| 0 <= k < |processed| && c in processed[k];
      ProcessedPartChar(s, k, c);
    }
  }

  lemma ProcessedPartChar(s: string, k: nat, c: char)
    requires k < |SplitParts(s)| && c in ProcessParts(SplitParts(s))[k]
    ensures c == '&' || (c in s && !IsSpace(c))
  {
    var parts := SplitParts(s);
    if IsDelimPart(parts[k]) {
      var part := parts[k];
      assert ProcessParts(parts)[k] == part;
      OnlyMember(part, c);
      DelimNotSpace(c);
      SplitPartChar(s, k, c);
    } else {
      assert k % 2 == 0;
      ProcessPartChar(parts[k], c);
      if c != '&' {
        SplitPartChar(s, k, c);
      }
    }
  }

  /** A processed operand holds `&` and the non-whitespace characters of the operand. */
  lemma ProcessPartChar(part: string, c: char)
    requires NoDelim(part) && c in ProcessPart(part)
    ensures c == '&' || (c in part && !IsSpace(c))
  {
  }

  /** Without whitespace, processing leaves every part as it is. */
  lemma ProcessedNoSpace(s: string)
    ensures NoSpace(s) ==> ProcessParts(SplitParts(s)) == SplitParts(s)
  {
    var parts := SplitParts(s);
    var processed := ProcessParts(parts);
    if NoSpace(s) {
      ParenPartTestNeverFires(s);
      forall k | 0 <= k < |parts| ensures processed[k] == parts[k] {
        if !IsDelimPart(parts[k]) {
          forall i | 0 <= i < |parts[k]| ensures !IsSpace(parts[k][i]) {
            SplitPartChar(s, k, parts[k][i]);
          }
          assert NoSpace(parts[k]);
        }
      }
    }
  }

  // ---------------------------------------------------------------------------
  // Lines 80-81: separate parentheses from their operands
  // ---------------------------------------------------------------------------

  /** Every `(` that is not first is preceded by an operator. */
  predicate OpensOk(s: string) {
    forall j :: 0 < j < |s| && s[j] == '(' ==> IsOp(s[j - 1])
  }

  /** Every `)` that is not last is followed by an operator. */
  predicate ClosesOk(s: string) {
    forall j :: 0 <= j < |s| - 1 && s[j] == ')' ==> IsOp(s[j + 1])
  }

  /** The lookbehind `(?<![&+\-])\(` matches at position `i`. */
  predicate OpenNeedsAmp(s: string, i: nat)
    requires i < |s|
  {
    s[i] == '(' && (i == 0 || !IsOp(s[i - 1]))
  }

  /** The lookahead `\)(?![&+\-])` matches at position `i`. */
  predicate CloseNeedsAmp(s: string, i: nat)
    requires i < |s|
  {
    s[i] == ')' && (i == |s| - 1 || !IsOp(s[i + 1]))
  }

  /** The substitution `re.sub(r'(?<![&+\-])\(', r'&(', s)` applied from position `i` on. */
  function SeparateOpensFrom(s: string, i: nat): (r: string)
    requires i <= |s|
    ensures i < |s| ==> |r| > 0 && r[0] == if OpenNeedsAmp(s, i) then '&' else s[i]
    ensures OpensOk(r)
    ensures forall c :: c in r ==> c == '&' || c in s
    ensures OpensOk(s) && 0 < i ==> r == s[i..]
    decreases |s| - i
  {
    if i == |s| then ""
    else
      var piece := if OpenNeedsAmp(s, i) then "&(" else [s[i]];
      var rest := SeparateOpensFrom(s, i + 1);
      var r := piece + rest;
      assert OpensOk(r) by {
        forall j | 0 < j < |r| && r[j] == '(' ensures IsOp(r[j - 1]) {
          if j > |piece| {
            assert r[j] == rest[j - |piece|] && r[j - 1] == rest[j - 1 - |piece|];
          } else if j == |piece| {
            assert rest[0] == '(';
            assert !OpenNeedsAmp(s, i + 1);
          }
        }
      }
      assert OpensOk(s) && 0 < i ==> r == s[i..] by {
        if OpensOk(s) && 0 < i {
          assert !OpenNeedsAmp(s, i);
          assert s[i..] == [s[i]] + s[i + 1..];
        }
      }
      r
  }

  /** Line 80: insert `&` before every `(` that does not follow an operator,
      then `lstrip('&')`. Afterwards every `(` is first or follows an operator,
      and the text does not start with `&`; apart from `&` the text is unchanged. */
  function SeparateOpens(s: string): (r: string)
    ensures OpensOk(r)
    ensures |r| > 0 ==> r[0] != '&'
    ensures forall c :: c in r ==> c == '&' || c in s
    ensures OpensOk(s) ==> r == TrimLeft(s, IsAmp)
  {
    var inserted := SeparateOpensFrom(s, 0);
    OpensOkSlice(inserted, |inserted| - |TrimLeft(inserted, IsAmp)|, |inserted|);
    SeparateOpensOfSeparated(s);
    TrimLeft(inserted, IsAmp)
  }

  /** On text whose `(` already follow operators, line 80 only strips leading `&`. */
  lemma SeparateOpensOfSeparated(s: string)
    ensures OpensOk(s) ==> TrimLeft(SeparateOpensFrom(s, 0), IsAmp) == TrimLeft(s, IsAmp)
  {
    if OpensOk(s) && |s| > 0 {
      var inserted := SeparateOpensFrom(s, 0);
      var tail := SeparateOpensFrom(s, 1);
      assert tail == s[1..];
      if s[0] == '(' {
        assert OpenNeedsAmp(s, 0);
        assert inserted == "&(" + s[1..];
        AmpBeforeOpen(s);
      } else {
        assert !OpenNeedsAmp(s, 0);
        assert inserted == [s[0]] + s[1..];
        assert [s[0]] + s[1..] == s;
      }
    }
  }

  /** Line 80 only inserts and strips `&`: every other character stays, in order. */
  lemma SeparateOpensContent(s: string)
    ensures Filter(SeparateOpens(s), NotAmp) == Filter(s, NotAmp)
  {
    SeparateOpensFromContent(s, 0);
    FilterTrimLeft(SeparateOpensFrom(s, 0), IsAmp, NotAmp);
    assert s[0..] == s;
  }

  /** Line 81 only inserts and strips `&`: every other character stays, in order. */
  lemma SeparateClosesContent(s: string)
    ensures Filter(SeparateCloses(s), NotAmp) == Filter(s, NotAmp)
  {
    SeparateClosesFromContent(s, 0);
    FilterTrimRight(SeparateClosesFrom(s, 0), IsAmp, NotAmp);
    assert s[0..] == s;
  }

  /** The substitution of line 80 only inserts `&`: apart from `&` its result is
      `s[i..]`, character for character. */
  lemma {:induction false} SeparateOpensFromContent(s: string, i: nat)
    requires i <= |s|
    ensures Filter(SeparateOpensFrom(s, i), NotAmp) == Filter(s[i..], NotAmp)
    decreases |s| - i
  {
    if i < |s| {
      var piece := if OpenNeedsAmp(s, i) then "&(" else [s[i]];
      SeparateOpensFromContent(s, i + 1);
      PieceContent(s, i, piece, SeparateOpensFrom(s, i + 1));
    }
  }

  /** The substitution of line 81 only inserts `&`: apart from `&` its result is
      `s[i..]`, character for character. */
  lemma {:induction false} SeparateClosesFromContent(s: string, i: nat)
    requires i <= |s|
    ensures Filter(SeparateClosesFrom(s, i), NotAmp) == Filter(s[i..], NotAmp)
    decreases |s| - i
  {
    if i < |s| {
      var piece := if CloseNeedsAmp(s, i) then ")&" else [s[i]];
      SeparateClosesFromContent(s, i + 1);
      PieceContent(s, i, piece, SeparateClosesFrom(s, i + 1));
    }
  }

  /** How many of the positions `i..j-1` the lookbehind of line 80 matches. */
  function OpensMatched(s: string, i: nat, j: nat): nat
    requires i <= j <= |s|
    decreases j - i
  {
    if i == j then 0 else (if OpenNeedsAmp(s, i) then 1 else 0) + OpensMatched(s, i + 1, j)
  }

  /** How many of the positions `i..j-1` the lookahead of line 81 matches. */
  function ClosesMatched(s: string, i: nat, j: nat): nat
    requires i <= j <= |s|
    decreases j - i
  {
    if i == j then 0 else (if CloseNeedsAmp(s, i) then 1 else 0) + ClosesMatched(s, i + 1, j)
  }

  /** `r` is `s[i..]` with an `&` put before exactly the positions where the
      lookbehind of line 80 matches: `s[j]` sits in `r` shifted right by the
      matches up to and including `j`, the matched ones have `&` just before them,
      and `r` is longer than `s[i..]` by the number of matches. These facts leave
      no freedom, so they determine `r`. */
  predicate OpensPlaced(s: string, i: nat, r: string)
    requires i <= |s|
  {
    && |r| == |s| - i + OpensMatched(s, i, |s|)
    && forall j :: i <= j < |s| ==> OpenPlacedAt(s, i, r, j)
  }

  predicate OpenPlacedAt(s: string, i: nat, r: string, j: nat)
    requires i <= j < |s|
  {
    var p := j - i + OpensMatched(s, i, j + 1);
    && p < |r| && r[p] == s[j]
    && (OpenNeedsAmp(s, j) ==> p >= 1 && r[p - 1] == '&')
  }

  /** `r` is `s[i..]` with an `&` put after exactly the positions where the
      lookahead of line 81 matches, in the same sense. */
  predicate ClosesPlaced(s: string, i: nat, r: string)
    requires i <= |s|
  {
    && |r| == |s| - i + ClosesMatched(s, i, |s|)
    && forall j :: i <= j < |s| ==> ClosePlacedAt(s, i, r, j)
  }

  predicate ClosePlacedAt(s: string, i: nat, r: string, j: nat)
    requires i <= j < |s|
  {
    var p := j - i + ClosesMatched(s, i, j);
    && p < |r| && r[p] == s[j]
    && (CloseNeedsAmp(s, j) ==> p + 1 < |r| && r[p + 1] == '&')
  }

  /** The substitution of line 80 inserts `&` exactly where its lookbehind matches. */
  lemma {:induction false} SeparateOpensFromPlaces(s: string, i: nat)
    requires i <= |s|
    ensures OpensPlaced(s, i, SeparateOpensFrom(s, i))
    decreases |s| - i
  {
    if i < |s| {
      SeparateOpensFromPlaces(s, i + 1);
      var piece := if OpenNeedsAmp(s, i) then "&(" else [s[i]];
      OpensPlacedStep(s, i, piece, SeparateOpensFrom(s, i + 1));
    }
  }

  lemma OpensPlacedStep(s: string, i: nat, piece: string, rest: string)
    requires i < |s| && piece == if OpenNeedsAmp(s, i) then "&(" else [s[i]]
    requires OpensPlaced(s, i + 1, rest)
    ensures OpensPlaced(s, i, piece + rest)
  {
    var r := piece + rest;
    forall j | i <= j < |s| ensures OpenPlacedAt(s, i, r, j) {
      if j > i {
        assert OpenPlacedAt(s, i + 1, rest, j);
        var q := j - (i + 1) + OpensMatched(s, i + 1, j + 1);
        assert j - i + OpensMatched(s, i, j + 1) == |piece| + q;
        assert r[|piece| + q] == rest[q];
        if OpenNeedsAmp(s, j) {
          assert r[|piece| + q - 1] == rest[q - 1];
        }
      } else {
        assert OpensMatched(s, i + 1, j + 1) == 0;
      }
    }
  }

  /** The substitution of line 81 inserts `&` exactly where its lookahead matches. */
  lemma {:induction false} SeparateClosesFromPlaces(s: string, i: nat)
    requires i <= |s|
    ensures ClosesPlaced(s, i, SeparateClosesFrom(s, i))
    decreases |s| - i
  {
    if i < |s| {
      SeparateClosesFromPlaces(s, i + 1);
      var piece := if CloseNeedsAmp(s, i) then ")&" else [s[i]];
      ClosesPlacedStep(s, i, piece, SeparateClosesFrom(s, i + 1));
    }
  }

  lemma ClosesPlacedStep(s: string, i: nat, piece: string, rest: string)
    requires i < |s| && piece == if CloseNeedsAmp(s, i) then ")&" else [s[i]]
    requires ClosesPlaced(s, i + 1, rest)
    ensures ClosesPlaced(s, i, piece + rest)
  {
    var r := piece + rest;
    forall j | i <= j < |s| ensures ClosePlacedAt(s, i, r, j) {
      if j > i {
        assert ClosePlacedAt(s, i + 1, rest, j);
        var q := j - (i + 1) + ClosesMatched(s, i + 1, j);
        assert j - i + ClosesMatched(s, i, j) == |piece| + q;
        assert r[|piece| + q] == rest[q];
        if CloseNeedsAmp(s, j) {
          assert r[|piece| + q + 1] == rest[q + 1];
        }
      }
    }
  }

  /** One step of either substitution of lines 80-81: the character at `i`, with or
      without an `&` beside it, keeps the content of `s[i..]` apart from `&`. */
  lemma PieceContent(s: string, i: nat, piece: string, rest: string)
    requires i < |s|
    requires piece == [s[i]] || piece == "&" + [s[i]] || piece == [s[i]] + "&"
    requires Filter(rest, NotAmp) == Filter(s[i + 1..], NotAmp)
    ensures Filter(piece + rest, NotAmp) == Filter(s[i..], NotAmp)
  {
    var c := [s[i]];
    ConsSlice(s, i);
    FilterAppend(piece, rest, NotAmp);
    FilterAppend(c, s[i + 1..], NotAmp);
    FilterAppend("&", c, NotAmp);
    FilterAppend(c, "&", NotAmp);
    FilterNone("&", NotAmp);
  }

  /** An `&` put in front of text starting with `(` is trimmed away again. */
  lemma AmpBeforeOpen(s: string)
    requires |s| > 0 && s[0] == '('
    ensures TrimLeft("&(" + s[1..], IsAmp) == TrimLeft(s, IsAmp)
  {
    AmpOpenTail(s);
    TrimLeftDrop("&(" + s[1..], IsAmp);
  }

  lemma OpensOkSlice(s: string, a: nat, b: nat)
    requires a <= b <= |s|
    ensures OpensOk(s) ==> OpensOk(s[a..b])
  {
    if OpensOk(s) {
      var t := s[a..b];
      forall j | 0 < j < |t| && t[j] == '(' ensures IsOp(t[j - 1]) {
        assert t[j] == s[a + j] && t[j - 1] == s[a + j - 1];
      }
    }
  }

  lemma ClosesOkSlice(s: string, a: nat, b: nat)
    requires a <= b <= |s|
    ensures ClosesOk(s) ==> ClosesOk(s[a..b])
  {
    if ClosesOk(s) {
      var t := s[a..b];
      forall j | 0 <= j < |t| - 1 && t[j] == ')' ensures IsOp(t[j + 1]) {
        assert t[j] == s[a + j] && t[j + 1] == s[a + j + 1];
      }
    }
  }

  /** The substitution `re.sub(r'\)(?![&+\-])', r')&', s)` applied from position `i` on. */
  function SeparateClosesFrom(s: string, i: nat): (r: string)
    requires i <= |s|
    ensures i < |s| ==> |r| > 0 && r[0] == s[i]
    ensures i == |s| ==> r == ""
    ensures |r| > 0 ==> r[|r| - 1] != ')'
    ensures forall j :: 0 <= j < |r| && r[j] == ')' ==> j + 1 < |r| && IsOp(r[j + 1])
    ensures OpensOk(s) ==> OpensOk(r)
    ensures forall c :: c in r ==> c == '&' || c in s
    ensures ClosesOk(s) ==> r == s[i..] + if |s| > i && s[|s| - 1] == ')' then "&" else ""
    decreases |s| - i
  {
    if i == |s| then ""
    else
      var piece := if CloseNeedsAmp(s, i) then ")&" else [s[i]];
      var rest := SeparateClosesFrom(s, i + 1);
      SeparateClosesStep(s, i, piece, rest);
      piece + rest
  }

  lemma SeparateClosesStep(s: string, i: nat, piece: string, rest: string)
    requires i < |s|
    requires piece == if CloseNeedsAmp(s, i) then ")&" else [s[i]]
    requires i + 1 < |s| ==> |rest| > 0 && rest[0] == s[i + 1]
    requires i + 1 == |s| ==> rest == ""
    requires |rest| > 0 ==> rest[|rest| - 1] != ')'
    requires forall j :: 0 <= j < |rest| && rest[j] == ')' ==> j + 1 < |rest| && IsOp(rest[j + 1])
    requires OpensOk(s) ==> OpensOk(rest)
    requires ClosesOk(s) ==> rest == s[i + 1..] + if |s| > i + 1 && s[|s| - 1] == ')' then "&" else ""
    ensures var r := piece + rest;
            && (|r| > 0 ==> r[|r| - 1] != ')')
            && (forall j :: 0 <= j < |r| && r[j] == ')' ==> j + 1 < |r| && IsOp(r[j + 1]))
            && (OpensOk(s) ==> OpensOk(r))
            && (ClosesOk(s) ==> r == s[i..] + if |s| > i && s[|s| - 1] == ')' then "&" else "")
  {
    var r := piece + rest;
    assert s[i..] == [s[i]] + s[i + 1..];
    forall j | 0 <= j < |r| && r[j] == ')' ensures j + 1 < |r| && IsOp(r[j + 1]) {
      if j >= |piece| {
        assert r[j] == rest[j - |piece|];
      } else if !CloseNeedsAmp(s, i) {
        assert r[j + 1] == rest[0] == s[i + 1];
      }
    }
    if OpensOk(s) {
      forall j | 0 < j < |r| && r[j] == '(' ensures IsOp(r[j - 1]) {
        if j > |piece| {
          assert r[j] == rest[j - |piece|] && r[j - 1] == rest[j - 1 - |piece|];
        } else {
          assert j == |piece| && rest[0] == '(' == s[i + 1];
        }
      }
    }
    if ClosesOk(s) && i < |s| - 1 {
      assert !CloseNeedsAmp(s, i);
    }
  }

  /** Line 81: insert `&` after every `)` that is not followed by an operator,
      then `rstrip('&')`. Afterwards every `)` is last or followed by an operator,
      the text does not end with `&`, and line 80's guarantee about `(` still holds. */
  function SeparateCloses(s: string): (r: string)
    ensures ClosesOk(r)
    ensures |r| > 0 ==> r[|r| - 1] != '&'
    ensures OpensOk(s) ==> OpensOk(r)
    ensures |r| > 0 ==> |s| > 0 && r[0] == s[0]
    ensures forall c :: c in r ==> c == '&' || c in s
    ensures ClosesOk(s) ==> r == TrimRight(s, IsAmp)
  {
    var inserted := SeparateClosesFrom(s, 0);
    var r := TrimRight(inserted, IsAmp);
    OpensOkSlice(inserted, 0, |r|);
    ClosesOkOfInserted(inserted, |r|);
    SeparateClosesOfSeparated(s);
    assert |r| > 0 ==> r[0] == inserted[0];
    r
  }

  lemma ClosesOkOfInserted(inserted: string, n: nat)
    requires n <= |inserted|
    requires forall j :: 0 <= j < |inserted| && inserted[j] == ')' ==> j + 1 < |inserted| && IsOp(inserted[j + 1])
    ensures ClosesOk(inserted[..n])
  {
    var r := inserted[..n];
    forall j | 0 <= j < |r| - 1 && r[j] == ')' ensures IsOp(r[j + 1]) {
      assert inserted[j] == ')';
    }
  }

  /** On text whose `)` already precede operators, line 81 only strips trailing `&`. */
  lemma SeparateClosesOfSeparated(s: string)
    ensures ClosesOk(s) ==> TrimRight(SeparateClosesFrom(s, 0), IsAmp) == TrimRight(s, IsAmp)
  {
    var inserted := SeparateClosesFrom(s, 0);
    assert s[0..] == s;
    if ClosesOk(s) {
      if |s| > 0 && s[|s| - 1] == ')' {
        assert inserted == s + "&";
        assert inserted[..|inserted| - 1] == s;
      } else {
        assert inserted == s;
      }
    }
  }

  // ---------------------------------------------------------------------------
  // Lines 83-89: remove_redundant_parentheses
  // ---------------------------------------------------------------------------

  /** No `((` anywhere in `s`. */
  predicate NoDoubleOpen(s: string) {
    forall j :: 0 <= j < |s| - 1 ==> !(s[j] == '(' && s[j + 1] == '(')
  }

  /** The lazy group `(.*?)\)\)` starting at `j`: the first `))` at or after `j`
      reached without crossing a newline (`.` does not match `\n`). */
  function FindDoubleClose(s: string, j: nat): (r: Option<nat>)
    requires j <= |s|
    ensures r.Some? ==> j <= r.value && r.value + 2 <= |s| && s[r.value] == ')' && s[r.value + 1] == ')'
    ensures r.Some? ==> forall k :: j <= k < r.value ==> s[k] != '\n' && !(s[k] == ')' && s[k + 1] == ')')
    ensures r.None? ==> forall k :: j <= k < |s| - 1 && s[k] == ')' && s[k + 1] == ')' ==> '\n' in s[j..k]
    decreases |s| - j
  {
    if j + 2 > |s| then None
    else if s[j] == ')' && s[j + 1] == ')' then Some(j)
    else if s[j] == '\n' then None
    else FindDoubleClose(s, j + 1)
  }

  /** One `re.sub(r'\(\((.*?)\)\)', r'(\1)', s)` pass over `s[p..]`. A successful
      match removes two characters, so the pass never lengthens the text and
      changes it only by shortening it. */
  function CollapseFrom(s: string, p: nat): (r: string)
    requires p <= |s|
    ensures |r| <= |s| - p
    ensures |r| == |s| - p ==> r == s[p..]
    ensures NoDoubleOpen(s) ==> r == s[p..]
    decreases |s| - p
  {
    var close := if p + 2 <= |s| && s[p] == '(' && s[p + 1] == '(' then FindDoubleClose(s, p + 2) else None;
    if close.Some? then
      "(" + s[p + 2..close.value] + ")" + CollapseFrom(s, close.value + 2)
    else if p < |s| then
      assert s[p..] == [s[p]] + s[p + 1..];
      [s[p]] + CollapseFrom(s, p + 1)
    else ""
  }

  /** `remove_redundant_parentheses`: repeat the collapse pass until it changes nothing. */
  function RemoveRedundantParens(s: string): (r: string)
    ensures |r| <= |s|
    ensures NoDoubleOpen(s) ==> r == s
    decreases |s|
  {
    var next := CollapseFrom(s, 0);
    assert s[0..] == s;
    if next == s then s else RemoveRedundantParens(next)
  }

  // ---------------------------------------------------------------------------
  // Line 44-91: the whole normaliser
  // ---------------------------------------------------------------------------

  /** The shape `clean_keyword` guarantees: only characters that survive
      normalisation, every `(` first or preceded by an operator, every `)` last
      or followed by an operator. The shape is closed under taking slices. */
  predicate Canonical(s: string) {
    && (forall i :: 0 <= i < |s| ==> CanonicalChar(s[i]))
    && OpensOk(s)
    && ClosesOk(s)
  }

  /** Neither the first nor the last character is `&`. */
  predicate AmpTrimmed(s: string) {
    |s| > 0 ==> s[0] != '&' && s[|s| - 1] != '&'
  }

  /** A text whose every `(` is first or follows an operator has no `((`. */
  lemma OpensOkNoDoubleOpen(s: string)
    requires OpensOk(s)
    ensures NoDoubleOpen(s)
  {
    forall j | 0 <= j < |s| - 1 ensures !(s[j] == '(' && s[j + 1] == '(') {
      if s[j + 1] == '(' {
        assert IsOp(s[j]);
      }
    }
  }

  /** Lines 80-81 applied to the tokeniser's output. Afterwards every `(` is first
      or follows an operator, every `)` is last or precedes one, the text neither
      starts nor ends with `&`, and it has no `((` for lines 83-89 to collapse.
      Only `&` is inserted or removed (`SeparateContent`). */
  function Separate(tokens: string): (r: string)
    ensures OpensOk(r) && ClosesOk(r) && AmpTrimmed(r) && NoDoubleOpen(r)
    ensures forall c :: c in r ==> c == '&' || c in tokens
  {
    var openSeparated := SeparateOpens(tokens);
    var r := SeparateCloses(openSeparated);
    OpensOkNoDoubleOpen(r);
    r
  }

  /** Lines 80-81 move only `&`: every other character of the tokens stays, in order. */
  lemma SeparateContent(tokens: string)
    ensures Filter(Separate(tokens), NotAmp) == Filter(tokens, NotAmp)
  {
    SeparateOpensContent(tokens);
    SeparateClosesContent(SeparateOpens(tokens));
  }

  /** `clean_keyword`. It never fails; its result is canonical, does not start or
      end with `&`, and consists of `&` and characters of the input; which
      characters, and in which order, `CleanContent` states. */
  function Clean(keyword: string): (r: string)
    ensures Canonical(r) && AmpTrimmed(r)
    ensures forall c :: c in r ==> c == '&' || c in keyword
  {
    var tokens := Tokenize(Prepare(keyword)).value;
    CleanShape(keyword);
    RemoveRedundantParens(Separate(tokens))
  }

  /** What `clean_keyword` keeps: apart from `&`, its result holds exactly the
      keyword's characters that survive normalisation (no whitespace, nothing
      excluded, no full-width ampersand), in their order. The chain: the collapse of
      lines 83-89 changes nothing, lines 80-81 move only `&`, the tokeniser keeps
      everything but whitespace and `&`, and lines 51-53 keep every significant character. */
  lemma CleanContent(keyword: string)
    ensures Filter(Clean(keyword), NotAmp) == Filter(keyword, Significant)
  {
    var prepared := Prepare(keyword);
    var tokens := Tokenize(prepared).value;
    CleanShape(keyword);
    SeparateContent(tokens);
    TokenizeContent(prepared);
    PrepareContent(keyword);
    TokensChars(keyword);
    forall i | 0 <= i < |tokens| ensures NotAmp(tokens[i]) == Significant(tokens[i]) {
      assert tokens[i] in tokens;
    }
    FilterAgree(tokens, NotAmp, Significant);
    FilterFilter(tokens, Solid, Significant);
    FilterFilter(prepared, Solid, Significant);
  }

  /** The characters that reach line 80 are `&` and input characters that survive normalisation. */
  lemma TokensChars(keyword: string)
    ensures forall c :: c in Tokenize(Prepare(keyword)).value ==> c == '&' || (c in keyword && CanonicalChar(c))
  {
    var prepared := Prepare(keyword);
    var tokens := Tokenize(prepared).value;
    forall c | c in tokens ensures c == '&' || (c in keyword && CanonicalChar(c)) {
      if c != '&' {
        assert c in prepared && !IsSpace(c);
      }
    }
  }

  /** The facts behind `Clean`'s contract: the separated text is canonical, so the
      parenthesis collapse of lines 83-89 leaves it as it is. */
  lemma CleanShape(keyword: string)
    ensures var separated := Separate(Tokenize(Prepare(keyword)).value);
            && Canonical(separated) && AmpTrimmed(separated)
            && (forall c :: c in separated ==> c == '&' || c in keyword)
            && RemoveRedundantParens(separated) == separated
  {
    var tokens := Tokenize(Prepare(keyword)).value;
    TokensChars(keyword);
    CharsThroughSeparate(Separate(tokens), tokens, keyword);
  }

  lemma CharsThroughSeparate(s: string, t: string, keyword: string)
    requires forall c :: c in s ==> c == '&' || c in t
    requires forall c :: c in t ==> c == '&' || (c in keyword && CanonicalChar(c))
    ensures forall i :: 0 <= i < |s| ==> CanonicalChar(s[i])
    ensures forall c :: c in s ==> c == '&' || c in keyword
  {
    forall i | 0 <= i < |s| ensures CanonicalChar(s[i]) {
      assert s[i] in s;
    }
  }
}
