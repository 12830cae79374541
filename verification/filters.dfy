/** Order-preserving filtering of a text by a character class: the reference
    against which the normaliser's passes state what content they keep. */
module Filters {
  import opened Chars
  import opened Text

  /** `ys` is `xs` with some entries left out, the rest in their order. */
  predicate IsSubseq<T(==)>(ys: seq<T>, xs: seq<T>)
    decreases |xs|
  {
    || |ys| == 0
    || (|xs| > 0 && ((ys[0] == xs[0] && IsSubseq(ys[1..], xs[1..])) || IsSubseq(ys, xs[1..])))
  }

  /** The characters of `s` that satisfy `keep`, in their order. */
  function Filter(s: string, keep: char -> bool): (r: string)
    ensures |r| <= |s|
    decreases |s|
  {
    if |s| == 0 then ""
    else if keep(s[0]) then [s[0]] + Filter(s[1..], keep)
    else Filter(s[1..], keep)
  }

  /** The filter keeps the characters that satisfy `keep`, each as often as `s` has
      it and in the order of `s`, and nothing else. */
  lemma {:induction false} FilterKeeps(s: string, keep: char -> bool)
    ensures IsSubseq(Filter(s, keep), s)
    ensures forall c :: multiset(Filter(s, keep))[c] == if keep(c) then multiset(s)[c] else 0
    ensures forall c :: c in Filter(s, keep) <==> c in s && keep(c)
    decreases |s|
  {
    if |s| > 0 {
      var rest := Filter(s[1..], keep);
      FilterKeeps(s[1..], keep);
      HeadTail(s);
      if keep(s[0]) {
        var r := [s[0]] + rest;
        assert r[1..] == rest;
      }
    }
  }

  lemma FilterCons(c: char, s: string, keep: char -> bool)
    ensures Filter([c] + s, keep) == if keep(c) then [c] + Filter(s, keep) else Filter(s, keep)
  {
    assert ([c] + s)[1..] == s;
  }

  /** Filtering distributes over concatenation. */
  lemma {:induction false} FilterAppend(a: string, b: string, keep: char -> bool)
    ensures Filter(a + b, keep) == Filter(a, keep) + Filter(b, keep)
    decreases |a|
  {
    if |a| == 0 {
      assert a + b == b;
    } else {
      var c, t := a[0], a[1..];
      HeadTail(a);
      ConsAssoc(c, t, b);
      FilterCons(c, t + b, keep);
      FilterCons(c, t, keep);
      FilterAppend(t, b, keep);
      if keep(c) {
        ConsAssoc(c, Filter(t, keep), Filter(b, keep));
      }
    }
  }

  lemma HeadTail(s: string)
    requires |s| > 0
    ensures s == [s[0]] + s[1..]
  {
  }

  /** Text none of whose characters is kept filters to nothing. */
  lemma {:induction false} FilterNone(s: string, keep: char -> bool)
    requires forall i :: 0 <= i < |s| ==> !keep(s[i])
    ensures Filter(s, keep) == ""
    decreases |s|
  {
    if |s| > 0 {
      FilterNone(s[1..], keep);
    }
  }

  /** Text all of whose characters are kept filters to itself. */
  lemma {:induction false} FilterAll(s: string, keep: char -> bool)
    requires forall i :: 0 <= i < |s| ==> keep(s[i])
    ensures Filter(s, keep) == s
    decreases |s|
  {
    if |s| > 0 {
      FilterAll(s[1..], keep);
      assert [s[0]] + s[1..] == s;
    }
  }

  /** Two classes that agree on the characters of `s` filter it alike. */
  lemma {:induction false} FilterAgree(s: string, p: char -> bool, q: char -> bool)
    requires forall i :: 0 <= i < |s| ==> p(s[i]) == q(s[i])
    ensures Filter(s, p) == Filter(s, q)
    decreases |s|
  {
    if |s| > 0 {
      FilterAgree(s[1..], p, q);
    }
  }

  /** Filtering by a wider class first does not change a filter by a narrower one. */
  lemma {:induction false} FilterFilter(s: string, p: char -> bool, q: char -> bool)
    requires forall c :: q(c) ==> p(c)
    ensures Filter(Filter(s, p), q) == Filter(s, q)
    decreases |s|
  {
    if |s| > 0 {
      FilterFilter(s[1..], p, q);
      if p(s[0]) {
        FilterCons(s[0], Filter(s[1..], p), q);
      }
    }
  }

  /** Replacing one character that is not kept by another that is not kept leaves
      the kept content as it is. */
  lemma {:induction false} FilterReplaceChar(s: string, from: char, to: char, keep: char -> bool)
    requires !keep(from) && !keep(to)
    ensures Filter(ReplaceChar(s, from, to), keep) == Filter(s, keep)
    decreases |s|
  {
    if |s| > 0 {
      var r := ReplaceChar(s, from, to);
      assert r == [r[0]] + ReplaceChar(s[1..], from, to);
      FilterCons(r[0], ReplaceChar(s[1..], from, to), keep);
      FilterReplaceChar(s[1..], from, to, keep);
    }
  }

  /** Stripping characters that are not kept leaves the kept content as it is. */
  lemma {:induction false} FilterTrimLeft(s: string, drop: char -> bool, keep: char -> bool)
    requires forall c :: drop(c) ==> !keep(c)
    ensures Filter(TrimLeft(s, drop), keep) == Filter(s, keep)
    decreases |s|
  {
    if |s| > 0 && drop(s[0]) {
      HeadTail(s);
      FilterCons(s[0], s[1..], keep);
      FilterTrimLeft(s[1..], drop, keep);
    }
  }

  lemma {:induction false} FilterTrimRight(s: string, drop: char -> bool, keep: char -> bool)
    requires forall c :: drop(c) ==> !keep(c)
    ensures Filter(TrimRight(s, drop), keep) == Filter(s, keep)
    decreases |s|
  {
    if |s| > 0 && drop(s[|s| - 1]) {
      var front := s[..|s| - 1];
      assert s == front + [s[|s| - 1]];
      FilterAppend(front, [s[|s| - 1]], keep);
      FilterTrimRight(front, drop, keep);
    }
  }

  /** `strip()` keeps every character that is not whitespace, in order. */
  lemma FilterStrip(s: string, keep: char -> bool)
    requires forall c :: IsSpace(c) ==> !keep(c)
    ensures Filter(Strip(s), keep) == Filter(s, keep)
  {
    FilterTrimLeft(s, IsSpace, keep);
    FilterTrimRight(TrimLeft(s, IsSpace), IsSpace, keep);
  }

  /** `re.sub(r'\s+', rep, s)` keeps every character that is not whitespace, in order,
      when `rep` holds nothing that is kept. */
  lemma FilterReplaceRuns(s: string, rep: string, keep: char -> bool)
    requires forall c :: IsSpace(c) ==> !keep(c)
    requires forall i :: 0 <= i < |rep| ==> !keep(rep[i])
    ensures Filter(ReplaceRuns(s, rep), keep) == Filter(s, keep)
  {
    FilterReplaceRunsFrom(s, 0, rep, keep);
    assert s[0..] == s;
  }

  lemma {:induction false} FilterReplaceRunsFrom(s: string, i: nat, rep: string, keep: char -> bool)
    requires i <= |s|
    requires forall c :: IsSpace(c) ==> !keep(c)
    requires forall i :: 0 <= i < |rep| ==> !keep(rep[i])
    ensures Filter(ReplaceRunsFrom(s, i, rep), keep) == Filter(s[i..], keep)
    decreases |s| - i
  {
    if i < |s| {
      var rest := ReplaceRunsFrom(s, i + 1, rep);
      FilterReplaceRunsFrom(s, i + 1, rep, keep);
      ConsSlice(s, i);
      FilterCons(s[i], s[i + 1..], keep);
      if !IsSpace(s[i]) {
        FilterCons(s[i], rest, keep);
      } else if !(i > 0 && IsSpace(s[i - 1])) {
        FilterAppend(rep, rest, keep);
        FilterNone(rep, keep);
      }
    }
  }
}
