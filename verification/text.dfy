/** The Python string primitives the normaliser and splitter use, written out
    on `seq<char>`: `lstrip`/`rstrip`/`strip`, whitespace-run substitution,
    single-character replacement, and `''.join`. */
module Text {
  import opened Chars

  predicate NoSpace(s: string) {
    forall i :: 0 <= i < |s| ==> !IsSpace(s[i])
  }

  /** `s.lstrip(chars)`: drop the longest prefix whose characters satisfy `drop`. */
  function TrimLeft(s: string, drop: char -> bool): (r: string)
    ensures |r| <= |s| && r == s[|s| - |r|..]
    ensures forall i :: 0 <= i < |s| - |r| ==> drop(s[i])
    ensures |r| > 0 ==> !drop(r[0])
    ensures forall c :: c in r ==> c in s
    decreases |s|
  {
    if |s| > 0 && drop(s[0]) then
      assert forall c :: c in s[1..] ==> c in s by {
        assert s == [s[0]] + s[1..];
      }
      TrimLeft(s[1..], drop)
    else s
  }

  lemma TrimLeftDrop(s: string, drop: char -> bool)
    requires |s| > 0 && drop(s[0])
    ensures TrimLeft(s, drop) == TrimLeft(s[1..], drop)
  {
  }

  /** Dropping the `&` of `"&("` in front of the tail of a text that starts with `(`
      gives the text back. */
  lemma AmpOpenTail(s: string)
    requires |s| > 0 && s[0] == '('
    ensures ("&(" + s[1..])[1..] == s
  {
    assert ("&(" + s[1..])[1..] == "(" + s[1..];
  }

  lemma OnlyMember(s: string, c: char)
    requires |s| == 1 && c in s
    ensures c == s[0]
  {
  }

  /** `s.rstrip(chars)`: drop the longest suffix whose characters satisfy `drop`. */
  function TrimRight(s: string, drop: char -> bool): (r: string)
    ensures |r| <= |s| && r == s[..|r|]
    ensures forall i :: |r| <= i < |s| ==> drop(s[i])
    ensures |r| > 0 ==> !drop(r[|r| - 1])
    ensures forall c :: c in r ==> c in s
    decreases |s|
  {
    if |s| > 0 && drop(s[|s| - 1]) then
      assert forall c :: c in s[..|s| - 1] ==> c in s by {
        assert s == s[..|s| - 1] + [s[|s| - 1]];
      }
      TrimRight(s[..|s| - 1], drop)
    else s
  }

  /** `s.strip()`: remove whitespace at both ends. */
  function Strip(s: string): (r: string)
    ensures |r| > 0 ==> !IsSpace(r[0]) && !IsSpace(r[|r| - 1])
    ensures forall c :: c in r ==> c in s
    ensures NoSpace(s) ==> r == s
    ensures |s| > 0 && !IsSpace(s[0]) && !IsSpace(s[|s| - 1]) ==> r == s
  {
    TrimRight(TrimLeft(s, IsSpace), IsSpace)
  }

  /** `strip()` returns the slice of `s` between a whitespace prefix and a whitespace
      suffix; as the slice neither starts nor ends with whitespace, it runs from the
      first to the last non-whitespace character, and it is empty only when `s` is
      all whitespace. */
  lemma StripSlice(s: string)
    ensures var r := Strip(s);
            exists a :: 0 <= a <= |s| - |r| && r == s[a..a + |r|] && Dropped(s, 0, a, IsSpace) && Dropped(s, a + |r|, |s|, IsSpace)
  {
    var l := TrimLeft(s, IsSpace);
    var r := Strip(s);
    var a := |s| - |l|;
    assert Dropped(s, 0, a, IsSpace);
    assert Dropped(l, |r|, |l|, IsSpace);
    TrimBoth(s, IsSpace, l, r, a);
    assert r == s[a..a + |r|];
  }

  /** Every character of `s[lo..hi]` satisfies `drop`. */
  predicate Dropped(s: string, lo: int, hi: int, drop: char -> bool)
    requires 0 <= lo <= hi <= |s|
  {
    forall i :: lo <= i < hi ==> drop(s[i])
  }

  /** A slice taken from the front of a suffix: what lies outside it on either side
      was dropped. */
  lemma TrimBoth(s: string, drop: char -> bool, l: string, r: string, a: nat)
    requires a <= |s| && l == s[a..] && Dropped(s, 0, a, drop)
    requires |r| <= |l| && r == l[..|r|] && Dropped(l, |r|, |l|, drop)
    ensures a + |r| <= |s| && r == s[a..a + |r|] && Dropped(s, a + |r|, |s|, drop)
  {
    forall i | a + |r| <= i < |s| ensures drop(s[i]) {
      assert s[i] == l[i - a];
    }
  }

  /** `re.sub(r'\s+', rep, s)`: every maximal run of whitespace becomes one copy of `rep`. */
  function ReplaceRuns(s: string, rep: string): (r: string)
    ensures forall c :: c in r ==> c in rep || (c in s && !IsSpace(c))
    ensures NoSpace(s) ==> r == s
  {
    ReplaceRunsFrom(s, 0, rep)
  }

  /** The substitution applied to `s[i..]`; a whitespace character emits `rep`
      only when it starts a run, that is when the character before it is not whitespace. */
  function ReplaceRunsFrom(s: string, i: nat, rep: string): (r: string)
    requires i <= |s|
    ensures forall c :: c in r ==> c in rep || (c in s && !IsSpace(c))
    ensures NoSpace(s) ==> r == s[i..]
    decreases |s| - i
  {
    if i == |s| then ""
    else if !IsSpace(s[i]) then [s[i]] + ReplaceRunsFrom(s, i + 1, rep)
    else if i > 0 && IsSpace(s[i - 1]) then ReplaceRunsFrom(s, i + 1, rep)
    else rep + ReplaceRunsFrom(s, i + 1, rep)
  }

  /** Every character of `gap` is whitespace. */
  predicate AllSpace(gap: string) {
    forall i :: 0 <= i < |gap| ==> IsSpace(gap[i])
  }

  /** Two whitespace-free texts around a non-empty whitespace run: the run becomes
      one copy of `rep`. */
  lemma ReplaceRunsGap(a: string, gap: string, b: string, rep: string)
    requires NoSpace(a) && NoSpace(b) && |gap| > 0 && AllSpace(gap)
    ensures ReplaceRuns(a + gap + b, rep) == a + rep + b
  {
    ReplaceRunsStep(a, gap, b, rep);
  }

  /** The substitution run by run: a whitespace-free text `a` is copied, the maximal
      whitespace run `gap` after it becomes one copy of `rep`, and the rest `b`, which
      does not start with whitespace, is substituted on its own. With `NoSpace(s) ==>
      ReplaceRuns(s, rep) == s` this fixes the result on every input. */
  lemma ReplaceRunsStep(a: string, gap: string, b: string, rep: string)
    requires NoSpace(a) && |gap| > 0 && AllSpace(gap) && (|b| == 0 || !IsSpace(b[0]))
    ensures ReplaceRuns(a + gap + b, rep) == a + rep + ReplaceRuns(b, rep)
  {
    GapBefore(a, gap, b, rep, 0);
    assert a[0..] == a;
  }

  lemma GapPieces(a: string, gap: string, b: string)
    ensures var s := a + gap + b;
            && (forall i :: 0 <= i < |a| ==> s[i] == a[i])
            && (forall i :: |a| <= i < |a| + |gap| ==> s[i] == gap[i - |a|])
            && s[|a| + |gap|..] == b
  {
  }

  /** Before the run: the text of `a` is copied, the run gives `rep`. */
  lemma {:induction false} GapBefore(a: string, gap: string, b: string, rep: string, i: nat)
    requires NoSpace(a) && |gap| > 0 && AllSpace(gap) && (|b| == 0 || !IsSpace(b[0])) && i <= |a|
    ensures ReplaceRunsFrom(a + gap + b, i, rep) == a[i..] + (rep + ReplaceRuns(b, rep))
    decreases |a| - i
  {
    GapPieces(a, gap, b);
    if i < |a| {
      GapBefore(a, gap, b, rep, i + 1);
      assert !IsSpace((a + gap + b)[i]);
      ConsSlice(a, i);
      ConsAssoc(a[i], a[i + 1..], rep + ReplaceRuns(b, rep));
    } else {
      GapStart(a, gap, b, rep);
    }
  }

  /** At the start of the run `rep` is emitted once. */
  lemma GapStart(a: string, gap: string, b: string, rep: string)
    requires NoSpace(a) && |gap| > 0 && AllSpace(gap) && (|b| == 0 || !IsSpace(b[0]))
    ensures ReplaceRunsFrom(a + gap + b, |a|, rep) == a[|a|..] + (rep + ReplaceRuns(b, rep))
  {
    var s := a + gap + b;
    GapPieces(a, gap, b);
    assert IsSpace(s[|a|]);
    assert |a| > 0 ==> !IsSpace(s[|a| - 1]);
    GapInside(a, gap, b, rep, |a| + 1);
    assert a[|a|..] == [];
  }

  /** Inside the run every whitespace character follows another one and is dropped;
      after it the substitution goes on as on `b` alone. */
  lemma {:induction false} GapInside(a: string, gap: string, b: string, rep: string, j: nat)
    requires NoSpace(a) && |gap| > 0 && AllSpace(gap) && (|b| == 0 || !IsSpace(b[0]))
    requires |a| < j <= |a| + |gap|
    ensures ReplaceRunsFrom(a + gap + b, j, rep) == ReplaceRuns(b, rep)
    decreases |a| + |gap| - j
  {
    var s := a + gap + b;
    GapPieces(a, gap, b);
    if j < |a| + |gap| {
      assert IsSpace(s[j]) && IsSpace(s[j - 1]);
      GapInside(a, gap, b, rep, j + 1);
    } else {
      ReplaceRunsShift(a + gap, b, 0, rep);
    }
  }

  /** Past a prefix `p` the substitution on `p + b` goes on as on `b` alone, unless it
      stands at a whitespace character that starts `b`, whose treatment depends on `p`. */
  lemma {:induction false} ReplaceRunsShift(p: string, b: string, k: nat, rep: string)
    requires k <= |b| && (k > 0 || |b| == 0 || !IsSpace(b[0]))
    ensures ReplaceRunsFrom(p + b, |p| + k, rep) == ReplaceRunsFrom(b, k, rep)
    decreases |b| - k
  {
    var s := p + b;
    if k < |b| {
      assert s[|p| + k] == b[k];
      if k > 0 {
        assert s[|p| + k - 1] == b[k - 1];
      }
      ReplaceRunsShift(p, b, k + 1, rep);
      ReplaceRunsUnfold(s, |p| + k, rep);
      ReplaceRunsUnfold(b, k, rep);
    }
  }

  /** One step of the substitution: what position `i` emits, then the rest. */
  lemma ReplaceRunsUnfold(s: string, i: nat, rep: string)
    requires i < |s|
    ensures ReplaceRunsFrom(s, i, rep) ==
            (if !IsSpace(s[i]) then [s[i]] else if i > 0 && IsSpace(s[i - 1]) then "" else rep)
            + ReplaceRunsFrom(s, i + 1, rep)
  {
  }

  /** A whitespace gap that may be empty: one copy of `rep` when it is not, nothing
      when it is. */
  lemma ReplaceRunsOptGap(a: string, gap: string, b: string, rep: string)
    requires NoSpace(a) && AllSpace(gap) && (|b| == 0 || !IsSpace(b[0]))
    ensures ReplaceRuns(a + gap + b, rep) == a + (if |gap| > 0 then rep else "") + ReplaceRuns(b, rep)
  {
    if |gap| > 0 {
      ReplaceRunsStep(a, gap, b, rep);
    } else {
      assert a + gap + b == a + b;
      ReplaceRunsAfter(a, b, rep, 0);
      assert a[0..] == a;
    }
  }

  /** A whitespace-free prefix is copied; after it the substitution goes on as on
      `b` alone. */
  lemma {:induction false} ReplaceRunsAfter(a: string, b: string, rep: string, i: nat)
    requires NoSpace(a) && (|b| == 0 || !IsSpace(b[0])) && i <= |a|
    ensures ReplaceRunsFrom(a + b, i, rep) == a[i..] + ReplaceRuns(b, rep)
    decreases |a| - i
  {
    if i < |a| {
      ReplaceRunsAfter(a, b, rep, i + 1);
      assert (a + b)[i] == a[i];
      ReplaceRunsUnfold(a + b, i, rep);
      ConsSlice(a, i);
      ConsAssoc(a[i], a[i + 1..], ReplaceRuns(b, rep));
    } else {
      ReplaceRunsShift(a, b, 0, rep);
      assert a[|a|..] == [];
    }
  }

  /** `strip()` of a whitespace-free text between two whitespace runs is that text. */
  lemma StripPadded(g1: string, w: string, g2: string)
    requires AllSpace(g1) && AllSpace(g2) && |w| > 0 && NoSpace(w)
    ensures Strip(g1 + w + g2) == w
  {
    assert g1 + w + g2 == g1 + (w + g2);
    TrimLeftPadded(g1, w + g2);
    TrimRightPadded(w, g2);
  }

  /** `strip()` of a text padded with whitespace on both sides, where the text
      neither starts nor ends with whitespace, gives the text back. */
  lemma StripAround(g1: string, x: string, g2: string)
    requires AllSpace(g1) && AllSpace(g2) && |x| > 0 && !IsSpace(x[0]) && !IsSpace(x[|x| - 1])
    ensures Strip(g1 + x + g2) == x
  {
    assert g1 + x + g2 == g1 + (x + g2);
    TrimLeftPadded(g1, x + g2);
    TrimRightPadded(x, g2);
  }

  lemma TrimLeftPadded(g: string, x: string)
    requires AllSpace(g) && |x| > 0 && !IsSpace(x[0])
    ensures TrimLeft(g + x, IsSpace) == x
  {
    var s := g + x;
    var l := TrimLeft(s, IsSpace);
    var d := |s| - |l|;
    assert s[|g|] == x[0];
    assert d <= |g|;
    assert s[|g|..] == x;
  }

  lemma TrimRightPadded(x: string, g: string)
    requires AllSpace(g) && |x| > 0 && !IsSpace(x[|x| - 1])
    ensures TrimRight(x + g, IsSpace) == x
  {
    var s := x + g;
    var r := TrimRight(s, IsSpace);
    assert s[|x| - 1] == x[|x| - 1];
    assert |r| >= |x|;
    assert s[..|x|] == x;
  }

  lemma ConsSlice(s: string, i: nat)
    requires i < |s|
    ensures [s[i]] + s[i + 1..] == s[i..]
  {
  }

  /** `s.replace(from, to)` for single characters. */
  function ReplaceChar(s: string, from: char, to: char): (r: string)
    ensures |r| == |s|
    ensures forall i :: 0 <= i < |s| ==> r[i] == if s[i] == from then to else s[i]
    ensures forall c :: c in r ==> c == to || (c in s && c != from)
    ensures from !in s ==> r == s
  {
    if |s| == 0 then ""
    else
      assert forall c :: c in s[1..] ==> c in s by {
        assert s == [s[0]] + s[1..];
      }
      [if s[0] == from then to else s[0]] + ReplaceChar(s[1..], from, to)
  }

  /** `''.join(parts)`. */
  function Concat(parts: seq<string>): string {
    if |parts| == 0 then "" else parts[0] + Concat(parts[1..])
  }

  lemma ConcatSingle(x: string)
    ensures Concat([x]) == x
  {
    assert [x][1..] == [];
  }

  lemma ConcatCons(head: string, tail: seq<string>)
    ensures Concat([head] + tail) == head + Concat(tail)
  {
    assert ([head] + tail)[1..] == tail;
  }

  /** Putting `c` in front of the first part puts it in front of the join. */
  lemma ConcatNewHead(c: char, rest: seq<string>)
    requires |rest| > 0
    ensures Concat([[c] + rest[0]] + rest[1..]) == [c] + Concat(rest)
  {
    var h, tail := rest[0], rest[1..];
    ConcatCons([c] + h, tail);
    ConcatUnfold(rest);
    ConsAssoc(c, h, Concat(tail));
  }

  lemma ConcatUnfold(parts: seq<string>)
    requires |parts| > 0
    ensures Concat(parts) == parts[0] + Concat(parts[1..])
  {
  }

  lemma ConsAssoc(c: char, h: string, x: string)
    ensures ([c] + h) + x == [c] + (h + x)
  {
  }

  lemma {:induction false} ConcatAppend(a: seq<string>, b: seq<string>)
    ensures Concat(a + b) == Concat(a) + Concat(b)
    decreases |a|
  {
    if |a| == 0 {
      assert a + b == b;
    } else {
      assert (a + b)[1..] == a[1..] + b;
      ConcatAppend(a[1..], b);
    }
  }

  /** Every character of a joined string comes from one of the parts. */
  lemma {:induction false} ConcatChars(parts: seq<string>, c: char)
    requires c in Concat(parts)
    ensures exists k :: 0 <= k < |parts| && c in parts[k]
    decreases |parts|
  {
    if c !in parts[0] {
      ConcatChars(parts[1..], c);
      var k :| 0 <= k < |parts[1..]| && c in parts[1..][k];
      assert c in parts[k + 1];
    }
  }

  /** Every character of a part occurs in the joined string. */
  lemma {:induction false} ConcatContainsPart(parts: seq<string>, k: nat, c: char)
    requires k < |parts| && c in parts[k]
    ensures c in Concat(parts)
    decreases k
  {
    if k > 0 {
      ConcatContainsPart(parts[1..], k - 1, c);
    }
  }
}
