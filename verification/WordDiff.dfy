/** Match-context refinement of doDiff.c: scripts over windows are trimmed back
    to word ranges, long changes are compared again with less context, and the
    words of both files are consumed in order. */
module WordDiff {
  import opened EditDistance
  import opened DiffFiles
  import opened ContextWindows

  // ----- trimming one change

  /** A replacement of equally many windows, at most as many as the context
      spans: the case the program asserts never to see. */
  predicate ShortSwap(c: Change, context: nat) {
    c.deleted > 0 && c.inserted == c.deleted && c.deleted <= context
  }

  /** By how much both sides of a window change are too long. */
  function Excess(c: Change, context: nat): int {
    if c.deleted == 0 || c.inserted == 0 then 0
    else if c.deleted <= context || c.inserted <= context then Min(c.deleted, c.inserted)
    else context
  }

  /** Windows `a` and `b` match, or both lie before the first (after the last). */
  ghost predicate Aligned(x: seq<int>, y: seq<int>, a: int, b: int) {
    || (a == -1 && b == -1)
    || (a == |x| && b == |y|)
    || (0 <= a < |x| && 0 <= b < |y| && x[a] == y[b])
  }

  /** A change between matching windows that is not a short swap trims to a
      change of words that exist, and if it reaches the last window it reaches
      the last words. */
  lemma TrimInRange(v: seq<int>, w: seq<int>, context: nat, x: seq<int>, y: seq<int>, c: Change)
    requires Words(v) && Words(w) && Tokens(v, w, context, x, y)
    requires 0 <= c.line0 <= c.End0() <= |x| && 0 <= c.line1 <= c.End1() <= |y|
    requires Aligned(x, y, c.line0 - 1, c.line1 - 1) && Aligned(x, y, c.End0(), c.End1())
    requires c.deleted + c.inserted > 0 && !ShortSwap(c, context)
    ensures 0 <= Excess(c, context) <= context
    ensures c.line0 <= c.End0() - Excess(c, context) <= |v|
    ensures c.line1 <= c.End1() - Excess(c, context) <= |w|
    ensures c.End0() == |x| ==> c.End0() - Excess(c, context) == |v| && c.End1() - Excess(c, context) == |w|
  {
    hide Window, Tokens;
    MatchedPlaces(v, w, context, x, y, c.line0 - 1, c.line1 - 1);
    MatchedPlaces(v, w, context, x, y, c.End0(), c.End1());
  }

  lemma MatchedPlaces(v: seq<int>, w: seq<int>, context: nat, x: seq<int>, y: seq<int>, a: int, b: int)
    requires Words(v) && Words(w) && Tokens(v, w, context, x, y) && Aligned(x, y, a, b)
    ensures context <= |v| && context <= |w| && |x| == |v| + context && |y| == |w| + context
    ensures 0 <= a < |x| ==>
              && 0 <= b < |y| && (a < context <==> b < context) && (a < context ==> a == b)
              && (a >= |v| <==> b >= |w|) && (a >= |v| ==> a - |v| == b - |w|)
    ensures 0 <= b < |y| ==> 0 <= a < |x|
  {
    if 0 <= a < |x| && 0 <= b < |y| {
      WindowMatch(v, w, context, a, b);
    }
  }

  lemma MatchedWord(v: seq<int>, w: seq<int>, context: nat, x: seq<int>, y: seq<int>, a: int, b: int, p: int)
    requires Words(v) && Words(w) && Tokens(v, w, context, x, y) && Aligned(x, y, a, b)
    requires 0 <= a < |x| && 0 <= p < |v| && a - context <= p <= a
    ensures 0 <= p + b - a < |w| && v[p] == w[p + b - a]
  {
    if 0 <= a < |x| && 0 <= b < |y| {
      WindowMatch(v, w, context, a, b);
    }
  }

  /** All words from the end of a trimmed change to the next change pair up. */
  lemma GapWords(v: seq<int>, w: seq<int>, context: nat, x: seq<int>, y: seq<int>,
                 e0: int, e1: int, s0: int, s1: int, excess: int)
    requires Words(v) && Words(w) && Tokens(v, w, context, x, y)
    requires 0 <= e0 <= s0 <= |x| && 0 <= e1 <= s1 <= |y| && x[e0..s0] == y[e1..s1]
    requires 0 <= excess <= context && 0 <= e0 - excess <= |v| && 0 <= e1 - excess <= |w|
    requires (s0 <= |v| && s1 <= |w|) || (s0 >= |v| && s1 >= |w|)
    requires e0 == s0 ==> (excess == 0 && s0 <= |v| && s1 <= |w|) || (e0 - excess == |v| && e1 - excess == |w|)
    ensures e0 - excess <= Min(s0, |v|) && e1 - excess <= Min(s1, |w|)
    ensures v[e0 - excess..Min(s0, |v|)] == w[e1 - excess..Min(s1, |w|)]
  {
    hide Window, Words;
    SliceEqual(x, y, e0, e1, s0, s1);
    if e0 < s0 {
      hide Tokens;
      MatchedPlaces(v, w, context, x, y, s0 - 1, s1 - 1);
      var from, to, d := e0 - excess, Min(s0, |v|), e1 - e0;
      assert Min(s1, |w|) == to + d;
      forall p | from <= p < to ensures 0 <= p + d < |w| && v[p] == w[p + d] {
        GapWord(v, w, context, x, y, e0, e1, s0, s1, excess, p);
      }
      EqualSlices(v, w, from, to, d);
    }
  }

  lemma EqualSlices(v: seq<int>, w: seq<int>, from: int, to: int, d: int)
    requires 0 <= from <= to <= |v| && 0 <= from + d && to + d <= |w|
    requires forall p :: from <= p < to ==> v[p] == w[p + d]
    ensures v[from..to] == w[from + d..to + d]
  {
    forall i | 0 <= i < to - from ensures v[from..to][i] == w[from + d..to + d][i] {
      assert v[from + i] == w[from + i + d];
    }
  }

  lemma SliceEqual(x: seq<int>, y: seq<int>, e0: int, e1: int, s0: int, s1: int)
    requires 0 <= e0 <= s0 <= |x| && 0 <= e1 <= s1 <= |y| && x[e0..s0] == y[e1..s1]
    ensures s0 - e0 == s1 - e1 && forall k :: e0 <= k < s0 ==> x[k] == y[k + e1 - e0]
  {
    assert |x[e0..s0]| == |y[e1..s1]|;
    forall k | e0 <= k < s0 ensures x[k] == y[k + e1 - e0] {
      assert x[e0..s0][k - e0] == y[e1..s1][k - e0];
    }
  }

  /** One word of the gap: it lies in the first window of the gap or ends its own. */
  lemma GapWord(v: seq<int>, w: seq<int>, context: nat, x: seq<int>, y: seq<int>,
                e0: int, e1: int, s0: int, s1: int, excess: int, p: int)
    requires Words(v) && Words(w) && Tokens(v, w, context, x, y)
    requires 0 <= e0 < s0 <= |x| && 0 <= e1 < s1 <= |y| && s0 - e0 == s1 - e1
    requires forall k :: e0 <= k < s0 ==> x[k] == y[k + e1 - e0]
    requires 0 <= excess <= context && e0 - excess <= p < s0 && 0 <= p < |v|
    ensures 0 <= p + e1 - e0 < |w| && v[p] == w[p + e1 - e0]
  {
    hide Window, Tokens, Words;
    var k := Max(p, e0);
    MatchedWord(v, w, context, x, y, k, k + e1 - e0, p);
  }

  lemma PrevAligned(x: seq<int>, y: seq<int>, e0: int, e1: int, s0: int, s1: int)
    requires 0 <= e0 <= s0 <= |x| && 0 <= e1 <= s1 <= |y| && x[e0..s0] == y[e1..s1]
    requires e0 < s0 || (e0 == 0 && e1 == 0)
    ensures Aligned(x, y, s0 - 1, s1 - 1)
  {
    if e0 < s0 {
      var n := s0 - 1 - e0;
      assert |x[e0..s0]| == |y[e1..s1]|;
      assert x[e0..s0][n] == y[e1..s1][n];
    }
  }

  lemma NextAligned(x: seq<int>, y: seq<int>, s: seq<Change>, e0: int, e1: int)
    requires 0 <= e0 <= |x| && 0 <= e1 <= |y| && Describes(x, y, s, e0, e1)
    requires s != [] ==> e0 < s[0].line0
    ensures Aligned(x, y, e0, e1)
  {
    if s == [] {
      assert |x[e0..]| == |y[e1..]|;
      if e0 < |x| { assert x[e0..][0] == y[e1..][0]; }
    } else {
      assert |x[e0..s[0].line0]| == |y[e1..s[0].line1]|;
      assert x[e0..s[0].line0][0] == y[e1..s[0].line1][0];
    }
  }

  // ----- minimal window scripts have no short swaps

  /** Both sides of a short swap are the same windows. */
  lemma SwapIsEqual(v: seq<int>, w: seq<int>, context: nat, x: seq<int>, y: seq<int>, c: Change)
    requires Words(v) && Words(w) && Tokens(v, w, context, x, y)
    requires 0 <= c.line0 <= c.End0() <= |x| && 0 <= c.line1 <= c.End1() <= |y|
    requires Aligned(x, y, c.line0 - 1, c.line1 - 1) && Aligned(x, y, c.End0(), c.End1())
    requires ShortSwap(c, context)
    ensures x[c.line0..c.End0()] == y[c.line1..c.End1()]
  {
    hide Window, Tokens, Words, Aligned;
    var a, b := x[c.line0..c.End0()], y[c.line1..c.End1()];
    forall i | 0 <= i < |a| ensures a[i] == b[i] {
      SwappedWindow(v, w, context, x, y, c, i);
    }
  }

  lemma SwappedWindow(v: seq<int>, w: seq<int>, context: nat, x: seq<int>, y: seq<int>, c: Change, i: int)
    requires Words(v) && Words(w) && Tokens(v, w, context, x, y)
    requires 0 <= c.line0 <= c.End0() <= |x| && 0 <= c.line1 <= c.End1() <= |y|
    requires Aligned(x, y, c.line0 - 1, c.line1 - 1) && Aligned(x, y, c.End0(), c.End1())
    requires ShortSwap(c, context) && 0 <= i < c.deleted
    ensures x[c.line0 + i] == y[c.line1 + i]
  {
    var k, l := c.line0 + i, c.line1 + i;
    hide Window, Tokens, Words, Aligned;
    SwappedPlaces(v, w, context, x, y, c, i);
    forall p | 0 <= p < |v| && k - context <= p <= k && 0 <= p + l - k < |w|
      ensures v[p] == w[p + l - k]
    {
      SwappedWord(v, w, context, x, y, c, p);
    }
    WindowsEqual(v, w, context, k, l);
    SameToken(v, w, context, x, y, k, l);
  }

  lemma SameToken(v: seq<int>, w: seq<int>, context: nat, x: seq<int>, y: seq<int>, a: int, b: int)
    requires Tokens(v, w, context, x, y) && 0 <= a < |x| && 0 <= b < |y|
    requires Window(v, context, a) == Window(w, context, b)
    ensures x[a] == y[b]
  {}

  lemma SwappedPlaces(v: seq<int>, w: seq<int>, context: nat, x: seq<int>, y: seq<int>, c: Change, i: int)
    requires Words(v) && Words(w) && Tokens(v, w, context, x, y)
    requires 0 <= c.line0 <= c.End0() <= |x| && 0 <= c.line1 <= c.End1() <= |y|
    requires Aligned(x, y, c.line0 - 1, c.line1 - 1) && Aligned(x, y, c.End0(), c.End1())
    requires ShortSwap(c, context) && 0 <= i < c.deleted
    ensures context <= |v| && context <= |w| && |x| == |v| + context && |y| == |w| + context
    ensures c.line0 + i < context || c.line1 + i < context ==> c.line0 == c.line1
    ensures c.line0 + i >= |v| || c.line1 + i >= |w| ==> c.line0 - |v| == c.line1 - |w|
  {
    hide Window, Tokens, Words;
    MatchedPlaces(v, w, context, x, y, c.line0 - 1, c.line1 - 1);
    MatchedPlaces(v, w, context, x, y, c.End0(), c.End1());
  }

  lemma SwappedWord(v: seq<int>, w: seq<int>, context: nat, x: seq<int>, y: seq<int>, c: Change, p: int)
    requires Words(v) && Words(w) && Tokens(v, w, context, x, y)
    requires 0 <= c.line0 <= c.End0() <= |x| && 0 <= c.line1 <= c.End1() <= |y|
    requires Aligned(x, y, c.line0 - 1, c.line1 - 1) && Aligned(x, y, c.End0(), c.End1())
    requires ShortSwap(c, context) && 0 <= p < |v| && c.line0 - context <= p < c.End0()
    ensures 0 <= p + c.line1 - c.line0 < |w| && v[p] == w[p + c.line1 - c.line0]
  {
    hide Window, Tokens, Words;
    MatchedPlaces(v, w, context, x, y, c.line0 - 1, c.line1 - 1);
    MatchedPlaces(v, w, context, x, y, c.End0(), c.End1());
    if p < c.line0 && c.line0 - 1 - context <= p {
      MatchedWord(v, w, context, x, y, c.line0 - 1, c.line1 - 1, p);
    } else {
      MatchedWord(v, w, context, x, y, c.End0(), c.End1(), p);
    }
  }

  lemma ThreeParts(x: seq<int>, p: int, l: int, e: int)
    requires 0 <= p <= l <= e <= |x|
    ensures x[p..] == x[p..l] + (x[l..e] + x[e..])
  {}

  /** A script never costs less than the distance, and more if one of its
      changes replaces text by itself. */
  lemma {:induction false} ScriptCost(x: seq<int>, y: seq<int>, s: seq<Change>, p0: int, p1: int, i: int)
    requires 0 <= p0 <= |x| && 0 <= p1 <= |y| && Describes(x, y, s, p0, p1)
    ensures Dist(x[p0..], y[p1..]) <= Deleted(s) + Inserted(s)
    ensures 0 <= i < |s| && InText(x, y, s[i]) && x[s[i].line0..s[i].End0()] == y[s[i].line1..s[i].End1()]
            ==> Dist(x[p0..], y[p1..]) < Deleted(s) + Inserted(s)
    decreases |s|
  {
    if s == [] {
      DistSame(x[p0..]);
    } else {
      var c := s[0];
      ScriptCost(x, y, s[1..], c.End0(), c.End1(), i - 1);
      hide Dist, Lcs, Describes;
      var a, b := x[c.line0..c.End0()], y[c.line1..c.End1()];
      ThreeParts(x, p0, c.line0, c.End0());
      ThreeParts(y, p1, c.line1, c.End1());
      DistCommonPrefix(x[p0..c.line0], a + x[c.End0()..], b + y[c.End1()..]);
      DistTriangle(a, b, x[c.End0()..], y[c.End1()..]);
      DistAtMost(a, b);
      if i == 0 && a == b {
        DistSame(a);
      }
    }
  }

  ghost predicate InText(x: seq<int>, y: seq<int>, c: Change) {
    0 <= c.line0 <= c.End0() <= |x| && 0 <= c.line1 <= c.End1() <= |y|
  }

  lemma DistSame(a: seq<int>)
    ensures Dist(a, a) == 0
  {
    DistCommonPrefix(a, [], []);
    assert a + [] == a;
  }

  lemma DistAtMost(a: seq<int>, b: seq<int>)
    ensures Dist(a, b) <= |a| + |b|
  {}

  /** Where change number `i` of a script lies. */
  lemma {:induction false} ChangeAligned(x: seq<int>, y: seq<int>, s: seq<Change>, p0: int, p1: int, i: int)
    requires 0 <= p0 <= |x| && 0 <= p1 <= |y| && Describes(x, y, s, p0, p1) && 0 <= i < |s|
    requires (p0 == 0 && p1 == 0) || p0 < s[0].line0
    ensures InText(x, y, s[i]) && s[i].deleted + s[i].inserted > 0
    ensures Aligned(x, y, s[i].line0 - 1, s[i].line1 - 1) && Aligned(x, y, s[i].End0(), s[i].End1())
    decreases |s|
  {
    var c := s[0];
    if i == 0 {
      PrevAligned(x, y, p0, p1, c.line0, c.line1);
      NextAligned(x, y, s[1..], c.End0(), c.End1());
    } else {
      ChangeAligned(x, y, s[1..], c.End0(), c.End1(), i - 1);
    }
  }

  /** With a minimal window script the assertion on short swaps never fails. */
  lemma MinimalHasNoSwap(v: seq<int>, w: seq<int>, context: nat, x: seq<int>, y: seq<int>, s: seq<Change>, i: int)
    requires Words(v) && Words(w) && Tokens(v, w, context, x, y)
    requires Describes(x, y, s, 0, 0) && Deleted(s) + Inserted(s) == Dist(x, y)
    requires 0 <= i < |s|
    ensures !ShortSwap(s[i], context)
  {
    hide Tokens, Describes, Deleted, Inserted;
    assert x[0..] == x && y[0..] == y;
    if ShortSwap(s[i], context) {
      ChangeAligned(x, y, s, 0, 0, i);
      SwapIsEqual(v, w, context, x, y, s[i]);
      ScriptCost(x, y, s, 0, 0, i);
      assert false;
    }
  }

  /** Nor does it after any comparison that was not cut short. */
  lemma TightHasNoSwap(v: seq<int>, w: seq<int>, context: nat, x: seq<int>, y: seq<int>, s: seq<Change>, i: int)
    requires Words(v) && Words(w) && Tokens(v, w, context, x, y)
    requires Describes(x, y, s, 0, 0) && 0 <= i < |s| && Tight(x, y, s[i])
    ensures !ShortSwap(s[i], context)
  {
    hide Tokens, Describes, Tight;
    if ShortSwap(s[i], context) {
      ChangeAligned(x, y, s, 0, 0, i);
      SwapIsEqual(v, w, context, x, y, s[i]);
      TightSides(x, y, s[i]);
      assert false;
    }
  }

  // ----- the trimmed script as a whole

  /** `s` turns v[p0..] into w[p1..]: equal words before, between and after its
      changes, which lie inside the files in order. */
  ghost predicate Rewrites(v: seq<int>, w: seq<int>, s: seq<Change>, p0: int, p1: int)
    requires 0 <= p0 <= |v| && 0 <= p1 <= |w|
    decreases |s|
  {
    if s == [] then v[p0..] == w[p1..]
    else
      var c := s[0];
      && p0 <= c.line0 <= c.End0() <= |v| && p1 <= c.line1 <= c.End1() <= |w|
      && c.deleted + c.inserted > 0
      && v[p0..c.line0] == w[p1..c.line1]
      && Rewrites(v, w, s[1..], c.End0(), c.End1())
  }

  lemma RewritesCons(v: seq<int>, w: seq<int>, c: Change, s: seq<Change>, p0: int, p1: int)
    requires 0 <= p0 <= c.line0 <= c.End0() <= |v| && 0 <= p1 <= c.line1 <= c.End1() <= |w|
    requires c.deleted + c.inserted > 0 && v[p0..c.line0] == w[p1..c.line1] && Rewrites(v, w, s, c.End0(), c.End1())
    ensures Rewrites(v, w, [c] + s, p0, p1)
  {
    assert ([c] + s)[1..] == s;
  }

  function TrimChange(c: Change, context: nat): Change {
    var excess := Excess(c, context);
    c.(deleted := c.deleted - excess, inserted := c.inserted - excess)
  }

  function TrimAll(s: seq<Change>, context: nat): seq<Change> {
    if s == [] then [] else [TrimChange(s[0], context)] + TrimAll(s[1..], context)
  }

  ghost predicate NoSwaps(s: seq<Change>, context: nat) {
    forall i :: 0 <= i < |s| ==> !ShortSwap(s[i], context)
  }

  /** Position in a window script: after the windows before (e0, e1) have been
      accounted for, words up to (e0 - excess, e1 - excess) have. */
  ghost predicate Between(v: seq<int>, w: seq<int>, x: seq<int>, y: seq<int>, context: nat,
                          s: seq<Change>, e0: int, e1: int, excess: int)
  {
    && 0 <= e0 <= |x| && 0 <= e1 <= |y| && Describes(x, y, s, e0, e1)
    && ((e0 == 0 && e1 == 0 && excess == 0) || (s != [] ==> e0 < s[0].line0))
    && 0 <= excess <= context && 0 <= e0 - excess <= |v| && 0 <= e1 - excess <= |w|
    && (e0 == |x| && e1 == |y| ==> e0 - excess == |v| && e1 - excess == |w|)
  }

  /** What the next change of a script looks like in words. */
  lemma NextChange(v: seq<int>, w: seq<int>, context: nat, x: seq<int>, y: seq<int>,
                   s: seq<Change>, e0: int, e1: int, excess: int)
    requires Words(v) && Words(w) && Tokens(v, w, context, x, y)
    requires Between(v, w, x, y, context, s, e0, e1, excess) && s != [] && !ShortSwap(s[0], context)
    ensures var c, t := s[0], TrimChange(s[0], context);
            && 0 <= e0 - excess <= c.line0 && 0 <= e1 - excess <= c.line1 && 0 <= c.deleted && 0 <= c.inserted
            && c.line0 <= t.End0() <= |v| && c.line1 <= t.End1() <= |w| && t.deleted + t.inserted > 0
            && v[e0 - excess..c.line0] == w[e1 - excess..c.line1]
            && Between(v, w, x, y, context, s[1..], c.End0(), c.End1(), Excess(c, context))
  {
    hide Tokens, Words;
    var c := s[0];
    PrevAligned(x, y, e0, e1, c.line0, c.line1);
    NextAligned(x, y, s[1..], c.End0(), c.End1());
    TrimInRange(v, w, context, x, y, c);
    GapWords(v, w, context, x, y, e0, e1, c.line0, c.line1, excess);
  }

  /** All words up to a short swap pair up. */
  lemma BeforeSwap(v: seq<int>, w: seq<int>, context: nat, x: seq<int>, y: seq<int>,
                   s: seq<Change>, e0: int, e1: int, excess: int)
    requires Words(v) && Words(w) && Tokens(v, w, context, x, y)
    requires Between(v, w, x, y, context, s, e0, e1, excess) && s != [] && ShortSwap(s[0], context)
    ensures 0 <= e0 - excess <= Min(s[0].line0, |v|) && 0 <= e1 - excess <= Min(s[0].line1, |w|)
    ensures v[e0 - excess..Min(s[0].line0, |v|)] == w[e1 - excess..Min(s[0].line1, |w|)]
  {
    hide Tokens, Words;
    var c := s[0];
    PrevAligned(x, y, e0, e1, c.line0, c.line1);
    NextAligned(x, y, s[1..], c.End0(), c.End1());
    MatchedPlaces(v, w, context, x, y, c.line0 - 1, c.line1 - 1);
    GapWords(v, w, context, x, y, e0, e1, c.line0, c.line1, excess);
  }

  lemma LastGap(v: seq<int>, w: seq<int>, context: nat, x: seq<int>, y: seq<int>, e0: int, e1: int, excess: int)
    requires Words(v) && Words(w) && Tokens(v, w, context, x, y)
    requires Between(v, w, x, y, context, [], e0, e1, excess)
    ensures 0 <= e0 - excess <= |v| && 0 <= e1 - excess <= |w| && v[e0 - excess..] == w[e1 - excess..]
  {
    SizesOfTokens(v, w, context, x, y);
    assert x[e0..|x|] == x[e0..] && y[e1..|y|] == y[e1..];
    assert |x[e0..]| == |y[e1..]|;
    GapWords(v, w, context, x, y, e0, e1, |x|, |y|, excess);
    assert v[e0 - excess..|v|] == v[e0 - excess..] && w[e1 - excess..|w|] == w[e1 - excess..];
  }

  lemma SizesOfTokens(v: seq<int>, w: seq<int>, context: nat, x: seq<int>, y: seq<int>)
    requires Tokens(v, w, context, x, y)
    ensures context <= |v| && context <= |w| && |x| == |v| + context && |y| == |w| + context
  {}

  /** Trimming a correct window script without short swaps gives a correct
      word script. */
  lemma {:induction false} TrimmedScript(v: seq<int>, w: seq<int>, context: nat, x: seq<int>, y: seq<int>,
                                         s: seq<Change>, e0: int, e1: int, excess: int)
    requires Words(v) && Words(w) && Tokens(v, w, context, x, y)
    requires Between(v, w, x, y, context, s, e0, e1, excess) && NoSwaps(s, context)
    ensures Rewrites(v, w, TrimAll(s, context), e0 - excess, e1 - excess)
    decreases |s|
  {
    hide Window, Words, Tokens, ShortSwap, Excess;
    if s == [] {
      LastGap(v, w, context, x, y, e0, e1, excess);
    } else {
      hide Between;
      var c, t := s[0], TrimChange(s[0], context);
      assert NoSwaps(s[1..], context);
      NextChange(v, w, context, x, y, s, e0, e1, excess);
      hide NoSwaps;
      TrimmedScript(v, w, context, x, y, s[1..], c.End0(), c.End1(), Excess(c, context));
      assert t.End0() == c.End0() - Excess(c, context) && t.End1() == c.End1() - Excess(c, context);
      hide Rewrites;
      RewritesCons(v, w, t, TrimAll(s[1..], context), e0 - excess, e1 - excess);
    }
  }
}
