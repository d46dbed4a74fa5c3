/** The edit script of analyze.c and the whole comparison of two files. */
module DiffFiles {
  import opened EditDistance
  import opened EditGraph
  import opened MidpointSearch
  import opened Flags
  import opened CompareSeq
  import opened Discard
  import opened ShiftBoundaries

  /** One place where lines are deleted from file 0 and inserted from file 1. */
  datatype Change = Change(line0: int, line1: int, deleted: int, inserted: int) {
    function End0(): int { line0 + deleted }
    function End1(): int { line1 + inserted }
  }

  /** `s` describes how v0[p0..] turns into v1[p1..]: the changes are in order
      and not empty, equal text lies before, between and after them, and two
      changes are at least one matched line apart. */
  ghost predicate Describes(v0: seq<int>, v1: seq<int>, s: seq<Change>, p0: int, p1: int)
    requires 0 <= p0 <= |v0| && 0 <= p1 <= |v1|
    decreases |s|
  {
    if s == [] then v0[p0..] == v1[p1..]
    else
      var c := s[0];
      && p0 <= c.line0 <= c.End0() <= |v0| && p1 <= c.line1 <= c.End1() <= |v1|
      && c.deleted + c.inserted > 0
      && v0[p0..c.line0] == v1[p1..c.line1]
      && (|s| > 1 ==> c.End0() < s[1].line0)
      && Describes(v0, v1, s[1..], c.End0(), c.End1())
  }

  /** The result of editing v0[p0..] as the script says. */
  ghost function Apply(v0: seq<int>, v1: seq<int>, s: seq<Change>, p0: int): seq<int>
    decreases |s|
  {
    if s == [] then (if 0 <= p0 <= |v0| then v0[p0..] else [])
    else
      var c := s[0];
      if 0 <= p0 <= c.line0 <= |v0| && 0 <= c.line1 <= c.End1() <= |v1| then
        v0[p0..c.line0] + v1[c.line1..c.End1()] + Apply(v0, v1, s[1..], c.End0())
      else []
  }

  /** A script that describes v0 to v1 produces v1. */
  lemma {:induction false} ApplyDescribed(v0: seq<int>, v1: seq<int>, s: seq<Change>, p0: int, p1: int)
    requires 0 <= p0 <= |v0| && 0 <= p1 <= |v1| && Describes(v0, v1, s, p0, p1)
    ensures Apply(v0, v1, s, p0) == v1[p1..]
    decreases |s|
  {
    if s != [] {
      var c := s[0];
      ApplyDescribed(v0, v1, s[1..], c.End0(), c.End1());
      assert v1[p1..] == v1[p1..c.line1] + v1[c.line1..c.End1()] + v1[c.End1()..];
    }
  }

  ghost function Deleted(s: seq<Change>): int {
    if s == [] then 0 else s[0].deleted + Deleted(s[1..])
  }

  ghost function Inserted(s: seq<Change>): int {
    if s == [] then 0 else s[0].inserted + Inserted(s[1..])
  }

  lemma DescribesMatch(v0: seq<int>, v1: seq<int>, s: seq<Change>, p0: int, p1: int)
    requires 0 < p0 <= |v0| && 0 < p1 <= |v1| && Describes(v0, v1, s, p0, p1) && v0[p0 - 1] == v1[p1 - 1]
    ensures Describes(v0, v1, s, p0 - 1, p1 - 1)
  {
    if s == [] {
      assert v0[p0 - 1..] == [v0[p0 - 1]] + v0[p0..] && v1[p1 - 1..] == [v1[p1 - 1]] + v1[p1..];
    } else {
      var c := s[0];
      assert v0[p0 - 1..c.line0] == [v0[p0 - 1]] + v0[p0..c.line0];
      assert v1[p1 - 1..c.line1] == [v1[p1 - 1]] + v1[p1..c.line1];
    }
  }

  lemma DescribesCons(v0: seq<int>, v1: seq<int>, s: seq<Change>, c: Change)
    requires 0 <= c.line0 <= c.End0() <= |v0| && 0 <= c.line1 <= c.End1() <= |v1| && c.deleted + c.inserted > 0
    requires Describes(v0, v1, s, c.End0(), c.End1()) && (s != [] ==> c.End0() < s[0].line0)
    ensures Describes(v0, v1, [c] + s, c.line0, c.line1)
    ensures Deleted([c] + s) == c.deleted + Deleted(s) && Inserted([c] + s) == c.inserted + Inserted(s)
  {
    assert ([c] + s)[1..] == s;
    assert v0[c.line0..c.line0] == v1[c.line1..c.line1];
  }

  lemma DescribesNothing(v0: seq<int>, v1: seq<int>)
    ensures Describes(v0, v1, [], |v0|, |v1|) && Deleted([]) == 0 && Inserted([]) == 0
  {}

  // ----- building the script

  /** The unchanged lines before line `k`. */
  ghost function Prefix(v: seq<int>, c: seq<bool>, k: int): seq<int>
    requires |c| == |v| + 2 && 0 <= k <= |v|
  {
    Kept(v[..k], c[1..k + 1])
  }

  lemma PrefixStep(v: seq<int>, c: seq<bool>, k: int)
    requires |c| == |v| + 2 && 0 < k <= |v|
    ensures Prefix(v, c, k) == Prefix(v, c, k - 1) + (if c[k] then [] else [v[k - 1]])
  {
    assert v[..k] == v[..k - 1] + [v[k - 1]] && c[1..k + 1] == c[1..k] + [c[k]];
    KeptConcat(v[..k - 1], c[1..k], [v[k - 1]], [c[k]]);
  }

  lemma PrefixAll(v: seq<int>, c: seq<bool>)
    requires |c| == |v| + 2
    ensures Prefix(v, c, |v|) == Survivors(v, c)
  {
    assert v[..|v|] == v;
  }

  /** [from, to) is empty or a whole run of changed lines. */
  ghost predicate WholeRun(c: seq<bool>, from: int, to: int) {
    && 0 <= from <= to && to + 1 < |c| && !c[from] && !c[to + 1]
    && forall t :: from < t <= to ==> c[t]
  }

  /** `c` is a pair of level runs: the same unchanged lines come before them. */
  ghost predicate OfFlags(v0: seq<int>, c0: seq<bool>, v1: seq<int>, c1: seq<bool>, c: Change)
    requires |c0| == |v0| + 2 && |c1| == |v1| + 2
  {
    && WholeRun(c0, c.line0, c.End0()) && WholeRun(c1, c.line1, c.End1())
    && Prefix(v0, c0, c.line0) == Prefix(v1, c1, c.line1)
  }

  /** Steps back over a run of changed lines. */
  method RunStart(changed: array<bool>, v: seq<int>, i: int) returns (k: int)
    requires changed.Length == |v| + 2 && 0 <= i <= |v| && !changed[0]
    ensures 0 <= k <= i && !changed[k] && (k < i <==> changed[i]) && forall t :: k < t <= i ==> changed[t]
    ensures Prefix(v, changed[..], k) == Prefix(v, changed[..], i)
    ensures Before(changed[..], i) == Before(changed[..], k) + i - k
  {
    hide Prefix;
    k := i;
    while changed[k]
      invariant 0 <= k <= i && Prefix(v, changed[..], k) == Prefix(v, changed[..], i)
      invariant (k < i ==> changed[i]) && forall t :: k < t <= i ==> changed[t]
      invariant Before(changed[..], i) == Before(changed[..], k) + i - k
      decreases k
    {
      PrefixStep(v, changed[..], k);
      k := k - 1;
    }
  }

  /** What the unchanged lines before two level cursors say about the cursors. */
  lemma LevelCursors(v0: seq<int>, c0: seq<bool>, v1: seq<int>, c1: seq<bool>, i0: int, i1: int)
    requires |c0| == |v0| + 2 && |c1| == |v1| + 2 && 0 <= i0 <= |v0| && 0 <= i1 <= |v1|
    requires !c0[i0] && !c1[i1] && Prefix(v0, c0, i0) == Prefix(v1, c1, i1)
    ensures i0 == 0 <==> i1 == 0
    ensures i0 > 0 ==> v0[i0 - 1] == v1[i1 - 1] && Prefix(v0, c0, i0 - 1) == Prefix(v1, c1, i1 - 1)
  {
    hide Prefix;
    PrefixZero(v0, c0);
    PrefixZero(v1, c1);
    if i0 > 0 { PrefixStep(v0, c0, i0); }
    if i1 > 0 { PrefixStep(v1, c1, i1); }
    if i0 > 0 && i1 > 0 {
      SnocEqual(Prefix(v0, c0, i0 - 1), v0[i0 - 1], Prefix(v1, c1, i1 - 1), v1[i1 - 1]);
    }
  }

  lemma BeforeNone(c: seq<bool>)
    requires |c| > 0
    ensures Before(c, 0) == 0
  {}

  lemma BeforeClear(c: seq<bool>, k: int)
    requires 0 <= k < |c| && !c[k]
    ensures Before(c, Max(k - 1, 0)) == Before(c, k)
  {}

  lemma PrefixZero(v: seq<int>, c: seq<bool>)
    requires |c| == |v| + 2
    ensures Prefix(v, c, 0) == []
  {}

  lemma SnocEqual(a: seq<int>, x: int, b: seq<int>, y: int)
    requires a + [x] == b + [y]
    ensures a == b && x == y
  {
    assert (a + [x])[|a|] == x && (b + [y])[|b|] == y;
    assert (a + [x])[..|a|] == a && (b + [y])[..|b|] == b;
  }

  /** Scans the flags from the end and conses one change per pair of level
      runs, so the script comes out in forward order. The two cursors reach the
      front in the same step. */
  method BuildScript(changed0: array<bool>, v0: seq<int>, changed1: array<bool>, v1: seq<int>)
    returns (script: seq<Change>)
    requires changed0.Length == |v0| + 2 && changed1.Length == |v1| + 2
    requires Padded(changed0[..]) && Padded(changed1[..])
    requires Survivors(v0, changed0[..]) == Survivors(v1, changed1[..])
    ensures Describes(v0, v1, script, 0, 0)
    ensures Deleted(script) == Before(changed0[..], |v0|)
    ensures Inserted(script) == Before(changed1[..], |v1|)
    ensures forall c :: c in script ==> OfFlags(v0, changed0[..], v1, changed1[..], c)
  {
    hide Prefix, Survivors, Describes, Deleted, Inserted, Before;
    ghost var c0, c1 := changed0[..], changed1[..];
    var i0, i1 := |v0|, |v1|;
    script := [];
    PrefixAll(v0, c0);
    PrefixAll(v1, c1);
    DescribesNothing(v0, v1);
    BeforeNone(c0);
    BeforeNone(c1);
    while i0 >= 0 || i1 >= 0
      invariant -1 <= i0 <= |v0| && -1 <= i1 <= |v1| && (i0 >= 0 <==> i1 >= 0)
      invariant i0 >= 0 ==> Prefix(v0, c0, i0) == Prefix(v1, c1, i1)
      invariant Describes(v0, v1, script, Max(i0, 0), Max(i1, 0))
      invariant script != [] ==> i0 < script[0].line0
      invariant !c0[i0 + 1] && !c1[i1 + 1] && forall c :: c in script ==> OfFlags(v0, c0, v1, c1, c)
      invariant Deleted(script) == Before(c0, |v0|) - Before(c0, Max(i0, 0))
      invariant Inserted(script) == Before(c1, |v1|) - Before(c1, Max(i1, 0))
      decreases i0
    {
      if changed0[i0] || changed1[i1] {
        var line0, line1 := i0, i1;
        i0 := RunStart(changed0, v0, i0);
        i1 := RunStart(changed1, v1, i1);
        var c := Change(i0, i1, line0 - i0, line1 - i1);
        DescribesCons(v0, v1, script, c);
        script := [c] + script;
      }
      LevelCursors(v0, c0, v1, c1, i0, i1);
      BeforeClear(c0, i0);
      BeforeClear(c1, i1);
      if i0 > 0 {
        DescribesMatch(v0, v1, script, i0, i1);
      }
      i0, i1 := i0 - 1, i1 - 1;
    }
  }

  // ----- the whole comparison

  /** Twice the approximate square root, or 1 for nothing. */
  function Root(diags: nat): nat {
    if diags == 0 then 1 else 2 * Scale(diags)
  }

  lemma RootStep(limit: int, d: nat)
    requires d > 0
    ensures (limit * 2) * Root(d / 4) == limit * Root(d)
  {
    assert Root(d) == 2 * Root(d / 4);
  }

  /** Approximate square root of the input size, bounded below by 256. */
  method TooExpensive(diags: nat) returns (limit: int)
    ensures limit == Max(256, if diags == 0 then 1 else 2 * Scale(diags))
  {
    assert Root(diags) == (if diags == 0 then 1 else 2 * Scale(diags)) && Root(0) == 1;
    hide Root, Scale;
    limit := 1;
    var d := diags;
    while d != 0
      invariant d >= 0 && limit >= 1 && limit * Root(d) == Root(diags)
      decreases d
    {
      RootStep(limit, d);
      limit := limit * 2;
      d := d / 4;
    }
    limit := Max(256, limit);
  }

  lemma FlagStays(d: seq<int>, minimal: bool, before: seq<bool>, after: seq<bool>, index: seq<int>, k: int)
    requires |before| == |after| == |d| + 2 && index == Staying(d, minimal, |d|) && Indexes(index, |before|)
    requires 0 <= k < |d| && !Stays(d, minimal, k) && before[k + 1] && OnlyWithin(before, after, index, 0, |index|)
    ensures after[k + 1]
  {
    assert forall t :: 0 <= t < |index| ==> index[t] + 1 != k + 1;
  }

  lemma PickMarks(g: seq<bool>, after: seq<bool>, index: seq<int>)
    requires |after| == |g| + 2 && g == after[1..|g| + 1] && Indexes(index, |after|)
    requires forall k :: 0 <= k < |index| ==> 0 <= index[k] < |g|
    ensures Pick(g, index) == Marks(after, index)
  {}

  lemma EdgesStay(before: seq<bool>, after: seq<bool>, index: seq<int>)
    requires |before| == |after| && Padded(before) && Indexes(index, |before|)
    requires OnlyWithin(before, after, index, 0, |index|)
    ensures Padded(after)
  {}

  /** Flags of a filtered and compared file, before shifting. */
  lemma ComparedSurvivors(v: seq<int>, d: seq<int>, minimal: bool, before: seq<bool>, after: seq<bool>, index: seq<int>)
    requires |v| == |d| && |before| == |after| == |v| + 2 && Padded(before)
    requires index == Staying(d, minimal, |v|) && Indexes(index, |before|)
    requires forall k :: 0 <= k < |v| ==> (before[k + 1] <==> !Stays(d, minimal, k))
    requires OnlyWithin(before, after, index, 0, |index|)
    ensures Padded(after)
    ensures Survivors(v, after) == Kept(Pick(v, index), Marks(after, index))
  {
    var g := after[1..|v| + 1];
    forall k | 0 <= k < |v| && !Stays(d, minimal, k) ensures g[k] {
      FlagStays(d, minimal, before, after, index, k);
    }
    assert Padded(after) by { EdgesStay(before, after, index); }
    hide Staying, Stays, OnlyWithin, Kept, Indexes;
    KeptAmongStaying(v, g, d, minimal, |v|);
    assert v[..|v|] == v && g[..|v|] == g;
    PickMarks(g, after, index);
  }

  /** After the comparison both files keep the same text. It is a longest
      common subsequence of the lines compared if the comparison was exact, and
      of the whole files if nothing was filtered. */
  lemma ComparedFiles(v0: seq<int>, d0: seq<int>, b0: seq<bool>, a0: seq<bool>, index0: seq<int>,
                      v1: seq<int>, d1: seq<int>, b1: seq<bool>, a1: seq<bool>, index1: seq<int>,
                      minimal: bool, exact: bool)
    requires |v0| == |d0| && |b0| == |a0| == |v0| + 2 && Padded(b0)
    requires index0 == Staying(d0, minimal, |v0|) && Indexes(index0, |b0|)
    requires forall k :: 0 <= k < |v0| ==> (b0[k + 1] <==> !Stays(d0, minimal, k))
    requires OnlyWithin(b0, a0, index0, 0, |index0|)
    requires |v1| == |d1| && |b1| == |a1| == |v1| + 2 && Padded(b1)
    requires index1 == Staying(d1, minimal, |v1|) && Indexes(index1, |b1|)
    requires forall k :: 0 <= k < |v1| ==> (b1[k + 1] <==> !Stays(d1, minimal, k))
    requires OnlyWithin(b1, a1, index1, 0, |index1|)
    requires Compared(Box(Pick(v0, index0), Pick(v1, index1), 0, |index0|, 0, |index1|),
                      Marks(a0, index0), Marks(a1, index1), exact)
    requires minimal ==> exact
    ensures Padded(a0) && Padded(a1) && Survivors(v0, a0) == Survivors(v1, a1)
    ensures exact ==> |Survivors(v0, a0)| == Lcs(Pick(v0, index0), Pick(v1, index1))
    ensures minimal ==> |Survivors(v0, a0)| == Lcs(v0, v1)
  {
    hide Kept, Lcs, Survivors, OnlyWithin, Staying, Stays;
    ComparedSurvivors(v0, d0, minimal, b0, a0, index0);
    ComparedSurvivors(v1, d1, minimal, b1, a1, index1);
    var x, y, m0, m1 := Pick(v0, index0), Pick(v1, index1), Marks(a0, index0), Marks(a1, index1);
    assert x[0..|index0|] == x && y[0..|index1|] == y && m0[0..|index0|] == m0 && m1[0..|index1|] == m1;
    if minimal {
      AllStay(d0, |v0|);
      AllStay(d1, |v1|);
      assert x == v0 && y == v1;
    }
  }

  // ----- what a comparison that was not cut short leaves

  /** The change holds a line that does not occur in the other file. */
  ghost predicate HoldsUnmatched(v0: seq<int>, v1: seq<int>, c: Change) {
    || (exists k :: c.line0 <= k < c.End0() && 0 <= k < |v0| && v0[k] !in v1)
    || (exists k :: c.line1 <= k < c.End1() && 0 <= k < |v1| && v1[k] !in v0)
  }

  /** The two sides of the change have no line in common. */
  ghost predicate Apart(v0: seq<int>, v1: seq<int>, c: Change)
    requires 0 <= c.line0 <= c.End0() <= |v0| && 0 <= c.line1 <= c.End1() <= |v1|
  {
    forall p, q :: c.line0 <= p < c.End0() && c.line1 <= q < c.End1() ==> v0[p] != v1[q]
  }

  ghost predicate Tight(v0: seq<int>, v1: seq<int>, c: Change) {
    && 0 <= c.line0 <= c.End0() <= |v0| && 0 <= c.line1 <= c.End1() <= |v1|
    && (Apart(v0, v1, c) || HoldsUnmatched(v0, v1, c))
  }

  /** A tight change does not replace text by the same text. */
  lemma TightSides(v0: seq<int>, v1: seq<int>, c: Change)
    requires Tight(v0, v1, c) && v0[c.line0..c.End0()] == v1[c.line1..c.End1()]
    ensures c.deleted == 0
  {
    var a, b := v0[c.line0..c.End0()], v1[c.line1..c.End1()];
    assert |a| == |b|;
    assert c.deleted > 0 ==> v0[c.line0] == a[0] == b[0] == v1[c.line1];
    assert c.deleted > 0 ==> !Apart(v0, v1, c);
    forall p | c.line0 <= p < c.End0() ensures v0[p] in v1 {
      assert v0[p] == a[p - c.line0] == b[p - c.line0] == v1[p - c.line0 + c.line1];
    }
    forall q | c.line1 <= q < c.End1() ensures v1[q] in v0 {
      assert v1[q] == b[q - c.line1] == a[q - c.line1] == v0[q - c.line1 + c.line0];
    }
  }

  /** Lines that were filtered out are in stretches that cannot be moved. */
  ghost predicate Fixed(v: seq<int>, other: seq<int>, d: seq<int>, minimal: bool, c: seq<bool>)
    requires |c| == |v| + 2 && |d| == |v|
  {
    forall k :: 0 <= k < |v| && !Stays(d, minimal, k) ==> FixedAt(v, other, c, k)
  }

  ghost predicate FixedAt(v: seq<int>, other: seq<int>, c: seq<bool>, k: int)
    requires |c| == |v| + 2
  {
    exists a, b :: a <= k <= b && Anchored(v, c, a, b) && v[a] !in other
  }

  lemma FixedKept(v: seq<int>, other: seq<int>, d: seq<int>, minimal: bool, c: seq<bool>, r: seq<bool>)
    requires |c| == |v| + 2 && |d| == |v| && Moved(v, c, r) && Fixed(v, other, d, minimal, c)
    ensures |r| == |v| + 2 && Fixed(v, other, d, minimal, r)
  {
    MovedKeeps(v, c, r);
    hide Anchored, Stays, Moved;
    forall k | 0 <= k < |v| && !Stays(d, minimal, k) ensures FixedAt(v, other, r, k) {
      assert FixedAt(v, other, c, k);
    }
  }

  /** After filtering and comparing, before shifting. */
  lemma FixedStart(v: seq<int>, other: seq<int>, d: seq<int>, minimal: bool, c: seq<bool>)
    requires |c| == |v| + 2 && Filtered(v, other, d)
    requires forall k :: 0 <= k < |v| && !Stays(d, minimal, k) ==> c[k + 1]
    requires forall e :: e in Survivors(v, c) ==> e in other
    ensures Fixed(v, other, d, minimal, c)
  {
    hide Survivors;
    forall k | 0 <= k < |v| && !Stays(d, minimal, k) ensures FixedAt(v, other, c, k) {
      if d[k] == NO_MATCH {
        assert Anchored(v, c, k, k);
      } else {
        assert Enclosed(d, k, |d|);
        var a, b :| Encloses(d, a, k, b) && b < |d|;
        forall t | a < t <= b + 1 ensures c[t] {
          assert d[t - 1] != KEEP && !Stays(d, minimal, t - 1);
          assert c[(t - 1) + 1];
        }
        assert Anchored(v, c, a, b);
      }
    }
  }

  /** An anchored stretch lies in the run of any of its lines. */
  lemma FixedInRun(v: seq<int>, other: seq<int>, c: seq<bool>, from: int, to: int, k: int)
    requires |c| == |v| + 2 && WholeRun(c, from, to) && from <= k < to && FixedAt(v, other, c, k)
    ensures exists a :: from <= a < to && 0 <= a < |v| && v[a] !in other
  {
    var a, b :| a <= k <= b && Anchored(v, c, a, b) && v[a] !in other;
    assert from <= a < to;
  }

  /** The unchanged text with one more line. */
  lemma OneMore(v: seq<int>, c: seq<bool>, from: int, to: int, p: int) returns (rest: seq<int>)
    requires |c| == |v| + 2 && WholeRun(c, from, to) && from <= p < to
    ensures Survivors(v, c) == Prefix(v, c, from) + rest
    ensures Survivors(v, c[p + 1 := false]) == Prefix(v, c, from) + [v[p]] + rest
  {
    hide Kept;
    var m, n := c[1..|v| + 1], c[p + 1 := false][1..|v| + 1];
    rest := Kept(v[p + 1..], m[p + 1..]);
    PartAt(v, m, p);
    PartAt(v, n, p);
    assert n[..p] == m[..p] && n[p + 1..] == m[p + 1..] && m[p] && !n[p];
    RunPrefix(v, c, from, p);
    assert Prefix(v, c, p) == Kept(v[..p], m[..p]) by { assert c[1..p + 1] == m[..p]; }
    assert Prefix(v, c, from) + [] + rest == Prefix(v, c, from) + rest;
  }

  lemma {:induction false} RunPrefix(v: seq<int>, c: seq<bool>, from: int, p: int)
    requires |c| == |v| + 2 && 0 <= from <= p <= |v| && forall t :: from < t <= p ==> c[t]
    ensures Prefix(v, c, p) == Prefix(v, c, from)
    decreases p
  {
    hide Prefix;
    if from < p {
      RunPrefix(v, c, from, p - 1);
      PrefixStep(v, c, p);
    }
  }

  /** The unchanged text is part of the lines that stay. */
  lemma SurvivorsStay(v: seq<int>, d: seq<int>, minimal: bool, c: seq<bool>)
    requires |v| == |d| && |c| == |v| + 2
    requires forall k :: 0 <= k < |v| && !Stays(d, minimal, k) ==> c[k + 1]
    ensures Subseq(Survivors(v, c), Pick(v, Staying(d, minimal, |v|)))
  {
    hide Kept, Staying, Stays;
    var g := c[1..|v| + 1];
    KeptAmongStaying(v, g, d, minimal, |v|);
    assert v[..|v|] == v && g[..|v|] == g;
    var index := Staying(d, minimal, |v|);
    KeptSubseq(Pick(v, index), Pick(g, index));
  }

  /** With one more line that stayed, too. */
  lemma OneMoreStays(v: seq<int>, d: seq<int>, minimal: bool, c: seq<bool>, from: int, to: int, p: int)
    returns (rest: seq<int>)
    requires |v| == |d| && |c| == |v| + 2 && WholeRun(c, from, to) && from <= p < to && Stays(d, minimal, p)
    requires forall k :: 0 <= k < |v| && !Stays(d, minimal, k) ==> c[k + 1]
    ensures Survivors(v, c) == Prefix(v, c, from) + rest
    ensures Subseq(Prefix(v, c, from) + [v[p]] + rest, Pick(v, Staying(d, minimal, |v|)))
  {
    hide Survivors, Staying, Prefix, Stays, Subseq;
    rest := OneMore(v, c, from, to, p);
    SurvivorsStay(v, d, minimal, c[p + 1 := false]);
  }

  /** Two lines of one change that both stayed differ: otherwise the common text
      among the lines that stay could be longer. */
  lemma StayingApart(v0: seq<int>, d0: seq<int>, c0: seq<bool>, v1: seq<int>, d1: seq<int>, c1: seq<bool>,
                     minimal: bool, c: Change, p: int, q: int)
    requires |v0| == |d0| && |c0| == |v0| + 2 && |v1| == |d1| && |c1| == |v1| + 2
    requires OfFlags(v0, c0, v1, c1, c) && Survivors(v0, c0) == Survivors(v1, c1)
    requires forall k :: 0 <= k < |v0| && !Stays(d0, minimal, k) ==> c0[k + 1]
    requires forall k :: 0 <= k < |v1| && !Stays(d1, minimal, k) ==> c1[k + 1]
    requires Lcs(Pick(v0, Staying(d0, minimal, |v0|)), Pick(v1, Staying(d1, minimal, |v1|))) <= |Survivors(v0, c0)|
    requires c.line0 <= p < c.End0() && Stays(d0, minimal, p) && c.line1 <= q < c.End1() && Stays(d1, minimal, q)
    ensures v0[p] != v1[q]
  {
    hide Survivors, Staying, Prefix, Lcs, Stays, Subseq, Pick;
    if v0[p] == v1[q] {
      var rest := OneMoreStays(v0, d0, minimal, c0, c.line0, c.End0(), p);
      var same := OneMoreStays(v1, d1, minimal, c1, c.line1, c.End1(), q);
      SameRest(Prefix(v0, c0, c.line0), rest, same);
      var longer := Prefix(v0, c0, c.line0) + [v0[p]] + rest;
      LcsBound(longer, Pick(v0, Staying(d0, minimal, |v0|)), Pick(v1, Staying(d1, minimal, |v1|)));
      assert false;
    }
  }

  lemma SameRest(p: seq<int>, a: seq<int>, b: seq<int>)
    requires p + a == p + b
    ensures a == b
  {
    assert a == (p + a)[|p|..] && b == (p + b)[|p|..];
  }

  /** Every change is tight if the lines that stayed were compared exactly. */
  lemma ChangeTight(v0: seq<int>, d0: seq<int>, c0: seq<bool>, v1: seq<int>, d1: seq<int>, c1: seq<bool>,
                    minimal: bool, c: Change)
    requires |v0| == |d0| && |c0| == |v0| + 2 && |v1| == |d1| && |c1| == |v1| + 2
    requires OfFlags(v0, c0, v1, c1, c) && Survivors(v0, c0) == Survivors(v1, c1)
    requires Fixed(v0, v1, d0, minimal, c0) && Fixed(v1, v0, d1, minimal, c1)
    requires Lcs(Pick(v0, Staying(d0, minimal, |v0|)), Pick(v1, Staying(d1, minimal, |v1|))) <= |Survivors(v0, c0)|
    ensures Tight(v0, v1, c)
  {
    hide Survivors, Staying, Prefix, Lcs, Stays;
    FixedFlags(v0, v1, d0, minimal, c0);
    FixedFlags(v1, v0, d1, minimal, c1);
    hide Anchored;
    if !HoldsUnmatched(v0, v1, c) {
      forall p, q | c.line0 <= p < c.End0() && c.line1 <= q < c.End1() ensures v0[p] != v1[q] {
        if !Stays(d0, minimal, p) {
          FixedInRun(v0, v1, c0, c.line0, c.End0(), p);
        } else if !Stays(d1, minimal, q) {
          FixedInRun(v1, v0, c1, c.line1, c.End1(), q);
        } else {
          StayingApart(v0, d0, c0, v1, d1, c1, minimal, c, p, q);
        }
      }
    }
  }

  lemma FixedFlags(v: seq<int>, other: seq<int>, d: seq<int>, minimal: bool, c: seq<bool>)
    requires |v| == |d| && |c| == |v| + 2 && Fixed(v, other, d, minimal, c)
    ensures forall k :: 0 <= k < |v| && !Stays(d, minimal, k) ==> c[k + 1]
  {
    forall k | 0 <= k < |v| && !Stays(d, minimal, k) ensures c[k + 1] {
      assert FixedAt(v, other, c, k);
    }
  }

  lemma StayingIndexes(d: seq<int>, minimal: bool, flags: seq<bool>)
    requires |flags| == |d| + 2
    requires forall k :: 0 <= k < |d| ==> (flags[k + 1] <==> !Stays(d, minimal, k))
    ensures Indexes(Staying(d, minimal, |d|), |flags|)
    ensures Clear(flags, Staying(d, minimal, |d|), 0, |Staying(d, minimal, |d|)|)
  {}

  /** A script over common text of length `k` edits everything else. */
  lemma ScriptLength(v0: seq<int>, c0: seq<bool>, v1: seq<int>, c1: seq<bool>)
    requires |c0| == |v0| + 2 && |c1| == |v1| + 2 && Survivors(v0, c0) == Survivors(v1, c1)
    ensures Before(c0, |v0|) + Before(c1, |v1|) == |v0| + |v1| - 2 * |Survivors(v0, c0)|
    ensures |Survivors(v0, c0)| <= Lcs(v0, v1)
  {
    SurvivorCount(v0, c0);
    SurvivorCount(v1, c1);
    KeptSubseq(v0, c0[1..|v0| + 1]);
    KeptSubseq(v1, c1[1..|v1| + 1]);
    LcsBound(Survivors(v0, c0), v0, v1);
  }

  lemma {:induction false} KeptSubseq(v: seq<int>, m: seq<bool>)
    requires |v| == |m|
    ensures Subseq(Kept(v, m), v)
    decreases |v|
  {
    if v != [] {
      var rest := Kept(v[1..], m[1..]);
      KeptSubseq(v[1..], m[1..]);
      if m[0] {
        assert [] + rest == rest;
        SubseqSkip(rest, v);
      } else {
        assert ([v[0]] + rest)[1..] == rest;
      }
    }
  }

  /** Filters both files against each other. */
  method FilterBoth(f0: FileData, f1: FileData, equivMax: nat, minimal: bool)
    returns (ghost d0: seq<int>, ghost d1: seq<int>)
    requires f0 != f1 && f0.Valid() && f1.Valid()
    requires f0.changed != f1.changed
    requires {f0.undiscarded, f0.realindexes} !! {f1.undiscarded, f1.realindexes}
    requires forall k :: 0 <= k < |f0.equivs| ==> 0 <= f0.equivs[k] < equivMax
    requires forall k :: 0 <= k < |f1.equivs| ==> 0 <= f1.equivs[k] < equivMax
    requires forall k :: 0 <= k < f0.changed.Length ==> !f0.changed[k]
    requires forall k :: 0 <= k < f1.changed.Length ==> !f1.changed[k]
    modifies f0`nondiscarded, f0.undiscarded, f0.realindexes, f0.changed
    modifies f1`nondiscarded, f1.undiscarded, f1.realindexes, f1.changed
    ensures FilterResult(f0, f1.equivs, d0, minimal) && FilterResult(f1, f0.equivs, d1, minimal)
  {
    hide Filtered, Staying, Stays, Pick;
    var counts0 := CountEquivs(f0.equivs, equivMax);
    var counts1 := CountEquivs(f1.equivs, equivMax);
    d0 := FilterFile(f0, f1.equivs, counts1, minimal);
    d1 := FilterFile(f1, f0.equivs, counts0, minimal);
  }

  /** State of one file after filtering. */
  ghost predicate FilterResult(f: FileData, other: seq<int>, d: seq<int>, minimal: bool)
    reads f, f.undiscarded, f.realindexes, f.changed
  {
    && f.Valid() && Filtered(f.equivs, other, d)
    && f.realindexes[..f.nondiscarded] == Staying(d, minimal, |f.equivs|)
    && f.undiscarded[..f.nondiscarded] == Pick(f.equivs, f.realindexes[..f.nondiscarded])
    && Padded(f.changed[..])
    && forall k :: 0 <= k < |f.equivs| ==> (f.changed[k + 1] <==> !Stays(d, minimal, k))
  }

  /** What a comparison of two files goes through: which lines were discarded, how
      the lines left were compared, the flags that gave, and the flags after the
      runs were shifted. */
  datatype Work = Work(d0: seq<int>, d1: seq<int>, plan: Plan,
                       a0: seq<bool>, a1: seq<bool>, g0: seq<bool>, g1: seq<bool>) {
    /** The lines of a file that were compared. */
    ghost function Left(v0: seq<int>, minimal: bool): seq<int>
      requires |d0| == |v0|
    {
      Pick(v0, Staying(d0, minimal, |d0|))
    }

    ghost function Right(v1: seq<int>, minimal: bool): seq<int>
      requires |d1| == |v1|
    {
      Pick(v1, Staying(d1, minimal, |d1|))
    }
  }

  /** The cost at which a comparison of files of that size is given up. */
  function CostLimit(size: nat): int {
    Max(256, 2 * Scale(size + 3))
  }

  /** The comparison of the lines left is not cut short: a minimal script is asked
      for, or their distance is within the limits of the search. */
  ghost predicate Affordable(minimal: bool, speedLargeFiles: bool, x: seq<int>, y: seq<int>) {
    minimal || (Dist(x, y) <= 2 * CostLimit(|x| + |y|) && (speedLargeFiles ==> Dist(x, y) <= 2 * (HEURISTIC_COST + 1)))
  }

  /** Files so small that no comparison of them is cut short. */
  predicate Small(minimal: bool, speedLargeFiles: bool, size: int) {
    minimal || size <= if speedLargeFiles then 2 * (HEURISTIC_COST + 1) else 512
  }

  /** Flags of one file after filtering: exactly the lines discarded are marked. */
  ghost function DiscardFlags(d: seq<int>, minimal: bool): seq<bool> {
    [false] + seq(|d|, k requires 0 <= k < |d| => !Stays(d, minimal, k)) + [false]
  }

  /** The lines were filtered against each other, those left compared by the plan,
      the discarded ones counted as changed, and the runs shifted: those of file 0
      against the flags of file 1, then those of file 1 against the new ones. */
  ghost predicate WorkOf(v0: seq<int>, v1: seq<int>, minimal: bool, speedLargeFiles: bool, k: Work) {
    && Filtered(v0, v1, k.d0) && Filtered(v1, v0, k.d1)
    && |k.a0| == |k.g0| == |v0| + 2 && |k.a1| == |k.g1| == |v1| + 2
    && PlannedFlags(v0, v1, minimal, speedLargeFiles, k)
    && Padded(k.a0) && Padded(k.a1) && Padded(k.g0) && Padded(k.g1)
    && Moved(v0, k.a0, k.g0) && Moved(v1, k.a1, k.g1)
    && Resting(v0, k.g0, k.a1, |v0|) && Resting(v1, k.g1, k.g0, |v1|)
  }

  ghost predicate PlannedFlags(v0: seq<int>, v1: seq<int>, minimal: bool, speedLargeFiles: bool, k: Work)
    requires |k.d0| == |v0| && |k.d1| == |v1| && |k.a0| == |v0| + 2 && |k.a1| == |v1| + 2
  {
    var index0, index1 := Staying(k.d0, minimal, |v0|), Staying(k.d1, minimal, |v1|);
    var x, y := k.Left(v0, minimal), k.Right(v1, minimal);
    && OnlyWithin(DiscardFlags(k.d0, minimal), k.a0, index0, 0, |index0|)
    && OnlyWithin(DiscardFlags(k.d1, minimal), k.a1, index1, 0, |index1|)
    && Planned(Box(x, y, 0, |x|, 0, |y|), minimal, speedLargeFiles, CostLimit(|x| + |y|),
               Marks(k.a0, index0), Marks(k.a1, index1), k.plan)
  }

  /** The script is that of the comparison: its changes are the pairs of level runs
      of the final flags, all of them in order. Its length is what is not common to
      the lines compared, if that was not cut short. */
  ghost predicate ScriptOf(v0: seq<int>, v1: seq<int>, minimal: bool, speedLargeFiles: bool,
                           script: seq<Change>, k: Work) {
    && Describes(v0, v1, script, 0, 0)
    && WorkOf(v0, v1, minimal, speedLargeFiles, k)
    && (forall c :: c in script ==> OfFlags(v0, k.g0, v1, k.g1, c))
    && Deleted(script) == Before(k.g0, |v0|) && Inserted(script) == Before(k.g1, |v1|)
    && (minimal ==> Deleted(script) + Inserted(script) == Dist(v0, v1))
    && (Affordable(minimal, speedLargeFiles, k.Left(v0, minimal), k.Right(v1, minimal)) ==>
          && Deleted(script) + Inserted(script)
             == |v0| + |v1| - 2 * Lcs(k.Left(v0, minimal), k.Right(v1, minimal))
          && forall c :: c in script ==> Tight(v0, v1, c))
  }

  lemma FlagsStay(d: seq<int>, minimal: bool, before: seq<bool>, after: seq<bool>, index: seq<int>)
    requires |before| == |after| == |d| + 2 && index == Staying(d, minimal, |d|) && Indexes(index, |before|)
    requires forall k :: 0 <= k < |d| ==> (before[k + 1] <==> !Stays(d, minimal, k))
    requires OnlyWithin(before, after, index, 0, |index|)
    ensures forall k :: 0 <= k < |d| && !Stays(d, minimal, k) ==> after[k + 1]
  {
    forall k | 0 <= k < |d| && !Stays(d, minimal, k) ensures after[k + 1] {
      FlagStays(d, minimal, before, after, index, k);
    }
  }

  lemma {:induction false} KeptWithin(v: seq<int>, m: seq<bool>)
    requires |v| == |m|
    ensures forall e :: e in Kept(v, m) ==> e in v
    decreases |v|
  {
    if v != [] { KeptWithin(v[1..], m[1..]); }
  }

  /** The state of one file from its comparison on. */
  lemma FixedBy(v: seq<int>, other: seq<int>, d: seq<int>, minimal: bool,
                before: seq<bool>, after: seq<bool>, index: seq<int>, o: seq<bool>)
    requires |before| == |after| == |v| + 2 && |o| == |other| + 2 && Filtered(v, other, d)
    requires index == Staying(d, minimal, |d|) && Indexes(index, |before|)
    requires forall k :: 0 <= k < |d| ==> (before[k + 1] <==> !Stays(d, minimal, k))
    requires OnlyWithin(before, after, index, 0, |index|) && Survivors(v, after) == Survivors(other, o)
    ensures |d| == |v| && Fixed(v, other, d, minimal, after)
  {
    FlagsStay(d, minimal, before, after, index);
    KeptWithin(other, o[1..|other| + 1]);
    hide Kept, Staying, OnlyWithin, Filtered;
    FixedStart(v, other, d, minimal, after);
  }

  /** The script that turns file 0 into file 1. Whatever the heuristics do, it
      describes the change correctly; with `minimal` set no script is shorter. It is
      the script of the lines left after filtering, its length fixed by their
      common text unless the comparison is cut short, with all runs at rest. If
      it is not cut short, a change whose sides share a line holds a line that does
      not occur in the other file. */
  method DiffTwoFiles(v0: seq<int>, v1: seq<int>, equivMax: nat, minimal: bool, speedLargeFiles: bool)
    returns (script: seq<Change>, ghost work: Work)
    requires |v0| + |v1| < OFFSET_MAX
    requires forall k :: 0 <= k < |v0| ==> 0 <= v0[k] < equivMax
    requires forall k :: 0 <= k < |v1| ==> 0 <= v1[k] < equivMax
    ensures ScriptOf(v0, v1, minimal, speedLargeFiles, script, work)
    ensures Apply(v0, v1, script, 0) == v1
    ensures Dist(v0, v1) <= Deleted(script) + Inserted(script)
    ensures minimal ==> Deleted(script) + Inserted(script) == Dist(v0, v1)
  {
    hide Survivors, Describes, Deleted, Inserted, Apply, Kept, Filtered, Lcs, Before, Affordable, ScriptOf;
    hide Resting, Fixed, Moved, OfFlags, PlannedFlags, Work.Left, Work.Right, Dist;
    var f0, f1;
    f0, f1, work := FilterAndCompare(v0, v1, equivMax, minimal, speedLargeFiles);
    ShiftBoth(f0.changed, v0, f1.changed, v1);
    ComparedBefore(v0, v1, minimal, speedLargeFiles, work, f0.changed[..], f1.changed[..]);
    work := work.(g0 := f0.changed[..], g1 := f1.changed[..]);
    MovedKeeps(v0, work.a0, work.g0);
    MovedKeeps(v1, work.a1, work.g1);
    script := BuildScript(f0.changed, v0, f1.changed, v1);
    ScriptDone(v0, v1, minimal, speedLargeFiles, script, work);
    ApplyDescribed(v0, v1, script, 0, 0);
    assert v1[0..] == v1;
  }

  /** What is known when the lines left have been compared. */
  ghost predicate ComparedWork(v0: seq<int>, v1: seq<int>, minimal: bool, speedLargeFiles: bool, k: Work) {
    && Filtered(v0, v1, k.d0) && Filtered(v1, v0, k.d1) && |k.d0| == |v0| && |k.d1| == |v1|
    && |k.a0| == |v0| + 2 && |k.a1| == |v1| + 2
    && PlannedFlags(v0, v1, minimal, speedLargeFiles, k) && Padded(k.a0) && Padded(k.a1)
    && Survivors(v0, k.a0) == Survivors(v1, k.a1)
    && Fixed(v0, v1, k.d0, minimal, k.a0) && Fixed(v1, v0, k.d1, minimal, k.a1)
    && (minimal ==> |Survivors(v0, k.a0)| == Lcs(v0, v1))
    && (Affordable(minimal, speedLargeFiles, k.Left(v0, minimal), k.Right(v1, minimal)) ==>
          |Survivors(v0, k.a0)| == Lcs(k.Left(v0, minimal), k.Right(v1, minimal)))
  }

  lemma ComparedBefore(v0: seq<int>, v1: seq<int>, minimal: bool, speedLargeFiles: bool, k: Work,
                       g0: seq<bool>, g1: seq<bool>)
    requires ComparedWork(v0, v1, minimal, speedLargeFiles, k)
    ensures ComparedWork(v0, v1, minimal, speedLargeFiles, k.(g0 := g0, g1 := g1))
  {
    hide Survivors, Kept, Marks, Filtered, Lcs, OnlyWithin, Indexes, Fixed, Staying, Stays, Planned, Pick;
    hide DiscardFlags, Dist, CostLimit, Affordable;
  }

  lemma ScriptDone(v0: seq<int>, v1: seq<int>, minimal: bool, speedLargeFiles: bool, script: seq<Change>, k: Work)
    requires ComparedWork(v0, v1, minimal, speedLargeFiles, k)
    requires |k.g0| == |v0| + 2 && |k.g1| == |v1| + 2 && Padded(k.g0) && Padded(k.g1)
    requires Moved(v0, k.a0, k.g0) && Moved(v1, k.a1, k.g1)
    requires Resting(v0, k.g0, k.a1, |v0|) && Resting(v1, k.g1, k.g0, |v1|)
    requires Describes(v0, v1, script, 0, 0) && (forall c :: c in script ==> OfFlags(v0, k.g0, v1, k.g1, c))
    requires Deleted(script) == Before(k.g0, |v0|) && Inserted(script) == Before(k.g1, |v1|)
    ensures ScriptOf(v0, v1, minimal, speedLargeFiles, script, k)
    ensures Dist(v0, v1) <= Deleted(script) + Inserted(script)
    ensures minimal ==> Deleted(script) + Inserted(script) == Dist(v0, v1)
  {
    hide Survivors, Describes, Deleted, Inserted, Filtered, Lcs, Before, Affordable, Resting, Fixed, Moved;
    hide OfFlags, PlannedFlags, Tight;
    MovedKeeps(v0, k.a0, k.g0);
    MovedKeeps(v1, k.a1, k.g1);
    FixedKept(v0, v1, k.d0, minimal, k.a0, k.g0);
    FixedKept(v1, v0, k.d1, minimal, k.a1, k.g1);
    ScriptLength(v0, k.g0, v1, k.g1);
    if Affordable(minimal, speedLargeFiles, k.Left(v0, minimal), k.Right(v1, minimal)) {
      forall c | c in script ensures Tight(v0, v1, c) {
        ChangeTight(v0, k.d0, k.g0, v1, k.d1, k.g1, minimal, c);
      }
    }
  }

  /** Filters both files and compares the lines left. */
  method FilterAndCompare(v0: seq<int>, v1: seq<int>, equivMax: nat, minimal: bool, speedLargeFiles: bool)
    returns (f0: FileData, f1: FileData, ghost work: Work)
    requires |v0| + |v1| < OFFSET_MAX
    requires forall k :: 0 <= k < |v0| ==> 0 <= v0[k] < equivMax
    requires forall k :: 0 <= k < |v1| ==> 0 <= v1[k] < equivMax
    ensures fresh(f0.changed) && fresh(f1.changed) && f0.changed != f1.changed
    ensures f0.changed[..] == work.a0 && f1.changed[..] == work.a1
    ensures ComparedWork(v0, v1, minimal, speedLargeFiles, work)
  {
    hide Survivors, Kept, Compared, Marks, Filtered, Lcs, OnlyWithin, Indexes, Fixed, Staying, Stays, Planned, Pick;
    hide Affordable, Dist, DiscardFlags, FilterResult;
    f0 := new FileData(v0);
    f1 := new FileData(v1);
    ghost var d0, d1 := FilterBoth(f0, f1, equivMax, minimal);
    FilterParts(f0, v1, d0, minimal);
    FilterParts(f1, v0, d1, minimal);
    var index0, index1 := f0.realindexes[..f0.nondiscarded], f1.realindexes[..f1.nondiscarded];
    var x, y := f0.undiscarded[..f0.nondiscarded], f1.undiscarded[..f1.nondiscarded];
    ghost var b0, b1 := f0.changed[..], f1.changed[..];
    var limit := TooExpensive(|x| + |y| + 3);
    var ctx := new SearchContext(x, y, speedLargeFiles, limit);
    var box := Box(x, y, 0, |x|, 0, |y|);
    ghost var plan := Compare(ctx, box, minimal, f0.changed, index0, f1.changed, index1);
    work := Work(d0, d1, plan, f0.changed[..], f1.changed[..], [], []);
    WorkCompared(v0, v1, minimal, speedLargeFiles, b0, b1, index0, index1, x, y, limit, work);
  }

  lemma FilterParts(f: FileData, other: seq<int>, d: seq<int>, minimal: bool)
    requires FilterResult(f, other, d, minimal)
    ensures f.Valid() && |d| == |f.equivs| && Filtered(f.equivs, other, d)
    ensures var index := f.realindexes[..f.nondiscarded];
            && index == Staying(d, minimal, |d|) && f.undiscarded[..f.nondiscarded] == Pick(f.equivs, index)
            && f.changed[..] == DiscardFlags(d, minimal)
            && Indexes(index, f.changed.Length) && Clear(f.changed[..], index, 0, |index|)
  {
    hide Filtered, Staying, Pick;
    SizeOfFiltered(f.equivs, other, d);
    StayingIndexes(d, minimal, f.changed[..]);
    assert f.changed[..] == DiscardFlags(d, minimal);
  }

  lemma SizeOfFiltered(v: seq<int>, other: seq<int>, d: seq<int>)
    requires Filtered(v, other, d)
    ensures |d| == |v|
  {}

  /** Everything the comparison of the lines left says about the whole files. */
  lemma WorkCompared(v0: seq<int>, v1: seq<int>, minimal: bool, speedLargeFiles: bool, b0: seq<bool>, b1: seq<bool>,
                     index0: seq<int>, index1: seq<int>, x: seq<int>, y: seq<int>, limit: int, k: Work)
    requires |k.d0| == |v0| && |k.d1| == |v1| && Filtered(v0, v1, k.d0) && Filtered(v1, v0, k.d1)
    requires b0 == DiscardFlags(k.d0, minimal) && b1 == DiscardFlags(k.d1, minimal)
    requires index0 == Staying(k.d0, minimal, |k.d0|) && index1 == Staying(k.d1, minimal, |k.d1|)
    requires Indexes(index0, |b0|) && Indexes(index1, |b1|) && x == Pick(v0, index0) && y == Pick(v1, index1)
    requires |k.a0| == |b0| && |k.a1| == |b1| && limit == CostLimit(|x| + |y|)
    requires OnlyWithin(b0, k.a0, index0, 0, |index0|) && OnlyWithin(b1, k.a1, index1, 0, |index1|)
    requires Planned(Box(x, y, 0, |x|, 0, |y|), minimal, speedLargeFiles, limit,
                     Marks(k.a0, index0), Marks(k.a1, index1), k.plan)
    ensures ComparedWork(v0, v1, minimal, speedLargeFiles, k)
  {
    var box := Box(x, y, 0, |x|, 0, |y|);
    FlagsOfDiscards(k.d0, minimal);
    FlagsOfDiscards(k.d1, minimal);
    hide Survivors, Kept, Compared, Marks, Filtered, Lcs, OnlyWithin, Indexes, Fixed, Staying, Stays, Planned, Pick;
    hide DiscardFlags, Dist, CostLimit;
    PlannedCompared(box, minimal, speedLargeFiles, limit, Marks(k.a0, index0), Marks(k.a1, index1), k.plan);
    ExactIsAffordable(x, y, minimal, speedLargeFiles);
    ghost var exact := Exact(box, minimal, speedLargeFiles, limit);
    ComparedFiles(v0, k.d0, b0, k.a0, index0, v1, k.d1, b1, k.a1, index1, minimal, exact);
    FixedBy(v0, v1, k.d0, minimal, b0, k.a0, index0, k.a1);
    FixedBy(v1, v0, k.d1, minimal, b1, k.a1, index1, k.a0);
  }

  lemma FlagsOfDiscards(d: seq<int>, minimal: bool)
    ensures |DiscardFlags(d, minimal)| == |d| + 2 && Padded(DiscardFlags(d, minimal))
    ensures forall k :: 0 <= k < |d| ==> (DiscardFlags(d, minimal)[k + 1] <==> !Stays(d, minimal, k))
  {}

  lemma ExactIsAffordable(x: seq<int>, y: seq<int>, minimal: bool, speedLargeFiles: bool)
    ensures Exact(Box(x, y, 0, |x|, 0, |y|), minimal, speedLargeFiles, CostLimit(|x| + |y|)) <==>
            Affordable(minimal, speedLargeFiles, x, y)
  {
    assert x[0..|x|] == x && y[0..|y|] == y;
  }

  /** Every change of a script for small files is tight. */
  lemma SmallTight(v0: seq<int>, v1: seq<int>, minimal: bool, speedLargeFiles: bool, script: seq<Change>, k: Work)
    requires ScriptOf(v0, v1, minimal, speedLargeFiles, script, k) && Small(minimal, speedLargeFiles, |v0| + |v1|)
    ensures forall c :: c in script ==> Tight(v0, v1, c)
  {
    hide Describes, Deleted, Inserted, Filtered, Lcs, Before, Resting, Moved, OfFlags, PlannedFlags;
    hide Tight, Staying, Pick;
    hide Scale;
    SizeOfFiltered(v0, v1, k.d0);
    SizeOfFiltered(v1, v0, k.d1);
    assert Dist(k.Left(v0, minimal), k.Right(v1, minimal)) <= |v0| + |v1|;
  }
}
