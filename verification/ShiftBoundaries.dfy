/** The beautifier of analyze.c: runs of changed lines slide over identical
    lines, merge with neighbouring runs and, where possible, end opposite a
    change in the other file. Flags are stored with one clear sentinel at each
    end: the flag of line `k` is at index `k + 1`. */
module ShiftBoundaries {
  import opened Flags

  ghost predicate Padded(c: seq<bool>) {
    |c| >= 2 && !c[0] && !c[|c| - 1]
  }

  /** Number of lines before line `k` whose flag is clear. */
  ghost function Clears(c: seq<bool>, k: int): nat
    requires 0 <= k < |c|
  {
    if k == 0 then 0 else Clears(c, k - 1) + (if c[k] then 0 else 1)
  }

  /** The unchanged lines of a file. */
  ghost function Survivors(v: seq<int>, c: seq<bool>): seq<int>
    requires |c| == |v| + 2
  {
    Kept(v, c[1..|v| + 1])
  }

  lemma {:induction false} ClearsMonotone(c: seq<bool>, j: int, k: int)
    requires 0 <= j <= k < |c|
    ensures Clears(c, j) <= Clears(c, k) <= Clears(c, j) + k - j
    decreases k
  {
    if j < k { ClearsMonotone(c, j, k - 1); }
  }

  /** Marked lines do not count. */
  lemma {:induction false} ClearsOverRun(c: seq<bool>, j: int, k: int)
    requires 0 <= j <= k < |c| && forall t :: j < t <= k ==> c[t]
    ensures Clears(c, k) == Clears(c, j)
    decreases k
  {
    if j < k {
      ClearsOverRun(c, j, k - 1);
    }
  }

  lemma {:induction false} ClearsFrame(c: seq<bool>, e: seq<bool>, k: int)
    requires 0 <= k < |c| == |e| && forall t :: 1 <= t <= k ==> c[t] == e[t]
    ensures Clears(c, k) == Clears(e, k)
    decreases k
  {
    if k > 0 { ClearsFrame(c, e, k - 1); }
  }

  /** A clear line is determined by the number of clear lines before it. */
  lemma ClearUnique(c: seq<bool>, j: int, k: int)
    requires 0 <= j && 0 <= k && j + 1 < |c| && k + 1 < |c| && !c[j + 1] && !c[k + 1]
    requires Clears(c, j) == Clears(c, k)
    ensures j == k
  {
    if j < k {
      ClearsMonotone(c, j + 1, k);
    } else if k < j {
      ClearsMonotone(c, k + 1, j);
    }
  }

  lemma {:induction false} SurvivorCount(v: seq<int>, c: seq<bool>)
    requires |c| == |v| + 2
    ensures |Survivors(v, c)| == Clears(c, |v|)
  {
    SurvivorPrefix(v, c, |v|);
    assert v[..|v|] == v;
  }

  lemma {:induction false} SurvivorPrefix(v: seq<int>, c: seq<bool>, k: int)
    requires |c| == |v| + 2 && 0 <= k <= |v|
    ensures |Kept(v[..k], c[1..k + 1])| == Clears(c, k)
    decreases k
  {
    if k > 0 {
      SurvivorPrefix(v, c, k - 1);
      assert v[..k] == v[..k - 1] + [v[k - 1]] && c[1..k + 1] == c[1..k] + [c[k]];
      KeptConcat(v[..k - 1], c[1..k], [v[k - 1]], [c[k]]);
    }
  }

  // ----- exchanging one clear and one set flag across a run

  /** `c` with the flags of lines `a` and `b` exchanged. */
  ghost function Exchange(c: seq<bool>, a: int, b: int): (r: seq<bool>)
    requires 0 <= a < b && b + 1 < |c|
    ensures |r| == |c|
  {
    c[a + 1 := c[b + 1]][b + 1 := c[a + 1]]
  }

  /** Exchanging flags of equal lines with only changed lines between them
      keeps the unchanged text. */
  lemma ExchangeSurvivors(v: seq<int>, c: seq<bool>, a: int, b: int)
    requires |c| == |v| + 2 && 0 <= a < b < |v| && v[a] == v[b] && c[a + 1] != c[b + 1]
    requires forall t :: a + 2 <= t <= b ==> c[t]
    ensures Survivors(v, Exchange(c, a, b)) == Survivors(v, c)
  {
    hide Kept;
    var m, n := c[1..|v| + 1], Exchange(c, a, b)[1..|v| + 1];
    ThreeParts(v, m, a, b);
    ThreeParts(v, n, a, b);
    assert m[..a] == n[..a] && m[b + 1..] == n[b + 1..] && m[a + 1..b] == n[a + 1..b];
    var between := m[a + 1..b];
    forall k | 0 <= k < |between| ensures between[k] {
      var t := a + 1 + k;
      assert between[k] == m[t] && m[t] == c[t + 1];
    }
    KeptNone(v[a + 1..b], between);
  }

  lemma ThreeParts(v: seq<int>, m: seq<bool>, a: int, b: int)
    requires |v| == |m| && 0 <= a < b < |v|
    ensures Kept(v, m) == Kept(v[..a], m[..a]) + (if m[a] then [] else [v[a]])
                          + Kept(v[a + 1..b], m[a + 1..b]) + (if m[b] then [] else [v[b]])
                          + Kept(v[b + 1..], m[b + 1..])
  {
    hide Kept;
    PartAt(v, m, a);
    PartAt(v[a + 1..], m[a + 1..], b - a - 1);
    assert v[a + 1..][..b - a - 1] == v[a + 1..b] && m[a + 1..][..b - a - 1] == m[a + 1..b];
    assert v[a + 1..][b - a - 1 + 1..] == v[b + 1..] && m[a + 1..][b - a - 1 + 1..] == m[b + 1..];
    assert v[a + 1..][b - a - 1] == v[b] && m[a + 1..][b - a - 1] == m[b];
    var p, q, r := Kept(v[..a], m[..a]), if m[a] then [] else [v[a]], Kept(v[a + 1..b], m[a + 1..b]);
    var s, t := if m[b] then [] else [v[b]], Kept(v[b + 1..], m[b + 1..]);
    SeqAssoc(p + q, r + s, t);
    SeqAssoc(p + q, r, s);
  }

  lemma PartAt(v: seq<int>, m: seq<bool>, a: int)
    requires |v| == |m| && 0 <= a < |v|
    ensures Kept(v, m) == Kept(v[..a], m[..a]) + (if m[a] then [] else [v[a]]) + Kept(v[a + 1..], m[a + 1..])
  {
    hide Kept;
    var tail, rest := v[a..], m[a..];
    KeptConcat(v[..a], m[..a], tail, rest);
    assert v == v[..a] + tail && m == m[..a] + rest;
    KeptHead(tail, rest);
    assert tail[1..] == v[a + 1..] && rest[1..] == m[a + 1..];
    SeqAssoc(Kept(v[..a], m[..a]), if m[a] then [] else [v[a]], Kept(v[a + 1..], m[a + 1..]));
  }

  lemma {:induction false} ExchangeClears(c: seq<bool>, a: int, b: int, k: int)
    requires 0 <= a < b && b + 1 < |c| && c[a + 1] != c[b + 1] && 0 <= k < |c|
    ensures Clears(Exchange(c, a, b), k)
         == Clears(c, k) + (if a < k <= b then (if c[a + 1] then 1 else -1) else 0)
    decreases k
  {
    if k > 0 { ExchangeClears(c, a, b, k - 1); }
  }

  // ----- cursors

  /** [start, i) is a maximal run of changed lines and `j` the corresponding
      unchanged line (or the end) of the other file. */
  ghost predicate OnRun(c: seq<bool>, o: seq<bool>, start: int, i: int, j: int) {
    && Padded(c) && Padded(o)
    && 0 <= start < i <= |c| - 2 && 0 <= j <= |o| - 2
    && !c[start] && !c[i + 1] && (forall t :: start < t <= i ==> c[t])
    && !o[j + 1] && Clears(c, i) == Clears(o, j)
    && Clears(c, |c| - 2) == Clears(o, |o| - 2)
  }

  /** Steps to the previous unchanged line of the other file. */
  method PreviousClear(o: array<bool>, j: int) returns (k: int)
    requires Padded(o[..]) && 0 <= j <= o.Length - 2 && Clears(o[..], j) >= 1
    ensures 0 <= k < j && !o[k + 1] && Clears(o[..], k) == Clears(o[..], j) - 1
  {
    ghost var s := o[..];
    k := j - 1;
    while o[k + 1]
      invariant 0 <= k < j && Clears(s, k + 1) == Clears(s, j)
      decreases k
    {
      k := k - 1;
    }
  }

  /** Steps to the next unchanged line or the end, noting changed lines passed. */
  method NextClear(o: array<bool>, j: int) returns (k: int, passed: bool)
    requires Padded(o[..]) && 0 <= j <= o.Length - 2 && !o[j + 1]
    requires Clears(o[..], j) < Clears(o[..], o.Length - 2)
    ensures j < k <= o.Length - 2 && !o[k + 1] && Clears(o[..], k) == Clears(o[..], j) + 1
    ensures passed <==> o[k]
  {
    ghost var s := o[..];
    assert j < o.Length - 2;
    k, passed := j + 1, false;
    while o[k + 1]
      invariant j < k <= o.Length - 2 && Clears(s, k) == Clears(s, j) + 1
      invariant passed <==> s[k]
      decreases o.Length - k
    {
      passed := true;
      k := k + 1;
    }
  }

  // ----- moving a run

  /** Number of changed lines before line `i`. */
  ghost function Before(c: seq<bool>, i: int): int
    requires 0 <= i < |c|
  {
    i - Clears(c, i)
  }

  lemma BackStep(v: seq<int>, c: seq<bool>, o: seq<bool>, start: int, i: int, j: int)
    requires |c| == |v| + 2 && OnRun(c, o, start, i, j) && start > 0 && v[start - 1] == v[i - 1]
    ensures var r := Exchange(c, start - 1, i - 1);
            && r == c[start := true][i := false] && Padded(r)
            && Survivors(v, r) == Survivors(v, c)
            && Clears(r, i - 1) == Clears(c, i) - 1 && Clears(r, |r| - 2) == Clears(c, |c| - 2)
            && Moved(v, c, r)
  {
    hide Survivors;
    var r := Exchange(c, start - 1, i - 1);
    assert c[start] != c[i];
    ExchangeSurvivors(v, c, start - 1, i - 1);
    ExchangeClears(c, start - 1, i - 1, i - 1);
    ExchangeClears(c, start - 1, i - 1, |c| - 2);
    assert MovesRun(v, c, r, start, i, false);
    MovedOnce(v, c, r, start, i, false);
  }

  lemma ForwardStep(v: seq<int>, c: seq<bool>, o: seq<bool>, start: int, i: int, j: int)
    requires |c| == |v| + 2 && OnRun(c, o, start, i, j) && i < |v| && v[start] == v[i]
    ensures var r := Exchange(c, start, i);
            && r == c[start + 1 := false][i + 1 := true] && Padded(r)
            && Survivors(v, r) == Survivors(v, c)
            && Clears(r, i + 1) == Clears(c, i) + 1 && Clears(r, |r| - 2) == Clears(c, |c| - 2)
            && Moved(v, c, r)
    ensures Clears(o, j) < Clears(o, |o| - 2)
  {
    hide Survivors;
    assert c[start + 1] != c[i + 1];
    ExchangeSurvivors(v, c, start, i);
    ExchangeClears(c, start, i, i + 1);
    ExchangeClears(c, start, i, |c| - 2);
    ClearsMonotone(c, i + 1, |c| - 2);
    assert MovesRun(v, c, Exchange(c, start, i), start, i, true);
    MovedOnce(v, c, Exchange(c, start, i), start, i, true);
  }

  // ----- stretches that cannot be moved

  /** Lines `a` to `b` are all changed, and neither of the two occurs in the
      unchanged text. */
  ghost predicate Anchored(v: seq<int>, c: seq<bool>, a: int, b: int)
    requires |c| == |v| + 2
  {
    && 0 <= a <= b < |v| && (forall t :: a < t <= b + 1 ==> c[t])
    && v[a] !in Survivors(v, c) && v[b] !in Survivors(v, c)
  }

  /** Whatever was anchored still is. */
  ghost predicate Anchors(v: seq<int>, c: seq<bool>, r: seq<bool>)
    requires |c| == |r| == |v| + 2
  {
    forall a, b :: Anchored(v, c, a, b) ==> Anchored(v, r, a, b)
  }

  lemma AnchorsNothing(v: seq<int>, c: seq<bool>)
    requires |c| == |v| + 2
    ensures Anchors(v, c, c)
  {}

  lemma AnchorsTrans(v: seq<int>, c: seq<bool>, m: seq<bool>, r: seq<bool>)
    requires |c| == |m| == |r| == |v| + 2 && Anchors(v, c, m) && Anchors(v, m, r)
    ensures Anchors(v, c, r)
  {
    hide Anchored;
  }

  /** A line that is not changed is part of the unchanged text. */
  lemma Surviving(v: seq<int>, c: seq<bool>, k: int)
    requires |c| == |v| + 2 && 0 <= k < |v| && !c[k + 1]
    ensures v[k] in Survivors(v, c)
  {
    var m := c[1..|v| + 1];
    PartAt(v, m, k);
    assert m[k] == c[k + 1];
  }

  /** Clearing line `k` at one end of its run loosens no anchored stretch. */
  lemma AnchorsStep(v: seq<int>, c: seq<bool>, r: seq<bool>, k: int)
    requires |c| == |r| == |v| + 2 && Survivors(v, r) == Survivors(v, c)
    requires 0 <= k < |v| && !r[k + 1] && (!c[k] || !c[k + 2])
    requires forall t :: 0 <= t < |c| && t != k + 1 && c[t] ==> r[t]
    ensures Anchors(v, c, r)
  {
    Surviving(v, r, k);
    hide Survivors;
    forall a, b | Anchored(v, c, a, b) ensures Anchored(v, r, a, b) {
      assert !(a <= k <= b);
    }
  }

  // ----- sequences of moves

  /** The run [s, e) of `a` moved by one line gives `b`. */
  ghost predicate MovesRun(v: seq<int>, a: seq<bool>, b: seq<bool>, s: int, e: int, forward: bool)
    requires |a| == |v| + 2
  {
    && MaxRun(a, s, e)
    && if forward then e < |v| && v[s] == v[e] && b == a[s + 1 := false][e + 1 := true]
       else s > 0 && v[s - 1] == v[e - 1] && b == a[s := true][e := false]
  }

  ghost predicate OneMove(v: seq<int>, a: seq<bool>, b: seq<bool>) {
    |a| == |v| + 2 && exists s, e, forward :: MovesRun(v, a, b, s, e, forward)
  }

  ghost predicate Moves(v: seq<int>, path: seq<seq<bool>>) {
    path != [] && forall k :: 0 < k < |path| ==> OneMove(v, path[k - 1], path[k])
  }

  /** `r` comes from `c` by moving runs over equal lines, one line at a time. */
  ghost predicate Moved(v: seq<int>, c: seq<bool>, r: seq<bool>) {
    exists path :: Moves(v, path) && path[0] == c && path[|path| - 1] == r
  }

  lemma MovedNothing(v: seq<int>, c: seq<bool>)
    ensures Moved(v, c, c)
  {
    assert Moves(v, [c]);
  }

  lemma MovedOnce(v: seq<int>, a: seq<bool>, b: seq<bool>, s: int, e: int, forward: bool)
    requires |a| == |v| + 2 && MovesRun(v, a, b, s, e, forward)
    ensures Moved(v, a, b)
  {
    assert Moves(v, [a, b]);
  }

  lemma MovedTrans(v: seq<int>, c: seq<bool>, m: seq<bool>, r: seq<bool>)
    requires Moved(v, c, m) && Moved(v, m, r)
    ensures Moved(v, c, r)
  {
    hide OneMove;
    var p :| Moves(v, p) && p[0] == c && p[|p| - 1] == m;
    var q :| Moves(v, q) && q[0] == m && q[|q| - 1] == r;
    var path := p + q[1..];
    forall k | 0 < k < |path| ensures OneMove(v, path[k - 1], path[k]) {
      if k >= |p| {
        assert path[k] == q[k - |p| + 1] && path[k - 1] == q[k - |p|];
      }
    }
    assert Moves(v, path) && path[0] == c && path[|path| - 1] == r;
  }

  lemma OneMoveKeeps(v: seq<int>, a: seq<bool>, b: seq<bool>)
    requires OneMove(v, a, b)
    ensures |b| == |v| + 2 && Survivors(v, b) == Survivors(v, a) && Anchors(v, a, b)
  {
    hide Survivors, Anchors;
    var s, e, forward :| MovesRun(v, a, b, s, e, forward);
    if forward {
      assert a[s + 1] != a[e + 1] && b == Exchange(a, s, e);
      ExchangeSurvivors(v, a, s, e);
      AnchorsStep(v, a, b, s);
    } else {
      assert a[s] != a[e] && b == Exchange(a, s - 1, e - 1);
      ExchangeSurvivors(v, a, s - 1, e - 1);
      AnchorsStep(v, a, b, e - 1);
    }
  }

  /** Moving runs keeps the unchanged text, and what is anchored. */
  lemma MovedKeeps(v: seq<int>, c: seq<bool>, r: seq<bool>)
    requires |c| == |v| + 2 && Moved(v, c, r)
    ensures |r| == |v| + 2 && Survivors(v, r) == Survivors(v, c) && Anchors(v, c, r)
  {
    var path :| Moves(v, path) && path[0] == c && path[|path| - 1] == r;
    PathKeeps(v, path, |path| - 1);
  }

  lemma {:induction false} PathKeeps(v: seq<int>, path: seq<seq<bool>>, k: nat)
    requires Moves(v, path) && k < |path| && |path[0]| == |v| + 2
    ensures |path[k]| == |v| + 2 && Survivors(v, path[k]) == Survivors(v, path[0]) && Anchors(v, path[0], path[k])
    decreases k
  {
    hide Survivors, Anchors, OneMove;
    if k == 0 {
      AnchorsNothing(v, path[0]);
    } else {
      PathKeeps(v, path, k - 1);
      OneMoveKeeps(v, path[k - 1], path[k]);
      AnchorsTrans(v, path[0], path[k - 1], path[k]);
    }
  }

  /** Moves the run back while the line before it equals its last line, merging
      with runs it meets. */
  method MoveBack(changed: array<bool>, other: array<bool>, v: seq<int>, start0: int, i0: int, j0: int)
    returns (start: int, i: int, j: int)
    requires changed != other && changed.Length == |v| + 2
    requires OnRun(changed[..], other[..], start0, i0, j0)
    modifies changed
    ensures OnRun(changed[..], other[..], start, i, j)
    ensures Survivors(v, changed[..]) == old(Survivors(v, changed[..]))
    ensures Before(changed[..], i) == old(Before(changed[..], i0))
    ensures i - start >= i0 - start0 && start <= start0
    ensures start == 0 || v[start - 1] != v[i - 1]
    ensures forall t :: 0 <= t <= start ==> changed[t] == old(changed[t])
    ensures Moved(v, old(changed[..]), changed[..])
  {
    hide Survivors, Moved;
    ghost var o := other[..];
    start, i, j := start0, i0, j0;
    MovedNothing(v, changed[..]);
    while start > 0 && v[start - 1] == v[i - 1]
      invariant OnRun(changed[..], o, start, i, j)
      invariant Survivors(v, changed[..]) == old(Survivors(v, changed[..]))
      invariant Before(changed[..], i) == old(Before(changed[..], i0))
      invariant i - start >= i0 - start0 && start <= start0 && other[..] == o
      invariant forall t :: 0 <= t <= start ==> changed[t] == old(changed[t])
      invariant Moved(v, old(changed[..]), changed[..])
      decreases start
    {
      ghost var c := changed[..];
      BackStep(v, c, o, start, i, j);
      MovedTrans(v, old(changed[..]), c, Exchange(c, start - 1, i - 1));
      changed[start] := true;
      changed[i] := false;
      ghost var r := changed[..];
      assert r == Exchange(c, start - 1, i - 1);
      start, i := start - 1, i - 1;
      while changed[start]
        invariant 0 <= start < i && (forall t :: start < t <= i ==> r[t])
        decreases start
      {
        start := start - 1;
      }
      j := PreviousClear(other, j);
    }
  }

  /** Since it was [s0, i0) the run has only slid forward over lines equal to
      those it left behind. */
  ghost predicate Slid(v: seq<int>, c: seq<bool>, s0: int, i0: int, start: int, i: int)
    requires |c| == |v| + 2 && 0 <= s0 < i0 <= i <= |v|
  {
    && start == s0 + (i - i0)
    && (forall t :: i0 <= t < i ==> v[t] == v[t - (i0 - s0)])
    && (forall t :: s0 <= t <= start ==> !c[t])
  }

  /** Flags up to `low` are as before, from there to `start` they are clear. */
  ghost predicate LeftBehind(before: seq<bool>, c: seq<bool>, low: int, start: int)
    requires 0 <= low <= start < |c| == |before|
  {
    && (forall t :: 0 <= t <= low ==> c[t] == before[t])
    && (forall t :: low <= t <= start ==> !c[t])
  }

  /** `at` is the end of the run opposite the changed line just before `jc`. */
  ghost predicate Corresponds(o: seq<bool>, at: int, jc: int, i: int, j: int)
    requires 0 <= j < |o|
  {
    0 <= jc && jc + 1 < |o| && o[jc] && !o[jc + 1] && Clears(o, jc) == Clears(o, j) - (i - at)
  }

  /** Unchanged line number `m` of the other file comes right after a change. */
  ghost predicate Opposite(o: seq<bool>, m: int) {
    exists j :: 0 <= j && j + 1 < |o| && !o[j + 1] && o[j] && Clears(o, j) == m
  }

  lemma OppositeHere(o: seq<bool>, j: int)
    requires 0 <= j && j + 1 < |o| && !o[j + 1]
    ensures Opposite(o, Clears(o, j)) <==> o[j]
  {
    forall k | 0 <= k && k + 1 < |o| && !o[k + 1] && Clears(o, k) == Clears(o, j) ensures k == j {
      ClearUnique(o, j, k);
    }
  }

  /** A run that ends at `k` is opposite a change. */
  ghost predicate EndsOpposite(o: seq<bool>, base: int, k: int) {
    Opposite(o, base + k)
  }

  /** Among the ends from `i0` to `i`, `at` is the last one opposite a change.
      The value `none` stands for the end of the file, or for none of them. */
  ghost predicate LastOpposite(o: seq<bool>, base: int, i0: int, i: int, at: int, none: int) {
    forall k :: i0 <= k <= i && EndsOpposite(o, base, k) ==>
      k <= at && (at == none ==> i == none && EndsOpposite(o, base, none))
  }

  lemma LastOppositeStep(o: seq<bool>, base: int, i0: int, i: int, at: int, none: int, now: bool)
    requires LastOpposite(o, base, i0, i, at, none) && i < none && at <= none && (at == none || at <= i)
    requires now <==> EndsOpposite(o, base, i + 1)
    ensures LastOpposite(o, base, i0, i + 1, if now then i + 1 else at, none)
  {
    hide EndsOpposite;
  }

  /** A run can slide by `n` lines, forward or back, over lines equal to those
      it leaves. */
  ghost predicate Slides(v: seq<int>, s: int, e: int, n: int)
    requires 0 <= s < e <= |v|
  {
    if n >= 0 then e + n <= |v| && forall t :: e <= t < e + n ==> v[t] == v[t - (e - s)]
    else s + n >= 0 && forall t :: s + n <= t < s ==> v[t] == v[t + (e - s)]
  }

  /** The run stands at the last of the places it can slide to that is opposite
      a change in the other file, or at the very last place if there is none. */
  ghost predicate AtRest(v: seq<int>, o: seq<bool>, s: int, e: int, j: int)
    requires 0 <= s < e <= |v| && 0 <= j < |o|
  {
    && (o[j] || e == |v| || v[s] != v[e])
    && forall n :: Slides(v, s, e, n) && EndsOpposite(o, Clears(o, j), n) ==> n <= 0 && o[j]
  }

  /** How the last pass establishes this: it went from a place where the run
      could not go back to one where it could not go forward. */
  lemma Rested(v: seq<int>, o: seq<bool>, back: int, end: int, hi: int, s: int, e: int, j: int, at: int)
    requires 0 <= back < end <= e <= hi <= |v| && s == back + (e - end) && 0 <= j && j + 1 < |o| && !o[j + 1]
    requires back == 0 || v[back - 1] != v[end - 1]
    requires hi == |v| || v[hi - (end - back)] != v[hi]
    requires LastOpposite(o, Clears(o, j) - e, end, hi, at, |v|)
    requires if at == |v| then e == hi else e == at && o[j]
    ensures AtRest(v, o, s, e, j)
  {
    var len := e - s;
    var base := Clears(o, j) - e;
    OppositeHere(o, j);
    forall n | Slides(v, s, e, n) && EndsOpposite(o, Clears(o, j), n) ensures n <= 0 && o[j] {
      assert e + n <= hi && back <= s + n;
      assert EndsOpposite(o, base, e + n);
    }
  }

  lemma SlidBy(v: seq<int>, c: seq<bool>, s0: int, i0: int, start: int, i: int)
    requires |c| == |v| + 2 && 0 <= s0 < i0 <= i <= |v| && Slid(v, c, s0, i0, start, i)
    ensures start == s0 + (i - i0)
  {}

  lemma SlidStart(v: seq<int>, c: seq<bool>, s0: int, i0: int)
    requires |c| == |v| + 2 && 0 <= s0 < i0 <= |v| && !c[s0]
    ensures Slid(v, c, s0, i0, s0, i0) && LeftBehind(c, c, s0, s0)
  {}

  lemma SlidStep(v: seq<int>, c: seq<bool>, s0: int, i0: int, start: int, i: int)
    requires |c| == |v| + 2 && 0 <= s0 < i0 <= i < |v| && Slid(v, c, s0, i0, start, i) && v[start] == v[i]
    ensures Slid(v, c[start + 1 := false][i + 1 := true], s0, i0, start + 1, i + 1)
  {}

  lemma LeftBehindStep(before: seq<bool>, c: seq<bool>, low: int, start: int, i: int)
    requires 0 <= low <= start < i && i + 1 < |c| == |before| && LeftBehind(before, c, low, start)
    ensures LeftBehind(before, c[start + 1 := false][i + 1 := true], low, start + 1)
  {}

  lemma LeftBehindPass(first: seq<bool>, c: seq<bool>, m: seq<bool>, r: seq<bool>,
                       low: int, s: int, back: int, start: int)
    requires |first| == |c| == |m| == |r| && 0 <= low <= s < |c| && 0 <= back <= start < |c| && back <= s
    requires LeftBehind(first, c, low, s) && LeftBehind(m, r, back, start)
    requires forall t :: 0 <= t <= back ==> m[t] == c[t]
    ensures LeftBehind(first, r, if back < low then back else low, start)
  {}

  lemma LeftBehindLast(first: seq<bool>, c: seq<bool>, r: seq<bool>, low: int, s: int, back: int, start: int)
    requires |first| == |c| == |r| && 0 <= low <= back <= start < |c| && back <= s < |c|
    requires LeftBehind(first, c, low, s) && LeftBehind(c, r, back, start)
    ensures LeftBehind(first, r, low, start)
  {}

  /** Moves the run forward by one line, merging with a run it meets. */
  method StepForward(changed: array<bool>, other: array<bool>, v: seq<int>, s0: int, i0: int, j0: int)
    returns (start: int, i: int, j: int, passed: bool)
    requires changed != other && changed.Length == |v| + 2
    requires OnRun(changed[..], other[..], s0, i0, j0) && i0 < |v| && v[s0] == v[i0]
    modifies changed
    ensures changed[..] == old(changed[..])[s0 + 1 := false][i0 + 1 := true]
    ensures OnRun(changed[..], other[..], start, i, j) && start == s0 + 1 && i > i0
    ensures Survivors(v, changed[..]) == old(Survivors(v, changed[..]))
    ensures Before(changed[..], i) >= old(Before(changed[..], i0))
    ensures Clears(other[..], j) == Clears(other[..], j0) + 1 && (passed <==> other[j])
    ensures Moved(v, old(changed[..]), changed[..])
  {
    hide Survivors, Moved;
    ghost var c, o := changed[..], other[..];
    ForwardStep(v, c, o, s0, i0, j0);
    start, i := s0, i0;
    changed[start + 1] := false;
    changed[i + 1] := true;
    ghost var r := changed[..];
    assert r == Exchange(c, start, i);
    start, i := start + 1, i + 1;
    while changed[i + 1]
      invariant i0 < i <= |v| && (forall t :: start < t <= i ==> r[t])
      decreases |v| - i
    {
      i := i + 1;
    }
    ClearsOverRun(r, i0 + 1, i);
    j, passed := NextClear(other, j0);
  }

  /** Moves the run forward while the line after it equals its first line,
      merging with runs it meets; keeps the last end of the run that lies
      opposite a change in the other file. */
  method MoveForward(changed: array<bool>, other: array<bool>, v: seq<int>, s0: int, i0: int, j0: int)
    returns (start: int, i: int, j: int, corresponding: int, ghost jc: int)
    requires changed != other && changed.Length == |v| + 2
    requires OnRun(changed[..], other[..], s0, i0, j0)
    modifies changed
    ensures OnRun(changed[..], other[..], start, i, j)
    ensures Survivors(v, changed[..]) == old(Survivors(v, changed[..]))
    ensures Before(changed[..], i) >= old(Before(changed[..], i0))
    ensures i - start >= i0 - s0 && i0 <= i
    ensures i == |v| || v[start] != v[i]
    ensures i - start == i0 - s0 ==> Slid(v, changed[..], s0, i0, start, i)
    ensures corresponding == |v| || i0 <= corresponding <= i
    ensures corresponding != |v| && i - start == i0 - s0 ==> Corresponds(other[..], corresponding, jc, i, j)
    ensures i - start == i0 - s0 ==> LastOpposite(other[..], Clears(other[..], j) - i, i0, i, corresponding, |v|)
    ensures s0 <= start && LeftBehind(old(changed[..]), changed[..], s0, start)
    ensures Moved(v, old(changed[..]), changed[..])
  {
    hide Survivors, LeftBehind, Slid, LastOpposite, Opposite, Moved;
    MovedNothing(v, changed[..]);
    ghost var o := other[..];
    start, i, j, jc := s0, i0, j0, j0;
    SlidStart(v, changed[..], s0, i0);
    corresponding := if other[j] then i else |v|;
    LastOppositeStart(o, i, j, corresponding, |v|);
    while i != |v| && v[start] == v[i]
      invariant OnRun(changed[..], o, start, i, j)
      invariant Survivors(v, changed[..]) == old(Survivors(v, changed[..]))
      invariant Before(changed[..], i) >= old(Before(changed[..], i0))
      invariant i - start >= i0 - s0 && other[..] == o && i0 <= i <= |v|
      invariant i - start == i0 - s0 ==> Slid(v, changed[..], s0, i0, start, i)
      invariant corresponding == |v| || i0 <= corresponding <= i
      invariant corresponding != |v| && i - start == i0 - s0 ==> Corresponds(o, corresponding, jc, i, j)
      invariant i - start == i0 - s0 ==> LastOpposite(o, Clears(o, j) - i, i0, i, corresponding, |v|)
      invariant s0 <= start && LeftBehind(old(changed[..]), changed[..], s0, start)
      invariant Moved(v, old(changed[..]), changed[..])
      decreases |v| - i
    {
      ghost var c, s', i', j', at := changed[..], start, i, j, corresponding;
      var passed;
      start, i, j, passed := StepForward(changed, other, v, start, i, j);
      MovedTrans(v, old(changed[..]), c, changed[..]);
      LeftBehindStep(old(changed[..]), c, s0, s', i');
      if i - start == i0 - s0 {
        SlidStep(v, c, s0, i0, s', i');
        OppositeHere(o, j);
        LastOppositeStep(o, Clears(o, j') - i', i0, i', at, |v|, passed);
      }
      if passed {
        corresponding, jc := i, j;
      }
    }
  }

  lemma LastOppositeStart(o: seq<bool>, i: int, j: int, at: int, none: int)
    requires 0 <= j && j + 1 < |o| && !o[j + 1] && at == if o[j] then i else none
    ensures LastOpposite(o, Clears(o, j) - i, i, i, at, none)
  {
    OppositeHere(o, j);
  }

  lemma Retractable(v: seq<int>, c: seq<bool>, o: seq<bool>, s0: int, i0: int, start: int, i: int, j: int)
    requires |c| == |v| + 2 && OnRun(c, o, start, i, j)
    requires 0 <= s0 < i0 < i <= |v| && Slid(v, c, s0, i0, start, i)
    ensures Padded(o) && s0 < start < i && 0 <= j <= |o| - 2 && Clears(o, j) >= 1
  {
    ClearsMonotone(c, start, i);
  }

  /** One step back keeps the run and what is behind it. */
  lemma Retract(v: seq<int>, before: seq<bool>, c: seq<bool>, o: seq<bool>, s0: int, i0: int,
                start: int, i: int, j: int, k: int)
    requires |before| == |c| == |v| + 2 && 0 <= s0 < i0 < i <= |v| && OnRun(c, o, start, i, j)
    requires Slid(v, c, s0, i0, start, i) && s0 <= start && LeftBehind(before, c, s0, start)
    requires 0 <= k < j && !o[k + 1] && Clears(o, k) == Clears(o, j) - 1
    ensures var r := c[start := true][i := false];
            && OnRun(r, o, start - 1, i - 1, k) && Slid(v, r, s0, i0, start - 1, i - 1)
            && LeftBehind(before, r, s0, start - 1)
            && Survivors(v, r) == Survivors(v, c) && Before(r, i - 1) == Before(c, i)
            && Moved(v, c, r)
  {
    hide Survivors, Clears, Moved;
    assert v[i - 1] == v[i - 1 - (i0 - s0)];
    BackStep(v, c, o, start, i, j);
  }

  /** Undoes the last steps of a slide until the run ends at `corresponding`. */
  method MoveBackTo(changed: array<bool>, other: array<bool>, v: seq<int>, ghost s0: int, ghost i0: int,
                    start0: int, i1: int, j0: int, corresponding: int, ghost jc: int)
    returns (start: int, i: int, j: int)
    requires changed != other && changed.Length == |v| + 2 && 0 <= s0 < i0 <= i1 <= |v|
    requires OnRun(changed[..], other[..], start0, i1, j0) && Slid(v, changed[..], s0, i0, start0, i1)
    requires corresponding == |v| || (i0 <= corresponding <= i1 && Corresponds(other[..], corresponding, jc, i1, j0))
    modifies changed
    ensures OnRun(changed[..], other[..], start, i, j)
    ensures Survivors(v, changed[..]) == old(Survivors(v, changed[..]))
    ensures Before(changed[..], i) == old(Before(changed[..], i1))
    ensures if corresponding == |v| then start == start0 && i == i1 && j == j0 else i == corresponding && other[j]
    ensures Clears(other[..], j) - i == Clears(other[..], j0) - i1 && start - i == start0 - i1
    ensures s0 <= start && LeftBehind(old(changed[..]), changed[..], s0, start)
    ensures Moved(v, old(changed[..]), changed[..])
  {
    hide Survivors, Before, Clears, Moved;
    MovedNothing(v, changed[..]);
    ghost var o := other[..];
    start, i, j := start0, i1, j0;
    while corresponding < i
      invariant i0 <= i <= i1 && OnRun(changed[..], o, start, i, j) && Slid(v, changed[..], s0, i0, start, i)
      invariant Survivors(v, changed[..]) == old(Survivors(v, changed[..]))
      invariant Before(changed[..], i) == old(Before(changed[..], i1))
      invariant other[..] == o
      invariant corresponding == |v| ==> start == start0 && i == i1 && j == j0
      invariant Clears(o, j) - i == Clears(o, j0) - i1 && start - i == start0 - i1
      invariant LeftBehind(old(changed[..]), changed[..], s0, start)
      invariant Moved(v, old(changed[..]), changed[..])
      invariant corresponding != |v| ==> corresponding <= i && Corresponds(o, corresponding, jc, i, j)
      decreases i
    {
      ghost var c := changed[..];
      Retractable(v, c, o, s0, i0, start, i, j);
      ghost var j' := j;
      changed[start] := true;
      changed[i] := false;
      assert changed[..] == c[start := true][i := false];
      start, i := start - 1, i - 1;
      j := PreviousClear(other, j);
      Retract(v, old(changed[..]), c, o, s0, i0, start + 1, i + 1, j', j);
      MovedTrans(v, old(changed[..]), c, changed[..]);
    }
    if corresponding != |v| {
      ClearUnique(o, j, jc);
    }
  }

  /** Slides one run until it stops growing, then, if possible, back to a
      change in the other file. The final move back needs no comparison: the
      last pass merged nothing, so it only retraces steps of that pass. */
  method ShiftRun(changed: array<bool>, other: array<bool>, v: seq<int>, start0: int, i0: int, j0: int)
    returns (start: int, i: int, j: int, ghost low: int)
    requires changed != other && changed.Length == |v| + 2
    requires OnRun(changed[..], other[..], start0, i0, j0)
    modifies changed
    ensures OnRun(changed[..], other[..], start, i, j)
    ensures Survivors(v, changed[..]) == old(Survivors(v, changed[..]))
    ensures Before(changed[..], i) >= old(Before(changed[..], i0))
    ensures AtRest(v, other[..], start, i, j) && Parted(v, changed[..], start, i)
    ensures 0 <= low <= start && low <= start0 && LeftBehind(old(changed[..]), changed[..], low, start)
    ensures Moved(v, old(changed[..]), changed[..])
  {
    hide Survivors, Corresponds, LastOpposite, AtRest, Slid, LeftBehind, Moved, Parted;
    MovedNothing(v, changed[..]);
    low := start0;
    SlidStart(v, changed[..], start0, i0);
    ghost var o := other[..];
    start, i, j := start0, i0, j0;
    var runlength, corresponding, grown := 0, 0, true;
    ghost var back, end, jc := 0, 0, 0;  // the run at the turn of the last pass
    while grown
      invariant OnRun(changed[..], o, start, i, j) && other[..] == o
      invariant Survivors(v, changed[..]) == old(Survivors(v, changed[..]))
      invariant Before(changed[..], i) >= old(Before(changed[..], i0))
      invariant 0 <= low <= start && low <= start0 && LeftBehind(old(changed[..]), changed[..], low, start)
      invariant Moved(v, old(changed[..]), changed[..])
      invariant !grown ==> low <= back <= start
      invariant !grown ==> 0 <= back < end <= i && Slid(v, changed[..], back, end, start, i)
      invariant !grown ==> i == |v| || v[start] != v[i]
      invariant !grown ==> (corresponding == |v| ||
                            (end <= corresponding <= i && Corresponds(o, corresponding, jc, i, j)))
      invariant !grown ==> back == 0 || v[back - 1] != v[end - 1]
      invariant !grown ==> LastOpposite(o, Clears(o, j) - i, end, i, corresponding, |v|)
      decreases if grown then 1 + |v| - (i - start) else 0
    {
      ghost var c, s, l := changed[..], start, low;
      runlength := i - start;
      start, i, j := MoveBack(changed, other, v, start, i, j);
      ghost var m := changed[..];
      MovedTrans(v, old(changed[..]), c, m);
      back, end := start, i;
      low := if start < low then start else low;
      start, i, j, corresponding, jc := MoveForward(changed, other, v, start, i, j);
      LeftBehindPass(old(changed[..]), c, m, changed[..], l, s, back, start);
      MovedTrans(v, old(changed[..]), m, changed[..]);
      grown := runlength != i - start;
    }
    ghost var c, s, hi := changed[..], start, i;
    SlidBy(v, c, back, end, start, i);
    start, i, j := MoveBackTo(changed, other, v, back, end, start, i, j, corresponding, jc);
    LeftBehindLast(old(changed[..]), c, changed[..], low, s, back, start);
    MovedTrans(v, old(changed[..]), c, changed[..]);
    PartedByPass(v, c, changed[..], back, end, start, i);
    Rested(v, o, back, end, hi, start, i, j, corresponding);
  }

  /** [s, e) is a maximal run of changed lines, and `j` is the unchanged line of
      the other file level with its end. */
  ghost predicate MaxRun(c: seq<bool>, s: int, e: int) {
    0 <= s < e && e + 1 < |c| && !c[s] && !c[e + 1] && forall t :: s < t <= e ==> c[t]
  }

  ghost predicate Level(c: seq<bool>, o: seq<bool>, e: int, j: int)
    requires 0 <= e < |c|
  {
    0 <= j && j + 1 < |o| && !o[j + 1] && Clears(c, e) == Clears(o, j)
  }

  /** Wherever the run can slide back to over equal lines, it does not touch the
      run before it. */
  ghost predicate Parted(v: seq<int>, c: seq<bool>, s: int, e: int)
    requires 0 <= s < e <= |v| && |c| == |v| + 2
  {
    forall n :: n <= 0 && Slides(v, s, e, n) ==> !c[s + n]
  }

  lemma SlideBeyond(v: seq<int>, back: int, end: int, start: int, i: int, n: int)
    requires 0 <= back < end <= i <= |v| && back <= start < i && start - back == i - end
    requires n <= 0 && Slides(v, start, i, n)
    ensures start + n < back ==> v[back - 1] == v[end - 1]
  {
    if start + n < back {
      assert v[back - 1] == v[(back - 1) + (i - start)];
    }
  }

  /** A pass over clear lines, from where the run cannot go further back, leaves
      the run parted from the one before. */
  lemma PartedByPass(v: seq<int>, before: seq<bool>, c: seq<bool>, back: int, end: int, start: int, i: int)
    requires |before| == |c| == |v| + 2 && 0 <= back < end <= i <= |v| && back <= start < i && start - back == i - end
    requires back == 0 || v[back - 1] != v[end - 1]
    requires LeftBehind(before, c, back, start)
    ensures Parted(v, c, start, i)
  {
    forall n | n <= 0 && Slides(v, start, i, n) ensures !c[start + n] {
      SlideBeyond(v, back, end, start, i, n);
    }
  }

  ghost predicate Resting(v: seq<int>, c: seq<bool>, o: seq<bool>, limit: int)
    requires |c| == |v| + 2 && Padded(o)
  {
    forall s, e, j :: MaxRun(c, s, e) && e <= limit && Level(c, o, e, j) ==>
      AtRest(v, o, s, e, j) && Parted(v, c, s, e)
  }

  /** Scans forward over unchanged lines, keeping the two cursors level. */
  method NextRun(changed: array<bool>, other: array<bool>, i0: int, j0: int) returns (i: int, j: int)
    requires Padded(changed[..]) && Padded(other[..])
    requires 0 <= i0 <= changed.Length - 2 && 0 <= j0 <= other.Length - 2
    requires !changed[i0] || !changed[i0 + 1]
    requires Clears(changed[..], i0) == Clears(other[..], j0)
    requires Clears(changed[..], changed.Length - 2) == Clears(other[..], other.Length - 2)
    ensures i0 <= i <= changed.Length - 2 && 0 <= j <= other.Length - 2
    ensures Clears(changed[..], i) == Clears(other[..], j) && Before(changed[..], i) == Before(changed[..], i0)
    ensures i < changed.Length - 2 ==> changed[i + 1] && !changed[i]
    ensures forall t :: i0 < t <= i ==> !changed[t]
  {
    ghost var c, o := changed[..], other[..];
    i, j := i0, j0;
    while i < changed.Length - 2 && !changed[i + 1]
      invariant i0 <= i <= changed.Length - 2 && 0 <= j <= other.Length - 2
      invariant Clears(c, i) == Clears(o, j) && Before(c, i) == Before(c, i0)
      invariant !c[i] || !c[i + 1]
      invariant forall t :: i0 < t <= i ==> !c[t]
    {
      ClearsMonotone(c, i + 1, |c| - 2);
      j := PastNextClear(other, j);
      i := i + 1;
    }
  }

  method PastNextClear(o: array<bool>, j: int) returns (k: int)
    requires Padded(o[..]) && 0 <= j <= o.Length - 2 && Clears(o[..], j) < Clears(o[..], o.Length - 2)
    ensures j < k <= o.Length - 2 && Clears(o[..], k) == Clears(o[..], j) + 1
  {
    ghost var s := o[..];
    k := j;
    while o[k + 1]
      invariant j <= k < o.Length - 2 && Clears(s, k) == Clears(s, j)
      decreases o.Length - k
    {
      k := k + 1;
    }
    k := k + 1;
  }

  /** Scans over the run that starts at `start`, and over changed lines of the
      other file. */
  method RunEnd(changed: array<bool>, other: array<bool>, start: int, j0: int) returns (i: int, j: int)
    requires Padded(changed[..]) && Padded(other[..])
    requires 0 <= start < changed.Length - 2 && 0 <= j0 <= other.Length - 2
    requires !changed[start] && changed[start + 1] && Clears(changed[..], start) == Clears(other[..], j0)
    requires Clears(changed[..], changed.Length - 2) == Clears(other[..], other.Length - 2)
    ensures OnRun(changed[..], other[..], start, i, j)
    ensures Before(changed[..], i) > Before(changed[..], start)
  {
    ghost var c, o := changed[..], other[..];
    i, j := start + 1, j0;
    while changed[i + 1]
      invariant start < i <= |c| - 2 && (forall t :: start < t <= i ==> c[t])
      decreases |c| - i
    {
      i := i + 1;
    }
    ClearsOverRun(c, start, i);
    while other[j + 1]
      invariant j0 <= j <= |o| - 2 && Clears(o, j) == Clears(o, j0)
      decreases |o| - j
    {
      j := j + 1;
    }
  }

  /** Adjusts the changes of one file against those of the other: the text left
      unchanged stays the same. */
  method ShiftFile(changed: array<bool>, other: array<bool>, v: seq<int>)
    requires changed != other && changed.Length == |v| + 2
    requires Padded(changed[..]) && Padded(other[..])
    requires Clears(changed[..], |v|) == Clears(other[..], other.Length - 2)
    modifies changed
    ensures Padded(changed[..])
    ensures Survivors(v, changed[..]) == old(Survivors(v, changed[..]))
    ensures Resting(v, changed[..], other[..], |v|)
    ensures Moved(v, old(changed[..]), changed[..])
  {
    hide Survivors, Resting, AtRest, Moved, Parted;
    MovedNothing(v, changed[..]);
    ghost var o := other[..];
    var i, j := 0, 0;
    RestingNone(v, changed[..], o);
    while true
      invariant Padded(changed[..]) && other[..] == o
      invariant 0 <= i <= |v| && 0 <= j <= other.Length - 2
      invariant !changed[i] || !changed[i + 1]
      invariant Clears(changed[..], i) == Clears(o, j)
      invariant Clears(changed[..], |v|) == Clears(o, |o| - 2)
      invariant Survivors(v, changed[..]) == old(Survivors(v, changed[..]))
      invariant Resting(v, changed[..], o, i)
      invariant Moved(v, old(changed[..]), changed[..])
      decreases |v| - Clears(o, |o| - 2) - Before(changed[..], i)
    {
      ghost var c := changed[..];
      ghost var scanned := i;
      i, j := NextRun(changed, other, i, j);
      RestingOverClear(v, c, o, scanned, i);
      if i == |v| {
        return;
      }
      var start := i;
      i, j := RunEnd(changed, other, start, j);
      ghost var first := start;
      ghost var low;
      start, i, j, low := ShiftRun(changed, other, v, start, i, j);
      BeforeBound(changed[..], i, |v|);
      MovedTrans(v, old(changed[..]), c, changed[..]);
      RestingAfterRun(v, c, changed[..], o, first, start, i, j, low);
    }
  }

  lemma MarkInside(c: seq<bool>, s: int, e: int, t: int)
    requires MaxRun(c, s, e) && s < t <= e
    ensures c[t]
  {}

  lemma RestingNone(v: seq<int>, c: seq<bool>, o: seq<bool>)
    requires |c| == |v| + 2 && Padded(o)
    ensures Resting(v, c, o, 0)
  {}

  lemma RestingOverClear(v: seq<int>, c: seq<bool>, o: seq<bool>, i: int, k: int)
    requires |c| == |v| + 2 && Padded(o) && 0 <= i <= k <= |v| && Resting(v, c, o, i)
    requires forall t :: i < t <= k ==> !c[t]
    ensures Resting(v, c, o, k)
  {
    hide AtRest, Parted;
    forall s, e, j | MaxRun(c, s, e) && e <= k && Level(c, o, e, j)
      ensures AtRest(v, o, s, e, j) && Parted(v, c, s, e)
    {
      assert c[e];
    }
  }

  /** Runs before the one just shifted have not been touched. */
  lemma RestingAfterRun(v: seq<int>, c: seq<bool>, r: seq<bool>, o: seq<bool>,
                        first: int, start: int, i: int, j: int, low: int)
    requires |c| == |r| == |v| + 2 && OnRun(r, o, start, i, j) && Resting(v, c, o, first)
    requires 0 <= low <= start && low <= first <= |v| && LeftBehind(c, r, low, start)
    requires AtRest(v, o, start, i, j) && Parted(v, r, start, i)
    ensures Resting(v, r, o, i)
  {
    hide AtRest, Parted;
    forall s, e, k | MaxRun(r, s, e) && e <= i && Level(r, o, e, k)
      ensures AtRest(v, o, s, e, k) && Parted(v, r, s, e)
    {
      assert r[e];
      if e == i {
        if s < start {
          MarkInside(r, s, e, start);
          assert false;
        }
        if start < s {
          MarkInside(r, start, i, s);
          assert false;
        }
        ClearUnique(o, j, k);
      } else {
        if e >= start {
          MarkInside(r, start, i, e + 1);
          assert false;
        }
        assert e < low;
        ClearsFrame(c, r, e);
        assert MaxRun(c, s, e) && Level(c, o, e, k);
        PartedFrame(v, c, r, s, e);
      }
    }
  }

  lemma PartedFrame(v: seq<int>, c: seq<bool>, r: seq<bool>, s: int, e: int)
    requires 0 <= s < e <= |v| && |c| == |r| == |v| + 2 && forall t :: 0 <= t <= s ==> c[t] == r[t]
    requires Parted(v, c, s, e)
    ensures Parted(v, r, s, e)
  {}

  lemma BeforeBound(c: seq<bool>, i: int, n: int)
    requires 0 <= i <= n < |c|
    ensures Before(c, i) <= Before(c, n)
  {
    ClearsMonotone(c, i, n);
  }

  /** Both files: neither file's unchanged text changes, so what was common to
      both remains common. */
  method ShiftBoth(changed0: array<bool>, v0: seq<int>, changed1: array<bool>, v1: seq<int>)
    requires changed0 != changed1 && changed0.Length == |v0| + 2 && changed1.Length == |v1| + 2
    requires Padded(changed0[..]) && Padded(changed1[..])
    requires |Survivors(v0, changed0[..])| == |Survivors(v1, changed1[..])|
    modifies changed0, changed1
    ensures Padded(changed0[..]) && Padded(changed1[..])
    ensures Survivors(v0, changed0[..]) == old(Survivors(v0, changed0[..]))
    ensures Survivors(v1, changed1[..]) == old(Survivors(v1, changed1[..]))
    ensures Resting(v0, changed0[..], old(changed1[..]), |v0|)
    ensures Resting(v1, changed1[..], changed0[..], |v1|)
    ensures Moved(v0, old(changed0[..]), changed0[..]) && Moved(v1, old(changed1[..]), changed1[..])
  {
    hide Resting, Moved;
    SurvivorCount(v0, changed0[..]);
    SurvivorCount(v1, changed1[..]);
    ShiftFile(changed0, changed1, v0);
    SurvivorCount(v0, changed0[..]);
    ShiftFile(changed1, changed0, v1);
  }
}
