/** The divide-and-conquer comparison of diffseq.h: slide over matching ends,
    mark what is left if one side is empty, otherwise split at a midpoint. */
module CompareSeq {
  import opened EditDistance
  import opened EditGraph
  import opened MidpointSearch
  import opened Flags

  /** What comparing a box leaves behind: equal survivors on both sides, as
      many as possible if a minimal script was asked for. */
  ghost predicate Compared(b: Box, m0: seq<bool>, m1: seq<bool>, minimal: bool)
    requires b.Valid() && |m0| == |b.xv| && |m1| == |b.yv|
  {
    var k0 := Kept(b.xv[b.xoff..b.xlim], m0[b.xoff..b.xlim]);
    var k1 := Kept(b.yv[b.yoff..b.ylim], m1[b.yoff..b.ylim]);
    && k0 == k1
    && (minimal ==> |k0| == Lcs(b.xv[b.xoff..b.xlim], b.yv[b.yoff..b.ylim]))
  }

  lemma ComparedSplit(b: Box, m0: seq<bool>, m1: seq<bool>, x: int, y: int, lo: bool, hi: bool)
    requires b.Valid() && b.Inside(x, y) && |m0| == |b.xv| && |m1| == |b.yv|
    requires Compared(b.(xlim := x, ylim := y), m0, m1, lo)
    requires Compared(b.(xoff := x, yoff := y), m0, m1, hi)
    requires lo && hi ==> b.Reach(x, y) + b.Leave(x, y) == b.Total()
    ensures Compared(b, m0, m1, lo && hi)
  {
    KeptSplit(b.xv, m0, b.xoff, x, b.xlim);
    KeptSplit(b.yv, m1, b.yoff, y, b.ylim);
  }

  /** `t` is `b` without equal stretches at its two ends. */
  ghost predicate Shrunk(b: Box, t: Box) {
    && b.Valid() && t.Valid() && t.xv == b.xv && t.yv == b.yv
    && b.Inside(t.xoff, t.yoff) && b.Inside(t.xlim, t.ylim)
    && b.xv[b.xoff..t.xoff] == b.yv[b.yoff..t.yoff]
    && b.xv[t.xlim..b.xlim] == b.yv[t.ylim..b.ylim]
  }

  lemma ShrinkNothing(b: Box)
    requires b.Valid()
    ensures Shrunk(b, b)
  {
    assert b.xv[b.xoff..b.xoff] == b.yv[b.yoff..b.yoff] && b.xv[b.xlim..b.xlim] == b.yv[b.ylim..b.ylim];
  }

  lemma ShrinkStart(b: Box, t: Box)
    requires Shrunk(b, t) && t.xoff < t.xlim && t.yoff < t.ylim && t.xv[t.xoff] == t.yv[t.yoff]
    ensures Shrunk(b, t.(xoff := t.xoff + 1, yoff := t.yoff + 1))
  {
    assert b.xv[b.xoff..t.xoff + 1] == b.xv[b.xoff..t.xoff] + [b.xv[t.xoff]];
    assert b.yv[b.yoff..t.yoff + 1] == b.yv[b.yoff..t.yoff] + [b.yv[t.yoff]];
  }

  lemma ShrinkEnd(b: Box, t: Box)
    requires Shrunk(b, t) && t.xoff < t.xlim && t.yoff < t.ylim && t.xv[t.xlim - 1] == t.yv[t.ylim - 1]
    ensures Shrunk(b, t.(xlim := t.xlim - 1, ylim := t.ylim - 1))
  {
    assert b.xv[t.xlim - 1..b.xlim] == [b.xv[t.xlim - 1]] + b.xv[t.xlim..b.xlim];
    assert b.yv[t.ylim - 1..b.ylim] == [b.yv[t.ylim - 1]] + b.yv[t.ylim..b.ylim];
  }

  lemma TrimDist(b: Box, t: Box)
    requires Shrunk(b, t)
    ensures b.Total() == t.Total()
  {
    var p, s := b.xv[b.xoff..t.xoff], b.xv[t.xlim..b.xlim];
    var x, y := t.xv[t.xoff..t.xlim], t.yv[t.yoff..t.ylim];
    assert b.xv[b.xoff..b.xlim] == p + (x + s) && b.yv[b.yoff..b.ylim] == p + (y + s);
    DistCommonPrefix(p, x + s, y + s);
    DistCommonSuffix(s, x, y);
  }

  lemma KeptEnds(v: seq<int>, m: seq<bool>, lo: int, from: int, to: int, hi: int)
    requires |v| == |m| && 0 <= lo <= from <= to <= hi <= |v|
    requires forall k :: lo <= k < from || to <= k < hi ==> !m[k]
    ensures Kept(v[lo..hi], m[lo..hi]) == v[lo..from] + Kept(v[from..to], m[from..to]) + v[to..hi]
  {
    hide Kept;
    KeptSplit(v, m, lo, from, hi);
    KeptSplit(v, m, from, to, hi);
    KeptAll(v[lo..from], m[lo..from]);
    KeptAll(v[to..hi], m[to..hi]);
  }

  lemma ComparedTrim(b: Box, t: Box, m0: seq<bool>, m1: seq<bool>, minimal: bool)
    requires Shrunk(b, t) && |m0| == |b.xv| && |m1| == |b.yv|
    requires forall k :: b.xoff <= k < t.xoff || t.xlim <= k < b.xlim ==> !m0[k]
    requires forall k :: b.yoff <= k < t.yoff || t.ylim <= k < b.ylim ==> !m1[k]
    requires Compared(t, m0, m1, minimal)
    ensures Compared(b, m0, m1, minimal)
  {
    KeptEnds(b.xv, m0, b.xoff, t.xoff, t.xlim, b.xlim);
    KeptEnds(b.yv, m1, b.yoff, t.yoff, t.ylim, b.ylim);
    TrimDist(b, t);
    assert |b.xv[b.xoff..t.xoff]| == |b.yv[b.yoff..t.yoff]| && |b.xv[t.xlim..b.xlim]| == |b.yv[t.ylim..b.ylim]|;
  }

  lemma OneSided(b: Box, m0: seq<bool>, m1: seq<bool>, minimal: bool)
    requires b.Valid() && |m0| == |b.xv| && |m1| == |b.yv|
    requires b.xoff == b.xlim || b.yoff == b.ylim
    requires forall k :: b.xoff <= k < b.xlim ==> m0[k]
    requires forall k :: b.yoff <= k < b.ylim ==> m1[k]
    ensures Compared(b, m0, m1, minimal)
  {
    KeptNone(b.xv[b.xoff..b.xlim], m0[b.xoff..b.xlim]);
    KeptNone(b.yv[b.yoff..b.ylim], m1[b.yoff..b.ylim]);
  }

  // ----- how a box is compared

  /** The common front has been taken off as far as it goes. */
  ghost predicate FrontDone(b: Box, t: Box)
    requires b.Valid() && t.xv == b.xv && t.yv == b.yv
  {
    || t.xoff == b.xlim || t.yoff == b.ylim
    || (0 <= t.xoff < |b.xv| && 0 <= t.yoff < |b.yv| && b.xv[t.xoff] != b.yv[t.yoff])
  }

  /** `t` is `b` without its common front, and without the common end of what
      is left. */
  ghost predicate TrimOf(b: Box, t: Box) {
    && Shrunk(b, t) && FrontDone(b, t)
    && (t.xoff == t.xlim || t.yoff == t.ylim || t.xv[t.xlim - 1] != t.yv[t.ylim - 1])
  }

  lemma TrimmedOrEmpty(b: Box, t: Box)
    requires TrimOf(b, t)
    ensures t.Trimmed() || t.xoff == t.xlim || t.yoff == t.ylim
  {}

  /** The box left after trimming, and unless one side of it is empty, the point at
      which it is split and how its two halves are compared. */
  datatype Plan = OneSide(t: Box) | Halves(t: Box, part: Partition, stop: Stop, low: Plan, high: Plan)

  /** Nothing outside `t` is marked. */
  ghost predicate ClearAround(b: Box, t: Box, m0: seq<bool>, m1: seq<bool>)
    requires Shrunk(b, t) && |m0| == |b.xv| && |m1| == |b.yv|
  {
    && (forall k :: b.xoff <= k < t.xoff || t.xlim <= k < b.xlim ==> !m0[k])
    && (forall k :: b.yoff <= k < t.yoff || t.ylim <= k < b.ylim ==> !m1[k])
  }

  ghost predicate AllMarked(t: Box, m0: seq<bool>, m1: seq<bool>)
    requires t.Valid() && |m0| == |t.xv| && |m1| == |t.yv|
  {
    && (forall k :: t.xoff <= k < t.xlim ==> m0[k])
    && (forall k :: t.yoff <= k < t.ylim ==> m1[k])
  }

  /** The marks in box `b` are those of a comparison that follows the plan: trim,
      mark everything left if one side is empty, otherwise split where the midpoint
      search ends and compare both halves in the same way. */
  ghost predicate Planned(b: Box, minimal: bool, heuristic: bool, tooExpensive: int,
                          m0: seq<bool>, m1: seq<bool>, plan: Plan)
    requires b.Valid() && |m0| == |b.xv| && |m1| == |b.yv|
    decreases plan
  {
    && TrimOf(b, plan.t) && ClearAround(b, plan.t, m0, m1)
    && match plan
       case OneSide(t) => (t.xoff == t.xlim || t.yoff == t.ylim) && AllMarked(t, m0, m1)
       case Halves(t, part, stop, low, high) =>
         && t.Trimmed() && Interior(t, part.xmid, part.ymid) && Ends(t, minimal, heuristic, tooExpensive, part, stop)
         && Planned(LowHalf(t, part), part.loMinimal, heuristic, tooExpensive, m0, m1, low)
         && Planned(HighHalf(t, part), part.hiMinimal, heuristic, tooExpensive, m0, m1, high)
  }

  function LowHalf(t: Box, part: Partition): Box { t.(xlim := part.xmid, ylim := part.ymid) }
  function HighHalf(t: Box, part: Partition): Box { t.(xoff := part.xmid, yoff := part.ymid) }

  /** The comparison finds as much common text as there is: it is asked to, or the
      distance is within the limits of the search. */
  ghost predicate Exact(b: Box, minimal: bool, heuristic: bool, tooExpensive: int)
    requires b.Valid()
  {
    minimal || Cheap(heuristic, tooExpensive, b)
  }

  /** Whatever the plan, equal text is left on both sides, and all the common text
      there is if the comparison is exact. That holds of every part of the plan. */
  lemma {:induction false} PlannedCompared(b: Box, minimal: bool, heuristic: bool, tooExpensive: int,
                                           m0: seq<bool>, m1: seq<bool>, plan: Plan)
    requires b.Valid() && |m0| == |b.xv| && |m1| == |b.yv|
    requires Planned(b, minimal, heuristic, tooExpensive, m0, m1, plan)
    ensures Compared(b, m0, m1, Exact(b, minimal, heuristic, tooExpensive))
    decreases plan
  {
    hide Compared, Shrunk, Ends, Interior, Box.Total, Box.Reach, Box.Leave;
    var t, exact := plan.t, Exact(b, minimal, heuristic, tooExpensive);
    ShrunkParts(b, t);
    TrimDist(b, t);
    match plan {
      case OneSide(_) =>
        OneSided(t, m0, m1, exact);
      case Halves(_, part, stop, low, high) =>
        InteriorInside(t, part);
        PlannedCompared(LowHalf(t, part), part.loMinimal, heuristic, tooExpensive, m0, m1, low);
        PlannedCompared(HighHalf(t, part), part.hiMinimal, heuristic, tooExpensive, m0, m1, high);
        ExactSplit(t, minimal, heuristic, tooExpensive, part, stop);
        var lo, hi := LowHalf(t, part), HighHalf(t, part);
        ComparedWeaken(lo, m0, m1, Exact(lo, part.loMinimal, heuristic, tooExpensive), part.loMinimal);
        ComparedWeaken(hi, m0, m1, Exact(hi, part.hiMinimal, heuristic, tooExpensive), part.hiMinimal);
        ComparedSplit(t, m0, m1, part.xmid, part.ymid, part.loMinimal, part.hiMinimal);
        ComparedWeaken(t, m0, m1, part.loMinimal && part.hiMinimal, exact);
    }
    ComparedTrim(b, t, m0, m1, exact);
  }

  lemma ShrunkParts(b: Box, t: Box)
    requires Shrunk(b, t)
    ensures t.Valid() && t.xv == b.xv && t.yv == b.yv
  {}

  lemma ShrunkInside(b: Box, t: Box)
    requires Shrunk(b, t)
    ensures b.Inside(t.xoff, t.yoff) && b.Inside(t.xlim, t.ylim)
  {}

  lemma InteriorInside(t: Box, part: Partition)
    requires t.Valid() && Interior(t, part.xmid, part.ymid)
    ensures t.Inside(part.xmid, part.ymid) && LowHalf(t, part).Valid() && HighHalf(t, part).Valid()
  {}

  lemma ComparedWeaken(b: Box, m0: seq<bool>, m1: seq<bool>, strong: bool, weak: bool)
    requires b.Valid() && |m0| == |b.xv| && |m1| == |b.yv|
    requires Compared(b, m0, m1, strong) && (weak ==> strong)
    ensures Compared(b, m0, m1, weak)
  {}

  /** Later marks outside a box leave its comparison standing. */
  lemma {:induction false} PlannedFrame(b: Box, minimal: bool, heuristic: bool, tooExpensive: int,
                                        m0: seq<bool>, m1: seq<bool>, n0: seq<bool>, n1: seq<bool>, plan: Plan)
    requires b.Valid() && |m0| == |n0| == |b.xv| && |m1| == |n1| == |b.yv|
    requires forall k :: b.xoff <= k < b.xlim ==> m0[k] == n0[k]
    requires forall k :: b.yoff <= k < b.ylim ==> m1[k] == n1[k]
    requires Planned(b, minimal, heuristic, tooExpensive, m0, m1, plan)
    ensures Planned(b, minimal, heuristic, tooExpensive, n0, n1, plan)
    decreases plan
  {
    hide Ends, Shrunk, FrontDone, Interior, Box.Trimmed;
    ShrunkParts(b, plan.t);
    ShrunkInside(b, plan.t);
    if plan.Halves? {
      InteriorInside(plan.t, plan.part);
      PlannedFrame(LowHalf(plan.t, plan.part), plan.part.loMinimal, heuristic, tooExpensive, m0, m1, n0, n1, plan.low);
      PlannedFrame(HighHalf(plan.t, plan.part), plan.part.hiMinimal, heuristic, tooExpensive, m0, m1, n0, n1,
                   plan.high);
    }
  }

  lemma Unchanged(f: seq<bool>, index: seq<int>, lo: int, hi: int)
    requires Indexes(index, |f|) && 0 <= lo <= hi <= |index|
    ensures OnlyWithin(f, f, index, lo, hi)
  {}

  lemma ClearPart(f: seq<bool>, index: seq<int>, lo: int, hi: int, from: int, to: int)
    requires Indexes(index, |f|) && 0 <= lo <= from <= to <= hi <= |index| && Clear(f, index, lo, hi)
    ensures Clear(f, index, from, to)
  {}

  /** Compares `b`, setting flags of deleted elements of file 0 in `changed0`
      and of inserted elements of file 1 in `changed1`. */
  method Compare(ctx: SearchContext, b: Box, findMinimal: bool,
                 changed0: array<bool>, index0: seq<int>, changed1: array<bool>, index1: seq<int>)
    returns (ghost plan: Plan)
    requires ctx.Covers(b) && changed0 != changed1
    requires |index0| == |b.xv| && Indexes(index0, changed0.Length)
    requires |index1| == |b.yv| && Indexes(index1, changed1.Length)
    requires Clear(changed0[..], index0, b.xoff, b.xlim) && Clear(changed1[..], index1, b.yoff, b.ylim)
    modifies ctx.fdiag, ctx.bdiag, changed0, changed1
    ensures OnlyWithin(old(changed0[..]), changed0[..], index0, b.xoff, b.xlim)
    ensures OnlyWithin(old(changed1[..]), changed1[..], index1, b.yoff, b.ylim)
    ensures Planned(b, findMinimal, ctx.heuristic, ctx.tooExpensive,
                    Marks(changed0[..], index0), Marks(changed1[..], index1), plan)
    ensures Compared(b, Marks(changed0[..], index0), Marks(changed1[..], index1),
                     Exact(b, findMinimal, ctx.heuristic, ctx.tooExpensive))
    decreases b.xlim - b.xoff + b.ylim - b.yoff, 1
  {
    hide Compared, Marks, OnlyWithin, Clear, Box.Reach, Box.Leave, Box.Total, Planned, TrimOf, Exact;
    ghost var f0, f1 := changed0[..], changed1[..];
    var t := Trim(b);
    TrimmedOrEmpty(b, t);
    TrimParts(b, t);
    ClearPart(f0, index0, b.xoff, b.xlim, t.xoff, t.xlim);
    ClearPart(f1, index1, b.yoff, b.ylim, t.yoff, t.ylim);
    if t.xoff == t.xlim || t.yoff == t.ylim {
      MarkOneSide(t, changed0, index0, changed1, index1);
      plan := OneSide(t);
    } else {
      plan := CompareTrimmed(ctx, t, findMinimal, changed0, index0, changed1, index1);
    }
    AroundTrimmed(b, t, findMinimal, ctx.heuristic, ctx.tooExpensive, index0, index1,
                  f0, f1, changed0[..], changed1[..], plan);
    PlannedCompared(b, findMinimal, ctx.heuristic, ctx.tooExpensive,
                    Marks(changed0[..], index0), Marks(changed1[..], index1), plan);
    Unchanged(f0, index0, t.xoff, t.xlim);
    Unchanged(f1, index1, t.yoff, t.ylim);
    OnlyWithinTrans(f0, f0, changed0[..], index0, t.xoff, t.xlim, t.xoff, t.xlim, b.xoff, b.xlim);
    OnlyWithinTrans(f1, f1, changed1[..], index1, t.yoff, t.ylim, t.yoff, t.ylim, b.yoff, b.ylim);
  }

  lemma TrimParts(b: Box, t: Box)
    requires TrimOf(b, t)
    ensures b.Valid() && t.Valid() && t.xv == b.xv && t.yv == b.yv
    ensures b.Inside(t.xoff, t.yoff) && b.Inside(t.xlim, t.ylim)
  {}

  /** What was planned inside the trimmed box is a plan for the whole box. */
  lemma AroundTrimmed(b: Box, t: Box, minimal: bool, heuristic: bool, tooExpensive: int,
                      index0: seq<int>, index1: seq<int>,
                      f0: seq<bool>, f1: seq<bool>, g0: seq<bool>, g1: seq<bool>, plan: Plan)
    requires TrimOf(b, t) && plan.t == t
    requires |index0| == |b.xv| && |f0| == |g0| && Indexes(index0, |f0|)
    requires |index1| == |b.yv| && |f1| == |g1| && Indexes(index1, |f1|)
    requires Clear(f0, index0, b.xoff, b.xlim) && Clear(f1, index1, b.yoff, b.ylim)
    requires OnlyWithin(f0, g0, index0, t.xoff, t.xlim) && OnlyWithin(f1, g1, index1, t.yoff, t.ylim)
    requires if plan.OneSide? then
               (t.xoff == t.xlim || t.yoff == t.ylim) && AllMarked(t, Marks(g0, index0), Marks(g1, index1))
             else
               Planned(t, minimal, heuristic, tooExpensive, Marks(g0, index0), Marks(g1, index1), plan)
    ensures Planned(b, minimal, heuristic, tooExpensive, Marks(g0, index0), Marks(g1, index1), plan)
  {
    hide OnlyWithin, Ends, FrontDone, Planned, AllMarked;
    OnlyWithinClear(f0, g0, index0, t.xoff, t.xlim, b.xoff, t.xoff);
    OnlyWithinClear(f0, g0, index0, t.xoff, t.xlim, t.xlim, b.xlim);
    OnlyWithinClear(f1, g1, index1, t.yoff, t.ylim, b.yoff, t.yoff);
    OnlyWithinClear(f1, g1, index1, t.yoff, t.ylim, t.ylim, b.ylim);
    assert ClearAround(b, t, Marks(g0, index0), Marks(g1, index1));
    PlannedAround(b, t, minimal, heuristic, tooExpensive, Marks(g0, index0), Marks(g1, index1), plan);
  }

  lemma PlannedAround(b: Box, t: Box, minimal: bool, heuristic: bool, tooExpensive: int,
                      m0: seq<bool>, m1: seq<bool>, plan: Plan)
    requires TrimOf(b, t) && plan.t == t && |m0| == |b.xv| && |m1| == |b.yv| && ClearAround(b, t, m0, m1)
    requires if plan.OneSide? then (t.xoff == t.xlim || t.yoff == t.ylim) && AllMarked(t, m0, m1)
             else Planned(t, minimal, heuristic, tooExpensive, m0, m1, plan)
    ensures Planned(b, minimal, heuristic, tooExpensive, m0, m1, plan)
  {
    hide ClearAround, AllMarked, Ends;
  }

  /** Splits a trimmed box at the midpoint and compares the two halves. */
  method CompareTrimmed(ctx: SearchContext, t: Box, findMinimal: bool,
                        changed0: array<bool>, index0: seq<int>, changed1: array<bool>, index1: seq<int>)
    returns (ghost plan: Plan)
    requires ctx.Covers(t) && t.Trimmed() && changed0 != changed1
    requires |index0| == |t.xv| && Indexes(index0, changed0.Length)
    requires |index1| == |t.yv| && Indexes(index1, changed1.Length)
    requires Clear(changed0[..], index0, t.xoff, t.xlim) && Clear(changed1[..], index1, t.yoff, t.ylim)
    modifies ctx.fdiag, ctx.bdiag, changed0, changed1
    ensures OnlyWithin(old(changed0[..]), changed0[..], index0, t.xoff, t.xlim)
    ensures OnlyWithin(old(changed1[..]), changed1[..], index1, t.yoff, t.ylim)
    ensures plan.Halves? && plan.t == t
    ensures Planned(t, findMinimal, ctx.heuristic, ctx.tooExpensive,
                    Marks(changed0[..], index0), Marks(changed1[..], index1), plan)
    ensures Compared(t, Marks(changed0[..], index0), Marks(changed1[..], index1),
                     Exact(t, findMinimal, ctx.heuristic, ctx.tooExpensive))
    decreases t.xlim - t.xoff + t.ylim - t.yoff, 0
  {
    hide Compared, Marks, OnlyWithin, Clear, Box.Reach, Box.Leave, Box.Total, Indexes, Planned, Ends, Exact;
    ghost var f0, f1 := changed0[..], changed1[..];
    var part;
    ghost var stop;
    part, stop := Diag(ctx, t, findMinimal);
    var x, y := part.xmid, part.ymid;
    assert changed0[..] == f0 && changed1[..] == f1;
    ClearPart(f0, index0, t.xoff, t.xlim, t.xoff, x);
    ClearPart(f1, index1, t.yoff, t.ylim, t.yoff, y);
    ghost var low := Compare(ctx, t.(xlim := x, ylim := y), part.loMinimal, changed0, index0, changed1, index1);
    ghost var g0, g1 := changed0[..], changed1[..];
    ClearPart(f0, index0, t.xoff, t.xlim, x, t.xlim);
    ClearPart(f1, index1, t.yoff, t.ylim, y, t.ylim);
    OnlyWithinClear(f0, g0, index0, t.xoff, x, x, t.xlim);
    OnlyWithinClear(f1, g1, index1, t.yoff, y, y, t.ylim);
    ghost var high := Compare(ctx, t.(xoff := x, yoff := y), part.hiMinimal, changed0, index0, changed1, index1);
    plan := Halves(t, part, stop, low, high);
    BothHalves(plan, findMinimal, ctx.heuristic, ctx.tooExpensive, index0, index1, g0, g1, changed0[..], changed1[..]);
    PlannedCompared(t, findMinimal, ctx.heuristic, ctx.tooExpensive,
                    Marks(changed0[..], index0), Marks(changed1[..], index1), plan);
    OnlyWithinTrans(f0, g0, changed0[..], index0, t.xoff, x, x, t.xlim, t.xoff, t.xlim);
    OnlyWithinTrans(f1, g1, changed1[..], index1, t.yoff, y, y, t.ylim, t.yoff, t.ylim);
  }

  /** A trimmed box whose two halves were compared one after the other. */
  lemma BothHalves(plan: Plan, minimal: bool, heuristic: bool, tooExpensive: int, index0: seq<int>, index1: seq<int>,
                   f0: seq<bool>, f1: seq<bool>, g0: seq<bool>, g1: seq<bool>)
    requires plan.Halves? && plan.t.Trimmed() && Interior(plan.t, plan.part.xmid, plan.part.ymid)
    requires Ends(plan.t, minimal, heuristic, tooExpensive, plan.part, plan.stop)
    requires |index0| == |plan.t.xv| && |f0| == |g0| && Indexes(index0, |f0|)
    requires |index1| == |plan.t.yv| && |f1| == |g1| && Indexes(index1, |f1|)
    requires Planned(LowHalf(plan.t, plan.part), plan.part.loMinimal, heuristic, tooExpensive,
                     Marks(f0, index0), Marks(f1, index1), plan.low)
    requires Planned(HighHalf(plan.t, plan.part), plan.part.hiMinimal, heuristic, tooExpensive,
                     Marks(g0, index0), Marks(g1, index1), plan.high)
    requires OnlyWithin(f0, g0, index0, plan.part.xmid, plan.t.xlim)
    requires OnlyWithin(f1, g1, index1, plan.part.ymid, plan.t.ylim)
    ensures Planned(plan.t, minimal, heuristic, tooExpensive, Marks(g0, index0), Marks(g1, index1), plan)
  {
    var t, x, y := plan.t, plan.part.xmid, plan.part.ymid;
    ShrinkNothing(t);
    hide Ends, OnlyWithin, Marks, Shrunk;
    OnlyWithinMarks(f0, g0, index0, x, t.xlim);
    OnlyWithinMarks(f1, g1, index1, y, t.ylim);
    SamePrefix(Marks(f0, index0), Marks(g0, index0), x);
    SamePrefix(Marks(f1, index1), Marks(g1, index1), y);
    PlannedFrame(LowHalf(t, plan.part), plan.part.loMinimal, heuristic, tooExpensive,
                 Marks(f0, index0), Marks(f1, index1), Marks(g0, index0), Marks(g1, index1), plan.low);
    assert TrimOf(t, t) && ClearAround(t, t, Marks(g0, index0), Marks(g1, index1));
  }

  lemma SamePrefix(m: seq<bool>, n: seq<bool>, x: int)
    requires 0 <= x <= |m| == |n| && m[..x] == n[..x]
    ensures forall k :: 0 <= k < x ==> m[k] == n[k]
  {
    forall k | 0 <= k < x ensures m[k] == n[k] {
      assert m[..x][k] == n[..x][k];
    }
  }

  /** One side is exhausted: everything left on the other is an edit. */
  method MarkOneSide(t: Box, changed0: array<bool>, index0: seq<int>, changed1: array<bool>, index1: seq<int>)
    requires t.Valid() && (t.xoff == t.xlim || t.yoff == t.ylim) && changed0 != changed1
    requires |index0| == |t.xv| && Indexes(index0, changed0.Length)
    requires |index1| == |t.yv| && Indexes(index1, changed1.Length)
    modifies changed0, changed1
    ensures OnlyWithin(old(changed0[..]), changed0[..], index0, t.xoff, t.xlim)
    ensures OnlyWithin(old(changed1[..]), changed1[..], index1, t.yoff, t.ylim)
    ensures AllMarked(t, Marks(changed0[..], index0), Marks(changed1[..], index1))
  {
    hide OnlyWithin;
    if t.xoff == t.xlim {
      MarkRange(changed1, index1, t.yoff, t.ylim);
      Unchanged(changed0[..], index0, t.xoff, t.xlim);
    } else {
      MarkRange(changed0, index0, t.xoff, t.xlim);
      Unchanged(changed1[..], index1, t.yoff, t.ylim);
    }
  }

  /** Slides down the bottom initial diagonal and up the top one. */
  method Trim(b: Box) returns (t: Box)
    requires b.Valid()
    ensures TrimOf(b, t)
  {
    t := b;
    ShrinkNothing(b);
    hide Shrunk;
    while t.xoff < t.xlim && t.yoff < t.ylim && t.xv[t.xoff] == t.yv[t.yoff]
      invariant Shrunk(b, t) && t.Valid() && t.xv == b.xv && t.yv == b.yv && t.xlim == b.xlim && t.ylim == b.ylim
      decreases t.xlim - t.xoff
    {
      ShrinkStart(b, t);
      t := t.(xoff := t.xoff + 1, yoff := t.yoff + 1);
    }
    while t.xoff < t.xlim && t.yoff < t.ylim && t.xv[t.xlim - 1] == t.yv[t.ylim - 1]
      invariant Shrunk(b, t) && t.Valid() && t.xv == b.xv && t.yv == b.yv
      invariant FrontDone(b, t)
      decreases t.xlim - t.xoff
    {
      ShrinkEnd(b, t);
      t := t.(xlim := t.xlim - 1, ylim := t.ylim - 1);
    }
  }

  /** Records the deletion (insertion) of elements number `lo` to `hi`. */
  method MarkRange(changed: array<bool>, index: seq<int>, lo: int, hi: int)
    requires 0 <= lo <= hi <= |index| && Indexes(index, changed.Length)
    modifies changed
    ensures OnlyWithin(old(changed[..]), changed[..], index, lo, hi)
    ensures forall k :: lo <= k < hi ==> changed[index[k] + 1]
  {
    var i := lo;
    while i < hi
      invariant lo <= i <= hi
      invariant OnlyWithin(old(changed[..]), changed[..], index, lo, i)
      invariant forall k :: lo <= k < i ==> changed[index[k] + 1]
    {
      changed[index[i] + 1] := true;
      i := i + 1;
    }
  }
}
