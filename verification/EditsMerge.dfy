/** Merging two edit logs, a to b and b to c, into one from a to c: text counts
    as unchanged exactly where it was unchanged in both steps. */
module EditsMerge {
  import opened EditsLog
  import opened EditsIterator
  import opened EditsView
  import opened EditsSearch
  import opened EditsRoundTrip
  import opened EditsCuts

  // ----- which indexes correspond

  ghost predicate AlignedBy(s: seq<Span>, q: int, i: int, j: int) {
    && Covers(s, true, q, i) && Covers(s, false, q, j) && !s[q].changed
    && i - Sum(s[..q], true) == j - Sum(s[..q], false)
  }

  /** Source index `i` and destination index `j` hold the same unchanged unit. */
  ghost predicate Aligned(s: seq<Span>, i: int, j: int) {
    exists q :: AlignedBy(s, q, i, j)
  }

  ghost predicate Via(ab: seq<Span>, bc: seq<Span>, i: int, j: int, k: int) {
    Aligned(ab, i, j) && Aligned(bc, j, k)
  }

  /** `i` of string a and `k` of string c correspond through string b before `limit`. */
  ghost predicate Through(ab: seq<Span>, bc: seq<Span>, limit: int, i: int, k: int) {
    exists j :: j < limit && Via(ab, bc, i, j, k)
  }

  ghost predicate Merged(ops: seq<Span>, ab: seq<Span>, bc: seq<Span>, limit: int) {
    forall i, k :: Aligned(ops, i, k) <==> Through(ab, bc, limit, i, k)
  }

  lemma PrefixAligned(s: seq<Span>, e: Span, q: int, i: int, j: int)
    requires q < |s|
    ensures AlignedBy(s + [e], q, i, j) <==> AlignedBy(s, q, i, j)
  {
    if 0 <= q {
      assert (s + [e])[..q] == s[..q] && (s + [e])[q] == s[q];
    }
  }

  lemma LastAligned(s: seq<Span>, e: Span, i: int, j: int)
    ensures AlignedBy(s + [e], |s|, i, j) <==>
            !e.changed && 0 <= i - SumOld(s) < e.old' && 0 <= j - SumNew(s) < e.new' && i - SumOld(s) == j - SumNew(s)
  {
    assert (s + [e])[..|s|] == s && (s + [e])[|s|] == e;
  }

  lemma AlignedAppend(s: seq<Span>, e: Span, i: int, j: int)
    ensures Aligned(s + [e], i, j) <==> Aligned(s, i, j) || AlignedBy(s + [e], |s|, i, j)
  {
    hide AlignedBy;
    forall q | q < |s| ensures AlignedBy(s + [e], q, i, j) <==> AlignedBy(s, q, i, j) {
      PrefixAligned(s, e, q, i, j);
    }
    forall q | q > |s| ensures !AlignedBy(s + [e], q, i, j) && !AlignedBy(s, q, i, j) { Outside(s, e, q, i, j); }
    Outside(s, e, |s| + 1, i, j);
  }

  lemma Outside(s: seq<Span>, e: Span, q: int, i: int, j: int)
    requires q > |s|
    ensures !AlignedBy(s + [e], q, i, j) && !AlignedBy(s, q, i, j) && !AlignedBy(s, |s|, i, j)
  {}

  /** Only the span that covers an index can align it. */
  lemma AlignedAt(s: seq<Span>, source: bool, q: int, i: int, j: int)
    requires Sound(s) && Covers(s, source, q, if source then i else j)
    ensures Aligned(s, i, j) <==>
            !s[q].changed && i - Sum(s[..q], true) == j - Sum(s[..q], false)
  {
    hide SumOld, SumNew;
    if Aligned(s, i, j) {
      var p :| AlignedBy(s, p, i, j);
      CoversUnique(s, source, p, q, if source then i else j);
    }
    if !s[q].changed && i - Sum(s[..q], true) == j - Sum(s[..q], false) {
      assert AlignedBy(s, q, i, j);
    }
  }

  /** Emitting a change while passing text that is not unchanged on both sides. */
  lemma MergedReplace(ops: seq<Span>, ab: seq<Span>, bc: seq<Span>, limit: int, m: int, n: int)
    requires Merged(ops, ab, bc, limit)
    ensures Merged(ops + [Span(true, m, n)], ab, bc, limit)
  {
    hide Through, Aligned;
    var e := Span(true, m, n);
    forall i, k ensures Aligned(ops + [e], i, k) <==> Through(ab, bc, limit, i, k) {
      AlignedAppend(ops, e, i, k);
      LastAligned(ops, e, i, k);
      assert Aligned(ops, i, k) <==> Through(ab, bc, limit, i, k);
    }
  }

  lemma MergedPass(ops: seq<Span>, ab: seq<Span>, bc: seq<Span>, limit: int, next: int)
    requires Merged(ops, ab, bc, limit) && limit <= next
    requires forall i, j, k :: limit <= j < next ==> !Via(ab, bc, i, j, k)
    ensures Merged(ops, ab, bc, next)
  {
    hide Via, Aligned;
    forall i, k ensures Aligned(ops, i, k) <==> Through(ab, bc, next, i, k) {
      assert Aligned(ops, i, k) <==> Through(ab, bc, limit, i, k);
      if Through(ab, bc, limit, i, k) {
        var j :| j < limit && Via(ab, bc, i, j, k);
        assert j < next;
      }
      if Through(ab, bc, next, i, k) {
        var j :| j < next && Via(ab, bc, i, j, k);
        assert j < limit;
      }
    }
  }

  /** Text changed on either side does not come through. */
  lemma ChangedBlocks(ab: seq<Span>, bc: seq<Span>, p: int, r: int, limit: int, next: int)
    requires Sound(ab) && Sound(bc) && 0 < p <= |ab| && 0 < r <= |bc|
    requires Sum(ab[..p - 1], false) <= limit <= next <= Sum(ab[..p], false)
    requires Sum(bc[..r - 1], true) <= limit && next <= Sum(bc[..r], true)
    requires ab[p - 1].changed || bc[r - 1].changed
    ensures forall i, j, k :: limit <= j < next ==> !Via(ab, bc, i, j, k)
  {
    hide SumOld, SumNew, Aligned;
    SumStep(ab, false, p - 1);
    SumStep(bc, true, r - 1);
    forall i, j, k | limit <= j < next ensures !Via(ab, bc, i, j, k) {
      AlignedAt(ab, false, p - 1, i, j);
      AlignedAt(bc, true, r - 1, j, k);
    }
  }

  /** Emitting text that is unchanged on both sides. */
  lemma MergedKeep(ops: seq<Span>, ab: seq<Span>, bc: seq<Span>, p: int, r: int, limit: int, n: int)
    requires Merged(ops, ab, bc, limit) && Sound(ab) && Sound(bc) && 0 < p <= |ab| && 0 < r <= |bc| && n >= 0
    requires !ab[p - 1].changed && !bc[r - 1].changed
    requires Sum(ab[..p - 1], false) <= limit && limit + n <= Sum(ab[..p], false)
    requires Sum(bc[..r - 1], true) <= limit && limit + n <= Sum(bc[..r], true)
    requires SumOld(ops) - Sum(ab[..p - 1], true) == limit - Sum(ab[..p - 1], false)
    requires SumNew(ops) - Sum(bc[..r - 1], false) == limit - Sum(bc[..r - 1], true)
    ensures Merged(ops + [Span(false, n, n)], ab, bc, limit + n)
  {
    hide SumOld, SumNew, Aligned, AlignedBy;
    SumStep(ab, false, p - 1);
    SumStep(bc, true, r - 1);
    var e := Span(false, n, n);
    forall i, k ensures Aligned(ops + [e], i, k) <==> Through(ab, bc, limit + n, i, k) {
      AlignedAppend(ops, e, i, k);
      LastAligned(ops, e, i, k);
      assert Aligned(ops, i, k) <==> Through(ab, bc, limit, i, k);
      if Through(ab, bc, limit, i, k) {
        var j :| j < limit && Via(ab, bc, i, j, k);
        assert j < limit + n;
      }
      if 0 <= i - SumOld(ops) < n && i - SumOld(ops) == k - SumNew(ops) {
        var j := limit + (i - SumOld(ops));
        AlignedAt(ab, false, p - 1, i, j);
        AlignedAt(bc, true, r - 1, j, k);
        assert Via(ab, bc, i, j, k);
      }
      if Through(ab, bc, limit + n, i, k) {
        var j :| j < limit + n && Via(ab, bc, i, j, k);
        if j >= limit {
          AlignedAt(ab, false, p - 1, i, j);
          AlignedAt(bc, true, r - 1, j, k);
        } else {
          assert Through(ab, bc, limit, i, k);
        }
      }
    }
  }

  // ----- how far the merge has come

  /** The first `p` spans of one log are fetched. Of the last of them, `rem`
      units of string b are left, and `other` units of string a or c. */
  ghost predicate Side(s: seq<Span>, mid: bool, p: int, rem: int, other: int) {
    && 0 <= p <= |s| && rem >= 0
    && (rem > 0 ==>
          && p > 0 && rem <= Len(s[p - 1], mid) && 0 <= other <= Len(s[p - 1], !mid)
          && (!s[p - 1].changed ==> other == rem))
  }

  /** The index in string b up to which the log is used up. */
  ghost function Mid(s: seq<Span>, mid: bool, p: int, rem: int): int
    requires 0 <= p <= |s|
  {
    Sum(s[..p], mid) - rem
  }

  /** The index in string a or c up to which the log is used up. */
  ghost function Outer(s: seq<Span>, mid: bool, p: int, rem: int, other: int): int
    requires 0 <= p <= |s|
  {
    Sum(s[..p], !mid) - if rem > 0 then other else 0
  }

  lemma SideFetch(s: seq<Span>, mid: bool, p: int, other: int)
    requires Sound(s) && 0 <= p < |s|
    ensures var rem, len := Len(s[p], mid), Len(s[p], !mid);
            && Side(s, mid, p + 1, rem, len) && Mid(s, mid, p + 1, rem) == Mid(s, mid, p, 0)
            && Outer(s, mid, p + 1, rem, len) == Outer(s, mid, p, 0, other) + (if rem > 0 then 0 else len)
  {
    hide SumOld, SumNew;
    SumStep(s, mid, p);
    SumStep(s, !mid, p);
  }

  lemma SideBounds(s: seq<Span>, mid: bool, p: int, rem: int, other: int)
    requires Sound(s) && Side(s, mid, p, rem, other)
    ensures Mid(s, mid, p, rem) + rem <= Sum(s, mid)
    ensures Outer(s, mid, p, rem, other) + (if rem > 0 then other else 0) <= Sum(s, !mid)
    ensures rem > 0 ==> Sum(s[..p - 1], mid) <= Mid(s, mid, p, rem)
    ensures rem > 0 && !s[p - 1].changed ==>
              Outer(s, mid, p, rem, other) - Sum(s[..p - 1], !mid) == Mid(s, mid, p, rem) - Sum(s[..p - 1], mid)
  {
    hide SumOld, SumNew;
    assert s[..|s|] == s;
    SumGrows(s, mid, p, |s|);
    SumGrows(s, !mid, p, |s|);
    if rem > 0 {
      SumStep(s, mid, p - 1);
      SumStep(s, !mid, p - 1);
    }
  }

  ghost predicate Progress(ab: seq<Span>, bc: seq<Span>, p: int, r: int,
                           aLength: int, abLength: int, bcLength: int, cLength: int,
                           pendingA: int, pendingC: int, ops: seq<Span>)
  {
    && Sound(ab) && Sound(bc) && Sound(ops)
    && Side(ab, false, p, abLength, aLength) && Side(bc, true, r, bcLength, cLength)
    && Mid(ab, false, p, abLength) == Mid(bc, true, r, bcLength)
    && pendingA >= 0 && pendingC >= 0 && SumOld(ops) >= 0 && SumNew(ops) >= 0
    && SumOld(ops) + pendingA == Outer(ab, false, p, abLength, aLength)
    && SumNew(ops) + pendingC == Outer(bc, true, r, bcLength, cLength)
    && Merged(ops, ab, bc, Mid(ab, false, p, abLength))
  }

  lemma ProgressStart(ab: seq<Span>, bc: seq<Span>)
    requires Sound(ab) && Sound(bc)
    ensures Progress(ab, bc, 0, 0, 0, 0, 0, 0, 0, 0, [])
  {
    assert ab[..0] == [] && bc[..0] == [];
    forall i, j ensures !Aligned([], i, j) {}
    forall i, k ensures !Through(ab, bc, 0, i, k) {
      if Through(ab, bc, 0, i, k) {
        var j :| j < 0 && Via(ab, bc, i, j, k);
        var q :| AlignedBy(bc, q, j, k);
        SumGrows(bc, true, 0, q);
        assert false;
      }
    }
  }

  lemma FetchSecond(ab: seq<Span>, bc: seq<Span>, p: int, r: int, aLength: int, abLength: int, cLength: int,
                    pendingA: int, pendingC: int, ops: seq<Span>)
    requires Progress(ab, bc, p, r, aLength, abLength, 0, cLength, pendingA, pendingC, ops) && r < |bc|
    ensures var m, n := bc[r].old', bc[r].new';
            Progress(ab, bc, p, r + 1, aLength, abLength, m, n, pendingA, pendingC + (if m > 0 then 0 else n), ops)
  {
    hide SumOld, SumNew, Merged;
    SideFetch(bc, true, r, cLength);
  }

  lemma FetchFirst(ab: seq<Span>, bc: seq<Span>, p: int, r: int, aLength: int, bcLength: int, cLength: int,
                   pendingA: int, pendingC: int, ops: seq<Span>)
    requires Progress(ab, bc, p, r, aLength, 0, bcLength, cLength, pendingA, pendingC, ops) && p < |ab|
    ensures var m, n := ab[p].old', ab[p].new';
            Progress(ab, bc, p + 1, r, m, n, bcLength, cLength, pendingA + (if n > 0 then 0 else m), pendingC, ops)
  {
    hide SumOld, SumNew, Merged;
    SideFetch(ab, false, p, aLength);
  }

  /** The edits after a replacement is added; an empty one is ignored. */
  function Put(ops: seq<Span>, m: int, n: int): seq<Span> {
    if m == 0 && n == 0 then ops else ops + [Span(true, m, n)]
  }

  lemma Flush(ab: seq<Span>, bc: seq<Span>, p: int, r: int, aLength: int, abLength: int, bcLength: int, cLength: int,
              pendingA: int, pendingC: int, ops: seq<Span>)
    requires Progress(ab, bc, p, r, aLength, abLength, bcLength, cLength, pendingA, pendingC, ops)
    ensures Progress(ab, bc, p, r, aLength, abLength, bcLength, cLength, 0, 0, Put(ops, pendingA, pendingC))
  {
    hide SumOld, SumNew, Merged;
    SumsAppend(ops, Span(true, pendingA, pendingC));
    MergedReplace(ops, ab, bc, Mid(ab, false, p, abLength), pendingA, pendingC);
  }

  /** Using up `n` units of string b that are changed on either side. */
  lemma Pass(ab: seq<Span>, bc: seq<Span>, p: int, r: int, aLength: int, abLength: int, bcLength: int, cLength: int,
             pendingA: int, pendingC: int, ops: seq<Span>, n: int, x: int, y: int, aLeft: int, cLeft: int)
    requires Progress(ab, bc, p, r, aLength, abLength, bcLength, cLength, pendingA, pendingC, ops)
    requires 0 < n <= abLength && n <= bcLength && (ab[p - 1].changed || bc[r - 1].changed)
    requires 0 <= x <= aLength && 0 <= y <= cLength
    requires if n == abLength then x == aLength else aLeft == aLength - x && (!ab[p - 1].changed ==> x == n)
    requires if n == bcLength then y == cLength else cLeft == cLength - y && (!bc[r - 1].changed ==> y == n)
    ensures Progress(ab, bc, p, r, aLeft, abLength - n, bcLength - n, cLeft, pendingA + x, pendingC + y, ops)
  {
    hide SumOld, SumNew, Merged;
    SideBounds(ab, false, p, abLength, aLength);
    SideBounds(bc, true, r, bcLength, cLength);
    var limit := Mid(ab, false, p, abLength);
    ChangedBlocks(ab, bc, p, r, limit, limit + n);
    MergedPass(ops, ab, bc, limit, limit + n);
  }

  /** Using up `n` units of string b that are unchanged on both sides. */
  lemma KeepBoth(ab: seq<Span>, bc: seq<Span>, p: int, r: int, abLength: int, bcLength: int, ops: seq<Span>, n: int)
    requires Progress(ab, bc, p, r, abLength, abLength, bcLength, bcLength, 0, 0, ops)
    requires 0 < n <= abLength && n <= bcLength && !ab[p - 1].changed && !bc[r - 1].changed
    ensures Progress(ab, bc, p, r, abLength - n, abLength - n, bcLength - n, bcLength - n, 0, 0,
                     ops + [Span(false, n, n)])
  {
    hide SumOld, SumNew, Merged;
    SideBounds(ab, false, p, abLength, abLength);
    SideBounds(bc, true, r, bcLength, bcLength);
    MergedKeep(ops, ab, bc, p, r, Mid(ab, false, p, abLength), n);
    SumsAppend(ops, Span(false, n, n));
  }

  /** Added lengths stay within those of the texts. */
  lemma ProgressBounds(ab: seq<Span>, bc: seq<Span>, p: int, r: int,
                       aLength: int, abLength: int, bcLength: int, cLength: int,
                       pendingA: int, pendingC: int, ops: seq<Span>)
    requires Progress(ab, bc, p, r, aLength, abLength, bcLength, cLength, pendingA, pendingC, ops)
    ensures 0 <= pendingA && 0 <= SumOld(ops) && 0 <= pendingC && 0 <= SumNew(ops)
    ensures SumOld(ops) + pendingA + (if abLength > 0 then aLength else 0) <= SumOld(ab)
    ensures SumNew(ops) + pendingC + (if bcLength > 0 then cLength else 0) <= SumNew(bc)
    ensures abLength > 0 ==> 0 <= aLength && (!ab[p - 1].changed ==> aLength == abLength)
    ensures bcLength > 0 ==> 0 <= cLength && (!bc[r - 1].changed ==> cLength == bcLength)
    ensures abLength >= 0 && bcLength >= 0 && 0 <= p <= |ab| && 0 <= r <= |bc|
    ensures p == |ab| && abLength == 0 && bcLength > 0 ==> SumNew(ab) < SumOld(bc) && Merged(ops, ab, bc, SumNew(ab))
    ensures r == |bc| && bcLength == 0 && abLength > 0 ==> SumOld(bc) < SumNew(ab) && Merged(ops, ab, bc, SumOld(bc))
    ensures Sound(ab) && Sound(bc) && Sound(ops)
    ensures p == |ab| && r == |bc| && abLength == 0 && bcLength == 0 ==>
              && SumNew(ab) == SumOld(bc)
              && SumOld(ops) + pendingA == SumOld(ab) && SumNew(ops) + pendingC == SumNew(bc)
              && Merged(ops, ab, bc, SumNew(ab)) && Sound(ab) && Sound(ops)
  {
    hide SumOld, SumNew, Merged;
    SideBounds(ab, false, p, abLength, aLength);
    SideBounds(bc, true, r, bcLength, cLength);
    assert ab[..|ab|] == ab && bc[..|bc|] == bc;
  }

  // ----- where the edits are cut

  /** The place a merge has come to. */
  ghost function Here(ab: seq<Span>, p: int, abLength: int, r: int, bcLength: int): Cut
    requires 0 <= p <= |ab|
  {
    Cut(if abLength > 0 then p - 1 else p, Mid(ab, false, p, abLength), if bcLength > 0 then r - 1 else r)
  }

  /** A span of which nothing is used up has all of its other text, too. */
  ghost predicate Fresh(s: seq<Span>, mid: bool, p: int, rem: int, other: int) {
    0 < p <= |s| && rem > 0 && rem == Len(s[p - 1], mid) ==> other == Len(s[p - 1], !mid)
  }

  /** The edits so far are cut at the free places, and none was passed since. */
  ghost predicate Cutting(ab: seq<Span>, bc: seq<Span>, p: int, r: int,
                          aLength: int, abLength: int, bcLength: int, cLength: int, ops: seq<Span>, k: Knit)
  {
    && 0 <= p <= |ab| && CutBy(ab, bc, k) && ops == Solid(k.pieces)
    && Fresh(ab, false, p, abLength, aLength) && Fresh(bc, true, r, bcLength, cLength)
    && Leq(k.Last(), Here(ab, p, abLength, r, bcLength))
    && NoneAfter(ab, bc, k.Last(), Here(ab, p, abLength, r, bcLength))
  }

  /** The merge has come to `next`, and passed no free place on the way. */
  ghost predicate Arrived(ab: seq<Span>, bc: seq<Span>, next: Cut, ops: seq<Span>, k: Knit) {
    && CutBy(ab, bc, k) && ops == Solid(k.pieces)
    && Leq(k.Last(), next) && NoneBetween(ab, bc, k.Last(), next)
  }

  lemma CuttingStart(ab: seq<Span>, bc: seq<Span>)
    ensures Cutting(ab, bc, 0, 0, 0, 0, 0, 0, [], Knit([], [Cut(0, 0, 0)]))
  {
    KnitStart(ab, bc);
    assert ab[..0] == [];
  }

  lemma SidePlace(s: seq<Span>, mid: bool, p: int, rem: int, other: int)
    requires Sound(s) && Side(s, mid, p, rem, other)
    ensures Place(s, mid, if rem > 0 then p - 1 else p, Mid(s, mid, p, rem))
    ensures rem > 0 ==> Mid(s, mid, p, rem) + rem == Pre(s, mid, p) && rem <= Len(s[p - 1], mid)
    ensures rem > 0 ==> (rem == Len(s[p - 1], mid) <==> Mid(s, mid, p, rem) == Pre(s, mid, p - 1))
  {
    hide SumOld, SumNew;
    if rem > 0 {
      PreStep(s, mid, p - 1);
    }
  }

  /** At a free place the texts are used up to what the place says. */
  lemma SideOpposite(s: seq<Span>, mid: bool, p: int, rem: int, other: int)
    requires Sound(s) && Side(s, mid, p, rem, other) && Fresh(s, mid, p, rem, other)
    requires FreeOn(s, mid, if rem > 0 then p - 1 else p, Mid(s, mid, p, rem))
    ensures Outer(s, mid, p, rem, other) == Opposite(s, mid, if rem > 0 then p - 1 else p, Mid(s, mid, p, rem))
  {
    hide SumOld, SumNew;
    SidePlace(s, mid, p, rem, other);
    if rem > 0 {
      PreStep(s, mid, p - 1);
      PreStep(s, !mid, p - 1);
    }
  }

  lemma HerePlace(ab: seq<Span>, bc: seq<Span>, p: int, r: int,
                  aLength: int, abLength: int, bcLength: int, cLength: int,
                  pendingA: int, pendingC: int, ops: seq<Span>)
    requires Progress(ab, bc, p, r, aLength, abLength, bcLength, cLength, pendingA, pendingC, ops)
    ensures 0 <= p <= |ab| && 0 <= r <= |bc| && IsPlace(ab, bc, Here(ab, p, abLength, r, bcLength))
    ensures abLength > 0 ==> p > 0 && abLength <= ab[p - 1].new'
    ensures bcLength > 0 ==> r > 0 && bcLength <= bc[r - 1].old'
    ensures var x := Here(ab, p, abLength, r, bcLength);
            && (FreeOn(ab, false, x.p, x.j) <==> abLength <= 0 || !ab[p - 1].changed || abLength == ab[p - 1].new')
            && (FreeOn(bc, true, x.r, x.j) <==> bcLength <= 0 || !bc[r - 1].changed || bcLength == bc[r - 1].old')
  {
    hide SumOld, SumNew, Merged;
    SidePlace(ab, false, p, abLength, aLength);
    SidePlace(bc, true, r, bcLength, cLength);
  }

  /** The pending change is cut off where the merge has come to. */
  lemma CutOff(ab: seq<Span>, bc: seq<Span>, p: int, r: int, aLength: int, abLength: int, bcLength: int, cLength: int,
               pendingA: int, pendingC: int, ops: seq<Span>, k: Knit)
    requires Progress(ab, bc, p, r, aLength, abLength, bcLength, cLength, pendingA, pendingC, ops)
    requires Fresh(ab, false, p, abLength, aLength) && Fresh(bc, true, r, bcLength, cLength) && 0 <= p <= |ab|
    requires var x := Here(ab, p, abLength, r, bcLength);
             Arrived(ab, bc, x, ops, k) && Free(ab, bc, x) && InsertionsFirst(ab, bc, x)
    ensures var x := Here(ab, p, abLength, r, bcLength);
            Cutting(ab, bc, p, r, aLength, abLength, bcLength, cLength, Put(ops, pendingA, pendingC),
                    Knit(k.pieces + [Span(true, pendingA, pendingC)], k.cuts + [x]))
  {
    hide SumOld, SumNew, Merged, Place, Opposite, InsertionsFirst;
    var x, e := Here(ab, p, abLength, r, bcLength), Span(true, pendingA, pendingC);
    SideOpposite(ab, false, p, abLength, aLength);
    SideOpposite(bc, true, r, bcLength, cLength);
    CutSums(ab, bc, k);
    SolidSums(k.pieces);
    LastIsFree(ab, bc, k);
    assert Piece(ab, bc, k.Last(), x, e);
    KnitOn(ab, bc, k, x, e);
    SolidAppend(k.pieces, e);
    assert ops + [] == ops;
  }

  lemma LastIsFree(ab: seq<Span>, bc: seq<Span>, k: Knit)
    requires CutBy(ab, bc, k)
    ensures Free(ab, bc, k.Last())
  {}

  /** At a place that a change runs across nothing is cut. */
  lemma NoCut(ab: seq<Span>, bc: seq<Span>, p: int, r: int, aLength: int, abLength: int, bcLength: int, cLength: int,
              ops: seq<Span>, k: Knit)
    requires Fresh(ab, false, p, abLength, aLength) && Fresh(bc, true, r, bcLength, cLength) && 0 <= p <= |ab|
    requires var x := Here(ab, p, abLength, r, bcLength); Arrived(ab, bc, x, ops, k) && !Free(ab, bc, x)
    ensures Cutting(ab, bc, p, r, aLength, abLength, bcLength, cLength, ops, k)
  {
    hide Free, CutBy;
  }

  /** Where the merge is free nothing has to be passed to cut. */
  lemma ArrivedHere(ab: seq<Span>, bc: seq<Span>, p: int, r: int, aLength: int, abLength: int,
                    bcLength: int, cLength: int, ops: seq<Span>, k: Knit)
    requires Cutting(ab, bc, p, r, aLength, abLength, bcLength, cLength, ops, k)
    ensures Arrived(ab, bc, Here(ab, p, abLength, r, bcLength), ops, k)
    ensures Fresh(ab, false, p, abLength, aLength) && Fresh(bc, true, r, bcLength, cLength)
    ensures Free(ab, bc, Here(ab, p, abLength, r, bcLength)) ==> k.Last() == Here(ab, p, abLength, r, bcLength)
    ensures InsertionsFirst(ab, bc, k.Last())
  {
    hide Free, InsertionsFirst;
  }

  /** Using up text of b that is changed on either side. */
  lemma PassCut(ab: seq<Span>, bc: seq<Span>, p: int, r: int, aLength: int, abLength: int, bcLength: int, cLength: int,
                pendingA: int, pendingC: int, ops: seq<Span>, k: Knit, n: int, aLeft: int, cLeft: int)
    requires Progress(ab, bc, p, r, aLength, abLength, bcLength, cLength, pendingA, pendingC, ops)
    requires Cutting(ab, bc, p, r, aLength, abLength, bcLength, cLength, ops, k)
    requires 0 < n <= abLength && n <= bcLength && (ab[p - 1].changed || bc[r - 1].changed)
    ensures Arrived(ab, bc, Here(ab, p, abLength - n, r, bcLength - n), ops, k)
    ensures Fresh(ab, false, p, abLength - n, aLeft) && Fresh(bc, true, r, bcLength - n, cLeft)
  {
    hide SumOld, SumNew, Merged, CutBy, NoneAfter, NoneBetween;
    SidePlace(ab, false, p, abLength, aLength);
    SidePlace(bc, true, r, bcLength, cLength);
    PreStep(ab, false, p - 1);
    PreStep(bc, true, r - 1);
    var cur, next := Here(ab, p, abLength, r, bcLength), Here(ab, p, abLength - n, r, bcLength - n);
    PassPlaces(ab, bc, k.Last(), cur, next, n);
  }

  /** After text of b no deletion has just been passed. */
  lemma PassedText(ab: seq<Span>, bc: seq<Span>, p: int, r: int, aLength: int, abLength: int,
                   bcLength: int, cLength: int, n: int)
    requires Sound(ab) && Side(ab, false, p, abLength, aLength) && 0 < n <= abLength
    ensures InsertionsFirst(ab, bc, Here(ab, p, abLength - n, r, bcLength))
  {
    hide SumOld, SumNew;
    SidePlace(ab, false, p, abLength, aLength);
    PreStep(ab, false, p - 1);
  }

  /** Using up text of b that is unchanged on both sides: it is one edit. */
  lemma KeepCut(ab: seq<Span>, bc: seq<Span>, p: int, r: int, abLength: int, bcLength: int, ops: seq<Span>,
                k: Knit, n: int)
    requires Progress(ab, bc, p, r, abLength, abLength, bcLength, bcLength, 0, 0, ops)
    requires Cutting(ab, bc, p, r, abLength, abLength, bcLength, bcLength, ops, k)
    requires 0 < n <= abLength && n <= bcLength && !ab[p - 1].changed && !bc[r - 1].changed
    ensures Cutting(ab, bc, p, r, abLength - n, abLength - n, bcLength - n, bcLength - n, ops + [Span(false, n, n)],
                    Knit(k.pieces + [Span(false, n, n)], k.cuts + [Here(ab, p, abLength - n, r, bcLength - n)]))
  {
    hide SumOld, SumNew, Merged;
    var cur, next := Here(ab, p, abLength, r, bcLength), Here(ab, p, abLength - n, r, bcLength - n);
    var e := Span(false, n, n);
    SidePlace(ab, false, p, abLength, abLength);
    SidePlace(bc, true, r, bcLength, bcLength);
    PassedText(ab, bc, p, r, abLength, abLength, bcLength - n, bcLength, n);
    KeptPlace(ab, false, p, abLength, n);
    KeptPlace(bc, true, r, bcLength, n);
    hide CutBy, InsertionsFirst, Opposite;
    assert k.Last() == cur;
    assert Piece(ab, bc, cur, next, e);
    KnitOn(ab, bc, k, next, e);
    SolidAppend(k.pieces, e);
  }

  lemma KeptPlace(s: seq<Span>, mid: bool, p: int, rem: int, n: int)
    requires Sound(s) && Side(s, mid, p, rem, rem) && 0 < n <= rem && !s[p - 1].changed
    ensures var x, y := Mid(s, mid, p, rem), Mid(s, mid, p, rem - n);
            var q := if rem - n > 0 then p - 1 else p;
            && y == x + n && FreeOn(s, mid, p - 1, x) && FreeOn(s, mid, q, y) && Within(s, mid, p - 1, x, y)
            && Opposite(s, mid, q, y) - Opposite(s, mid, p - 1, x) == n
  {
    hide SumOld, SumNew;
    PreStep(s, mid, p - 1);
    PreStep(s, !mid, p - 1);
  }

  /** Fetching a span of the second log. */
  lemma FetchSecondCut(ab: seq<Span>, bc: seq<Span>, p: int, r: int, aLength: int, abLength: int, cLength: int,
                       pendingA: int, pendingC: int, ops: seq<Span>, k: Knit)
    requires Progress(ab, bc, p, r, aLength, abLength, 0, cLength, pendingA, pendingC, ops) && r < |bc|
    requires Cutting(ab, bc, p, r, aLength, abLength, 0, cLength, ops, k)
    ensures var m, n := bc[r].old', bc[r].new';
            && Fresh(ab, false, p, abLength, aLength) && Fresh(bc, true, r + 1, m, n)
            && if m > 0 then Cutting(ab, bc, p, r + 1, aLength, abLength, m, n, ops, k)
               else
                 && Arrived(ab, bc, Here(ab, p, abLength, r + 1, m), ops, k)
                 && (Free(ab, bc, Here(ab, p, abLength, r, 0)) ==>
                       InsertionsFirst(ab, bc, Here(ab, p, abLength, r + 1, m)))
  {
    hide SumOld, SumNew, Merged, CutBy, NoneAfter, NoneBetween;
    HerePlace(ab, bc, p, r, aLength, abLength, 0, cLength, pendingA, pendingC, ops);
    ArrivedHere(ab, bc, p, r, aLength, abLength, 0, cLength, ops, k);
    if bc[r].old' <= 0 {
      InsertionPlaces(ab, bc, k.Last(), Here(ab, p, abLength, r, 0));
    }
  }

  /** Fetching a span of the first log. */
  lemma FetchFirstCut(ab: seq<Span>, bc: seq<Span>, p: int, r: int, aLength: int, bcLength: int, cLength: int,
                      pendingA: int, pendingC: int, ops: seq<Span>, k: Knit)
    requires Progress(ab, bc, p, r, aLength, 0, bcLength, cLength, pendingA, pendingC, ops) && p < |ab|
    requires Cutting(ab, bc, p, r, aLength, 0, bcLength, cLength, ops, k)
    requires bcLength > 0 || r == |bc|
    ensures var m, n := ab[p].old', ab[p].new';
            && Fresh(ab, false, p + 1, n, m) && Fresh(bc, true, r, bcLength, cLength)
            && if n > 0 then Cutting(ab, bc, p + 1, r, m, n, bcLength, cLength, ops, k)
               else
                 && Arrived(ab, bc, Here(ab, p + 1, n, r, bcLength), ops, k)
                 && InsertionsFirst(ab, bc, Here(ab, p + 1, n, r, bcLength))
  {
    hide SumOld, SumNew, Merged, CutBy, NoneAfter, NoneBetween;
    HerePlace(ab, bc, p, r, aLength, 0, bcLength, cLength, pendingA, pendingC, ops);
    PreStep(ab, false, p);
    if ab[p].new' <= 0 {
      DeletionPlaces(ab, bc, k.Last(), Here(ab, p, 0, r, bcLength));
    }
  }

  // ----- adding to a log

  ghost function AddAll(s: seq<Span>, ops: seq<Span>, coarse: bool): seq<Span> {
    if ops == [] then s else AddSpan(AddAll(s, ops[..|ops| - 1], coarse), ops[|ops| - 1], coarse)
  }

  lemma AddAllAppend(s: seq<Span>, ops: seq<Span>, e: Span, coarse: bool)
    ensures AddAll(s, ops + [e], coarse) == AddSpan(AddAll(s, ops, coarse), e, coarse)
  {
    assert (ops + [e])[..|ops|] == ops;
  }

  /** The log is the one before with the edits `ops` added. */
  ghost predicate Appended(before: seq<EditsLog.Record>, after: seq<EditsLog.Record>, ops: seq<Span>)
    requires AllValid(before) && AllValid(after)
  {
    && Delta(after) == Delta(before) + SumNew(ops) - SumOld(ops)
    && forall coarse :: Spans(after, coarse) == AddAll(Spans(before, coarse), ops, coarse)
  }

  lemma AppendedReplace(start: seq<EditsLog.Record>, before: seq<EditsLog.Record>, after: seq<EditsLog.Record>,
                        ops: seq<Span>, m: int, n: int)
    requires AllValid(start) && AllValid(before) && AllValid(after)
    requires Appended(start, before, ops) && Replaced(before, after, m, n)
    ensures Appended(start, after, ops + [Span(true, m, n)])
  {
    hide SumOld, SumNew, Delta, Spans, AddSpan, AddAll;
    SumsAppend(ops, Span(true, m, n));
    forall coarse ensures Spans(after, coarse) == AddAll(Spans(start, coarse), ops + [Span(true, m, n)], coarse) {
      AddAllAppend(Spans(start, coarse), ops, Span(true, m, n), coarse);
    }
  }

  lemma AppendedKeep(start: seq<EditsLog.Record>, before: seq<EditsLog.Record>, after: seq<EditsLog.Record>,
                     ops: seq<Span>, n: int)
    requires AllValid(start) && AllValid(before) && AllValid(after)
    requires Appended(start, before, ops) && Kept(before, after, n) && n > 0
    ensures Appended(start, after, ops + [Span(false, n, n)])
  {
    hide SumOld, SumNew, Delta, Spans, AddSpan, AddAll;
    SumsAppend(ops, Span(false, n, n));
    forall coarse ensures Spans(after, coarse) == AddAll(Spans(start, coarse), ops + [Span(false, n, n)], coarse) {
      AddAllAppend(Spans(start, coarse), ops, Span(false, n, n), coarse);
    }
  }

  /** The length difference after `n` of the edits fits 32 bits. */
  ghost predicate InRange(start: seq<EditsLog.Record>, ops: seq<Span>, n: int)
    requires 0 <= n <= |ops|
  {
    Int32(Delta(start) + SumNew(ops[..n]) - SumOld(ops[..n]))
  }

  /** The length difference never leaves the 32-bit range on the way. */
  ghost predicate AllInRange(start: seq<EditsLog.Record>, ops: seq<Span>) {
    forall n :: 0 <= n <= |ops| ==> InRange(start, ops, n)
  }

  /** The log holds the first `n` edits, and the next one overflowed. */
  ghost predicate StoppedAt(start: seq<EditsLog.Record>, after: seq<EditsLog.Record>, ops: seq<Span>, n: int)
    requires AllValid(start) && AllValid(after)
  {
    0 <= n < |ops| && Appended(start, after, ops[..n]) && AllInRange(start, ops[..n]) && !InRange(start, ops, n + 1)
  }

  ghost predicate Stopped(start: seq<EditsLog.Record>, after: seq<EditsLog.Record>, ops: seq<Span>)
    requires AllValid(start) && AllValid(after)
  {
    exists n :: StoppedAt(start, after, ops, n)
  }

  lemma RangePrefix(start: seq<EditsLog.Record>, ops: seq<Span>, e: Span, n: int)
    requires 0 <= n <= |ops|
    ensures InRange(start, ops + [e], n) == InRange(start, ops, n)
  {
    assert (ops + [e])[..n] == ops[..n];
  }

  lemma RangeLast(start: seq<EditsLog.Record>, ops: seq<Span>, e: Span)
    ensures InRange(start, ops + [e], |ops| + 1) <==>
            Int32(Delta(start) + SumNew(ops) - SumOld(ops) + e.new' - e.old')
    ensures InRange(start, ops, |ops|) <==> Int32(Delta(start) + SumNew(ops) - SumOld(ops))
  {
    hide SumOld, SumNew, Delta;
    assert (ops + [e])[..|ops| + 1] == ops + [e] && ops[..|ops|] == ops;
    SumsAppend(ops, e);
  }

  /** One edit more stays in range if its own difference does. */
  lemma RangeStep(start: seq<EditsLog.Record>, ops: seq<Span>, e: Span)
    ensures AllInRange(start, ops + [e]) <==>
            AllInRange(start, ops) && Int32(Delta(start) + SumNew(ops) - SumOld(ops) + e.new' - e.old')
    ensures AllInRange(start, ops) ==> Int32(Delta(start) + SumNew(ops) - SumOld(ops))
  {
    hide InRange;
    RangeLast(start, ops, e);
    forall n | 0 <= n <= |ops| ensures InRange(start, ops + [e], n) == InRange(start, ops, n) {
      RangePrefix(start, ops, e, n);
    }
    if AllInRange(start, ops + [e]) {
      forall n | 0 <= n <= |ops| ensures InRange(start, ops, n) {
        assert InRange(start, ops + [e], n);
      }
    }
  }

  lemma StoppedStep(start: seq<EditsLog.Record>, after: seq<EditsLog.Record>, ops: seq<Span>, e: Span)
    requires AllValid(start) && AllValid(after) && Stopped(start, after, ops)
    ensures Stopped(start, after, ops + [e]) && !AllInRange(start, ops)
  {
    hide SumOld, SumNew, Delta, Appended, AllInRange;
    var n :| StoppedAt(start, after, ops, n);
    assert (ops + [e])[..n] == ops[..n] && (ops + [e])[..n + 1] == ops[..n + 1];
    assert StoppedAt(start, after, ops + [e], n);
    OneOut(start, ops, n + 1);
  }

  lemma OneOut(start: seq<EditsLog.Record>, ops: seq<Span>, n: int)
    requires 0 <= n <= |ops| && !InRange(start, ops, n)
    ensures !AllInRange(start, ops)
  {}

  lemma StopHere(start: seq<EditsLog.Record>, after: seq<EditsLog.Record>, ops: seq<Span>, e: Span)
    requires AllValid(start) && AllValid(after) && Appended(start, after, ops) && AllInRange(start, ops)
    requires !Int32(Delta(start) + SumNew(ops) - SumOld(ops) + e.new' - e.old')
    ensures Stopped(start, after, ops + [e]) && !AllInRange(start, ops + [e])
  {
    hide SumOld, SumNew, Delta, Appended, AllInRange, InRange;
    RangeStep(start, ops, e);
    RangeLast(start, ops, e);
    assert (ops + [e])[..|ops|] == ops;
    assert StoppedAt(start, after, ops + [e], |ops|);
  }

  /** The log `e` while edits are added to it. */
  ghost predicate Adding(e: Edits, start: seq<EditsLog.Record>, ops: seq<Span>)
    reads e
  {
    && e.Valid() && AllValid(start) && (e.error == NoError || e.error == IndexOutOfBounds)
    && (e.error == NoError <==> AllInRange(start, ops))
    && (e.error == NoError ==> Appended(start, e.records, ops))
    && (e.error != NoError ==> Stopped(start, e.records, ops))
  }

  method EmitReplace(e: Edits, m: int, n: int, ghost start: seq<EditsLog.Record>, ghost ops: seq<Span>)
    requires Adding(e, start, ops) && 0 <= m <= INT32_MAX && 0 <= n <= INT32_MAX
    modifies e
    ensures Adding(e, start, Put(ops, m, n))
  {
    assert e.error == NoError ==> e.delta == Delta(start) + SumNew(ops) - SumOld(ops);
    hide SumOld, SumNew, Delta, Spans, Units, Appended, Replaced, AllInRange, Stopped;
    ghost var before := e.records;
    e.AddReplace(m, n);
    if m + n > 0 {
      RangeStep(start, ops, Span(true, m, n));
      if e.error == NoError {
        AppendedReplace(start, before, e.records, ops, m, n);
      } else if old(e.error) == NoError {
        StopHere(start, e.records, ops, Span(true, m, n));
      } else {
        StoppedStep(start, e.records, ops, Span(true, m, n));
      }
    }
  }

  method EmitUnchanged(e: Edits, n: int, ghost start: seq<EditsLog.Record>, ghost ops: seq<Span>)
    requires Adding(e, start, ops) && n > 0
    modifies e
    ensures Adding(e, start, ops + [Span(false, n, n)])
    ensures e.error == old(e.error)
  {
    assert e.error == NoError ==> e.delta == Delta(start) + SumNew(ops) - SumOld(ops);
    hide SumOld, SumNew, Delta, Spans, Units, Appended, Kept, AllInRange, Stopped;
    ghost var before := e.records;
    e.AddUnchanged(n);
    RangeStep(start, ops, Span(false, n, n));
    if e.error == NoError {
      AppendedKeep(start, before, e.records, ops, n);
    } else {
      StoppedStep(start, e.records, ops, Span(false, n, n));
    }
  }

  /** The total length difference cannot leave the 32-bit range. */
  ghost predicate Roomy(start: seq<EditsLog.Record>, ab: seq<Span>, bc: seq<Span>) {
    Delta(start) + SumNew(bc) <= INT32_MAX && Delta(start) - SumOld(ab) >= INT32_MIN
  }

  /** Emits the pending change at a free place. */
  method Emit(e: Edits, m: int, n: int, ghost start: seq<EditsLog.Record>, ghost ops: seq<Span>, ghost k: Knit,
              ghost ab: seq<Span>, ghost bc: seq<Span>, ghost p: int, ghost r: int,
              ghost aLength: int, ghost abLength: int, ghost bcLength: int, ghost cLength: int)
    returns (ghost k': Knit)
    requires Adding(e, start, ops) && Progress(ab, bc, p, r, aLength, abLength, bcLength, cLength, m, n, ops)
    requires SumOld(ab) <= INT32_MAX && SumNew(bc) <= INT32_MAX
    requires Fresh(ab, false, p, abLength, aLength) && Fresh(bc, true, r, bcLength, cLength) && 0 <= p <= |ab|
    requires var x := Here(ab, p, abLength, r, bcLength);
             Arrived(ab, bc, x, ops, k) && Free(ab, bc, x) && InsertionsFirst(ab, bc, x)
    modifies e
    ensures Adding(e, start, Put(ops, m, n))
    ensures Progress(ab, bc, p, r, aLength, abLength, bcLength, cLength, 0, 0, Put(ops, m, n))
    ensures Cutting(ab, bc, p, r, aLength, abLength, bcLength, cLength, Put(ops, m, n), k')
  {
    assert e.error == NoError ==> e.delta == Delta(start) + SumNew(ops) - SumOld(ops);
    hide Spans, SumOld, SumNew, Delta, Units, Progress, AddAll, Appended, AllInRange, Stopped;
    hide Fresh, Arrived, Free, InsertionsFirst, Cutting, Put;
    ProgressBounds(ab, bc, p, r, aLength, abLength, bcLength, cLength, m, n, ops);
    CutOff(ab, bc, p, r, aLength, abLength, bcLength, cLength, m, n, ops, k);
    k' := Knit(k.pieces + [Span(true, m, n)], k.cuts + [Here(ab, p, abLength, r, bcLength)]);
    Flush(ab, bc, p, r, aLength, abLength, bcLength, cLength, m, n, ops);
    EmitReplace(e, m, n, start, ops);
  }

  lemma AppendedNothing(rs: seq<EditsLog.Record>)
    requires AllValid(rs)
    ensures Appended(rs, rs, []) && (Int32(Delta(rs)) ==> AllInRange(rs, []))
  {}

  /** Nothing corresponds beyond the end of string b as either log has it. */
  lemma MergedAll(ops: seq<Span>, ab: seq<Span>, bc: seq<Span>, limit: int)
    requires Merged(ops, ab, bc, limit) && Sound(ab) && Sound(bc) && (limit == SumNew(ab) || limit == SumOld(bc))
    ensures Composed(ops, ab, bc)
  {
    hide SumOld, SumNew;
    forall i, k ensures Aligned(ops, i, k) <==> exists j :: Via(ab, bc, i, j, k) {
      assert Aligned(ops, i, k) <==> Through(ab, bc, limit, i, k);
      forall j | Via(ab, bc, i, j, k) ensures j < limit {
        hide Aligned;
        AlignedWithin(ab, i, j);
        AlignedWithin(bc, j, k);
      }
    }
  }

  /** `ops` align what both steps align, through the string between them. */
  ghost predicate Composed(ops: seq<Span>, ab: seq<Span>, bc: seq<Span>) {
    forall i, k :: Aligned(ops, i, k) <==> exists j :: Via(ab, bc, i, j, k)
  }

  /** Both current spans have units of string b left: uses up the shorter one. The
      pending change is emitted where, and only where, no change runs across. */
  method Combine(e: Edits, abChanged: bool, bcChanged: bool,
                 aLength: int, abLength: int, bcLength: int, cLength: int, pendingA: int, pendingC: int,
                 ghost start: seq<EditsLog.Record>, ghost ops: seq<Span>, ghost k: Knit,
                 ghost ab: seq<Span>, ghost bc: seq<Span>, ghost p: int, ghost r: int)
    returns (aLength': int, abLength': int, bcLength': int, cLength': int, pendingA': int, pendingC': int,
             ghost ops': seq<Span>, ghost k': Knit)
    requires Adding(e, start, ops)
    requires Progress(ab, bc, p, r, aLength, abLength, bcLength, cLength, pendingA, pendingC, ops)
    requires Cutting(ab, bc, p, r, aLength, abLength, bcLength, cLength, ops, k)
    requires SumOld(ab) <= INT32_MAX && SumNew(bc) <= INT32_MAX
    requires abLength > 0 && bcLength > 0 && 0 < p <= |ab| && 0 < r <= |bc|
    requires abChanged == ab[p - 1].changed && bcChanged == bc[r - 1].changed
    modifies e
    ensures Adding(e, start, ops')
    ensures Progress(ab, bc, p, r, aLength', abLength', bcLength', cLength', pendingA', pendingC', ops')
    ensures Cutting(ab, bc, p, r, aLength', abLength', bcLength', cLength', ops', k')
    ensures abLength' >= 0 && bcLength' >= 0 && abLength' + bcLength' < abLength + bcLength
    ensures abLength' > 0 && bcLength' == 0 ==> abLength' < ab[p - 1].new'
  {
    hide Spans, SumOld, SumNew, Delta, Units, Progress, Appended, Put, Roomy, AllInRange, Stopped, Adding;
    hide Cutting, Arrived, Fresh, FreeOn, InsertionsFirst;
    aLength', abLength', bcLength', cLength' := aLength, abLength, bcLength, cLength;
    pendingA', pendingC', ops', k' := pendingA, pendingC, ops, k;
    ProgressBounds(ab, bc, p, r, aLength, abLength, bcLength, cLength, pendingA, pendingC, ops);
    HerePlace(ab, bc, p, r, aLength, abLength, bcLength, cLength, pendingA, pendingC, ops);
    if !abChanged && !bcChanged {
      if pendingA != 0 || pendingC != 0 {
        ArrivedHere(ab, bc, p, r, aLength, abLength, bcLength, cLength, ops, k);
        k' := Emit(e, pendingA, pendingC, start, ops, k, ab, bc, p, r, aLength, abLength, bcLength, cLength);
        pendingA', pendingC', ops' := 0, 0, Put(ops, pendingA, pendingC);
      }
      var unchangedLength := if aLength <= cLength then aLength else cLength;
      KeepBoth(ab, bc, p, r, abLength, bcLength, ops', unchangedLength);
      KeepCut(ab, bc, p, r, abLength, bcLength, ops', k', unchangedLength);
      EmitUnchanged(e, unchangedLength, start, ops');
      k' := Knit(k'.pieces + [Span(false, unchangedLength, unchangedLength)],
                 k'.cuts + [Here(ab, p, abLength - unchangedLength, r, bcLength - unchangedLength)]);
      ops' := ops' + [Span(false, unchangedLength, unchangedLength)];
      aLength' := aLength - unchangedLength;
      abLength' := aLength';
      cLength' := cLength - unchangedLength;
      bcLength' := cLength';
      return;
    }
    if !abChanged && bcChanged {
      if abLength >= bcLength {
        ArriveAt(ab, bc, p, r, aLength, abLength, bcLength, cLength, pendingA, pendingC, ops, k,
                 bcLength, bcLength, cLength, abLength - bcLength, cLength);
        k' := Emit(e, pendingA + bcLength, pendingC + cLength, start, ops, k, ab, bc, p, r,
                   abLength - bcLength, abLength - bcLength, 0, cLength);
        ops' := Put(ops, pendingA + bcLength, pendingC + cLength);
        pendingA', pendingC' := 0, 0;
        abLength' := abLength - bcLength;
        aLength' := abLength';
        bcLength' := 0;
        return;
      }
    } else if abChanged && !bcChanged {
      if abLength <= bcLength {
        ArriveAt(ab, bc, p, r, aLength, abLength, bcLength, cLength, pendingA, pendingC, ops, k,
                 abLength, aLength, abLength, aLength, bcLength - abLength);
        k' := Emit(e, pendingA + aLength, pendingC + abLength, start, ops, k, ab, bc, p, r,
                   aLength, 0, bcLength - abLength, bcLength - abLength);
        ops' := Put(ops, pendingA + aLength, pendingC + abLength);
        pendingA', pendingC' := 0, 0;
        bcLength' := bcLength - abLength;
        cLength' := bcLength';
        abLength' := 0;
        return;
      }
    } else {
      if abLength == bcLength {
        ArriveAt(ab, bc, p, r, aLength, abLength, bcLength, cLength, pendingA, pendingC, ops, k,
                 abLength, aLength, cLength, aLength, cLength);
        k' := Emit(e, pendingA + aLength, pendingC + cLength, start, ops, k, ab, bc, p, r, aLength, 0, 0, cLength);
        ops' := Put(ops, pendingA + aLength, pendingC + cLength);
        pendingA', pendingC' := 0, 0;
        abLength', bcLength' := 0, 0;
        return;
      }
    }
    pendingA' := pendingA + aLength;
    pendingC' := pendingC + cLength;
    if abLength < bcLength {
      ArriveAt(ab, bc, p, r, aLength, abLength, bcLength, cLength, pendingA, pendingC, ops, k,
               abLength, aLength, cLength, aLength, 0);
      NoCut(ab, bc, p, r, aLength, 0, bcLength - abLength, 0, ops, k);
      bcLength' := bcLength - abLength;
      cLength', abLength' := 0, 0;
    } else {
      ArriveAt(ab, bc, p, r, aLength, abLength, bcLength, cLength, pendingA, pendingC, ops, k,
               bcLength, aLength, cLength, 0, cLength);
      NoCut(ab, bc, p, r, 0, abLength - bcLength, 0, cLength, ops, k);
      abLength' := abLength - bcLength;
      aLength', bcLength' := 0, 0;
    }
  }

  /** Using up `n` units of string b that are changed on either side: where that
      leads, and whether a change runs across there. */
  lemma ArriveAt(ab: seq<Span>, bc: seq<Span>, p: int, r: int, aLength: int, abLength: int, bcLength: int, cLength: int,
                 pendingA: int, pendingC: int, ops: seq<Span>, k: Knit,
                 n: int, x: int, y: int, aLeft: int, cLeft: int)
    requires Progress(ab, bc, p, r, aLength, abLength, bcLength, cLength, pendingA, pendingC, ops)
    requires Cutting(ab, bc, p, r, aLength, abLength, bcLength, cLength, ops, k)
    requires 0 < n <= abLength && n <= bcLength && 0 < p <= |ab| && 0 < r <= |bc|
    requires (ab[p - 1].changed || bc[r - 1].changed) && 0 <= x <= aLength && 0 <= y <= cLength
    requires if n == abLength then x == aLength else aLeft == aLength - x && (!ab[p - 1].changed ==> x == n)
    requires if n == bcLength then y == cLength else cLeft == cLength - y && (!bc[r - 1].changed ==> y == n)
    ensures Progress(ab, bc, p, r, aLeft, abLength - n, bcLength - n, cLeft, pendingA + x, pendingC + y, ops)
    ensures var z := Here(ab, p, abLength - n, r, bcLength - n);
            && Arrived(ab, bc, z, ops, k) && InsertionsFirst(ab, bc, z)
            && (Free(ab, bc, z) <==> (n == abLength || !ab[p - 1].changed) && (n == bcLength || !bc[r - 1].changed))
    ensures Fresh(ab, false, p, abLength - n, aLeft) && Fresh(bc, true, r, bcLength - n, cLeft)
    ensures abLength <= ab[p - 1].new' && bcLength <= bc[r - 1].old'
  {
    SoundSides(ab, bc, p, r, aLength, abLength, bcLength, cLength, pendingA, pendingC, ops);
    hide SumOld, SumNew, Progress, Cutting, Arrived, Fresh, FreeOn, InsertionsFirst, Side;
    HerePlace(ab, bc, p, r, aLength, abLength, bcLength, cLength, pendingA, pendingC, ops);
    Pass(ab, bc, p, r, aLength, abLength, bcLength, cLength, pendingA, pendingC, ops, n, x, y, aLeft, cLeft);
    PassCut(ab, bc, p, r, aLength, abLength, bcLength, cLength, pendingA, pendingC, ops, k, n, aLeft, cLeft);
    HerePlace(ab, bc, p, r, aLeft, abLength - n, bcLength - n, cLeft, pendingA + x, pendingC + y, ops);
    PassedText(ab, bc, p, r, aLength, abLength, bcLength - n, cLength, n);
  }

  lemma SoundSides(ab: seq<Span>, bc: seq<Span>, p: int, r: int,
                   aLength: int, abLength: int, bcLength: int, cLength: int,
                   pendingA: int, pendingC: int, ops: seq<Span>)
    requires Progress(ab, bc, p, r, aLength, abLength, bcLength, cLength, pendingA, pendingC, ops)
    ensures Sound(ab) && Sound(bc) && Side(ab, false, p, abLength, aLength) && Side(bc, true, r, bcLength, cLength)
  {
    hide SumOld, SumNew, Merged, Sound, Side;
  }

  /** A fine iterator over the spans `s` has yielded `p` of them; `more` is
      false once it has found no further one. */
  ghost predicate Reading(it: Iterator, more: bool, s: seq<Span>, p: int)
    reads it
  {
    && it.Valid() && !it.coarse && !it.onlyChanges && s == Spans(it.rs, false) && 0 <= p <= |s|
    && if more then Forward(it) && At(it) == p - 1 && (p > 0 ==> it.changed == s[p - 1].changed)
       else p == |s| && it.dir == 0
  }

  method Fetch(it: Iterator, more: bool, ghost s: seq<Span>, ghost p: int) returns (found: bool)
    requires Reading(it, more, s, p)
    modifies it
    ensures Reading(it, found, s, if found then p + 1 else p)
    ensures found ==> p < |s| && s[p] == Span(it.changed, it.oldLength, it.newLength)
    ensures !found ==> p == |s|
  {
    hide Spans, Units, Off, OldUpTo, NewUpTo, ReplUpTo, Count, Group, OldLen, NewLen, SumOld, SumNew, SumRepl;
    found := more;
    if found {
      found := Advance(it, it.onlyChanges);
      if found {
        ghost var q := Shows(it);
      }
    }
  }

  lemma ReadingKind(it: Iterator, more: bool, s: seq<Span>, p: int)
    requires Reading(it, more, s, p)
    ensures 0 <= p <= |s| && (more && p > 0 ==> it.changed == s[p - 1].changed && it.oldLength == s[p - 1].old')
    ensures !more ==> p == |s| && it.oldLength == 0
  {
    hide Spans, Units, Off, OldUpTo, NewUpTo, ReplUpTo, Count, Group, OldLen, NewLen, SumOld, SumNew, SumRepl;
    if more && p > 0 {
      OnSpanAfter(it, p);
      var q := Shows(it);
    }
  }

  lemma OnSpanAfter(it: Iterator, p: int)
    requires it.Valid() && Forward(it) && At(it) == p - 1 && p > 0
    ensures it.OnSpan()
  {
    EmptyPrefix(it.rs, it.coarse);
  }

  /** Fetches the next span of the second log; an insertion is emitted or joins
      the pending change at once. */
  method TakeSecond(e: Edits, abLength: int, abChanged: bool, it: Iterator, more: bool,
                    pendingA: int, pendingC: int, cLength: int, ghost aLength: int,
                    ghost start: seq<EditsLog.Record>, ghost ops: seq<Span>, ghost k: Knit,
                    ghost ab: seq<Span>, ghost bc: seq<Span>, ghost p: int, ghost r: int)
    returns (found: bool, bcLength': int, cLength': int, pendingA': int, pendingC': int, again: bool,
             ghost ops': seq<Span>, ghost k': Knit)
    requires Adding(e, start, ops) && Reading(it, more, bc, r)
    requires Progress(ab, bc, p, r, aLength, abLength, 0, cLength, pendingA, pendingC, ops)
    requires Cutting(ab, bc, p, r, aLength, abLength, 0, cLength, ops, k)
    requires SumOld(ab) <= INT32_MAX && SumNew(bc) <= INT32_MAX && 0 <= p <= |ab| && abLength >= 0
    requires abLength > 0 ==> p > 0 && abChanged == ab[p - 1].changed && abLength < ab[p - 1].new'
    modifies e, it
    ensures Adding(e, start, ops') && Reading(it, found, bc, if found then r + 1 else r)
    ensures Progress(ab, bc, p, if found then r + 1 else r, aLength, abLength, bcLength', cLength',
                     pendingA', pendingC', ops')
    ensures Cutting(ab, bc, p, if found then r + 1 else r, aLength, abLength, bcLength', cLength', ops', k')
    ensures if found then r < |bc| && bcLength' >= 0 && (again <==> bcLength' == 0)
            else !again && bcLength' == 0 && r == |bc|
  {
    hide Spans, SumOld, SumNew, Delta, Units, Progress, Appended, Put, Roomy, AllInRange, Stopped, Reading, Adding;
    hide Cutting, Arrived, Fresh, FreeOn, InsertionsFirst;
    pendingA', pendingC', ops', again, bcLength', cLength' := pendingA, pendingC, ops, false, 0, cLength;
    k' := k;
    found := Fetch(it, more, bc, r);
    if found {
      HerePlace(ab, bc, p, r, aLength, abLength, 0, cLength, pendingA, pendingC, ops);
      FetchSecondCut(ab, bc, p, r, aLength, abLength, cLength, pendingA, pendingC, ops, k);
      FetchSecond(ab, bc, p, r, aLength, abLength, cLength, pendingA, pendingC, ops);
      ProgressBounds(ab, bc, p, r + 1, aLength, abLength, it.oldLength, it.newLength,
                     pendingA, pendingC + (if it.oldLength > 0 then 0 else it.newLength), ops);
      HerePlace(ab, bc, p, r + 1, aLength, abLength, it.oldLength, it.newLength,
                pendingA, pendingC + (if it.oldLength > 0 then 0 else it.newLength), ops);
      bcLength' := it.oldLength;
      cLength' := it.newLength;
      if bcLength' == 0 {
        if abLength == 0 || !abChanged {
          k' := Emit(e, pendingA, pendingC + cLength', start, ops, k, ab, bc, p, r + 1, aLength, abLength, 0, cLength');
          ops' := Put(ops, pendingA, pendingC + cLength');
          pendingA', pendingC' := 0, 0;
        } else {
          NoCut(ab, bc, p, r + 1, aLength, abLength, 0, cLength', ops, k);
          pendingC' := pendingC + cLength';
        }
        again := true;
      }
    }
  }

  /** Fetches the next span of the first log; a deletion is emitted or joins the
      pending change at once. */
  method TakeFirst(e: Edits, bcLength: int, second: Iterator, it: Iterator, more: bool,
                   pendingA: int, pendingC: int, aLength: int, ghost cLength: int,
                   ghost start: seq<EditsLog.Record>, ghost ops: seq<Span>, ghost k: Knit,
                   ghost ab: seq<Span>, ghost bc: seq<Span>, ghost p: int, ghost r: int)
    returns (found: bool, aLength': int, abLength': int, pendingA': int, pendingC': int, again: bool,
             ghost ops': seq<Span>, ghost k': Knit)
    requires Adding(e, start, ops) && Reading(it, more, ab, p) && it != second
    requires Progress(ab, bc, p, r, aLength, 0, bcLength, cLength, pendingA, pendingC, ops)
    requires Cutting(ab, bc, p, r, aLength, 0, bcLength, cLength, ops, k)
    requires SumOld(ab) <= INT32_MAX && SumNew(bc) <= INT32_MAX && 0 <= r <= |bc| && bcLength >= 0
    requires if bcLength > 0 then r > 0 && second.changed == bc[r - 1].changed && second.oldLength == bc[r - 1].old'
             else r == |bc| && second.oldLength == 0
    modifies e, it
    ensures Adding(e, start, ops') && Reading(it, found, ab, if found then p + 1 else p)
    ensures Progress(ab, bc, if found then p + 1 else p, r, aLength', abLength', bcLength, cLength,
                     pendingA', pendingC', ops')
    ensures Cutting(ab, bc, if found then p + 1 else p, r, aLength', abLength', bcLength, cLength, ops', k')
    ensures if found then p < |ab| && abLength' >= 0 && (again <==> abLength' == 0)
            else !again && abLength' == 0 && p == |ab|
  {
    hide Spans, SumOld, SumNew, Delta, Units, Progress, Appended, Put, Roomy, AllInRange, Stopped, Reading, Adding;
    hide Cutting, Arrived, Fresh, FreeOn, InsertionsFirst;
    pendingA', pendingC', ops', again, aLength', abLength' := pendingA, pendingC, ops, false, aLength, 0;
    k' := k;
    found := Fetch(it, more, ab, p);
    if found {
      HerePlace(ab, bc, p, r, aLength, 0, bcLength, cLength, pendingA, pendingC, ops);
      FetchFirstCut(ab, bc, p, r, aLength, bcLength, cLength, pendingA, pendingC, ops, k);
      FetchFirst(ab, bc, p, r, aLength, bcLength, cLength, pendingA, pendingC, ops);
      ProgressBounds(ab, bc, p + 1, r, it.oldLength, it.newLength, bcLength, cLength,
                     pendingA + (if it.newLength > 0 then 0 else it.oldLength), pendingC, ops);
      HerePlace(ab, bc, p + 1, r, it.oldLength, it.newLength, bcLength, cLength,
                pendingA + (if it.newLength > 0 then 0 else it.oldLength), pendingC, ops);
      aLength' := it.oldLength;
      abLength' := it.newLength;
      if abLength' == 0 {
        if bcLength == second.oldLength || !second.changed {
          k' := Emit(e, pendingA + aLength', pendingC, start, ops, k, ab, bc, p + 1, r, aLength', 0, bcLength, cLength);
          ops' := Put(ops, pendingA + aLength', pendingC);
          pendingA', pendingC' := 0, 0;
        } else {
          NoCut(ab, bc, p + 1, r, aLength', 0, bcLength, cLength, ops, k);
          pendingA' := pendingA + aLength';
        }
        again := true;
      }
    }
  }

  /** The edits are cut at the free places of string b: up to its end if the logs
      agree on it, otherwise up to where one of them ends. */
  ghost predicate CutThrough(x: seq<Span>, y: seq<Span>, ops: seq<Span>, k: Knit) {
    && CutBy(x, y, k) && ops == Solid(k.pieces)
    && if SumNew(x) == SumOld(y) then k.Last() == Cut(|x|, SumNew(x), |y|)
       else exists stop :: StopsAt(x, y, k, stop)
  }

  ghost predicate StopsAt(x: seq<Span>, y: seq<Span>, k: Knit, stop: Cut) {
    && IsPlace(x, y, stop) && Leq(k.Last(), stop) && NoneAfter(x, y, k.Last(), stop)
    && if SumNew(x) < SumOld(y) then stop.p == |x| && stop.j == SumNew(x) && stop.r < |y| && y[stop.r].old' > 0
       else stop.r == |y| && stop.j == SumOld(y) && stop.p < |x| && x[stop.p].new' > 0
  }

  /** What a merge of `x` and `y` into a log with the records `start` leaves: the
      edits `ops`, all of them unless their lengths overflow, and the error. */
  ghost predicate MergeResult(start: seq<EditsLog.Record>, after: seq<EditsLog.Record>, ops: seq<Span>, k: Knit,
                              x: seq<Span>, y: seq<Span>, logError: Error, error: Error)
    requires AllValid(start) && AllValid(after)
  {
    && Sound(ops) && Composed(ops, x, y) && CutThrough(x, y, ops, k)
    && (SumNew(x) == SumOld(y) ==> SumOld(ops) == SumOld(x) && SumNew(ops) == SumNew(y))
    && (logError == NoError <==> AllInRange(start, ops))
    && (if logError == NoError then
          && Appended(start, after, ops)
          && error == if SumNew(x) == SumOld(y) then NoError else IllegalArgument
        else
          Stopped(start, after, ops) && error == logError == IndexOutOfBounds)
    && (Roomy(start, x, y) ==> logError == NoError)
  }

  lemma Resulting(e: Edits, start: seq<EditsLog.Record>, ops: seq<Span>, k: Knit,
                  x: seq<Span>, y: seq<Span>, error: Error)
    requires Adding(e, start, ops) && Sound(ops) && Composed(ops, x, y) && CutThrough(x, y, ops, k)
    requires SumNew(x) == SumOld(y) ==> SumOld(ops) == SumOld(x) && SumNew(ops) == SumNew(y)
    requires SumOld(ops) <= SumOld(x) && SumNew(ops) <= SumNew(y)
    requires error == if e.error != NoError then e.error
                      else if SumNew(x) == SumOld(y) then NoError else IllegalArgument
    ensures e.Valid() && MergeResult(start, e.records, ops, k, x, y, e.error, error)
  {
    hide CutThrough;
    if Roomy(start, x, y) {
      RoomyInRange(start, ops, x, y);
    }
    hide Sound, Composed, SumOld, SumNew, AllInRange, Appended, Stopped, Roomy;
  }

  /** Where there is room for all of the two texts no part of the edits overflows. */
  lemma RoomyInRange(start: seq<EditsLog.Record>, ops: seq<Span>, x: seq<Span>, y: seq<Span>)
    requires Sound(ops) && SumOld(ops) <= SumOld(x) && SumNew(ops) <= SumNew(y) && Roomy(start, x, y)
    ensures AllInRange(start, ops)
  {
    hide SumOld, SumNew, Delta;
    assert ops[..|ops|] == ops;
    forall n | 0 <= n <= |ops| ensures InRange(start, ops, n) {
      SumGrows(ops, true, n, |ops|);
      SumGrows(ops, false, n, |ops|);
      SumGrows(ops, true, 0, n);
      SumGrows(ops, false, 0, n);
      NoSum(ops);
    }
  }

  lemma NoSum(ops: seq<Span>)
    ensures Sum(ops[..0], true) == 0 && Sum(ops[..0], false) == 0
  {}

  /** One log is used up before the other. */
  lemma Mismatch(e: Edits, start: seq<EditsLog.Record>, x: seq<Span>, y: seq<Span>, p: int, r: int,
                 aLength: int, abLength: int, bcLength: int, cLength: int,
                 pendingA: int, pendingC: int, ops: seq<Span>, k: Knit)
    requires Adding(e, start, ops)
    requires Progress(x, y, p, r, aLength, abLength, bcLength, cLength, pendingA, pendingC, ops)
    requires Cutting(x, y, p, r, aLength, abLength, bcLength, cLength, ops, k)
    requires (p == |x| && abLength == 0 && bcLength > 0) || (r == |y| && bcLength == 0 && abLength > 0)
    ensures e.Valid()
    ensures MergeResult(start, e.records, ops, k, x, y, e.error,
                        if e.error != NoError then e.error else IllegalArgument)
  {
    hide Sound, Composed, SumOld, SumNew, AllInRange, Appended, Stopped, Roomy, Progress, Merged, MergeResult;
    hide Cutting, CutThrough;
    StopsHere(x, y, p, r, aLength, abLength, bcLength, cLength, pendingA, pendingC, ops, k);
    ProgressBounds(x, y, p, r, aLength, abLength, bcLength, cLength, pendingA, pendingC, ops);
    MergedAll(ops, x, y, if abLength == 0 then SumNew(x) else SumOld(y));
    Resulting(e, start, ops, k, x, y, if e.error != NoError then e.error else IllegalArgument);
  }

  lemma StopsHere(x: seq<Span>, y: seq<Span>, p: int, r: int, aLength: int, abLength: int, bcLength: int, cLength: int,
                  pendingA: int, pendingC: int, ops: seq<Span>, k: Knit)
    requires Progress(x, y, p, r, aLength, abLength, bcLength, cLength, pendingA, pendingC, ops)
    requires Cutting(x, y, p, r, aLength, abLength, bcLength, cLength, ops, k)
    requires (p == |x| && abLength == 0 && bcLength > 0) || (r == |y| && bcLength == 0 && abLength > 0)
    ensures CutThrough(x, y, ops, k)
  {
    ProgressBounds(x, y, p, r, aLength, abLength, bcLength, cLength, pendingA, pendingC, ops);
    HerePlace(x, y, p, r, aLength, abLength, bcLength, cLength, pendingA, pendingC, ops);
    hide SumOld, SumNew, Merged, CutBy, NoneAfter, Place, Sound, Side;
    assert x[..|x|] == x && y[..|y|] == y;
    assert StopsAt(x, y, k, Here(x, p, abLength, r, bcLength));
  }

  lemma EndsHere(x: seq<Span>, y: seq<Span>, aLength: int, cLength: int, pendingA: int, pendingC: int,
                 ops: seq<Span>, k: Knit)
    requires Progress(x, y, |x|, |y|, aLength, 0, 0, cLength, pendingA, pendingC, ops)
    requires Cutting(x, y, |x|, |y|, aLength, 0, 0, cLength, ops, k)
    ensures CutThrough(x, y, ops, k) && Free(x, y, Here(x, |x|, 0, |y|, 0))
    ensures k.Last() == Here(x, |x|, 0, |y|, 0)
  {
    HerePlace(x, y, |x|, |y|, aLength, 0, 0, cLength, pendingA, pendingC, ops);
    ArrivedHere(x, y, |x|, |y|, aLength, 0, 0, cLength, ops, k);
    hide SumOld, SumNew, Merged, CutBy, NoneAfter, Place, Sound, Side;
    assert x[..|x|] == x && y[..|y|] == y;
  }

  /** Both logs are used up at the same time: emits what is pending. */
  method Finish(e: Edits, pendingA: int, pendingC: int, ghost start: seq<EditsLog.Record>, ghost ops: seq<Span>,
                ghost k: Knit, ghost x: seq<Span>, ghost y: seq<Span>, ghost aLength: int, ghost cLength: int)
    returns (error: Error, ghost ops': seq<Span>, ghost k': Knit)
    requires Adding(e, start, ops)
    requires Progress(x, y, |x|, |y|, aLength, 0, 0, cLength, pendingA, pendingC, ops)
    requires Cutting(x, y, |x|, |y|, aLength, 0, 0, cLength, ops, k)
    requires SumOld(x) <= INT32_MAX && SumNew(y) <= INT32_MAX
    modifies e
    ensures e.Valid() && MergeResult(start, e.records, ops', k', x, y, e.error, error)
  {
    hide Sound, Composed, SumOld, SumNew, AllInRange, Appended, Stopped, Roomy, Progress, Merged, Put, MergeResult;
    hide Cutting, Arrived, Fresh, Free, InsertionsFirst, CutThrough;
    ops', k' := ops, k;
    EndsHere(x, y, aLength, cLength, pendingA, pendingC, ops, k);
    ArrivedHere(x, y, |x|, |y|, aLength, 0, 0, cLength, ops, k);
    if pendingA != 0 || pendingC != 0 {
      k' := Emit(e, pendingA, pendingC, start, ops, k, x, y, |x|, |y|, aLength, 0, 0, cLength);
      ops' := Put(ops, pendingA, pendingC);
    }
    ProgressBounds(x, y, |x|, |y|, aLength, 0, 0, cLength, 0, 0, ops');
    MergedAll(ops', x, y, SumNew(x));
    EndsHere(x, y, aLength, cLength, 0, 0, ops', k');
    error := e.error;
    Resulting(e, start, ops', k', x, y, error);
  }

  /** Iterates over both logs in parallel. */
  method MergeSpans(e: Edits, abIter: Iterator, bcIter: Iterator,
                    ghost start: seq<EditsLog.Record>, ghost first: seq<Span>, ghost second: seq<Span>)
    returns (error: Error, ghost ops: seq<Span>, ghost k: Knit)
    requires Adding(e, start, []) && abIter != bcIter
    requires Reading(abIter, true, first, 0) && Reading(bcIter, true, second, 0)
    requires Progress(first, second, 0, 0, 0, 0, 0, 0, 0, 0, [])
    requires SumOld(first) <= INT32_MAX && SumNew(second) <= INT32_MAX
    modifies e, abIter, bcIter
    ensures e.Valid() && MergeResult(start, e.records, ops, k, first, second, e.error, error)
  {
    hide SumOld, SumNew, Progress, Reading, Adding, MergeResult, Edits.Valid, Cutting;
    ops, k := [], Knit([], [Cut(0, 0, 0)]);
    CuttingStart(first, second);
    var abHasNext, bcHasNext := true, true;
    var aLength, abLength, bcLength, cLength := 0, 0, 0, 0;
    var pendingA, pendingC := 0, 0;
    ghost var p, r := 0, 0;
    while true
      invariant Progress(first, second, p, r, aLength, abLength, bcLength, cLength, pendingA, pendingC, ops)
      invariant Cutting(first, second, p, r, aLength, abLength, bcLength, cLength, ops, k)
      invariant Adding(e, start, ops)
      invariant Reading(abIter, abHasNext, first, p) && Reading(bcIter, bcHasNext, second, r)
      invariant 0 <= p <= |first| && 0 <= r <= |second| && abLength >= 0 && bcLength >= 0
      invariant (abLength > 0 ==> abHasNext && p > 0) && (bcLength > 0 ==> bcHasNext && r > 0)
      invariant abLength > 0 && bcLength == 0 ==> abLength < first[p - 1].new'
      decreases |first| - p + |second| - r, abLength + bcLength
    {
      var again;
      ReadingKind(abIter, abHasNext, first, p);
      if bcLength == 0 {
        bcHasNext, bcLength, cLength, pendingA, pendingC, again, ops, k :=
          TakeSecond(e, abLength, abIter.changed, bcIter, bcHasNext, pendingA, pendingC, cLength, aLength,
                     start, ops, k, first, second, p, r);
        r := if bcHasNext then r + 1 else r;
        if again {
          continue;
        }
      }
      if abLength == 0 {
        ReadingKind(bcIter, bcHasNext, second, r);
        abHasNext, aLength, abLength, pendingA, pendingC, again, ops, k :=
          TakeFirst(e, bcLength, bcIter, abIter, abHasNext, pendingA, pendingC, aLength, cLength,
                    start, ops, k, first, second, p, r);
        p := if abHasNext then p + 1 else p;
        if again {
          continue;
        }
        if !abHasNext {
          if bcLength == 0 {
            break;
          }
          Mismatch(e, start, first, second, p, r, aLength, abLength, bcLength, cLength, pendingA, pendingC, ops, k);
          return if e.error != NoError then e.error else IllegalArgument, ops, k;
        }
      }
      if bcLength == 0 {
        Mismatch(e, start, first, second, p, r, aLength, abLength, bcLength, cLength, pendingA, pendingC, ops, k);
        return if e.error != NoError then e.error else IllegalArgument, ops, k;
      }
      ReadingKind(abIter, abHasNext, first, p);
      ReadingKind(bcIter, bcHasNext, second, r);
      aLength, abLength, bcLength, cLength, pendingA, pendingC, ops, k :=
        Combine(e, abIter.changed, bcIter.changed, aLength, abLength, bcLength, cLength, pendingA, pendingC,
                start, ops, k, first, second, p, r);
    }
    error, ops, k := Finish(e, pendingA, pendingC, start, ops, k, first, second, aLength, cLength);
  }

  /** Appends to `e` the edits from string a to string c, given those from a to
      b and from b to c. Fails if the two logs disagree on the length of b. */
  method MergeAndAppend(e: Edits, ab: Edits, bc: Edits) returns (error: Error, ghost ops: seq<Span>, ghost k: Knit)
    requires e.Valid() && ab.Valid() && bc.Valid() && e != ab && e != bc
    requires SumOld(Spans(ab.records, false)) <= INT32_MAX && SumNew(Spans(bc.records, false)) <= INT32_MAX
    modifies e
    ensures e.Valid()
    ensures old(e.error) != NoError ==> error == old(e.error) && e.records == old(e.records) && e.error == old(e.error)
    ensures old(e.error) == NoError ==>
              MergeResult(old(e.records), e.records, ops, k, Spans(ab.records, false), Spans(bc.records, false),
                          e.error, error)
  {
    hide Spans, SumOld, SumNew, Progress, Sound, MergeResult, Reading, Adding, Edits.Valid, AllValid;
    RecordsValid(ab);
    RecordsValid(bc);
    ops, k := [], Knit([], []);
    if e.error != NoError {
      return e.error, ops, k;
    }
    ghost var start, first, second := e.records, Spans(ab.records, false), Spans(bc.records, false);
    StartAdding(e);
    SpansSound(ab.records, false);
    SpansSound(bc.records, false);
    ProgressStart(first, second);
    var abIter := FineIterator(ab);
    var bcIter := FineIterator(bc);
    error, ops, k := MergeSpans(e, abIter, bcIter, start, first, second);
  }

  lemma RecordsValid(e: Edits)
    requires e.Valid()
    ensures AllValid(e.records)
  {}

  lemma StartAdding(e: Edits)
    requires e.Valid() && e.error == NoError
    ensures Adding(e, e.records, [])
  {
    AppendedNothing(e.records);
    hide Spans, Units, Appended, AllInRange, Delta;
  }

  method FineIterator(e: Edits) returns (it: Iterator)
    requires e.Valid()
    ensures fresh(it) && Reading(it, true, Spans(e.records, false), 0)
  {
    it := new Iterator(e, false, false);
  }

  // ----- what the merged log says about the texts

  /** The edits turn text `x` into text `y`: they cover both, and what they call
      unchanged is the same in both. */
  ghost predicate Describes<T>(s: seq<Span>, x: seq<T>, y: seq<T>) {
    && SumOld(s) == |x| && SumNew(s) == |y|
    && forall i, j :: 0 <= i < |x| && 0 <= j < |y| && Aligned(s, i, j) ==> x[i] == y[j]
  }

  lemma AlignedWithin(s: seq<Span>, i: int, j: int)
    requires Sound(s) && Aligned(s, i, j)
    ensures 0 <= i < SumOld(s) && 0 <= j < SumNew(s)
  {
    hide SumOld, SumNew;
    var q :| AlignedBy(s, q, i, j);
    CoverWithin(s, true, q, i);
    CoverWithin(s, false, q, j);
  }

  lemma CoverWithin(s: seq<Span>, source: bool, q: int, i: int)
    requires Sound(s) && Covers(s, source, q, i)
    ensures 0 <= i < Sum(s, source)
  {
    assert s[..|s|] == s && s[..0] == [];
    SumGrows(s, source, 0, q);
    SumStep(s, source, q);
    SumGrows(s, source, q + 1, |s|);
  }

  lemma SumJoin(s: seq<Span>, d: Span, e: Span, i: int, j: int)
    ensures Aligned(s + [d] + [e], i, j) <==>
            Aligned(s, i, j) || AlignedBy(s + [d], |s|, i, j) || AlignedBy(s + [d] + [e], |s| + 1, i, j)
    ensures SumOld(s + [d]) == SumOld(s) + d.old' && SumNew(s + [d]) == SumNew(s) + d.new'
  {
    AlignedAppend(s, d, i, j);
    AlignedAppend(s + [d], e, i, j);
    SumsAppend(s, d);
  }

  /** Fusing spans does not change what is aligned. */
  lemma AddSpanAligned(s: seq<Span>, e: Span, coarse: bool, i: int, j: int)
    requires Sound(s) && Sound([e])
    ensures Aligned(AddSpan(s, e, coarse), i, j) <==> Aligned(s + [e], i, j)
  {
    hide SumOld, SumNew, Aligned, AlignedBy;
    assert [e][0] == e;
    if s != [] && s[|s| - 1].changed == e.changed && (coarse || !e.changed) {
      var t, d := s[..|s| - 1], s[|s| - 1];
      var f := Span(e.changed, d.old' + e.old', d.new' + e.new');
      assert s == t + [d];
      SumJoin(t, d, e, i, j);
      LastAligned(t, d, i, j);
      LastAligned(t + [d], e, i, j);
      AlignedAppend(t, f, i, j);
      LastAligned(t, f, i, j);
    }
  }

  /** Fused or not, added edits align what the edits before and they align. */
  lemma {:induction false} AddAllAligned(s: seq<Span>, ops: seq<Span>, coarse: bool, i: int, j: int)
    requires Sound(s) && Sound(ops)
    ensures Aligned(AddAll(s, ops, coarse), i, j) <==>
            Aligned(s, i, j) || Aligned(ops, i - SumOld(s), j - SumNew(s))
    ensures Sound(AddAll(s, ops, coarse))
    ensures SumOld(AddAll(s, ops, coarse)) == SumOld(s) + SumOld(ops)
    ensures SumNew(AddAll(s, ops, coarse)) == SumNew(s) + SumNew(ops)
    decreases |ops|
  {
    hide Aligned, AlignedBy, AddSpan, AddAll, Sound, SumOld, SumNew;
    if ops == [] {
      NothingAdded(s, coarse);
      NothingAligned(i - SumOld(s), j - SumNew(s));
    } else {
      var t, e := ops[..|ops| - 1], ops[|ops| - 1];
      AddedLast(s, ops, coarse);
      AddAllAligned(s, t, coarse, i, j);
      var r := AddAll(s, t, coarse);
      AddSpanAligned(r, e, coarse, i, j);
      AddSpanSound(r, e, coarse);
      SumsAddSpan(r, e, coarse);
      assert ops == t + [e];
      SumsAppend(t, e);
      AlignedAppend(t, e, i - SumOld(s), j - SumNew(s));
      AlignedAppend(r, e, i, j);
      LastAligned(t, e, i - SumOld(s), j - SumNew(s));
      LastAligned(r, e, i, j);
    }
  }

  lemma NothingAdded(s: seq<Span>, coarse: bool)
    ensures AddAll(s, [], coarse) == s && SumOld([]) == 0 == SumNew([])
  {}

  lemma AddedLast(s: seq<Span>, ops: seq<Span>, coarse: bool)
    requires Sound(ops) && ops != []
    ensures var t, e := ops[..|ops| - 1], ops[|ops| - 1];
            Sound(t) && Sound([e]) && AddAll(s, ops, coarse) == AddSpan(AddAll(s, t, coarse), e, coarse)
  {
    hide AddSpan;
  }

  lemma NothingAligned(i: int, j: int)
    ensures !Aligned([], i, j)
  {}

  /** If the receiving log described x to y, and the two logs validly describe a
      to b and b to c, then after the merge it describes x + a to y + c, in both
      views. */
  lemma MergedDescribes<T>(start: seq<EditsLog.Record>, rs: seq<EditsLog.Record>, ops: seq<Span>,
                           ab: seq<Span>, bc: seq<Span>, coarse: bool,
                           x: seq<T>, y: seq<T>, a: seq<T>, b: seq<T>, c: seq<T>)
    requires AllValid(start) && AllValid(rs) && Appended(start, rs, ops) && Sound(ops) && Sound(ab) && Sound(bc)
    requires SumOld(ops) == SumOld(ab) && SumNew(ops) == SumNew(bc) && Composed(ops, ab, bc)
    requires Describes(Spans(start, coarse), x, y) && Describes(ab, a, b) && Describes(bc, b, c)
    ensures Describes(Spans(rs, coarse), x + a, y + c)
  {
    hide SumOld, SumNew, Aligned, AddAll, Composed, Sound, Via;
    var s, t := Spans(rs, coarse), Spans(start, coarse);
    SpansSound(start, coarse);
    assert s == AddAll(t, ops, coarse);
    AddAllAligned(t, ops, coarse, 0, 0);
    assert SumOld(s) == |x + a| && SumNew(s) == |y + c|;
    forall i, k | 0 <= i < |x + a| && 0 <= k < |y + c| && Aligned(s, i, k) ensures (x + a)[i] == (y + c)[k] {
      JoinedText(t, ops, ab, bc, coarse, x, y, a, b, c, i, k);
    }
  }

  lemma JoinedText<T>(t: seq<Span>, ops: seq<Span>, ab: seq<Span>, bc: seq<Span>, coarse: bool,
                      x: seq<T>, y: seq<T>, a: seq<T>, b: seq<T>, c: seq<T>, i: int, k: int)
    requires Sound(t) && Sound(ops) && Sound(ab) && Sound(bc) && Composed(ops, ab, bc)
    requires Describes(t, x, y) && Describes(ab, a, b) && Describes(bc, b, c)
    requires 0 <= i < |x + a| && 0 <= k < |y + c| && Aligned(AddAll(t, ops, coarse), i, k)
    ensures (x + a)[i] == (y + c)[k]
  {
    AddAllAligned(t, ops, coarse, i, k);
    assert SumOld(t) == |x| && SumNew(t) == |y|;
    hide SumOld, SumNew, Aligned, AddAll, Composed, Sound;
    if Aligned(t, i, k) {
      AlignedText(t, x, y, i, k);
    } else {
      hide Describes;
      ComposedText(ops, ab, bc, a, b, c, i - |x|, k - |y|);
    }
  }

  lemma AlignedText<T>(t: seq<Span>, x: seq<T>, y: seq<T>, i: int, k: int)
    requires Sound(t) && Describes(t, x, y) && Aligned(t, i, k)
    ensures 0 <= i < |x| && 0 <= k < |y| && x[i] == y[k]
  {
    hide Aligned, SumOld, SumNew, Sound;
    AlignedWithin(t, i, k);
  }

  lemma ComposedText<T>(ops: seq<Span>, ab: seq<Span>, bc: seq<Span>, a: seq<T>, b: seq<T>, c: seq<T>, i: int, k: int)
    requires Sound(ab) && Sound(bc) && Composed(ops, ab, bc) && Describes(ab, a, b) && Describes(bc, b, c)
    requires Aligned(ops, i, k)
    ensures 0 <= i < |a| && 0 <= k < |c| && a[i] == c[k]
  {
    hide Aligned, SumOld, SumNew, Sound;
    var j :| Via(ab, bc, i, j, k);
    AlignedText(ab, a, b, i, j);
    AlignedText(bc, b, c, j, k);
  }
}
