/** Where a merge of two edit logs, a to b and b to c, may end one edit and begin the
    next: at the places of string b that no change of either log runs across. */
module EditsCuts {
  import opened EditsLog
  import opened EditsView
  import opened EditsSearch

  /** The index in string b before span `p` of a log; `mid` says which side of its
      spans b is. */
  ghost function Pre(s: seq<Span>, mid: bool, p: int): int
    requires 0 <= p <= |s|
  {
    Sum(s[..p], mid)
  }

  lemma PreGrows(s: seq<Span>, mid: bool, p: int, q: int)
    requires Sound(s) && 0 <= p <= q <= |s|
    ensures Pre(s, mid, p) <= Pre(s, mid, q)
  {
    SumGrows(s, mid, p, q);
  }

  lemma PreStep(s: seq<Span>, mid: bool, p: int)
    requires 0 <= p < |s|
    ensures Pre(s, mid, p + 1) == Pre(s, mid, p) + Len(s[p], mid)
  {
    SumStep(s, mid, p);
  }

  /** Index `j` of b, with the first `p` spans done: it is where they end, or strictly
      inside the next one. */
  ghost predicate Place(s: seq<Span>, mid: bool, p: int, j: int) {
    0 <= p <= |s| && (j == Pre(s, mid, p) || (p < |s| && Pre(s, mid, p) < j < Pre(s, mid, p + 1)))
  }

  /** No change runs across the place. */
  ghost predicate FreeOn(s: seq<Span>, mid: bool, p: int, j: int) {
    Place(s, mid, p, j) && (j == Pre(s, mid, p) || !s[p].changed)
  }

  /** The index of the other string at a free place. */
  ghost function Opposite(s: seq<Span>, mid: bool, p: int, j: int): int
    requires 0 <= p <= |s|
  {
    Pre(s, !mid, p) + (j - Pre(s, mid, p))
  }

  /** A place in both logs: `p` spans of the first and `r` of the second are done, and
      string b up to `j`. */
  datatype Cut = Cut(p: int, j: int, r: int)

  predicate Leq(x: Cut, y: Cut) {
    x.p <= y.p && x.j <= y.j && x.r <= y.r
  }

  ghost predicate IsPlace(ab: seq<Span>, bc: seq<Span>, x: Cut) {
    Place(ab, false, x.p, x.j) && Place(bc, true, x.r, x.j)
  }

  /** Neither log has a change that runs across the cut. */
  ghost predicate Free(ab: seq<Span>, bc: seq<Span>, x: Cut) {
    FreeOn(ab, false, x.p, x.j) && FreeOn(bc, true, x.r, x.j)
  }

  /** Insertions into b come before deletions from it: right after a deletion no
      insertion at the same place is still to come. */
  ghost predicate InsertionsFirst(ab: seq<Span>, bc: seq<Span>, x: Cut) {
    x.p > 0 && x.p <= |ab| && ab[x.p - 1].new' == 0 && x.j == Pre(ab, false, x.p) ==>
      0 <= x.r < |bc| && x.j == Pre(bc, true, x.r) ==> bc[x.r].old' > 0
  }

  /** The edits of a merge, with changes of nothing into nothing, and the cuts
      before, between and after them. */
  datatype Knit = Knit(pieces: seq<Span>, cuts: seq<Cut>) {
    function Last(): Cut {
      if cuts == [] then Cut(0, 0, 0) else cuts[|cuts| - 1]
    }
  }

  /** There is no free place strictly between the cuts. */
  ghost predicate NoneBetween(ab: seq<Span>, bc: seq<Span>, x: Cut, y: Cut) {
    forall z :: Free(ab, bc, z) && Leq(x, z) && Leq(z, y) ==> z == x || z == y
  }

  /** The edit leads from one cut to the other: it covers the text of a and of c
      between them. Text passes unchanged within one unchanged span of both logs; a
      change passes no free place. */
  ghost predicate Piece(ab: seq<Span>, bc: seq<Span>, x: Cut, y: Cut, e: Span) {
    && Free(ab, bc, x) && Free(ab, bc, y) && Leq(x, y)
    && e.old' == Opposite(ab, false, y.p, y.j) - Opposite(ab, false, x.p, x.j)
    && e.new' == Opposite(bc, true, y.r, y.j) - Opposite(bc, true, x.r, x.j)
    && if e.changed then NoneBetween(ab, bc, x, y)
       else Within(ab, false, x.p, x.j, y.j) && Within(bc, true, x.r, x.j, y.j)
  }

  ghost predicate Within(s: seq<Span>, mid: bool, p: int, j: int, k: int) {
    0 <= p < |s| && !s[p].changed && Pre(s, mid, p) <= j < k <= Pre(s, mid, p + 1)
  }

  ghost predicate CutBy(ab: seq<Span>, bc: seq<Span>, k: Knit) {
    && |k.cuts| == |k.pieces| + 1 && k.cuts[0] == Cut(0, 0, 0)
    && (forall q :: 0 <= q < |k.cuts| ==> Free(ab, bc, k.cuts[q]) && InsertionsFirst(ab, bc, k.cuts[q]))
    && (forall q :: 0 <= q < |k.pieces| ==> PieceAt(ab, bc, k, q))
  }

  ghost predicate PieceAt(ab: seq<Span>, bc: seq<Span>, k: Knit, q: int)
    requires |k.cuts| == |k.pieces| + 1 && 0 <= q < |k.pieces|
  {
    Piece(ab, bc, k.cuts[q], k.cuts[q + 1], k.pieces[q])
  }

  /** Changes of nothing into nothing are not recorded. */
  ghost function Solid(pieces: seq<Span>): seq<Span> {
    if pieces == [] then []
    else
      var e := pieces[|pieces| - 1];
      Solid(pieces[..|pieces| - 1]) + if e.changed && e.old' == 0 && e.new' == 0 then [] else [e]
  }

  lemma SolidAppend(pieces: seq<Span>, e: Span)
    ensures Solid(pieces + [e]) == Solid(pieces) + if e.changed && e.old' == 0 && e.new' == 0 then [] else [e]
  {
    assert (pieces + [e])[..|pieces|] == pieces;
  }

  lemma {:induction false} SolidSums(pieces: seq<Span>)
    ensures SumOld(Solid(pieces)) == SumOld(pieces) && SumNew(Solid(pieces)) == SumNew(pieces)
    decreases |pieces|
  {
    if pieces != [] {
      var t, e := pieces[..|pieces| - 1], pieces[|pieces| - 1];
      SolidSums(t);
      SumsAppend(Solid(t), e);
      assert Solid(t) + [] == Solid(t);
    }
  }

  /** The edits cover the texts up to the last cut. */
  lemma {:induction false} CutSums(ab: seq<Span>, bc: seq<Span>, k: Knit)
    requires CutBy(ab, bc, k)
    ensures 0 <= k.Last().p <= |ab| && 0 <= k.Last().r <= |bc|
    ensures SumOld(k.pieces) == Opposite(ab, false, k.Last().p, k.Last().j)
    ensures SumNew(k.pieces) == Opposite(bc, true, k.Last().r, k.Last().j)
    decreases |k.pieces|
  {
    var n := |k.pieces|;
    assert Free(ab, bc, k.cuts[n]);
    if n == 0 {
      assert ab[..0] == [] && bc[..0] == [];
    } else {
      hide Free, InsertionsFirst, NoneBetween, Opposite;
      var t := Knit(k.pieces[..n - 1], k.cuts[..n]);
      assert PieceAt(ab, bc, k, n - 1);
      forall q | 0 <= q < n - 1 ensures PieceAt(ab, bc, t, q) {
        assert PieceAt(ab, bc, k, q);
      }
      CutSums(ab, bc, t);
    }
  }

  // ----- one side of a step

  lemma LowerPlace(s: seq<Span>, mid: bool, p: int, j: int, xp: int, xj: int)
    requires Sound(s) && Place(s, mid, p, j) && Place(s, mid, xp, xj) && xj < j
    ensures xp <= p
  {
    hide Pre, Sound;
    if p < |s| { PreGrows(s, mid, p, p + 1); }
    if xp > p { PreGrows(s, mid, p + 1, xp); }
  }

  /** Where a span has text left no later span has begun. */
  lemma SamePlace(s: seq<Span>, mid: bool, p: int, j: int, xp: int)
    requires Sound(s) && Place(s, mid, p, j) && Place(s, mid, xp, j) && p < |s| && j < Pre(s, mid, p + 1)
    ensures xp <= p
  {
    hide Pre, Sound;
    if xp > p { PreGrows(s, mid, p + 1, xp); }
  }

  /** A place reached over text of b is the only one there up to it. */
  lemma OnlyPlace(s: seq<Span>, mid: bool, p: int, j: int, xp: int)
    requires Sound(s) && Place(s, mid, p, j) && Place(s, mid, xp, j) && xp <= p
    requires Pre(s, mid, p) < j || (p > 0 && Pre(s, mid, p - 1) < j)
    ensures xp == p
  {
    hide Pre, Sound;
    if xp < p {
      PreGrows(s, mid, xp, p - 1);
      PreGrows(s, mid, xp + 1, p);
      PreGrows(s, mid, p - 1, p);
      if xp + 1 <= p - 1 { PreGrows(s, mid, xp + 1, p - 1); }
    }
  }

  /** The spans of one log at a place, and after `n` more units of b. */
  ghost predicate Ahead(s: seq<Span>, mid: bool, p: int, j: int, p': int, n: int) {
    && Place(s, mid, p, j) && p < |s| && 0 < n && j + n <= Pre(s, mid, p + 1)
    && p' == if j + n == Pre(s, mid, p + 1) then p + 1 else p
  }

  lemma AheadPlace(s: seq<Span>, mid: bool, p: int, j: int, p': int, n: int)
    requires Sound(s) && Ahead(s, mid, p, j, p', n)
    ensures Place(s, mid, p', j + n) && Pre(s, mid, p) <= j < Pre(s, mid, p + 1)
    ensures Pre(s, mid, p') < j + n || (p' > 0 && Pre(s, mid, p' - 1) < j + n)
  {
    hide Pre, Sound;
  }

  /** Inside the text passed, a changed span is run across. */
  lemma AheadCrossed(s: seq<Span>, mid: bool, p: int, j: int, p': int, n: int, xp: int, xj: int)
    requires Sound(s) && Ahead(s, mid, p, j, p', n) && j < xj < j + n && Place(s, mid, xp, xj)
    ensures xp == p && (s[p].changed ==> !FreeOn(s, mid, xp, xj))
  {
    hide Pre, Sound;
    if xp < p { PreGrows(s, mid, xp, p); PreGrows(s, mid, xp + 1, p); }
    if xp > p { PreGrows(s, mid, p + 1, xp); }
  }

  // ----- steps of a merge

  /** Free places up to `cur` other than the last cut. */
  ghost predicate NoneAfter(ab: seq<Span>, bc: seq<Span>, last: Cut, cur: Cut) {
    forall z :: Free(ab, bc, z) && Leq(last, z) && Leq(z, cur) ==> z == last
  }

  /** Passing `n` units of b that are changed in one of the logs. */
  lemma PassPlaces(ab: seq<Span>, bc: seq<Span>, last: Cut, cur: Cut, next: Cut, n: int)
    requires Sound(ab) && Sound(bc) && Leq(last, cur) && NoneAfter(ab, bc, last, cur)
    requires Ahead(ab, false, cur.p, cur.j, next.p, n) && Ahead(bc, true, cur.r, cur.j, next.r, n)
    requires next.j == cur.j + n && (ab[cur.p].changed || bc[cur.r].changed)
    ensures NoneBetween(ab, bc, last, next) && Leq(last, next) && IsPlace(ab, bc, next)
  {
    hide Pre, Sound;
    AheadPlace(ab, false, cur.p, cur.j, next.p, n);
    AheadPlace(bc, true, cur.r, cur.j, next.r, n);
    forall z | Free(ab, bc, z) && Leq(last, z) && Leq(z, next) ensures z == last || z == next {
      if z.j < cur.j {
        LowerPlace(ab, false, cur.p, cur.j, z.p, z.j);
        LowerPlace(bc, true, cur.r, cur.j, z.r, z.j);
      } else if z.j == cur.j {
        SamePlace(ab, false, cur.p, cur.j, z.p);
        SamePlace(bc, true, cur.r, cur.j, z.r);
      } else if z.j < next.j {
        AheadCrossed(ab, false, cur.p, cur.j, next.p, n, z.p, z.j);
        AheadCrossed(bc, true, cur.r, cur.j, next.r, n, z.r, z.j);
      } else {
        OnlyPlace(ab, false, next.p, next.j, z.p);
        OnlyPlace(bc, true, next.r, next.j, z.r);
      }
    }
  }

  /** An insertion of the second log at the current place. */
  lemma InsertionPlaces(ab: seq<Span>, bc: seq<Span>, last: Cut, cur: Cut)
    requires Sound(ab) && Sound(bc) && Leq(last, cur) && NoneAfter(ab, bc, last, cur) && IsPlace(ab, bc, cur)
    requires cur.r < |bc| && cur.j == Pre(bc, true, cur.r) && bc[cur.r].old' == 0
    ensures var next := cur.(r := cur.r + 1);
            NoneBetween(ab, bc, last, next) && Leq(last, next) && IsPlace(ab, bc, next)
  {
    var next := cur.(r := cur.r + 1);
    PreStep(bc, true, cur.r);
    hide Pre, Sound;
    forall z | Free(ab, bc, z) && Leq(last, z) && Leq(z, next) ensures z == last || z == next {
      if z.r == next.r {
        if Free(ab, bc, cur) {
          assert last == cur;
        } else {
          OnlyPlace(ab, false, cur.p, cur.j, z.p);
        }
      } else {
        assert Leq(z, cur);
      }
    }
  }

  /** A deletion of the first log at the current place. */
  lemma DeletionPlaces(ab: seq<Span>, bc: seq<Span>, last: Cut, cur: Cut)
    requires Sound(ab) && Sound(bc) && Leq(last, cur) && NoneAfter(ab, bc, last, cur) && IsPlace(ab, bc, cur)
    requires cur.p < |ab| && cur.j == Pre(ab, false, cur.p) && ab[cur.p].new' == 0
    ensures var next := cur.(p := cur.p + 1);
            NoneBetween(ab, bc, last, next) && Leq(last, next) && IsPlace(ab, bc, next)
  {
    var next := cur.(p := cur.p + 1);
    PreStep(ab, false, cur.p);
    hide Pre, Sound;
    forall z | Free(ab, bc, z) && Leq(last, z) && Leq(z, next) ensures z == last || z == next {
      if z.p == next.p {
        if Free(ab, bc, cur) {
          assert last == cur;
        } else {
          OnlyPlace(bc, true, cur.r, cur.j, z.r);
        }
      } else {
        assert Leq(z, cur);
      }
    }
  }

  /** The first cut, and one cut more. */
  lemma KnitStart(ab: seq<Span>, bc: seq<Span>)
    ensures CutBy(ab, bc, Knit([], [Cut(0, 0, 0)]))
  {
    assert ab[..0] == [] && bc[..0] == [];
  }

  lemma KnitOn(ab: seq<Span>, bc: seq<Span>, k: Knit, next: Cut, e: Span)
    requires CutBy(ab, bc, k) && InsertionsFirst(ab, bc, next) && Piece(ab, bc, k.Last(), next, e)
    ensures CutBy(ab, bc, Knit(k.pieces + [e], k.cuts + [next]))
  {
    hide Free, InsertionsFirst, Piece;
    var t := Knit(k.pieces + [e], k.cuts + [next]);
    assert Free(ab, bc, next) by { PieceEnds(ab, bc, k.Last(), next, e); }
    forall q | 0 <= q < |t.pieces| ensures PieceAt(ab, bc, t, q) {
      if q < |k.pieces| {
        assert PieceAt(ab, bc, k, q);
      }
    }
  }

  lemma PieceEnds(ab: seq<Span>, bc: seq<Span>, x: Cut, y: Cut, e: Span)
    requires Piece(ab, bc, x, y, e)
    ensures Free(ab, bc, x) && Free(ab, bc, y)
  {}
}
