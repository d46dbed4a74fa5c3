/** The edit graph of one box [xoff,xlim) x [yoff,ylim) of two vectors: cost of
    reaching a point from the upper left corner, cost of leaving it for the
    lower right corner, and what the frontiers of the two searches mean. */
module EditGraph {
  import opened EditDistance

  datatype Box = Box(xv: seq<int>, yv: seq<int>, xoff: int, xlim: int, yoff: int, ylim: int) {
    predicate Valid() {
      0 <= xoff <= xlim <= |xv| && 0 <= yoff <= ylim <= |yv|
    }

    predicate Inside(x: int, y: int) {
      xoff <= x <= xlim && yoff <= y <= ylim
    }

    /** Neither portion is empty and both ends have been trimmed of matches. */
    predicate Trimmed() {
      && Valid() && xoff < xlim && yoff < ylim
      && xv[xoff] != yv[yoff] && xv[xlim - 1] != yv[ylim - 1]
    }

    function DMin(): int { xoff - ylim }
    function DMax(): int { xlim - yoff }
    function FMid(): int { xoff - yoff }
    function BMid(): int { xlim - ylim }

    /** Elements on both sides. */
    /** Edits needed to get from the upper left corner to (x, y). */
    ghost function Reach(x: int, y: int): int
      requires Valid() && Inside(x, y)
    {
      Dist(xv[xoff..x], yv[yoff..y])
    }

    /** Edits needed to get from (x, y) to the lower right corner. */
    ghost function Leave(x: int, y: int): int
      requires Valid() && Inside(x, y)
    {
      Dist(xv[x..xlim], yv[y..ylim])
    }

    ghost function Total(): int
      requires Valid()
    {
      Dist(xv[xoff..xlim], yv[yoff..ylim])
    }
  }

  // ----- single steps in the graph

  lemma ReachStepX(b: Box, x: int, y: int)
    requires b.Valid() && b.Inside(x, y) && b.Inside(x + 1, y)
    ensures b.Reach(x, y) - 1 <= b.Reach(x + 1, y) <= b.Reach(x, y) + 1
  {
    assert b.xv[b.xoff..x + 1] == b.xv[b.xoff..x] + [b.xv[x]];
    DistAppendOne(b.xv[b.xoff..x], b.yv[b.yoff..y], b.xv[x]);
  }

  lemma ReachStepY(b: Box, x: int, y: int)
    requires b.Valid() && b.Inside(x, y) && b.Inside(x, y + 1)
    ensures b.Reach(x, y) - 1 <= b.Reach(x, y + 1) <= b.Reach(x, y) + 1
  {
    assert b.yv[b.yoff..y + 1] == b.yv[b.yoff..y] + [b.yv[y]];
    DistAppendOne(b.xv[b.xoff..x], b.yv[b.yoff..y], b.yv[y]);
  }

  lemma ReachDiagonal(b: Box, x: int, y: int)
    requires b.Valid() && b.Inside(x, y) && b.Inside(x + 1, y + 1)
    ensures b.Reach(x, y) <= b.Reach(x + 1, y + 1)
    ensures b.xv[x] == b.yv[y] ==> b.Reach(x + 1, y + 1) == b.Reach(x, y)
    ensures b.xv[x] != b.yv[y] ==>
              b.Reach(x + 1, y + 1) == 1 + Min(b.Reach(x, y + 1), b.Reach(x + 1, y))
  {
    var p, q := b.xv[b.xoff..x], b.yv[b.yoff..y];
    assert b.xv[b.xoff..x + 1] == p + [b.xv[x]];
    assert b.yv[b.yoff..y + 1] == q + [b.yv[y]];
    DistDropBothLast(p, q, b.xv[x], b.yv[y]);
    if b.xv[x] == b.yv[y] {
      DistMatchAppend(p, q, b.xv[x]);
    } else {
      DistMismatchAppend(p, q, b.xv[x], b.yv[y]);
    }
  }

  lemma LeaveStepX(b: Box, x: int, y: int)
    requires b.Valid() && b.Inside(x, y) && b.Inside(x - 1, y)
    ensures b.Leave(x, y) - 1 <= b.Leave(x - 1, y) <= b.Leave(x, y) + 1
  {
    assert b.xv[x - 1..b.xlim] == [b.xv[x - 1]] + b.xv[x..b.xlim];
    DistPrependOne(b.xv[x..b.xlim], b.yv[y..b.ylim], b.xv[x - 1]);
  }

  lemma LeaveStepY(b: Box, x: int, y: int)
    requires b.Valid() && b.Inside(x, y) && b.Inside(x, y - 1)
    ensures b.Leave(x, y) - 1 <= b.Leave(x, y - 1) <= b.Leave(x, y) + 1
  {
    assert b.yv[y - 1..b.ylim] == [b.yv[y - 1]] + b.yv[y..b.ylim];
    DistPrependOne(b.xv[x..b.xlim], b.yv[y..b.ylim], b.yv[y - 1]);
  }

  lemma LeaveDiagonal(b: Box, x: int, y: int)
    requires b.Valid() && b.Inside(x, y) && b.Inside(x - 1, y - 1)
    ensures b.Leave(x, y) <= b.Leave(x - 1, y - 1)
    ensures b.xv[x - 1] == b.yv[y - 1] ==> b.Leave(x - 1, y - 1) == b.Leave(x, y)
    ensures b.xv[x - 1] != b.yv[y - 1] ==>
              b.Leave(x - 1, y - 1) == 1 + Min(b.Leave(x, y - 1), b.Leave(x - 1, y))
  {
    var p, q := b.xv[x..b.xlim], b.yv[y..b.ylim];
    assert b.xv[x - 1..b.xlim] == [b.xv[x - 1]] + p;
    assert b.yv[y - 1..b.ylim] == [b.yv[y - 1]] + q;
    DistDropBothFirst(p, q, b.xv[x - 1], b.yv[y - 1]);
    if b.xv[x - 1] == b.yv[y - 1] {
      DistMatchPrepend(p, q, b.xv[x - 1]);
    } else {
      DistMismatchPrepend(p, q, b.xv[x - 1], b.yv[y - 1]);
    }
  }

  lemma Borders(b: Box, x: int, y: int)
    requires b.Valid() && b.Inside(x, y)
    ensures b.Reach(b.xoff, y) == y - b.yoff && b.Reach(x, b.yoff) == x - b.xoff
    ensures b.Leave(b.xlim, y) == b.ylim - y && b.Leave(x, b.ylim) == b.xlim - x
    ensures b.Reach(b.xlim, b.ylim) == b.Total() == b.Leave(b.xoff, b.yoff)
  {}

  lemma ReachBounds(b: Box, x: int, y: int)
    requires b.Valid() && b.Inside(x, y)
    ensures b.FMid() - b.Reach(x, y) <= x - y <= b.FMid() + b.Reach(x, y)
    ensures (b.Reach(x, y) - (x - y - b.FMid())) % 2 == 0
  {
    LcsLengths(b.xv[b.xoff..x], b.yv[b.yoff..y]);
    hide Lcs;
    assert b.Reach(x, y) - (x - y - b.FMid()) == 2 * (y - b.yoff - Lcs(b.xv[b.xoff..x], b.yv[b.yoff..y]));
  }

  lemma LeaveBounds(b: Box, x: int, y: int)
    requires b.Valid() && b.Inside(x, y)
    ensures b.BMid() - b.Leave(x, y) <= x - y <= b.BMid() + b.Leave(x, y)
    ensures (b.Leave(x, y) - (x - y - b.BMid())) % 2 == 0
  {
    LcsLengths(b.xv[x..b.xlim], b.yv[y..b.ylim]);
    hide Lcs;
    assert b.Leave(x, y) - (x - y - b.BMid()) == 2 * (b.xlim - x - Lcs(b.xv[x..b.xlim], b.yv[y..b.ylim]));
  }

  lemma TotalBounds(b: Box, x: int, y: int)
    requires b.Valid() && b.Inside(x, y)
    ensures (b.Total() - (b.FMid() - b.BMid())) % 2 == 0
    ensures b.Total() <= b.Reach(x, y) + b.Leave(x, y)
  {
    hide Lcs;
    DistTriangle(b.xv[b.xoff..x], b.yv[b.yoff..y], b.xv[x..b.xlim], b.yv[y..b.ylim]);
    assert b.xv[b.xoff..x] + b.xv[x..b.xlim] == b.xv[b.xoff..b.xlim];
    assert b.yv[b.yoff..y] + b.yv[y..b.ylim] == b.yv[b.yoff..b.ylim];
    assert b.Total() - (b.FMid() - b.BMid())
        == 2 * (b.xlim - b.xoff - Lcs(b.xv[b.xoff..b.xlim], b.yv[b.yoff..b.ylim]));
  }

  /** A cost is at least the distance between the diagonals, of equal parity. */
  lemma CostBounds(b: Box, x: int, y: int)
    requires b.Valid() && b.Inside(x, y)
    ensures b.FMid() - b.Reach(x, y) <= x - y <= b.FMid() + b.Reach(x, y)
    ensures b.BMid() - b.Leave(x, y) <= x - y <= b.BMid() + b.Leave(x, y)
    ensures (b.Reach(x, y) - (x - y - b.FMid())) % 2 == 0
    ensures (b.Leave(x, y) - (x - y - b.BMid())) % 2 == 0
    ensures (b.Total() - (b.FMid() - b.BMid())) % 2 == 0
    ensures b.Total() <= b.Reach(x, y) + b.Leave(x, y)
  {
    hide Box.Reach, Box.Leave, Box.Total;
    ReachBounds(b, x, y);
    LeaveBounds(b, x, y);
    TotalBounds(b, x, y);
  }

  lemma LcsLengths(a: seq<int>, c: seq<int>)
    ensures Lcs(a, c) <= |a| && Lcs(a, c) <= |c|
  {
    var s := LcsWitness(a, c);
    SubseqLength(s, a);
    SubseqLength(s, c);
  }

  /** Some shortest path goes through a point reached at exactly cost `c`. */
  lemma PointAtCost(b: Box, c: nat) returns (x: int, y: int)
    requires b.Valid() && c <= b.Total()
    ensures b.Inside(x, y) && b.Reach(x, y) == c && b.Leave(x, y) == b.Total() - c
  {
    var p, q := b.xv[b.xoff..b.xlim], b.yv[b.yoff..b.ylim];
    var i, j := PathPoint(p, q, c);
    x, y := b.xoff + i, b.yoff + j;
    assert p[..i] == b.xv[b.xoff..x] && p[i..] == b.xv[x..b.xlim];
    assert q[..j] == b.yv[b.yoff..y] && q[j..] == b.yv[y..b.ylim];
  }

  lemma {:induction false} DistZero(a: seq<int>, c: seq<int>)
    requires Dist(a, c) == 0
    ensures a == c
    decreases |a|
  {
    LcsLengths(a, c);
    if a != [] && c != [] {
      if a[0] == c[0] {
        assert a == [a[0]] + a[1..] && c == [a[0]] + c[1..];
        DistMatchPrepend(a[1..], c[1..], a[0]);
        DistZero(a[1..], c[1..]);
      } else {
        LcsLengths(a[1..], c);
        LcsLengths(a, c[1..]);
        assert false;
      }
    }
  }

  /** A trimmed box needs at least two edits. */
  lemma TrimmedTotal(b: Box)
    requires b.Trimmed()
    ensures b.Total() >= 2
  {
    var p, q := b.xv[b.xoff..b.xlim], b.yv[b.yoff..b.ylim];
    assert p == [p[0]] + p[1..] && q == [q[0]] + q[1..];
    DistMismatchPrepend(p[1..], q[1..], p[0], q[0]);
    DistNonNegative(p[1..], q);
    DistNonNegative(p, q[1..]);
    if Dist(p[1..], q) == 0 {
      DistZero(p[1..], q);
      assert false;
    }
    if Dist(p, q[1..]) == 0 {
      DistZero(p, q[1..]);
      assert false;
    }
  }

  // ----- frontiers of the two searches

  /** (x, y) costs at most `c`; beyond the box every unit is one more edit. */
  ghost predicate FReach(b: Box, c: int, x: int, y: int)
    requires b.Valid()
  {
    && b.xoff <= x && b.yoff <= y
    && b.Reach(Min(x, b.xlim), Min(y, b.ylim)) + Max(0, x - b.xlim) + Max(0, y - b.ylim) <= c
  }

  ghost predicate BReach(b: Box, c: int, x: int, y: int)
    requires b.Valid()
  {
    && x <= b.xlim && y <= b.ylim
    && b.Leave(Max(x, b.xoff), Max(y, b.yoff)) + Max(0, b.xoff - x) + Max(0, b.yoff - y) <= c
  }

  /** The point of diagonal `d` at `x` is in the box and reached at cost `c`. */
  ghost predicate FAt(b: Box, c: int, d: int, x: int)
    requires b.Valid()
  {
    b.Inside(x, x - d) && b.Reach(x, x - d) <= c
  }

  ghost predicate BAt(b: Box, c: int, d: int, x: int)
    requires b.Valid()
  {
    b.Inside(x, x - d) && b.Leave(x, x - d) <= c
  }

  /** No point of diagonal `d` inside the box beyond `v` is reached at cost `c`. */
  ghost predicate FCover(b: Box, c: int, d: int, v: int)
    requires b.Valid()
  {
    forall x :: FAt(b, c, d, x) ==> x <= v
  }

  ghost predicate BCover(b: Box, c: int, d: int, v: int)
    requires b.Valid()
  {
    forall x :: BAt(b, c, d, x) ==> v <= x
  }

  /** `v` is the furthest the forward search gets on diagonal `d` at cost `c`. */
  ghost predicate FFront(b: Box, c: int, d: int, v: int)
    requires b.Valid()
  {
    FReach(b, c, v, v - d) && FCover(b, c, d, v)
  }

  ghost predicate BFront(b: Box, c: int, d: int, v: int)
    requires b.Valid()
  {
    BReach(b, c, v, v - d) && BCover(b, c, d, v)
  }

  /** Cost never falls along a diagonal ... */
  lemma {:induction false} FAtBefore(b: Box, c: int, d: int, r: int, f: int)
    requires b.Valid() && b.Inside(r, r - d) && r <= f && FAt(b, c, d, f)
    ensures FAt(b, c, d, r)
    decreases f - r
  {
    if r < f {
      ReachDiagonal(b, f - 1, f - 1 - d);
      FAtBefore(b, c, d, r, f - 1);
    }
  }

  /** ... and the remaining cost never grows along it. */
  lemma {:induction false} BAtAfter(b: Box, c: int, d: int, r: int, f: int)
    requires b.Valid() && b.Inside(f, f - d) && r <= f && BAt(b, c, d, r)
    ensures BAt(b, c, d, f)
    decreases f - r
  {
    if r < f {
      LeaveDiagonal(b, r + 1, r + 1 - d);
      BAtAfter(b, c, d, r + 1, f);
    }
  }

  /** How a point off the left and upper borders was reached. */
  lemma FAtFrom(b: Box, c: int, d: int, x: int)
    requires b.Valid() && FAt(b, c, d, x) && b.xoff < x && b.yoff < x - d
    ensures b.xv[x - 1] == b.yv[x - d - 1] ==> FAt(b, c, d, x - 1)
    ensures b.xv[x - 1] != b.yv[x - d - 1] ==> FAt(b, c - 1, d - 1, x - 1) || FAt(b, c - 1, d + 1, x)
  {
    var y := x - d;
    ReachDiagonal(b, x - 1, y - 1);
    assert x - 1 - d == y - 1 && x - 1 - (d - 1) == y && x - (d + 1) == y - 1;
  }

  lemma BAtFrom(b: Box, c: int, d: int, x: int)
    requires b.Valid() && BAt(b, c, d, x) && x < b.xlim && x - d < b.ylim
    ensures b.xv[x] == b.yv[x - d] ==> BAt(b, c, d, x + 1)
    ensures b.xv[x] != b.yv[x - d] ==> BAt(b, c - 1, d + 1, x + 1) || BAt(b, c - 1, d - 1, x)
  {
    var y := x - d;
    LeaveDiagonal(b, x + 1, y + 1);
    assert x + 1 - d == y + 1 && x + 1 - (d + 1) == y && x - (d - 1) == y + 1;
  }

  lemma FReachStep(b: Box, c: int, x: int, y: int)
    requires b.Valid() && FReach(b, c, x, y)
    ensures FReach(b, c + 1, x + 1, y) && FReach(b, c + 1, x, y + 1)
  {
    if x < b.xlim { ReachStepX(b, x, Min(y, b.ylim)); }
    if y < b.ylim { ReachStepY(b, Min(x, b.xlim), y); }
  }

  lemma BReachStep(b: Box, c: int, x: int, y: int)
    requires b.Valid() && BReach(b, c, x, y)
    ensures BReach(b, c + 1, x - 1, y) && BReach(b, c + 1, x, y - 1)
  {
    if b.xoff < x { LeaveStepX(b, x, Max(y, b.yoff)); }
    if b.yoff < y { LeaveStepY(b, Max(x, b.xoff), y); }
  }

  /** The end of the snake that starts where both neighbours lead to is the
      next frontier: nothing inside the box lies beyond it. */
  lemma {:induction false} FCoverNext(b: Box, c: int, d: int, x0: int, v: int, x: int)
    requires b.Valid() && x0 <= v
    requires v < b.xlim && v - d < b.ylim && b.Inside(v, v - d) ==> b.xv[v] != b.yv[v - d]
    requires FCover(b, c - 1, d - 1, x0 - 1) && FCover(b, c - 1, d + 1, x0)
    requires FAt(b, c, d, x)
    requires b.xoff <= v && b.yoff <= v - d
    ensures x <= v
    decreases x - b.xoff
  {
    if x > b.xoff && x - d > b.yoff {
      FAtFrom(b, c, d, x);
      if b.xv[x - 1] == b.yv[x - d - 1] {
        FCoverNext(b, c, d, x0, v, x - 1);
      }
    }
  }

  lemma {:induction false} BCoverNext(b: Box, c: int, d: int, x0: int, v: int, x: int)
    requires b.Valid() && v <= x0
    requires b.xoff < v && b.yoff < v - d && b.Inside(v, v - d) ==> b.xv[v - 1] != b.yv[v - d - 1]
    requires BCover(b, c - 1, d - 1, x0) && BCover(b, c - 1, d + 1, x0 + 1)
    requires BAt(b, c, d, x)
    requires v <= b.xlim && v - d <= b.ylim
    ensures v <= x
    decreases b.xlim - x
  {
    if x < b.xlim && x - d < b.ylim {
      BAtFrom(b, c, d, x);
      if b.xv[x] == b.yv[x - d] {
        BCoverNext(b, c, d, x0, v, x + 1);
      }
    }
  }

  // ----- when the searches meet

  /** A forward frontier at or past a backward one splits a shortest path. */
  lemma OverlapSplits(b: Box, c: int, e: int, d: int, f: int, r: int)
    requires b.Valid() && 0 <= c && 0 <= e && 0 < c + e <= b.Total() && c - e <= 1 && e - c <= 1
    requires b.FMid() - c <= d <= b.FMid() + c && b.BMid() - e <= d <= b.BMid() + e
    requires FReach(b, c, f, f - d) && BReach(b, e, r, r - d) && r <= f
    ensures FAt(b, c, d, f) && BAt(b, e, d, f)
    ensures FAt(b, c, d, r) && BAt(b, e, d, r)
  {
    ForwardPointInside(b, c, e, d, f);
    BackwardPointInside(b, c, e, d, r);
    BAtAfter(b, e, d, r, f);
    FAtBefore(b, c, d, r, f);
  }

  lemma ForwardPointInside(b: Box, c: int, e: int, d: int, f: int)
    requires b.Valid() && 0 <= c && 0 <= e && c + e <= b.Total() && 0 < c + e && c - e <= 1
    requires b.BMid() - e <= d <= b.BMid() + e
    requires FReach(b, c, f, f - d)
    ensures b.Inside(f, f - d)
  {
    var x, y := Min(f, b.xlim), Min(f - d, b.ylim);
    CostBounds(b, x, y);
    Borders(b, x, y);
  }

  lemma BackwardPointInside(b: Box, c: int, e: int, d: int, r: int)
    requires b.Valid() && 0 <= c && 0 <= e && c + e <= b.Total() && 0 < c + e && e - c <= 1
    requires b.FMid() - c <= d <= b.FMid() + c
    requires BReach(b, e, r, r - d)
    ensures b.Inside(r, r - d)
  {
    var x, y := Max(r, b.xoff), Max(r - d, b.yoff);
    CostBounds(b, x, y);
    Borders(b, x, y);
  }
}
