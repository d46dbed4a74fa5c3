/** The bidirectional midpoint search of diffseq.h: two arrays of furthest
    points, indexed by diagonal, are extended one edit at a time from both
    corners of a box until they meet or a heuristic gives up. */
module MidpointSearch {
  import opened EditDistance
  import opened EditGraph

  const OFFSET_MAX: int := 0x7fff_ffff_ffff_ffff
  const SNAKE_LIMIT: int := 20
  const HEURISTIC_COST: int := 200  // the search for big snakes starts beyond it

  datatype Partition = Partition(xmid: int, ymid: int, loMinimal: bool, hiMinimal: bool)

  /** Two diagonals, or a diagonal and a cost relative to `mid`, agree in parity. */
  predicate SameParity(d: int, mid: int, c: int) {
    (d - mid - c) % 2 == 0
  }

  /** Parity facts about a diagonal and its neighbours. */
  lemma ParityStep(d: int, mid: int, c: int)
    requires SameParity(d, mid, c)
    ensures SameParity(d - 2, mid, c)
    ensures SameParity(d - 1, mid, c - 1) && SameParity(d + 1, mid, c - 1)
    ensures !SameParity(d, mid, c - 1) && !SameParity(d - 1, mid, c)
  {}

  lemma OtherParity(d: int, f: int, b: int, c: int)
    requires (f - b) % 2 == 1
    ensures SameParity(d, f, c) <==> SameParity(d, b, c - 1)
  {}

  /** The comparison context: vectors, diagonal arrays and heuristic settings.
      Diagonal `d` lives at index `d + |yv| + 1`, the offset pointer of the
      original allocation. */
  class SearchContext {
    const xv: seq<int>
    const yv: seq<int>
    const fdiag: array<int>
    const bdiag: array<int>
    const heuristic: bool
    const tooExpensive: int

    constructor (xv: seq<int>, yv: seq<int>, heuristic: bool, tooExpensive: int)
      requires |xv| + |yv| < OFFSET_MAX
      ensures this.xv == xv && this.yv == yv
      ensures this.heuristic == heuristic && this.tooExpensive == tooExpensive
      ensures Valid() && fresh(fdiag) && fresh(bdiag)
    {
      var diags := |xv| + |yv| + 3;
      this.xv := xv;
      this.yv := yv;
      this.heuristic := heuristic;
      this.tooExpensive := tooExpensive;
      this.fdiag := new int[diags];
      this.bdiag := new int[diags];
    }

    ghost predicate Valid() {
      && fdiag != bdiag
      && fdiag.Length == bdiag.Length == |xv| + |yv| + 3
      && |xv| + |yv| < OFFSET_MAX
    }

    ghost predicate Covers(b: Box) {
      Valid() && b.xv == xv && b.yv == yv && b.Valid()
    }
  }

  // ----- contents of the diagonal arrays

  predicate Diagonal(b: Box, d: int) {
    -|b.yv| - 1 <= d <= |b.xv| + 1
  }

  predicate Cells(b: Box, cells: seq<int>) {
    |cells| == |b.xv| + |b.yv| + 3
  }

  function At(b: Box, cells: seq<int>, d: int): int
    requires Cells(b, cells) && Diagonal(b, d)
  {
    cells[d + |b.yv| + 1]
  }

  function Put(b: Box, cells: seq<int>, d: int, v: int): (r: seq<int>)
    requires Cells(b, cells) && Diagonal(b, d)
    ensures Cells(b, r) && At(b, r, d) == v
    ensures forall e :: Diagonal(b, e) && e != d ==> At(b, r, e) == At(b, cells, e)
  {
    cells[d + |b.yv| + 1 := v]
  }

  /** Every diagonal of the range on the right parity holds the forward
      frontier of cost `c`. */
  ghost predicate FStage(b: Box, fd: seq<int>, c: int, lo: int, hi: int)
    requires b.Valid() && Cells(b, fd)
  {
    forall d :: lo <= d <= hi && SameParity(d, b.FMid(), c) && Diagonal(b, d) ==> FFront(b, c, d, At(b, fd, d))
  }

  ghost predicate BStage(b: Box, bd: seq<int>, c: int, lo: int, hi: int)
    requires b.Valid() && Cells(b, bd)
  {
    forall d :: lo <= d <= hi && SameParity(d, b.BMid(), c) && Diagonal(b, d) ==> BFront(b, c, d, At(b, bd, d))
  }

  /** The cells a forward pass of cost `c` over [lo, hi] reads: frontiers of
      the previous cost, with sentinels at the ends. */
  ghost predicate FReady(b: Box, fd: seq<int>, c: int, lo: int, hi: int)
    requires b.Valid() && Cells(b, fd)
  {
    forall d :: lo <= d <= hi && SameParity(d, b.FMid(), c) && Diagonal(b, d - 1) && Diagonal(b, d + 1) ==>
      FPair(b, c, d, At(b, fd, d - 1), At(b, fd, d + 1))
  }

  ghost predicate BReady(b: Box, bd: seq<int>, c: int, lo: int, hi: int)
    requires b.Valid() && Cells(b, bd)
  {
    forall d :: lo <= d <= hi && SameParity(d, b.BMid(), c) && Diagonal(b, d - 1) && Diagonal(b, d + 1) ==>
      BPair(b, c, d, At(b, bd, d - 1), At(b, bd, d + 1))
  }

  /** The frontiers have not met on any diagonal of the range. */
  ghost predicate Apart(b: Box, fd: seq<int>, bd: seq<int>, lo: int, hi: int, c: int)
    requires Cells(b, fd) && Cells(b, bd)
  {
    forall d :: lo <= d <= hi && SameParity(d, b.FMid(), c) && Diagonal(b, d) ==> At(b, fd, d) < At(b, bd, d)
  }

  /** Search limits after `c` steps around diagonal `mid`: they grow by one per
      step and bounce at the box's extreme diagonals. */
  ghost predicate Limits(b: Box, mid: int, c: int, lo: int, hi: int) {
    && b.DMin() <= lo <= hi <= b.DMax()
    && SameParity(lo, mid, c) && SameParity(hi, mid, c)
    && mid - c <= lo && hi <= mid + c
    && (lo == mid - c || lo <= b.DMin() + 1)
    && (hi == mid + c || hi >= b.DMax() - 1)
  }

  lemma InLimits(b: Box, mid: int, c: int, lo: int, hi: int, d: int)
    requires Limits(b, mid, c, lo, hi) && SameParity(d, mid, c)
    requires b.DMin() <= d <= b.DMax() && mid - c <= d <= mid + c
    ensures lo <= d <= hi
  {}

  /** Steps `lo` and `hi` by one edit. */
  function NextLo(b: Box, lo: int): int { if lo > b.DMin() then lo - 1 else lo + 1 }
  function NextHi(b: Box, hi: int): int { if hi < b.DMax() then hi + 1 else hi - 1 }

  lemma NextLimits(b: Box, mid: int, c: int, lo: int, hi: int)
    requires b.Valid() && b.xoff < b.xlim && b.yoff < b.ylim && 0 < c
    requires mid == b.FMid() || mid == b.BMid()
    requires Limits(b, mid, c - 1, lo, hi)
    ensures Limits(b, mid, c, NextLo(b, lo), NextHi(b, hi))
  {
  }

  // ----- one diagonal of the forward search

  /** What a forward step may know about a neighbouring diagonal: a frontier of
      the previous cost, or the sentinel -1 where there is none. */
  ghost predicate FSide(b: Box, c: int, d: int, v: int)
    requires b.Valid()
  {
    FCover(b, c, d, v) && (v == -1 || FReach(b, c, v, v - d))
  }

  ghost predicate BSide(b: Box, c: int, d: int, v: int)
    requires b.Valid()
  {
    BCover(b, c, d, v) && (v == OFFSET_MAX || BReach(b, c, v, v - d))
  }

  /** The two neighbours of diagonal `d`, at least one of them a frontier. */
  ghost predicate FPair(b: Box, c: int, d: int, tlo: int, thi: int)
    requires b.Valid()
  {
    FSide(b, c - 1, d - 1, tlo) && FSide(b, c - 1, d + 1, thi) && (tlo != -1 || thi != -1)
  }

  ghost predicate BPair(b: Box, c: int, d: int, tlo: int, thi: int)
    requires b.Valid()
  {
    BSide(b, c - 1, d - 1, tlo) && BSide(b, c - 1, d + 1, thi) && (tlo != OFFSET_MAX || thi != OFFSET_MAX)
  }

  lemma FReachMatch(b: Box, c: int, x: int, y: int)
    requires b.Valid() && FReach(b, c, x, y) && x < b.xlim && y < b.ylim && b.xv[x] == b.yv[y]
    ensures FReach(b, c, x + 1, y + 1)
  {
    ReachDiagonal(b, x, y);
  }

  lemma BReachMatch(b: Box, c: int, x: int, y: int)
    requires b.Valid() && BReach(b, c, x, y) && b.xoff < x && b.yoff < y && b.xv[x - 1] == b.yv[y - 1]
    ensures BReach(b, c, x - 1, y - 1)
  {
    LeaveDiagonal(b, x, y);
  }

  lemma FStart(b: Box, c: int, d: int, tlo: int, thi: int)
    requires b.Valid() && FPair(b, c, d, tlo, thi)
    ensures FReach(b, c, Max(tlo + 1, thi), Max(tlo + 1, thi) - d)
  {
    if tlo < thi {
      FReachStep(b, c - 1, thi, thi - (d + 1));
    } else {
      FReachStep(b, c - 1, tlo, tlo - (d - 1));
    }
  }

  lemma BStart(b: Box, c: int, d: int, tlo: int, thi: int)
    requires b.Valid() && BPair(b, c, d, tlo, thi)
    requires b.xlim < OFFSET_MAX
    ensures BReach(b, c, Min(tlo, thi - 1), Min(tlo, thi - 1) - d)
  {
    if tlo < thi {
      BReachStep(b, c - 1, tlo, tlo - (d - 1));
    } else {
      BReachStep(b, c - 1, thi, thi - (d + 1));
    }
  }

  lemma FSnakeEnd(b: Box, c: int, d: int, tlo: int, thi: int, x: int)
    requires b.Valid() && FSide(b, c - 1, d - 1, tlo) && FSide(b, c - 1, d + 1, thi)
    requires Max(tlo + 1, thi) <= x && FReach(b, c, x, x - d)
    requires !(x < b.xlim && x - d < b.ylim && b.xv[x] == b.yv[x - d])
    ensures FFront(b, c, d, x)
  {
    forall u | FAt(b, c, d, u) ensures u <= x {
      FCoverNext(b, c, d, Max(tlo + 1, thi), x, u);
    }
  }

  lemma BSnakeEnd(b: Box, c: int, d: int, tlo: int, thi: int, x: int)
    requires b.Valid() && BSide(b, c - 1, d - 1, tlo) && BSide(b, c - 1, d + 1, thi)
    requires x <= Min(tlo, thi - 1) && BReach(b, c, x, x - d)
    requires !(b.xoff < x && b.yoff < x - d && b.xv[x - 1] == b.yv[x - d - 1])
    ensures BFront(b, c, d, x)
  {
    forall u | BAt(b, c, d, u) ensures x <= u {
      BCoverNext(b, c, d, Min(tlo, thi - 1), x, u);
    }
  }

  /** Extends the better neighbour along its snake; the result is the frontier
      of cost `c` on diagonal `d`. */
  method ExtendForward(b: Box, ghost c: int, d: int, tlo: int, thi: int) returns (x: int, bigSnake: bool)
    requires b.Valid() && FPair(b, c, d, tlo, thi)
    ensures FFront(b, c, d, x)
    ensures bigSnake <==> x - (if tlo < thi then thi else tlo + 1) > SNAKE_LIMIT
  {
    hide Box.Reach;
    var x0 := if tlo < thi then thi else tlo + 1;
    FStart(b, c, d, tlo, thi);
    var y;
    x, y := x0, x0 - d;
    while x < b.xlim && y < b.ylim && b.xv[x] == b.yv[y]
      invariant y == x - d && x0 <= x
      invariant FReach(b, c, x, y)
      decreases b.xlim - x
    {
      FReachMatch(b, c, x, y);
      x, y := x + 1, y + 1;
    }
    bigSnake := x - x0 > SNAKE_LIMIT;
    FSnakeEnd(b, c, d, tlo, thi, x);
  }

  method ExtendBackward(b: Box, ghost c: int, d: int, tlo: int, thi: int) returns (x: int, bigSnake: bool)
    requires b.Valid() && BPair(b, c, d, tlo, thi)
    requires b.xlim < OFFSET_MAX
    ensures BFront(b, c, d, x)
    ensures bigSnake <==> (if tlo < thi then tlo else thi - 1) - x > SNAKE_LIMIT
  {
    hide Box.Leave;
    var x0 := if tlo < thi then tlo else thi - 1;
    BStart(b, c, d, tlo, thi);
    var y;
    x, y := x0, x0 - d;
    while b.xoff < x && b.yoff < y && b.xv[x - 1] == b.yv[y - 1]
      invariant y == x - d && x <= x0
      invariant BReach(b, c, x, y)
      decreases x - b.xoff
    {
      BReachMatch(b, c, x, y);
      x, y := x - 1, y - 1;
    }
    bigSnake := x0 - x > SNAKE_LIMIT;
    BSnakeEnd(b, c, d, tlo, thi, x);
  }

  /** How far the snake that ends at `x` on diagonal `d` goes, starting from the
      better of the neighbouring cells. */
  function SnakeF(b: Box, fd: seq<int>, d: int, x: int): int
    requires Cells(b, fd) && Diagonal(b, d - 1) && Diagonal(b, d + 1)
  {
    var tlo, thi := At(b, fd, d - 1), At(b, fd, d + 1);
    x - if tlo < thi then thi else tlo + 1
  }

  function SnakeB(b: Box, bd: seq<int>, d: int, x: int): int
    requires Cells(b, bd) && Diagonal(b, d - 1) && Diagonal(b, d + 1)
  {
    var tlo, thi := At(b, bd, d - 1), At(b, bd, d + 1);
    (if tlo < thi then tlo else thi - 1) - x
  }

  /** Some snake of the stage is long. */
  ghost predicate LongF(b: Box, fd: seq<int>, c: int, lo: int, hi: int)
    requires Cells(b, fd)
  {
    exists d :: lo <= d <= hi && SameParity(d, b.FMid(), c) && LongAtF(b, fd, d)
  }

  ghost predicate LongAtF(b: Box, fd: seq<int>, d: int)
    requires Cells(b, fd)
  {
    Diagonal(b, d - 1) && Diagonal(b, d + 1) && SnakeF(b, fd, d, At(b, fd, d)) > SNAKE_LIMIT
  }

  ghost predicate LongB(b: Box, bd: seq<int>, c: int, lo: int, hi: int)
    requires Cells(b, bd)
  {
    exists d :: lo <= d <= hi && SameParity(d, b.BMid(), c) && LongAtB(b, bd, d)
  }

  ghost predicate LongAtB(b: Box, bd: seq<int>, d: int)
    requires Cells(b, bd)
  {
    Diagonal(b, d - 1) && Diagonal(b, d + 1) && SnakeB(b, bd, d, At(b, bd, d)) > SNAKE_LIMIT
  }

  lemma LongStepF(b: Box, fd: seq<int>, c: int, d: int, x: int, hi: int)
    requires Cells(b, fd) && Diagonal(b, d - 1) && Diagonal(b, d + 1) && SameParity(d, b.FMid(), c) && d <= hi
    ensures LongF(b, Put(b, fd, d, x), c, d - 1, hi) <==>
            LongF(b, fd, c, d + 1, hi) || SnakeF(b, fd, d, x) > SNAKE_LIMIT
  {
    var r := Put(b, fd, d, x);
    assert SnakeF(b, r, d, x) == SnakeF(b, fd, d, x) && At(b, r, d) == x;
    forall e | d + 1 <= e <= hi && SameParity(e, b.FMid(), c) ensures LongAtF(b, r, e) <==> LongAtF(b, fd, e) {
      assert e >= d + 2;
    }
    if LongF(b, r, c, d - 1, hi) {
      var e :| d - 1 <= e <= hi && SameParity(e, b.FMid(), c) && LongAtF(b, r, e);
      assert e == d || LongAtF(b, fd, e);
    }
    if LongF(b, fd, c, d + 1, hi) {
      var e :| d + 1 <= e <= hi && SameParity(e, b.FMid(), c) && LongAtF(b, fd, e);
      assert LongAtF(b, r, e);
    }
    if SnakeF(b, fd, d, x) > SNAKE_LIMIT {
      assert LongAtF(b, r, d);
    }
  }

  lemma LongStepB(b: Box, bd: seq<int>, c: int, d: int, x: int, hi: int)
    requires Cells(b, bd) && Diagonal(b, d - 1) && Diagonal(b, d + 1) && SameParity(d, b.BMid(), c) && d <= hi
    ensures LongB(b, Put(b, bd, d, x), c, d - 1, hi) <==>
            LongB(b, bd, c, d + 1, hi) || SnakeB(b, bd, d, x) > SNAKE_LIMIT
  {
    var r := Put(b, bd, d, x);
    assert SnakeB(b, r, d, x) == SnakeB(b, bd, d, x) && At(b, r, d) == x;
    forall e | d + 1 <= e <= hi && SameParity(e, b.BMid(), c) ensures LongAtB(b, r, e) <==> LongAtB(b, bd, e) {
      assert e >= d + 2;
    }
    if LongB(b, r, c, d - 1, hi) {
      var e :| d - 1 <= e <= hi && SameParity(e, b.BMid(), c) && LongAtB(b, r, e);
      assert e == d || LongAtB(b, bd, e);
    }
    if LongB(b, bd, c, d + 1, hi) {
      var e :| d + 1 <= e <= hi && SameParity(e, b.BMid(), c) && LongAtB(b, bd, e);
      assert LongAtB(b, r, e);
    }
    if SnakeB(b, bd, d, x) > SNAKE_LIMIT {
      assert LongAtB(b, r, d);
    }
  }

  /** The state in which a search ends: its cost and the two frontiers. */
  datatype Stop = Stop(cost: int, fd: seq<int>, fmin: int, fmax: int, bd: seq<int>, bmin: int, bmax: int) {
    ghost predicate For(b: Box) {
      Cells(b, fd) && Cells(b, bd) && 0 < cost
    }
  }

  /** The forward search, at its cost, runs into the backward one, one cost behind,
      on the diagonal of (x, y) and on none above it. */
  ghost predicate MetF(b: Box, s: Stop, x: int, y: int)
    requires b.Valid() && s.For(b)
  {
    var d := x - y;
    && Limits(b, b.FMid(), s.cost, s.fmin, s.fmax) && Limits(b, b.BMid(), s.cost - 1, s.bmin, s.bmax)
    && BStage(b, s.bd, s.cost - 1, s.bmin, s.bmax) && FStage(b, s.fd, s.cost, d, s.fmax)
    && Searched(b, b.FMid(), s.cost, s.fmin, s.fmax, d) && s.bmin <= d <= s.bmax
    && x == At(b, s.fd, d) && At(b, s.bd, d) <= x
    && Apart(b, s.fd, s.bd, Max(d + 1, Max(s.fmin, s.bmin)), Min(s.fmax, s.bmax), s.cost)
  }

  /** Likewise for the backward search, both at the same cost. */
  ghost predicate MetB(b: Box, s: Stop, x: int, y: int)
    requires b.Valid() && s.For(b)
  {
    var d := x - y;
    && Limits(b, b.FMid(), s.cost, s.fmin, s.fmax) && Limits(b, b.BMid(), s.cost, s.bmin, s.bmax)
    && FStage(b, s.fd, s.cost, s.fmin, s.fmax) && BStage(b, s.bd, s.cost, d, s.bmax)
    && Searched(b, b.BMid(), s.cost, s.bmin, s.bmax, d) && s.fmin <= d <= s.fmax
    && x == At(b, s.bd, d) && x <= At(b, s.fd, d)
    && Apart(b, s.fd, s.bd, Max(d + 1, Max(s.fmin, s.bmin)), Min(s.fmax, s.bmax), s.cost)
  }

  lemma MetFAt(b: Box, c: int, fd: seq<int>, fmin: int, fmax: int, bd: seq<int>, bmin: int, bmax: int, d: int, x: int)
    requires b.Valid() && Cells(b, fd) && Cells(b, bd) && 0 < c && Diagonal(b, d) && SameParity(d, b.FMid(), c)
    requires Limits(b, b.FMid(), c, fmin, fmax) && Limits(b, b.BMid(), c - 1, bmin, bmax)
    requires BStage(b, bd, c - 1, bmin, bmax) && FStage(b, Put(b, fd, d, x), c, d - 1, fmax)
    requires fmin <= d <= fmax && bmin <= d <= bmax && At(b, bd, d) <= x
    requires Apart(b, fd, bd, Max(d + 1, Max(fmin, bmin)), Min(fmax, bmax), c)
    ensures MetF(b, Stop(c, Put(b, fd, d, x), fmin, fmax, bd, bmin, bmax), x, x - d)
  {
    hide FFront, BFront, Limits;
  }

  lemma MetBAt(b: Box, c: int, fd: seq<int>, fmin: int, fmax: int, bd: seq<int>, bmin: int, bmax: int, d: int, x: int)
    requires b.Valid() && Cells(b, fd) && Cells(b, bd) && 0 < c && Diagonal(b, d) && SameParity(d, b.BMid(), c)
    requires Limits(b, b.FMid(), c, fmin, fmax) && Limits(b, b.BMid(), c, bmin, bmax)
    requires FStage(b, fd, c, fmin, fmax) && BStage(b, Put(b, bd, d, x), c, d - 1, bmax)
    requires fmin <= d <= fmax && bmin <= d <= bmax && x <= At(b, fd, d)
    requires Apart(b, fd, bd, Max(d + 1, Max(fmin, bmin)), Min(fmax, bmax), c)
    ensures MetB(b, Stop(c, fd, fmin, fmax, Put(b, bd, d, x), bmin, bmax), x, x - d)
  {
    hide FFront, BFront, Limits;
  }

  // ----- one pass over all active diagonals

  /** Beyond the limits of the previous cost nothing has been reached. */
  lemma FSentinel(b: Box, c: int, lo: int, hi: int, e: int)
    requires b.Valid() && Limits(b, b.FMid(), c, lo, hi) && SameParity(e, b.FMid(), c)
    requires e < lo || hi < e
    ensures FSide(b, c, e, -1)
  {
    forall x | FAt(b, c, e, x) ensures false {
      CostBounds(b, x, x - e);
      InLimits(b, b.FMid(), c, lo, hi, e);
    }
  }

  lemma BSentinel(b: Box, c: int, lo: int, hi: int, e: int)
    requires b.Valid() && Limits(b, b.BMid(), c, lo, hi) && SameParity(e, b.BMid(), c)
    requires e < lo || hi < e
    ensures BSide(b, c, e, OFFSET_MAX)
  {
    forall x | BAt(b, c, e, x) ensures false {
      CostBounds(b, x, x - e);
      InLimits(b, b.BMid(), c, lo, hi, e);
    }
  }

  lemma FrontsCross(b: Box, c: int, e: int, d: int, f: int, r: int, x: int)
    requires b.Valid() && FFront(b, c, d, f) && BFront(b, e, d, r) && FAt(b, c, d, x) && BAt(b, e, d, x)
    ensures r <= f
  {}

  /** A shortest path of cost `c + e` has a point on a diagonal that both
      searches cover. */
  lemma DiagonalAtCost(b: Box, c: nat) returns (x: int, d: int)
    requires b.Valid() && c <= b.Total()
    ensures FAt(b, c, d, x) && BAt(b, b.Total() - c, d, x)
    ensures b.DMin() <= d <= b.DMax() && Diagonal(b, d)
    ensures b.FMid() - c <= d <= b.FMid() + c && SameParity(d, b.FMid(), c)
    ensures b.BMid() - (b.Total() - c) <= d <= b.BMid() + (b.Total() - c)
    ensures SameParity(d, b.BMid(), b.Total() - c)
  {
    var y;
    x, y := PointAtCost(b, c);
    d := x - y;
    assert x - d == y;
    CostBounds(b, x, y);
  }

  /** If the frontiers are apart on all shared diagonals, no path of cost
      `c + e` exists. */
  lemma ApartMeansLonger(b: Box, fd: seq<int>, bd: seq<int>, c: nat, e: nat,
                         fmin: int, fmax: int, bmin: int, bmax: int)
    requires b.Valid() && Cells(b, fd) && Cells(b, bd) && c + e <= b.Total()
    requires Limits(b, b.FMid(), c, fmin, fmax) && FStage(b, fd, c, fmin, fmax)
    requires Limits(b, b.BMid(), e, bmin, bmax) && BStage(b, bd, e, bmin, bmax)
    requires Apart(b, fd, bd, Max(fmin, bmin), Min(fmax, bmax), c)
    ensures c + e < b.Total()
  {
    hide Box.Reach, Box.Leave, Box.Total, FFront, BFront, SameParity;
    if c + e == b.Total() {
      var x, d := DiagonalAtCost(b, c);
      InLimits(b, b.FMid(), c, fmin, fmax, d);
      InLimits(b, b.BMid(), e, bmin, bmax, d);
      FrontsCross(b, c, e, d, At(b, fd, d), At(b, bd, d), x);
      assert false;
    }
  }

  lemma FFrontIsSide(b: Box, c: int, d: int, v: int)
    requires b.Valid() && FFront(b, c, d, v)
    ensures FSide(b, c, d, v) && v != -1
  {}

  lemma BFrontIsSide(b: Box, c: int, d: int, v: int)
    requires b.Valid() && BFront(b, c, d, v) && b.xlim < OFFSET_MAX
    ensures BSide(b, c, d, v) && v != OFFSET_MAX
  {}

  /** The cells before a pass: the previous stage, widened by sentinels where
      the limits grow. */
  function OpenF(b: Box, fd: seq<int>, lo: int, hi: int): (r: seq<int>)
    requires b.Valid() && Cells(b, fd) && b.DMin() <= lo <= hi <= b.DMax()
    ensures Cells(b, r)
  {
    var s := if lo > b.DMin() then Put(b, fd, lo - 2, -1) else fd;
    if hi < b.DMax() then Put(b, s, hi + 2, -1) else s
  }

  /** The cells a new stage reads: those of the last stage and two sentinels. */
  lemma FOpened(b: Box, fd: seq<int>, c: int, lo: int, hi: int, d: int)
    requires b.Valid() && Cells(b, fd) && Diagonal(b, d) && SameParity(d, b.FMid(), c)
    requires Limits(b, b.FMid(), c, lo, hi) && NextLo(b, lo) - 1 <= d <= NextHi(b, hi) + 1
    ensures At(b, OpenF(b, fd, lo, hi), d) == if lo <= d <= hi then At(b, fd, d) else -1
  {}

  lemma FOpenCell(b: Box, fd: seq<int>, c: int, lo: int, hi: int, d: int)
    requires b.Valid() && Cells(b, fd) && Diagonal(b, d) && SameParity(d, b.FMid(), c)
    requires Limits(b, b.FMid(), c, lo, hi) && FStage(b, fd, c, lo, hi)
    requires NextLo(b, lo) - 1 <= d <= NextHi(b, hi) + 1
    ensures FSide(b, c, d, At(b, OpenF(b, fd, lo, hi), d))
    ensures lo <= d <= hi ==> At(b, OpenF(b, fd, lo, hi), d) != -1
  {
    hide FFront, FSide;
    FOpened(b, fd, c, lo, hi, d);
    hide OpenF, NextLo, NextHi, At;
    if lo <= d <= hi {
      FFrontIsSide(b, c, d, At(b, fd, d));
    } else {
      FSentinel(b, c, lo, hi, d);
    }
  }

  lemma FOpens(b: Box, fd: seq<int>, c: int, lo: int, hi: int)
    requires b.Trimmed() && Cells(b, fd) && 0 < c
    requires Limits(b, b.FMid(), c - 1, lo, hi) && FStage(b, fd, c - 1, lo, hi)
    ensures FReady(b, OpenF(b, fd, lo, hi), c, NextLo(b, lo), NextHi(b, hi))
  {
    hide FFront, FSide, SameParity, OpenF, FStage;
    var r := OpenF(b, fd, lo, hi);
    forall d | NextLo(b, lo) <= d <= NextHi(b, hi) && SameParity(d, b.FMid(), c) && Diagonal(b, d - 1)
               && Diagonal(b, d + 1)
      ensures FPair(b, c, d, At(b, r, d - 1), At(b, r, d + 1))
    {
      ParityStep(d, b.FMid(), c);
      FOpenCell(b, fd, c - 1, lo, hi, d - 1);
      FOpenCell(b, fd, c - 1, lo, hi, d + 1);
    }
  }

  lemma FPassStep(b: Box, fd: seq<int>, c: int, d: int, x: int, fmin: int, fmax: int)
    requires b.Valid() && Cells(b, fd) && Diagonal(b, d) && SameParity(d, b.FMid(), c) && FFront(b, c, d, x)
    requires FReady(b, fd, c, fmin, d) && FStage(b, fd, c, d + 1, fmax)
    ensures FReady(b, Put(b, fd, d, x), c, fmin, d - 2)
    ensures FStage(b, Put(b, fd, d, x), c, d - 1, fmax)
  {
    hide FFront, FSide, FPair;
  }

  lemma ApartStepF(b: Box, fd: seq<int>, bd: seq<int>, c: int, d: int, x: int, lo: int, hi: int)
    requires Cells(b, fd) && Cells(b, bd) && Diagonal(b, d) && SameParity(d, b.FMid(), c)
    requires Apart(b, fd, bd, Max(d + 1, lo), hi, c)
    requires lo <= d <= hi ==> x < At(b, bd, d)
    ensures Apart(b, Put(b, fd, d, x), bd, Max(d - 1, lo), hi, c)
  {}

  lemma FMeet(b: Box, bd: seq<int>, c: int, d: int, f: int, bmin: int, bmax: int)
    requires b.Valid() && Cells(b, bd) && 0 < c && 2 * (c - 1) < b.Total() && (b.FMid() - b.BMid()) % 2 == 1
    requires Diagonal(b, d) && SameParity(d, b.FMid(), c) && b.FMid() - c <= d <= b.FMid() + c && bmin <= d <= bmax
    requires BStage(b, bd, c - 1, bmin, bmax) && Limits(b, b.BMid(), c - 1, bmin, bmax)
    requires FFront(b, c, d, f) && At(b, bd, d) <= f
    ensures FAt(b, c, d, f) && BAt(b, c - 1, d, f)
  {
    hide Box.Reach, Box.Leave, Box.Total, SameParity, FCover, BCover, FReach, BReach, FAt, BAt;
    OtherParity(d, b.FMid(), b.BMid(), c);
    var r := At(b, bd, d);
    assert BFront(b, c - 1, d, r);
    OverlapSplits(b, c, c - 1, d, f, r);
  }

  method OpenForward(ctx: SearchContext, b: Box, ghost c: int, fmin0: int, fmax0: int)
    returns (fmin: int, fmax: int)
    requires ctx.Covers(b) && b.Trimmed() && 0 < c
    requires Limits(b, b.FMid(), c - 1, fmin0, fmax0) && FStage(b, ctx.fdiag[..], c - 1, fmin0, fmax0)
    modifies ctx.fdiag
    ensures Limits(b, b.FMid(), c, fmin, fmax)
    ensures FReady(b, ctx.fdiag[..], c, fmin, fmax)
  {
    hide FFront, SameParity, FStage, FReady;
    var off := |ctx.yv| + 1;
    fmin, fmax := fmin0, fmax0;
    if fmin > b.DMin() {
      fmin := fmin - 1;
      ctx.fdiag[fmin - 1 + off] := -1;
    } else {
      fmin := fmin + 1;
    }
    if fmax < b.DMax() {
      fmax := fmax + 1;
      ctx.fdiag[fmax + 1 + off] := -1;
    } else {
      fmax := fmax - 1;
    }
    FOpens(b, old(ctx.fdiag[..]), c, fmin0, fmax0);
    NextLimits(b, b.FMid(), c, fmin0, fmax0);
    assert ctx.fdiag[..] == OpenF(b, old(ctx.fdiag[..]), fmin0, fmax0);
  }

  /** Computes the forward frontier of one diagonal and stores it. */
  method ForwardCell(ctx: SearchContext, b: Box, ghost c: int, d: int, ghost fmin: int, ghost fmax: int)
    returns (x: int, bigSnake: bool)
    requires ctx.Covers(b) && b.DMin() <= d <= b.DMax() && fmin <= d && SameParity(d, b.FMid(), c)
    requires FReady(b, ctx.fdiag[..], c, fmin, d) && FStage(b, ctx.fdiag[..], c, d + 1, fmax)
    modifies ctx.fdiag
    ensures FFront(b, c, d, x) && ctx.fdiag[..] == Put(b, old(ctx.fdiag[..]), d, x)
    ensures bigSnake <==> SnakeF(b, old(ctx.fdiag[..]), d, x) > SNAKE_LIMIT
    ensures FReady(b, ctx.fdiag[..], c, fmin, d - 2) && FStage(b, ctx.fdiag[..], c, d - 1, fmax)
  {
    hide SameParity, FFront, FPair, FStage;
    var off := |ctx.yv| + 1;
    ghost var fd := ctx.fdiag[..];
    var tlo := ctx.fdiag[d - 1 + off];
    var thi := ctx.fdiag[d + 1 + off];
    assert tlo == At(b, fd, d - 1) && thi == At(b, fd, d + 1);
    x, bigSnake := ExtendForward(b, c, d, tlo, thi);
    ctx.fdiag[d + off] := x;
    assert ctx.fdiag[..] == Put(b, fd, d, x);
    FPassStep(b, fd, c, d, x, fmin, fmax);
  }

  method ForwardPass(ctx: SearchContext, b: Box, ghost c: int, odd: bool,
                     fmin0: int, fmax0: int, bmin: int, bmax: int)
    returns (met: bool, xmid: int, ymid: int, bigSnake: bool, fmin: int, fmax: int)
    requires ctx.Covers(b) && b.Trimmed() && 0 < c
    requires odd <==> (b.FMid() - b.BMid()) % 2 == 1
    requires Limits(b, b.FMid(), c - 1, fmin0, fmax0) && FStage(b, ctx.fdiag[..], c - 1, fmin0, fmax0)
    requires Limits(b, b.BMid(), c - 1, bmin, bmax) && BStage(b, ctx.bdiag[..], c - 1, bmin, bmax)
    requires 2 * (c - 1) < b.Total()
    modifies ctx.fdiag
    ensures Limits(b, b.FMid(), c, fmin, fmax)
    ensures met ==> odd && FAt(b, c, xmid - ymid, xmid) && BAt(b, c - 1, xmid - ymid, xmid)
    ensures met ==> MetF(b, Stop(c, ctx.fdiag[..], fmin, fmax, ctx.bdiag[..], bmin, bmax), xmid, ymid)
    ensures !met ==> (bigSnake <==> LongF(b, ctx.fdiag[..], c, fmin, fmax))
    ensures !met ==> FStage(b, ctx.fdiag[..], c, fmin, fmax)
    ensures !met && odd ==> Apart(b, ctx.fdiag[..], ctx.bdiag[..], Max(fmin, bmin), Min(fmax, bmax), c)
  {
    hide Box.Total, SameParity, FFront, FAt, BAt;
    hide FStage, BStage, FReady, Apart, At, Put, LongF, MetF, SnakeF;
    met, xmid, ymid, bigSnake := false, 0, 0, false;
    var off := |ctx.yv| + 1;
    fmin, fmax := OpenForward(ctx, b, c, fmin0, fmax0);
    ghost var bd := ctx.bdiag[..];
    ghost var lo, hi := Max(fmin, bmin), Min(fmax, bmax);
    EmptyRange(b, ctx.fdiag[..], bd, c, fmax, lo, hi);
    NothingLong(b, ctx.fdiag[..], bd, c, fmax);
    var d := fmax;
    while d >= fmin
      invariant fmin - 2 <= d <= fmax && SameParity(d, b.FMid(), c)
      invariant FReady(b, ctx.fdiag[..], c, fmin, d)
      invariant FStage(b, ctx.fdiag[..], c, d + 1, fmax)
      invariant odd ==> Apart(b, ctx.fdiag[..], bd, Max(d + 1, lo), hi, c)
      invariant bigSnake <==> LongF(b, ctx.fdiag[..], c, d + 1, fmax)
      decreases d - fmin
    {
      ParityStep(d, b.FMid(), c);
      ghost var fd := ctx.fdiag[..];
      LimitDiagonal(b, d);
      var x, big := ForwardCell(ctx, b, c, d, fmin, fmax);
      LongStepF(b, fd, c, d, x, fmax);
      bigSnake := bigSnake || big;
      if odd {
        BackCell(b, bd, d);
        if bmin <= d <= bmax && ctx.bdiag[d + off] <= x {
          FMeet(b, bd, c, d, x, bmin, bmax);
          MetFAt(b, c, fd, fmin, fmax, bd, bmin, bmax, d, x);
          return true, x, x - d, bigSnake, fmin, fmax;
        }
        ApartStepF(b, fd, bd, c, d, x, lo, hi);
      }
      d := d - 2;
    }
    Narrow(b, ctx.fdiag[..], bd, c, d, fmin, fmax);
    NarrowLongF(b, ctx.fdiag[..], c, d, fmin, fmax);
  }

  lemma BackCell(b: Box, bd: seq<int>, d: int)
    requires Cells(b, bd) && Diagonal(b, d)
    ensures At(b, bd, d) == bd[d + |b.yv| + 1]
  {}

  lemma NothingLong(b: Box, fd: seq<int>, bd: seq<int>, c: int, at: int)
    requires Cells(b, fd) && Cells(b, bd)
    ensures !LongF(b, fd, c, at + 1, at) && !LongB(b, bd, c, at + 1, at)
  {}

  lemma LimitDiagonal(b: Box, d: int)
    requires b.Valid() && b.DMin() <= d <= b.DMax()
    ensures Diagonal(b, d) && Diagonal(b, d - 1) && Diagonal(b, d + 1)
  {}

  /** An empty range holds no frontier and no meeting, ... */
  lemma EmptyRange(b: Box, fd: seq<int>, bd: seq<int>, c: int, at: int, lo: int, hi: int)
    requires b.Valid() && Cells(b, fd) && Cells(b, bd)
    ensures FStage(b, fd, c, at + 1, at) && BStage(b, bd, c, at + 1, at)
    ensures hi <= at ==> Apart(b, fd, bd, Max(at + 1, lo), hi, c)
  {}

  /** ... and what holds of a range holds of a part of it. */
  lemma Narrow(b: Box, fd: seq<int>, bd: seq<int>, c: int, d: int, lo: int, hi: int)
    requires b.Valid() && Cells(b, fd) && Cells(b, bd) && d < lo
    ensures FStage(b, fd, c, d + 1, hi) ==> FStage(b, fd, c, lo, hi)
    ensures BStage(b, bd, c, d + 1, hi) ==> BStage(b, bd, c, lo, hi)
  {}

  lemma NarrowLongF(b: Box, fd: seq<int>, c: int, d: int, lo: int, hi: int)
    requires Cells(b, fd) && lo - 2 <= d < lo && SameParity(d, b.FMid(), c)
    ensures LongF(b, fd, c, d + 1, hi) <==> LongF(b, fd, c, lo, hi)
  {
    hide LongAtF;
    assert !SameParity(d + 1, b.FMid(), c);
  }

  lemma NarrowLongB(b: Box, bd: seq<int>, c: int, d: int, lo: int, hi: int)
    requires Cells(b, bd) && lo - 2 <= d < lo && SameParity(d, b.BMid(), c)
    ensures LongB(b, bd, c, d + 1, hi) <==> LongB(b, bd, c, lo, hi)
  {
    hide LongAtB;
    assert !SameParity(d + 1, b.BMid(), c);
  }

  // ----- the bottom-up search

  function OpenB(b: Box, bd: seq<int>, lo: int, hi: int): (r: seq<int>)
    requires b.Valid() && Cells(b, bd) && b.DMin() <= lo <= hi <= b.DMax()
    ensures Cells(b, r)
  {
    var s := if lo > b.DMin() then Put(b, bd, lo - 2, OFFSET_MAX) else bd;
    if hi < b.DMax() then Put(b, s, hi + 2, OFFSET_MAX) else s
  }

  /** The cells a new stage reads: those of the last stage and two sentinels. */
  lemma BOpened(b: Box, bd: seq<int>, c: int, lo: int, hi: int, d: int)
    requires b.Valid() && Cells(b, bd) && Diagonal(b, d) && SameParity(d, b.BMid(), c)
    requires Limits(b, b.BMid(), c, lo, hi) && NextLo(b, lo) - 1 <= d <= NextHi(b, hi) + 1
    ensures At(b, OpenB(b, bd, lo, hi), d) == if lo <= d <= hi then At(b, bd, d) else OFFSET_MAX
  {}

  lemma BOpenCell(b: Box, bd: seq<int>, c: int, lo: int, hi: int, d: int)
    requires b.Valid() && Cells(b, bd) && Diagonal(b, d) && SameParity(d, b.BMid(), c) && b.xlim < OFFSET_MAX
    requires Limits(b, b.BMid(), c, lo, hi) && BStage(b, bd, c, lo, hi)
    requires NextLo(b, lo) - 1 <= d <= NextHi(b, hi) + 1
    ensures BSide(b, c, d, At(b, OpenB(b, bd, lo, hi), d))
    ensures lo <= d <= hi ==> At(b, OpenB(b, bd, lo, hi), d) != OFFSET_MAX
  {
    hide BFront, BSide;
    BOpened(b, bd, c, lo, hi, d);
    hide OpenB, NextLo, NextHi, At;
    if lo <= d <= hi {
      BFrontIsSide(b, c, d, At(b, bd, d));
    } else {
      BSentinel(b, c, lo, hi, d);
    }
  }

  lemma BOpens(b: Box, bd: seq<int>, c: int, lo: int, hi: int)
    requires b.Trimmed() && Cells(b, bd) && 0 < c && b.xlim < OFFSET_MAX
    requires Limits(b, b.BMid(), c - 1, lo, hi) && BStage(b, bd, c - 1, lo, hi)
    ensures BReady(b, OpenB(b, bd, lo, hi), c, NextLo(b, lo), NextHi(b, hi))
  {
    hide BFront, BSide, SameParity, OpenB, BStage;
    var r := OpenB(b, bd, lo, hi);
    forall d | NextLo(b, lo) <= d <= NextHi(b, hi) && SameParity(d, b.BMid(), c) && Diagonal(b, d - 1)
               && Diagonal(b, d + 1)
      ensures BPair(b, c, d, At(b, r, d - 1), At(b, r, d + 1))
    {
      ParityStep(d, b.BMid(), c);
      BOpenCell(b, bd, c - 1, lo, hi, d - 1);
      BOpenCell(b, bd, c - 1, lo, hi, d + 1);
    }
  }

  lemma BPassStep(b: Box, bd: seq<int>, c: int, d: int, x: int, bmin: int, bmax: int)
    requires b.Valid() && Cells(b, bd) && Diagonal(b, d) && SameParity(d, b.BMid(), c) && BFront(b, c, d, x)
    requires BReady(b, bd, c, bmin, d) && BStage(b, bd, c, d + 1, bmax)
    ensures BReady(b, Put(b, bd, d, x), c, bmin, d - 2)
    ensures BStage(b, Put(b, bd, d, x), c, d - 1, bmax)
  {
    hide BFront, BSide, BPair;
  }

  lemma ApartStepB(b: Box, fd: seq<int>, bd: seq<int>, c: int, d: int, x: int, lo: int, hi: int)
    requires Cells(b, fd) && Cells(b, bd) && Diagonal(b, d)
    requires SameParity(d, b.BMid(), c) && (b.FMid() - b.BMid()) % 2 == 0
    requires Apart(b, fd, bd, Max(d + 1, lo), hi, c)
    requires lo <= d <= hi ==> At(b, fd, d) < x
    ensures Apart(b, fd, Put(b, bd, d, x), Max(d - 1, lo), hi, c)
  {}

  lemma EvenParity(d: int, f: int, b: int, c: int)
    requires (f - b) % 2 == 0
    ensures SameParity(d, f, c) <==> SameParity(d, b, c)
  {}

  lemma BMeet(b: Box, fd: seq<int>, c: int, d: int, r: int, fmin: int, fmax: int)
    requires b.Valid() && Cells(b, fd) && 0 < c && 2 * c <= b.Total() && (b.FMid() - b.BMid()) % 2 == 0
    requires Diagonal(b, d) && SameParity(d, b.BMid(), c) && b.BMid() - c <= d <= b.BMid() + c && fmin <= d <= fmax
    requires FStage(b, fd, c, fmin, fmax) && Limits(b, b.FMid(), c, fmin, fmax)
    requires BFront(b, c, d, r) && r <= At(b, fd, d)
    ensures FAt(b, c, d, r) && BAt(b, c, d, r)
  {
    hide Box.Reach, Box.Leave, Box.Total, SameParity, FCover, BCover, FReach, BReach, FAt, BAt;
    EvenParity(d, b.FMid(), b.BMid(), c);
    var f := At(b, fd, d);
    assert FFront(b, c, d, f);
    OverlapSplits(b, c, c, d, f, r);
  }

  method OpenBackward(ctx: SearchContext, b: Box, ghost c: int, bmin0: int, bmax0: int)
    returns (bmin: int, bmax: int)
    requires ctx.Covers(b) && b.Trimmed() && 0 < c
    requires Limits(b, b.BMid(), c - 1, bmin0, bmax0) && BStage(b, ctx.bdiag[..], c - 1, bmin0, bmax0)
    modifies ctx.bdiag
    ensures Limits(b, b.BMid(), c, bmin, bmax)
    ensures BReady(b, ctx.bdiag[..], c, bmin, bmax)
  {
    hide BFront, SameParity, BStage, BReady;
    var off := |ctx.yv| + 1;
    bmin, bmax := bmin0, bmax0;
    if bmin > b.DMin() {
      bmin := bmin - 1;
      ctx.bdiag[bmin - 1 + off] := OFFSET_MAX;
    } else {
      bmin := bmin + 1;
    }
    if bmax < b.DMax() {
      bmax := bmax + 1;
      ctx.bdiag[bmax + 1 + off] := OFFSET_MAX;
    } else {
      bmax := bmax - 1;
    }
    BOpens(b, old(ctx.bdiag[..]), c, bmin0, bmax0);
    NextLimits(b, b.BMid(), c, bmin0, bmax0);
    assert ctx.bdiag[..] == OpenB(b, old(ctx.bdiag[..]), bmin0, bmax0);
  }

  /** Computes the backward frontier of one diagonal and stores it. */
  method BackwardCell(ctx: SearchContext, b: Box, ghost c: int, d: int, ghost bmin: int, ghost bmax: int)
    returns (x: int, bigSnake: bool)
    requires ctx.Covers(b) && b.DMin() <= d <= b.DMax() && bmin <= d && SameParity(d, b.BMid(), c)
    requires BReady(b, ctx.bdiag[..], c, bmin, d) && BStage(b, ctx.bdiag[..], c, d + 1, bmax)
    modifies ctx.bdiag
    ensures BFront(b, c, d, x) && ctx.bdiag[..] == Put(b, old(ctx.bdiag[..]), d, x)
    ensures bigSnake <==> SnakeB(b, old(ctx.bdiag[..]), d, x) > SNAKE_LIMIT
    ensures BReady(b, ctx.bdiag[..], c, bmin, d - 2) && BStage(b, ctx.bdiag[..], c, d - 1, bmax)
  {
    hide SameParity, BFront, BPair, BStage;
    var off := |ctx.yv| + 1;
    ghost var bd := ctx.bdiag[..];
    var tlo := ctx.bdiag[d - 1 + off];
    var thi := ctx.bdiag[d + 1 + off];
    assert tlo == At(b, bd, d - 1) && thi == At(b, bd, d + 1);
    x, bigSnake := ExtendBackward(b, c, d, tlo, thi);
    ctx.bdiag[d + off] := x;
    assert ctx.bdiag[..] == Put(b, bd, d, x);
    BPassStep(b, bd, c, d, x, bmin, bmax);
  }

  method BackwardPass(ctx: SearchContext, b: Box, ghost c: int, odd: bool,
                      bmin0: int, bmax0: int, fmin: int, fmax: int)
    returns (met: bool, xmid: int, ymid: int, bigSnake: bool, bmin: int, bmax: int)
    requires ctx.Covers(b) && b.Trimmed() && 0 < c
    requires odd <==> (b.FMid() - b.BMid()) % 2 == 1
    requires Limits(b, b.BMid(), c - 1, bmin0, bmax0) && BStage(b, ctx.bdiag[..], c - 1, bmin0, bmax0)
    requires Limits(b, b.FMid(), c, fmin, fmax) && FStage(b, ctx.fdiag[..], c, fmin, fmax)
    requires !odd ==> 2 * c <= b.Total()
    modifies ctx.bdiag
    ensures Limits(b, b.BMid(), c, bmin, bmax)
    ensures met ==> !odd && FAt(b, c, xmid - ymid, xmid) && BAt(b, c, xmid - ymid, xmid)
    ensures met ==> MetB(b, Stop(c, ctx.fdiag[..], fmin, fmax, ctx.bdiag[..], bmin, bmax), xmid, ymid)
    ensures !met ==> (bigSnake <==> LongB(b, ctx.bdiag[..], c, bmin, bmax))
    ensures !met ==> BStage(b, ctx.bdiag[..], c, bmin, bmax)
    ensures !met && !odd ==> Apart(b, ctx.fdiag[..], ctx.bdiag[..], Max(fmin, bmin), Min(fmax, bmax), c)
  {
    hide Box.Total, SameParity, BFront, FAt, BAt;
    hide FStage, BStage, BReady, Apart, At, Put, LongB, MetB, SnakeB;
    met, xmid, ymid, bigSnake := false, 0, 0, false;
    var off := |ctx.yv| + 1;
    bmin, bmax := OpenBackward(ctx, b, c, bmin0, bmax0);
    ghost var fd := ctx.fdiag[..];
    ghost var lo, hi := Max(fmin, bmin), Min(fmax, bmax);
    EmptyRange(b, fd, ctx.bdiag[..], c, bmax, lo, hi);
    NothingLong(b, fd, ctx.bdiag[..], c, bmax);
    var d := bmax;
    while d >= bmin
      invariant bmin - 2 <= d <= bmax && SameParity(d, b.BMid(), c)
      invariant BReady(b, ctx.bdiag[..], c, bmin, d)
      invariant BStage(b, ctx.bdiag[..], c, d + 1, bmax)
      invariant !odd ==> Apart(b, fd, ctx.bdiag[..], Max(d + 1, lo), hi, c)
      invariant bigSnake <==> LongB(b, ctx.bdiag[..], c, d + 1, bmax)
      decreases d - bmin
    {
      ParityStep(d, b.BMid(), c);
      ghost var bd := ctx.bdiag[..];
      LimitDiagonal(b, d);
      var x, big := BackwardCell(ctx, b, c, d, bmin, bmax);
      LongStepB(b, bd, c, d, x, bmax);
      bigSnake := bigSnake || big;
      if !odd {
        BackCell(b, fd, d);
        if fmin <= d <= fmax && x <= ctx.fdiag[d + off] {
          BMeet(b, fd, c, d, x, fmin, fmax);
          MetBAt(b, c, fd, fmin, fmax, bd, bmin, bmax, d, x);
          return true, x, x - d, bigSnake, bmin, bmax;
        }
        ApartStepB(b, fd, bd, c, d, x, lo, hi);
      }
      d := d - 2;
    }
    Narrow(b, fd, ctx.bdiag[..], c, d, bmin, bmax);
    NarrowLongB(b, ctx.bdiag[..], c, d, bmin, bmax);
  }

  // ----- giving up early

  /** `d` is one of the diagonals searched at cost `c`. */
  ghost predicate Searched(b: Box, mid: int, c: int, lo: int, hi: int, d: int) {
    lo <= d <= hi && SameParity(d, mid, c) && Diagonal(b, d)
  }

  /** The point of diagonal `d` at `v`, pulled back into the box. */
  function ClipF(b: Box, d: int, v: int): int {
    var x := Min(v, b.xlim);
    if b.ylim < x - d then b.ylim + d else x
  }

  function ClipB(b: Box, d: int, v: int): int {
    var x := Max(b.xoff, v);
    if x - d < b.yoff then b.yoff + d else x
  }

  lemma FLeavesCorner(b: Box, c: int, v: int)
    requires b.Trimmed() && 2 <= c && FFront(b, c, b.FMid(), v)
    ensures b.xoff < v
  {
    Borders(b, b.xoff + 1, b.yoff);
    ReachStepY(b, b.xoff + 1, b.yoff);
    assert FAt(b, c, b.FMid(), b.xoff + 1);
  }

  lemma BLeavesCorner(b: Box, c: int, v: int)
    requires b.Trimmed() && 2 <= c && BFront(b, c, b.BMid(), v)
    ensures v < b.xlim
  {
    Borders(b, b.xlim - 1, b.ylim);
    LeaveStepY(b, b.xlim - 1, b.ylim);
    assert BAt(b, c, b.BMid(), b.xlim - 1);
  }

  /** After an unsuccessful stage every clipped forward frontier has left the
      upper left corner and not arrived at the lower right one. */
  lemma ClipFProgress(b: Box, c: int, d: int, v: int)
    requires b.Trimmed() && 0 < c && 2 * c < b.Total() && b.DMin() <= d <= b.DMax()
    requires SameParity(d, b.FMid(), c) && FFront(b, c, d, v)
    ensures b.Inside(ClipF(b, d, v), ClipF(b, d, v) - d)
    ensures b.xoff + b.yoff < ClipF(b, d, v) + ClipF(b, d, v) - d
    ensures ClipF(b, d, v) != b.xlim || ClipF(b, d, v) - d != b.ylim
  {
    Borders(b, b.xoff, b.yoff);
    if d == b.FMid() {
      FLeavesCorner(b, c, v);
    }
  }

  lemma ClipBProgress(b: Box, c: int, d: int, v: int)
    requires b.Trimmed() && 0 < c && 2 * c < b.Total() && b.DMin() <= d <= b.DMax()
    requires SameParity(d, b.BMid(), c) && BFront(b, c, d, v)
    ensures b.Inside(ClipB(b, d, v), ClipB(b, d, v) - d)
    ensures ClipB(b, d, v) + ClipB(b, d, v) - d < b.xlim + b.ylim
    ensures ClipB(b, d, v) != b.xoff || ClipB(b, d, v) - d != b.yoff
  {
    Borders(b, b.xlim, b.ylim);
    if d == b.BMid() {
      BLeavesCorner(b, c, v);
    }
  }

  /** Cost changes by at most one per step to the side. */
  lemma {:induction false} ReachNear(b: Box, x: int, y: int, m: nat, n: nat)
    requires b.Valid() && b.Inside(x, y) && b.Inside(x + m, y + n)
    ensures b.Reach(x, y) <= b.Reach(x + m, y + n) + m + n
    decreases m + n
  {
    hide Box.Reach;
    if m > 0 {
      ReachNear(b, x + 1, y, m - 1, n);
      ReachStepX(b, x, y);
    } else if n > 0 {
      ReachNear(b, x, y + 1, m, n - 1);
      ReachStepY(b, x, y);
    }
  }

  lemma {:induction false} LeaveNear(b: Box, x: int, y: int, m: nat, n: nat)
    requires b.Valid() && b.Inside(x, y) && b.Inside(x - m, y - n)
    ensures b.Leave(x, y) <= b.Leave(x - m, y - n) + m + n
    decreases m + n
  {
    hide Box.Leave;
    if m > 0 {
      LeaveNear(b, x - 1, y, m - 1, n);
      LeaveStepX(b, x, y);
    } else if n > 0 {
      LeaveNear(b, x, y - 1, m, n - 1);
      LeaveStepY(b, x, y);
    }
  }

  /** Pulling a frontier back into the box does not raise its cost. */
  lemma ClipFCost(b: Box, c: int, d: int, v: int)
    requires b.Valid() && FReach(b, c, v, v - d) && b.Inside(ClipF(b, d, v), ClipF(b, d, v) - d)
    ensures b.Reach(ClipF(b, d, v), ClipF(b, d, v) - d) <= c
  {
    hide Box.Reach;
    var x := ClipF(b, d, v);
    ReachNear(b, x, x - d, Min(v, b.xlim) - x, Min(v - d, b.ylim) - (x - d));
  }

  lemma ClipBCost(b: Box, c: int, d: int, v: int)
    requires b.Valid() && BReach(b, c, v, v - d) && b.Inside(ClipB(b, d, v), ClipB(b, d, v) - d)
    ensures b.Leave(ClipB(b, d, v), ClipB(b, d, v) - d) <= c
  {
    hide Box.Leave;
    var x := ClipB(b, d, v);
    LeaveNear(b, x, x - d, x - Max(v, b.xoff), (x - d) - Max(v - d, b.yoff));
  }

  /** (x, y) is the clipped cell of a forward diagonal, on no forward diagonal is
      x + y larger, and on none above it as large. */
  ghost predicate FurthestF(b: Box, fd: seq<int>, c: int, lo: int, hi: int, x: int, y: int)
    requires Cells(b, fd)
  {
    && Searched(b, b.FMid(), c, lo, hi, x - y) && x == ClipF(b, x - y, At(b, fd, x - y))
    && LeadsF(b, fd, c, lo, hi, x - y, x + y)
  }

  /** No clipped cell of the range has come further than `best`, and none above
      diagonal `at` as far. */
  ghost predicate LeadsF(b: Box, fd: seq<int>, c: int, lo: int, hi: int, at: int, best: int)
    requires Cells(b, fd)
  {
    forall e :: lo <= e <= hi && SameParity(e, b.FMid(), c) && Diagonal(b, e) ==>
      if e > at then 2 * ClipF(b, e, At(b, fd, e)) - e < best else 2 * ClipF(b, e, At(b, fd, e)) - e <= best
  }

  lemma LeadsNothingF(b: Box, fd: seq<int>, c: int, d: int, at: int, best: int)
    requires Cells(b, fd)
    ensures LeadsF(b, fd, c, d + 1, d, at, best)
  {}

  lemma LeadsStepF(b: Box, fd: seq<int>, c: int, d: int, hi: int, at: int, best: int)
    requires Cells(b, fd) && Diagonal(b, d) && SameParity(d, b.FMid(), c) && d <= hi && (d < hi ==> d < at)
    requires LeadsF(b, fd, c, d + 1, hi, at, best)
    ensures var here := 2 * ClipF(b, d, At(b, fd, d)) - d;
            if best < here then LeadsF(b, fd, c, d - 1, hi, d, here)
            else d < at ==> LeadsF(b, fd, c, d - 1, hi, at, best)
  {
    hide ClipF;
    assert !SameParity(d - 1, b.FMid(), c);
  }

  lemma LeadsNarrowF(b: Box, fd: seq<int>, c: int, d: int, lo: int, hi: int, at: int, best: int)
    requires Cells(b, fd) && LeadsF(b, fd, c, d + 1, hi, at, best) && d < lo
    ensures LeadsF(b, fd, c, lo, hi, at, best)
  {
    hide ClipF, SameParity;
  }

  ghost predicate FurthestB(b: Box, bd: seq<int>, c: int, lo: int, hi: int, x: int, y: int)
    requires Cells(b, bd)
  {
    && Searched(b, b.BMid(), c, lo, hi, x - y) && x == ClipB(b, x - y, At(b, bd, x - y))
    && LeadsB(b, bd, c, lo, hi, x - y, x + y)
  }

  /** No clipped cell of the range has come further than `best`, and none above
      diagonal `at` as far. */
  ghost predicate LeadsB(b: Box, bd: seq<int>, c: int, lo: int, hi: int, at: int, best: int)
    requires Cells(b, bd)
  {
    forall e :: lo <= e <= hi && SameParity(e, b.BMid(), c) && Diagonal(b, e) ==>
      if e > at then best < 2 * ClipB(b, e, At(b, bd, e)) - e else best <= 2 * ClipB(b, e, At(b, bd, e)) - e
  }

  lemma LeadsNothingB(b: Box, bd: seq<int>, c: int, d: int, at: int, best: int)
    requires Cells(b, bd)
    ensures LeadsB(b, bd, c, d + 1, d, at, best)
  {}

  lemma LeadsStepB(b: Box, bd: seq<int>, c: int, d: int, hi: int, at: int, best: int)
    requires Cells(b, bd) && Diagonal(b, d) && SameParity(d, b.BMid(), c) && d <= hi && (d < hi ==> d < at)
    requires LeadsB(b, bd, c, d + 1, hi, at, best)
    ensures var here := 2 * ClipB(b, d, At(b, bd, d)) - d;
            if here < best then LeadsB(b, bd, c, d - 1, hi, d, here)
            else d < at ==> LeadsB(b, bd, c, d - 1, hi, at, best)
  {
    hide ClipB;
    assert !SameParity(d - 1, b.BMid(), c);
  }

  lemma LeadsNarrowB(b: Box, bd: seq<int>, c: int, d: int, lo: int, hi: int, at: int, best: int)
    requires Cells(b, bd) && LeadsB(b, bd, c, d + 1, hi, at, best) && d < lo
    ensures LeadsB(b, bd, c, lo, hi, at, best)
  {
    hide ClipB, SameParity;
  }

  /** Two furthest points have come equally far. */
  lemma EquallyFarF(b: Box, fd: seq<int>, c: int, lo: int, hi: int, x: int, y: int, p: int, q: int)
    requires Cells(b, fd) && FurthestF(b, fd, c, lo, hi, x, y) && FurthestF(b, fd, c, lo, hi, p, q)
    ensures x + y == p + q
  {
    hide ClipF, SameParity;
    assert Searched(b, b.FMid(), c, lo, hi, x - y) && Searched(b, b.FMid(), c, lo, hi, p - q);
  }

  lemma EquallyFarB(b: Box, bd: seq<int>, c: int, lo: int, hi: int, x: int, y: int, p: int, q: int)
    requires Cells(b, bd) && FurthestB(b, bd, c, lo, hi, x, y) && FurthestB(b, bd, c, lo, hi, p, q)
    ensures x + y == p + q
  {
    hide ClipB, SameParity;
    assert Searched(b, b.BMid(), c, lo, hi, x - y) && Searched(b, b.BMid(), c, lo, hi, p - q);
  }

  /** How far a point is from the corner its search started from. */
  function AwayF(b: Box, x: int, y: int): int { x + y - (b.xoff + b.yoff) }
  function AwayB(b: Box, x: int, y: int): int { b.xlim + b.ylim - (x + y) }

  /** Inside the box and neither of its corners. */
  ghost predicate Interior(b: Box, x: int, y: int) {
    && b.Inside(x, y)
    && !(x == b.xoff && y == b.yoff)
    && !(x == b.xlim && y == b.ylim)
  }

  /** The forward diagonal that maximizes x + y. */
  method BestForward(ctx: SearchContext, b: Box, ghost c: int, fmin: int, fmax: int)
    returns (fxbest: int, fxybest: int)
    requires ctx.Covers(b) && b.Trimmed() && 0 < c && 2 * c < b.Total()
    requires Limits(b, b.FMid(), c, fmin, fmax) && FStage(b, ctx.fdiag[..], c, fmin, fmax)
    ensures Interior(b, fxbest, fxybest - fxbest)
    ensures FurthestF(b, ctx.fdiag[..], c, fmin, fmax, fxbest, fxybest - fxbest)
    ensures b.Reach(fxbest, fxybest - fxbest) <= c
  {
    hide Box.Total, Box.Reach, Box.Leave, FFront, SameParity, ClipF, LeadsF;
    ghost var fd := ctx.fdiag[..];
    fxbest, fxybest := 0, -1;
    var d := fmax;
    ghost var at := d;
    LeadsNothingF(b, fd, c, d, at, fxybest);
    while d >= fmin
      invariant fmin - 2 <= d <= fmax && SameParity(d, b.FMid(), c)
      invariant d < fmax ==> Searched(b, b.FMid(), c, fmin, fmax, at) && Interior(b, fxbest, fxbest - at)
      invariant d < fmax ==> fxbest == ClipF(b, at, At(b, fd, at)) && fxybest == 2 * fxbest - at
      invariant d == fmax ==> fxybest == -1
      invariant d < fmax ==> d < at
      invariant LeadsF(b, fd, c, d + 1, fmax, at, fxybest)
      decreases d - fmin
    {
      var v := ctx.fdiag[d + |ctx.yv| + 1];
      assert v == At(b, fd, d);
      var x := ClipF(b, d, v);
      var y := x - d;
      ClipFProgress(b, c, d, v);
      LeadsStepF(b, fd, c, d, fmax, at, fxybest);
      if fxybest < x + y {
        fxybest, fxbest, at := x + y, x, d;
      }
      ParityStep(d, b.FMid(), c);
      d := d - 2;
    }
    ClipCostF(b, fd, c, fmin, fmax, at, fxbest);
    LeadsNarrowF(b, fd, c, d, fmin, fmax, at, fxybest);
    assert fxybest - fxbest == fxbest - at;
  }

  lemma ClipCostF(b: Box, fd: seq<int>, c: int, lo: int, hi: int, d: int, x: int)
    requires b.Valid() && Cells(b, fd) && FStage(b, fd, c, lo, hi) && Searched(b, b.FMid(), c, lo, hi, d)
    requires x == ClipF(b, d, At(b, fd, d)) && b.Inside(x, x - d)
    ensures b.Reach(x, x - d) <= c
  {
    ClipFCost(b, c, d, At(b, fd, d));
  }

  /** The backward diagonal that minimizes x + y. */
  method BestBackward(ctx: SearchContext, b: Box, ghost c: int, bmin: int, bmax: int)
    returns (bxbest: int, bxybest: int)
    requires ctx.Covers(b) && b.Trimmed() && 0 < c && 2 * c < b.Total()
    requires Limits(b, b.BMid(), c, bmin, bmax) && BStage(b, ctx.bdiag[..], c, bmin, bmax)
    ensures Interior(b, bxbest, bxybest - bxbest)
    ensures FurthestB(b, ctx.bdiag[..], c, bmin, bmax, bxbest, bxybest - bxbest)
    ensures b.Leave(bxbest, bxybest - bxbest) <= c
  {
    hide Box.Total, Box.Reach, Box.Leave, BFront, SameParity, ClipB, LeadsB;
    ghost var bd := ctx.bdiag[..];
    bxbest, bxybest := 0, OFFSET_MAX;
    var d := bmax;
    ghost var at := d;
    LeadsNothingB(b, bd, c, d, at, bxybest);
    while d >= bmin
      invariant bmin - 2 <= d <= bmax && SameParity(d, b.BMid(), c)
      invariant d < bmax ==> Searched(b, b.BMid(), c, bmin, bmax, at) && Interior(b, bxbest, bxbest - at)
      invariant d < bmax ==> bxbest == ClipB(b, at, At(b, bd, at)) && bxybest == 2 * bxbest - at
      invariant d == bmax ==> bxybest == OFFSET_MAX
      invariant d < bmax ==> d < at
      invariant LeadsB(b, bd, c, d + 1, bmax, at, bxybest)
      decreases d - bmin
    {
      var v := ctx.bdiag[d + |ctx.yv| + 1];
      assert v == At(b, bd, d);
      var x := ClipB(b, d, v);
      var y := x - d;
      ClipBProgress(b, c, d, v);
      LeadsStepB(b, bd, c, d, bmax, at, bxybest);
      if x + y < bxybest {
        bxybest, bxbest, at := x + y, x, d;
      }
      ParityStep(d, b.BMid(), c);
      d := d - 2;
    }
    ClipCostB(b, bd, c, bmin, bmax, at, bxbest);
    LeadsNarrowB(b, bd, c, d, bmin, bmax, at, bxybest);
    assert bxybest - bxbest == bxbest - at;
  }

  lemma ClipCostB(b: Box, bd: seq<int>, c: int, lo: int, hi: int, d: int, x: int)
    requires b.Valid() && Cells(b, bd) && BStage(b, bd, c, lo, hi) && Searched(b, b.BMid(), c, lo, hi, d)
    requires x == ClipB(b, d, At(b, bd, d)) && b.Inside(x, x - d)
    ensures b.Leave(x, x - d) <= c
  {
    ClipBCost(b, c, d, At(b, bd, d));
  }

  /** The point is the furthest of one of the two searches, and further from its
      start than the furthest of the other. Only the half behind it is minimal. */
  ghost predicate Better(b: Box, s: Stop, part: Partition)
    requires b.Valid() && s.For(b)
  {
    && part.loMinimal != part.hiMinimal
    && (part.loMinimal ==>
          && FurthestF(b, s.fd, s.cost, s.fmin, s.fmax, part.xmid, part.ymid)
          && forall x, y :: FurthestB(b, s.bd, s.cost, s.bmin, s.bmax, x, y) ==>
               AwayB(b, x, y) < AwayF(b, part.xmid, part.ymid))
    && (part.hiMinimal ==>
          && FurthestB(b, s.bd, s.cost, s.bmin, s.bmax, part.xmid, part.ymid)
          && forall x, y :: FurthestF(b, s.fd, s.cost, s.fmin, s.fmax, x, y) ==>
               AwayF(b, x, y) <= AwayB(b, part.xmid, part.ymid))
  }

  /** The better of the two best results so far, once the search costs too much.
      The half behind it costs at most what was spent. */
  method GiveUp(ctx: SearchContext, b: Box, ghost c: int, fmin: int, fmax: int, bmin: int, bmax: int)
    returns (part: Partition)
    requires ctx.Covers(b) && b.Trimmed() && 0 < c && 2 * c < b.Total()
    requires Limits(b, b.FMid(), c, fmin, fmax) && FStage(b, ctx.fdiag[..], c, fmin, fmax)
    requires Limits(b, b.BMid(), c, bmin, bmax) && BStage(b, ctx.bdiag[..], c, bmin, bmax)
    ensures Interior(b, part.xmid, part.ymid)
    ensures Better(b, Stop(c, ctx.fdiag[..], fmin, fmax, ctx.bdiag[..], bmin, bmax), part)
    ensures part.loMinimal ==> b.Reach(part.xmid, part.ymid) <= c
    ensures part.hiMinimal ==> b.Leave(part.xmid, part.ymid) <= c
  {
    hide Box.Reach, Box.Leave, Box.Total, FurthestF, FurthestB, FStage, BStage;
    var fx, fxy := BestForward(ctx, b, c, fmin, fmax);
    var bx, bxy := BestBackward(ctx, b, c, bmin, bmax);
    ghost var fd, bd := ctx.fdiag[..], ctx.bdiag[..];
    forall x, y | FurthestF(b, fd, c, fmin, fmax, x, y) ensures x + y == fxy {
      EquallyFarF(b, fd, c, fmin, fmax, x, y, fx, fxy - fx);
    }
    forall x, y | FurthestB(b, bd, c, bmin, bmax, x, y) ensures x + y == bxy {
      EquallyFarB(b, bd, c, bmin, bmax, x, y, bx, bxy - bx);
    }
    if b.xlim + b.ylim - bxy < fxy - (b.xoff + b.yoff) {
      part := Partition(fx, fxy - fx, true, false);
    } else {
      part := Partition(bx, bxy - bx, false, true);
    }
  }

  function Abs(i: int): int { if i < 0 then -i else i }

  /** The SNAKE_LIMIT elements before (x, y) match. */
  method SnakeBefore(b: Box, x: int, y: int) returns (r: bool)
    requires b.Valid()
    requires b.xoff + SNAKE_LIMIT <= x < b.xlim && b.yoff + SNAKE_LIMIT <= y < b.ylim
    ensures r <==> b.xv[x - SNAKE_LIMIT..x] == b.yv[y - SNAKE_LIMIT..y]
  {
    var k := 1;
    while b.xv[x - k] == b.yv[y - k]
      invariant 1 <= k <= SNAKE_LIMIT
      invariant b.xv[x - k + 1..x] == b.yv[y - k + 1..y]
      decreases SNAKE_LIMIT - k
    {
      assert b.xv[x - k..x] == [b.xv[x - k]] + b.xv[x - k + 1..x];
      assert b.yv[y - k..y] == [b.yv[y - k]] + b.yv[y - k + 1..y];
      if k == SNAKE_LIMIT {
        return true;
      }
      k := k + 1;
    }
    assert b.xv[x - SNAKE_LIMIT..x][SNAKE_LIMIT - k] == b.xv[x - k];
    assert b.yv[y - SNAKE_LIMIT..y][SNAKE_LIMIT - k] == b.yv[y - k];
    return false;
  }

  method SnakeAfter(b: Box, x: int, y: int) returns (r: bool)
    requires b.Valid()
    requires b.xoff < x <= b.xlim - SNAKE_LIMIT && b.yoff < y <= b.ylim - SNAKE_LIMIT
    ensures r <==> b.xv[x..x + SNAKE_LIMIT] == b.yv[y..y + SNAKE_LIMIT]
  {
    var k := 0;
    while b.xv[x + k] == b.yv[y + k]
      invariant 0 <= k < SNAKE_LIMIT
      invariant b.xv[x..x + k] == b.yv[y..y + k]
      decreases SNAKE_LIMIT - k
    {
      assert b.xv[x..x + k + 1] == b.xv[x..x + k] + [b.xv[x + k]];
      assert b.yv[y..y + k + 1] == b.yv[y..y + k] + [b.yv[y + k]];
      if k == SNAKE_LIMIT - 1 {
        return true;
      }
      k := k + 1;
    }
    assert b.xv[x..x + SNAKE_LIMIT][k] == b.xv[x + k] && b.yv[y..y + SNAKE_LIMIT][k] == b.yv[y + k];
    return false;
  }

  /** Progress of the forward (backward) search at `x` on diagonal `d`, and
      whether it is enough for cost `c`, inside the box and ends in a snake. */
  function ProgressF(b: Box, d: int, x: int): int { (x - b.xoff) * 2 - (d - b.FMid()) }
  function ProgressB(b: Box, d: int, x: int): int { (b.xlim - x) * 2 + (d - b.BMid()) }

  predicate GoodF(b: Box, c: int, d: int, x: int)
    requires b.Valid()
  {
    && ProgressF(b, d, x) > 12 * (c + Abs(d - b.FMid()))
    && b.xoff + SNAKE_LIMIT <= x < b.xlim && b.yoff + SNAKE_LIMIT <= x - d < b.ylim
    && b.xv[x - SNAKE_LIMIT..x] == b.yv[x - d - SNAKE_LIMIT..x - d]
  }

  predicate GoodB(b: Box, c: int, d: int, x: int)
    requires b.Valid()
  {
    && ProgressB(b, d, x) > 12 * (c + Abs(d - b.BMid()))
    && b.xoff < x <= b.xlim - SNAKE_LIMIT && b.yoff < x - d <= b.ylim - SNAKE_LIMIT
    && b.xv[x..x + SNAKE_LIMIT] == b.yv[x - d..x - d + SNAKE_LIMIT]
  }

  lemma GoodPositive(b: Box, c: int, d: int, x: int)
    requires b.Valid() && 0 <= c
    ensures GoodF(b, c, d, x) ==> ProgressF(b, d, x) > 0
    ensures GoodB(b, c, d, x) ==> ProgressB(b, d, x) > 0
  {}

  /** (x, y) is the cell that has made the most progress of those that are good, and
      the one on the highest diagonal of those. */
  ghost predicate BestSnakeF(b: Box, fd: seq<int>, c: int, lo: int, hi: int, x: int, y: int)
    requires b.Valid() && Cells(b, fd)
  {
    && Searched(b, b.FMid(), c, lo, hi, x - y) && x == At(b, fd, x - y) && GoodF(b, c, x - y, x)
    && forall d :: Searched(b, b.FMid(), c, lo, hi, d) && GoodF(b, c, d, At(b, fd, d)) ==>
         if d > x - y then ProgressF(b, d, At(b, fd, d)) < ProgressF(b, x - y, x)
         else ProgressF(b, d, At(b, fd, d)) <= ProgressF(b, x - y, x)
  }

  ghost predicate BestSnakeB(b: Box, bd: seq<int>, c: int, lo: int, hi: int, x: int, y: int)
    requires b.Valid() && Cells(b, bd)
  {
    && Searched(b, b.BMid(), c, lo, hi, x - y) && x == At(b, bd, x - y) && GoodB(b, c, x - y, x)
    && forall d :: Searched(b, b.BMid(), c, lo, hi, d) && GoodB(b, c, d, At(b, bd, d)) ==>
         if d > x - y then ProgressB(b, d, At(b, bd, d)) < ProgressB(b, x - y, x)
         else ProgressB(b, d, At(b, bd, d)) <= ProgressB(b, x - y, x)
  }

  ghost predicate NoSnakeF(b: Box, fd: seq<int>, c: int, lo: int, hi: int)
    requires b.Valid() && Cells(b, fd)
  {
    forall d :: Searched(b, b.FMid(), c, lo, hi, d) ==> !GoodF(b, c, d, At(b, fd, d))
  }

  ghost predicate NoSnakeB(b: Box, bd: seq<int>, c: int, lo: int, hi: int)
    requires b.Valid() && Cells(b, bd)
  {
    forall d :: Searched(b, b.BMid(), c, lo, hi, d) ==> !GoodB(b, c, d, At(b, bd, d))
  }

  method BetterF(b: Box, c: int, d: int, x: int, best: int) returns (r: bool)
    requires b.Valid() && 0 <= c
    ensures r <==> GoodF(b, c, d, x) && ProgressF(b, d, x) > best
  {
    var dd := d - b.FMid();
    var y := x - d;
    var v := (x - b.xoff) * 2 - dd;
    r := false;
    if v > 12 * (c + Abs(dd)) {
      if v > best && b.xoff + SNAKE_LIMIT <= x < b.xlim && b.yoff + SNAKE_LIMIT <= y < b.ylim {
        r := SnakeBefore(b, x, y);
      }
    }
  }

  method BetterB(b: Box, c: int, d: int, x: int, best: int) returns (r: bool)
    requires b.Valid() && 0 <= c
    ensures r <==> GoodB(b, c, d, x) && ProgressB(b, d, x) > best
  {
    var dd := d - b.BMid();
    var y := x - d;
    var v := (b.xlim - x) * 2 + dd;
    r := false;
    if v > 12 * (c + Abs(dd)) {
      if v > best && b.xoff < x <= b.xlim - SNAKE_LIMIT && b.yoff < y <= b.ylim - SNAKE_LIMIT {
        r := SnakeAfter(b, x, y);
      }
    }
  }

  /** The forward diagonal that has made the most progress, if one has made
      enough and ends in a significant snake. */
  method BigSnakeForward(ctx: SearchContext, b: Box, c: int, fmin: int, fmax: int)
    returns (best: int, xmid: int, ymid: int)
    requires ctx.Covers(b) && 0 <= c && Limits(b, b.FMid(), c, fmin, fmax)
    ensures best > 0 ==> GoodF(b, c, xmid - ymid, xmid) && best == ProgressF(b, xmid - ymid, xmid)
    ensures best > 0 ==>
              Searched(b, b.FMid(), c, fmin, fmax, xmid - ymid) && xmid == At(b, ctx.fdiag[..], xmid - ymid)
    ensures forall d :: fmin <= d <= fmax && SameParity(d, b.FMid(), c) && Diagonal(b, d) ==>
              GoodF(b, c, d, At(b, ctx.fdiag[..], d)) ==> ProgressF(b, d, At(b, ctx.fdiag[..], d)) <= best
    ensures best > 0 ==> BestSnakeF(b, ctx.fdiag[..], c, fmin, fmax, xmid, ymid)
    ensures best > 0 <==> !NoSnakeF(b, ctx.fdiag[..], c, fmin, fmax)
  {
    hide SameParity, GoodF;
    ghost var cells := ctx.fdiag[..];
    best, xmid, ymid := 0, 0, 0;
    var d := fmax;
    while d >= fmin
      invariant d <= fmax && SameParity(d, b.FMid(), c)
      invariant best >= 0
      invariant best > 0 ==> GoodF(b, c, xmid - ymid, xmid) && best == ProgressF(b, xmid - ymid, xmid)
      invariant best > 0 ==> Searched(b, b.FMid(), c, fmin, fmax, xmid - ymid) && xmid == At(b, cells, xmid - ymid)
      invariant forall e :: d < e <= fmax && SameParity(e, b.FMid(), c) && Diagonal(b, e) ==>
                  GoodF(b, c, e, At(b, cells, e)) ==> ProgressF(b, e, At(b, cells, e)) <= best
      invariant best > 0 ==>
                  forall e :: xmid - ymid < e <= fmax && SameParity(e, b.FMid(), c) && Diagonal(b, e) ==>
                    GoodF(b, c, e, At(b, cells, e)) ==> ProgressF(b, e, At(b, cells, e)) < best
      invariant best > 0 ==> d < xmid - ymid
      decreases d - fmin
    {
      ParityStep(d, b.FMid(), c);
      var x := ctx.fdiag[d + |ctx.yv| + 1];
      assert x == At(b, cells, d);
      var better := BetterF(b, c, d, x, best);
      if better {
        GoodPositive(b, c, d, x);
        best, xmid, ymid := ProgressF(b, d, x), x, x - d;
      }
      d := d - 2;
    }
    if best == 0 {
      forall e | Searched(b, b.FMid(), c, fmin, fmax, e) ensures !GoodF(b, c, e, At(b, cells, e)) {
        GoodPositive(b, c, e, At(b, cells, e));
      }
    }
  }

  /** Likewise for the backward search. */
  method BigSnakeBackward(ctx: SearchContext, b: Box, c: int, bmin: int, bmax: int)
    returns (best: int, xmid: int, ymid: int)
    requires ctx.Covers(b) && 0 <= c && Limits(b, b.BMid(), c, bmin, bmax)
    ensures best > 0 ==> GoodB(b, c, xmid - ymid, xmid) && best == ProgressB(b, xmid - ymid, xmid)
    ensures best > 0 ==>
              Searched(b, b.BMid(), c, bmin, bmax, xmid - ymid) && xmid == At(b, ctx.bdiag[..], xmid - ymid)
    ensures forall d :: bmin <= d <= bmax && SameParity(d, b.BMid(), c) && Diagonal(b, d) ==>
              GoodB(b, c, d, At(b, ctx.bdiag[..], d)) ==> ProgressB(b, d, At(b, ctx.bdiag[..], d)) <= best
    ensures best > 0 ==> BestSnakeB(b, ctx.bdiag[..], c, bmin, bmax, xmid, ymid)
    ensures best > 0 <==> !NoSnakeB(b, ctx.bdiag[..], c, bmin, bmax)
  {
    hide SameParity, GoodB;
    ghost var cells := ctx.bdiag[..];
    best, xmid, ymid := 0, 0, 0;
    var d := bmax;
    while d >= bmin
      invariant d <= bmax && SameParity(d, b.BMid(), c)
      invariant best >= 0
      invariant best > 0 ==> GoodB(b, c, xmid - ymid, xmid) && best == ProgressB(b, xmid - ymid, xmid)
      invariant best > 0 ==> Searched(b, b.BMid(), c, bmin, bmax, xmid - ymid) && xmid == At(b, cells, xmid - ymid)
      invariant forall e :: d < e <= bmax && SameParity(e, b.BMid(), c) && Diagonal(b, e) ==>
                  GoodB(b, c, e, At(b, cells, e)) ==> ProgressB(b, e, At(b, cells, e)) <= best
      invariant best > 0 ==>
                  forall e :: xmid - ymid < e <= bmax && SameParity(e, b.BMid(), c) && Diagonal(b, e) ==>
                    GoodB(b, c, e, At(b, cells, e)) ==> ProgressB(b, e, At(b, cells, e)) < best
      invariant best > 0 ==> d < xmid - ymid
      decreases d - bmin
    {
      ParityStep(d, b.BMid(), c);
      var x := ctx.bdiag[d + |ctx.yv| + 1];
      assert x == At(b, cells, d);
      var better := BetterB(b, c, d, x, best);
      if better {
        GoodPositive(b, c, d, x);
        best, xmid, ymid := ProgressB(b, d, x), x, x - d;
      }
      d := d - 2;
    }
    if best == 0 {
      forall e | Searched(b, b.BMid(), c, bmin, bmax, e) ensures !GoodB(b, c, e, At(b, cells, e)) {
        GoodPositive(b, c, e, At(b, cells, e));
      }
    }
  }

  // ----- the search

  lemma StartForward(b: Box, fd: seq<int>)
    requires b.Trimmed() && Cells(b, fd) && At(b, fd, b.FMid()) == b.xoff
    ensures Limits(b, b.FMid(), 0, b.FMid(), b.FMid()) && FStage(b, fd, 0, b.FMid(), b.FMid())
  {
    Borders(b, b.xoff, b.yoff);
    assert FFront(b, 0, b.FMid(), b.xoff) by {
      forall x | FAt(b, 0, b.FMid(), x) ensures x <= b.xoff {
        CostZero(b, x, x - b.FMid());
      }
    }
  }

  lemma StartBackward(b: Box, bd: seq<int>)
    requires b.Trimmed() && Cells(b, bd) && At(b, bd, b.BMid()) == b.xlim
    ensures Limits(b, b.BMid(), 0, b.BMid(), b.BMid()) && BStage(b, bd, 0, b.BMid(), b.BMid())
  {
    Borders(b, b.xlim, b.ylim);
    assert BFront(b, 0, b.BMid(), b.xlim) by {
      forall x | BAt(b, 0, b.BMid(), x) ensures b.xlim <= x {
        CostZero(b, x, x - b.BMid());
      }
    }
  }

  /** In a trimmed box nothing but the corners is free. */
  lemma CostZero(b: Box, x: int, y: int)
    requires b.Trimmed() && b.Inside(x, y)
    ensures b.Reach(x, y) <= 0 ==> x == b.xoff
    ensures b.Leave(x, y) <= 0 ==> x == b.xlim
  {
    var p, q := b.xv[b.xoff..x], b.yv[b.yoff..y];
    var r, s := b.xv[x..b.xlim], b.yv[y..b.ylim];
    DistNonNegative(p, q);
    DistNonNegative(r, s);
    if Dist(p, q) == 0 && b.xoff < x {
      DistZero(p, q);
      EndsAgree(p, q);
      assert false;
    }
    if Dist(r, s) == 0 && x < b.xlim {
      DistZero(r, s);
      EndsAgree(r, s);
      assert false;
    }
  }

  lemma EndsAgree(p: seq<int>, q: seq<int>)
    requires p == q && p != []
    ensures q != [] && p[0] == q[0] && p[|p| - 1] == q[|q| - 1]
  {}

  lemma MeetingIsMinimal(b: Box, c: int, e: int, x: int, y: int)
    requires b.Trimmed() && 0 < c && 0 <= e <= c && c + e <= b.Total() && c <= e + 1
    requires FAt(b, c, x - y, x) && BAt(b, e, x - y, x)
    ensures Interior(b, x, y) && b.Reach(x, y) + b.Leave(x, y) == b.Total()
  {
    assert x - (x - y) == y;
    CostBounds(b, x, y);
    Borders(b, b.xoff, b.yoff);
    TrimmedTotal(b);
  }

  /** The search of such a box ends before it may be cut short. */
  ghost predicate Cheap(heuristic: bool, tooExpensive: int, b: Box)
    requires b.Valid()
  {
    b.Total() <= 2 * tooExpensive && (heuristic ==> b.Total() <= 2 * (HEURISTIC_COST + 1))
  }

  /** The search is cut short: at the best long snake, if there is one and the
      heuristic is on, otherwise for its cost. */
  ghost predicate CutShort(b: Box, heuristic: bool, tooExpensive: int, part: Partition, s: Stop)
    requires b.Valid() && s.For(b)
  {
    && Limits(b, b.FMid(), s.cost, s.fmin, s.fmax) && FStage(b, s.fd, s.cost, s.fmin, s.fmax)
    && Limits(b, b.BMid(), s.cost, s.bmin, s.bmax) && BStage(b, s.bd, s.cost, s.bmin, s.bmax)
    && if Snaking(b, heuristic, s) && !NoSnakeF(b, s.fd, s.cost, s.fmin, s.fmax) then
         part.loMinimal && !part.hiMinimal && BestSnakeF(b, s.fd, s.cost, s.fmin, s.fmax, part.xmid, part.ymid)
       else if Snaking(b, heuristic, s) && !NoSnakeB(b, s.bd, s.cost, s.bmin, s.bmax) then
         !part.loMinimal && part.hiMinimal && BestSnakeB(b, s.bd, s.cost, s.bmin, s.bmax, part.xmid, part.ymid)
       else
         s.cost >= tooExpensive && Better(b, s, part)
  }

  ghost predicate Snaking(b: Box, heuristic: bool, s: Stop)
    requires b.Valid() && s.For(b)
  {
    && heuristic && HEURISTIC_COST < s.cost
    && (LongF(b, s.fd, s.cost, s.fmin, s.fmax) || LongB(b, s.bd, s.cost, s.bmin, s.bmax))
  }

  /** How a search ends: at the first meeting of the two frontiers, or cut short no
      later than at the cost limit. */
  ghost predicate Ends(b: Box, findMinimal: bool, heuristic: bool, tooExpensive: int, part: Partition, s: Stop)
    requires b.Valid()
  {
    && s.For(b) && 2 * (s.cost - 1) < b.Total() && (!findMinimal ==> s.cost <= Max(1, tooExpensive))
    && if part.loMinimal && part.hiMinimal then
         if (b.FMid() - b.BMid()) % 2 == 1 then MetF(b, s, part.xmid, part.ymid) else MetB(b, s, part.xmid, part.ymid)
       else
         !findMinimal && 2 * s.cost < b.Total() && CutShort(b, heuristic, tooExpensive, part, s)
  }

  /** A cell at cost `c` inside the box costs at most `c`. */
  lemma CellCost(b: Box, fd: seq<int>, bd: seq<int>, c: int, lo: int, hi: int, x: int, y: int)
    requires b.Valid() && Cells(b, fd) && Cells(b, bd) && b.Inside(x, y) && Diagonal(b, x - y)
    ensures FStage(b, fd, c, lo, hi) && Searched(b, b.FMid(), c, lo, hi, x - y) && x == At(b, fd, x - y) ==>
              b.Reach(x, y) <= c
    ensures BStage(b, bd, c, lo, hi) && Searched(b, b.BMid(), c, lo, hi, x - y) && x == At(b, bd, x - y) ==>
              b.Leave(x, y) <= c
  {
    hide Box.Reach, Box.Leave, FCover, BCover;
    assert x - (x - y) == y;
  }

  /** The end of a search of a cheap box, or one that is not to be cut short, is a
      meeting; and a meeting lies on a shortest path. */
  lemma ExactSplit(b: Box, minimal: bool, heuristic: bool, tooExpensive: int, part: Partition, s: Stop)
    requires b.Trimmed() && Ends(b, minimal, heuristic, tooExpensive, part, s)
    requires b.Inside(part.xmid, part.ymid)
    ensures minimal || Cheap(heuristic, tooExpensive, b) ==> part.loMinimal && part.hiMinimal
    ensures part.loMinimal && part.hiMinimal ==>
              b.Reach(part.xmid, part.ymid) + b.Leave(part.xmid, part.ymid) == b.Total()
  {
    hide Box.Reach, Box.Leave, Box.Total, FStage, BStage, Limits, SameParity, LongF, LongB;
    hide NoSnakeF, NoSnakeB, BestSnakeF, BestSnakeB, Better, Apart;
    if part.loMinimal && part.hiMinimal {
      MeetingSplits(b, part.xmid, part.ymid, s);
    }
  }

  lemma MeetingSplits(b: Box, x: int, y: int, s: Stop)
    requires b.Trimmed() && s.For(b) && 2 * (s.cost - 1) < b.Total() && b.Inside(x, y)
    requires if (b.FMid() - b.BMid()) % 2 == 1 then MetF(b, s, x, y) else MetB(b, s, x, y)
    ensures b.Reach(x, y) + b.Leave(x, y) == b.Total()
  {
    hide Box.Reach, Box.Leave, Box.Total, FStage, BStage, FAt, BAt, Apart;
    var c := s.cost;
    TotalParity(b);
    if (b.FMid() - b.BMid()) % 2 == 1 {
      MetFPoint(b, x, y, s);
      MeetingIsMinimal(b, c, c - 1, x, y);
    } else {
      MetBPoint(b, x, y, s);
      MeetingIsMinimal(b, c, c, x, y);
    }
  }

  lemma TotalParity(b: Box)
    requires b.Trimmed()
    ensures (b.Total() - (b.FMid() - b.BMid())) % 2 == 0
  {
    hide Box.Total;
    TotalBounds(b, b.xoff, b.yoff);
  }

  lemma MetFPoint(b: Box, x: int, y: int, s: Stop)
    requires b.Trimmed() && s.For(b) && 2 * (s.cost - 1) < b.Total() && (b.FMid() - b.BMid()) % 2 == 1
    requires MetF(b, s, x, y)
    ensures FAt(b, s.cost, x - y, x) && BAt(b, s.cost - 1, x - y, x)
  {
    hide Box.Reach, Box.Leave, Box.Total, FAt, BAt, FFront, Apart, SameParity;
    var d := x - y;
    assert FFront(b, s.cost, d, At(b, s.fd, d));
    hide FStage;
    FMeet(b, s.bd, s.cost, d, x, s.bmin, s.bmax);
  }

  lemma MetBPoint(b: Box, x: int, y: int, s: Stop)
    requires b.Trimmed() && s.For(b) && 2 * s.cost <= b.Total() && (b.FMid() - b.BMid()) % 2 == 0
    requires MetB(b, s, x, y)
    ensures FAt(b, s.cost, x - y, x) && BAt(b, s.cost, x - y, x)
  {
    hide Box.Reach, Box.Leave, Box.Total, FAt, BAt, BFront, Apart, SameParity;
    var d := x - y;
    assert BFront(b, s.cost, d, At(b, s.bd, d));
    hide BStage;
    BMeet(b, s.fd, s.cost, d, x, s.fmin, s.fmax);
  }

  /** Ends the search early if it may be ended. */
  method TryCutShort(ctx: SearchContext, b: Box, c: int, big: bool, fmin: int, fmax: int, bmin: int, bmax: int)
    returns (done: bool, part: Partition)
    requires ctx.Covers(b) && b.Trimmed() && 0 < c && 2 * c < b.Total()
    requires Limits(b, b.FMid(), c, fmin, fmax) && FStage(b, ctx.fdiag[..], c, fmin, fmax)
    requires Limits(b, b.BMid(), c, bmin, bmax) && BStage(b, ctx.bdiag[..], c, bmin, bmax)
    requires big <==> LongF(b, ctx.fdiag[..], c, fmin, fmax) || LongB(b, ctx.bdiag[..], c, bmin, bmax)
    ensures !done ==> c < ctx.tooExpensive
    ensures done ==>
              && Interior(b, part.xmid, part.ymid) && part.loMinimal != part.hiMinimal
              && ((ctx.heuristic && c > HEURISTIC_COST) || c >= ctx.tooExpensive)
              && (if part.loMinimal then b.Reach(part.xmid, part.ymid) <= c else b.Leave(part.xmid, part.ymid) <= c)
              && CutShort(b, ctx.heuristic, ctx.tooExpensive, part,
                          Stop(c, ctx.fdiag[..], fmin, fmax, ctx.bdiag[..], bmin, bmax))
  {
    hide Box.Reach, Box.Leave, Box.Total, FStage, BStage, Limits, SameParity, LongF, LongB;
    hide BestSnakeF, BestSnakeB, NoSnakeF, NoSnakeB, Better;
    if HEURISTIC_COST < c && big && ctx.heuristic {
      var best, xmid, ymid := BigSnakeForward(ctx, b, c, fmin, fmax);
      if best > 0 {
        CellCost(b, ctx.fdiag[..], ctx.bdiag[..], c, fmin, fmax, xmid, ymid);
        return true, Partition(xmid, ymid, true, false);
      }
      best, xmid, ymid := BigSnakeBackward(ctx, b, c, bmin, bmax);
      if best > 0 {
        CellCost(b, ctx.fdiag[..], ctx.bdiag[..], c, bmin, bmax, xmid, ymid);
        return true, Partition(xmid, ymid, false, true);
      }
    }
    done, part := c >= ctx.tooExpensive, Partition(0, 0, false, false);
    if done {
      part := GiveUp(ctx, b, c, fmin, fmax, bmin, bmax);
      OneHalf(b, Stop(c, ctx.fdiag[..], fmin, fmax, ctx.bdiag[..], bmin, bmax), part);
    }
  }

  lemma OneHalf(b: Box, s: Stop, part: Partition)
    requires b.Valid() && s.For(b) && Better(b, s, part)
    ensures part.loMinimal != part.hiMinimal
  {}

  /** Finds a point at which to split a trimmed box in two. It lies in the box
      and is neither corner; if both halves are flagged minimal, and always
      when `findMinimal` is set or the box is cheap, it lies on a shortest path.
      If only one half is, that half costs at most the cost searched so far. */
  method Diag(ctx: SearchContext, b: Box, findMinimal: bool) returns (part: Partition, ghost stop: Stop)
    requires ctx.Covers(b) && b.Trimmed()
    modifies ctx.fdiag, ctx.bdiag
    ensures Interior(b, part.xmid, part.ymid)
    ensures findMinimal || Cheap(ctx.heuristic, ctx.tooExpensive, b) ==> part.loMinimal && part.hiMinimal
    ensures part.loMinimal || part.hiMinimal
    ensures part.loMinimal && part.hiMinimal ==>
              b.Reach(part.xmid, part.ymid) + b.Leave(part.xmid, part.ymid) == b.Total()
    ensures Ends(b, findMinimal, ctx.heuristic, ctx.tooExpensive, part, stop)
    ensures !(part.loMinimal && part.hiMinimal) ==>
              && ((ctx.heuristic && stop.cost > HEURISTIC_COST) || stop.cost >= ctx.tooExpensive)
              && (if part.loMinimal then b.Reach(part.xmid, part.ymid) <= stop.cost
                  else b.Leave(part.xmid, part.ymid) <= stop.cost)
  {
    hide Box.Reach, Box.Leave, Box.Total, FStage, BStage, FAt, BAt, Apart, Limits, SameParity, LongF, LongB;
    hide MetF, MetB, CutShort, Interior;
    var off := |ctx.yv| + 1;
    var fmin, fmax := b.FMid(), b.FMid();
    var bmin, bmax := b.BMid(), b.BMid();
    var odd := (b.FMid() - b.BMid()) % 2 == 1;
    ctx.fdiag[b.FMid() + off] := b.xoff;
    ctx.bdiag[b.BMid() + off] := b.xlim;
    StartForward(b, ctx.fdiag[..]);
    StartBackward(b, ctx.bdiag[..]);
    TrimmedTotal(b);
    CostBounds(b, b.xoff, b.yoff);
    var c := 1;
    while true
      invariant 0 < c && 2 * (c - 1) < b.Total() && (!findMinimal ==> c <= Max(1, ctx.tooExpensive))
      invariant Limits(b, b.FMid(), c - 1, fmin, fmax) && FStage(b, ctx.fdiag[..], c - 1, fmin, fmax)
      invariant Limits(b, b.BMid(), c - 1, bmin, bmax) && BStage(b, ctx.bdiag[..], c - 1, bmin, bmax)
      decreases b.Total() - c
    {
      var met, xmid, ymid, bigF, bigB;
      met, xmid, ymid, bigF, fmin, fmax := ForwardPass(ctx, b, c, odd, fmin, fmax, bmin, bmax);
      if met {
        MeetingIsMinimal(b, c, c - 1, xmid, ymid);
        return Partition(xmid, ymid, true, true), Stop(c, ctx.fdiag[..], fmin, fmax, ctx.bdiag[..], bmin, bmax);
      }
      if odd {
        ApartMeansLonger(b, ctx.fdiag[..], ctx.bdiag[..], c, c - 1, fmin, fmax, bmin, bmax);
      }
      met, xmid, ymid, bigB, bmin, bmax := BackwardPass(ctx, b, c, odd, bmin, bmax, fmin, fmax);
      if met {
        MeetingIsMinimal(b, c, c, xmid, ymid);
        return Partition(xmid, ymid, true, true), Stop(c, ctx.fdiag[..], fmin, fmax, ctx.bdiag[..], bmin, bmax);
      }
      if !odd {
        ApartMeansLonger(b, ctx.fdiag[..], ctx.bdiag[..], c, c, fmin, fmax, bmin, bmax);
      }
      if !findMinimal {
        var done, cut := TryCutShort(ctx, b, c, bigF || bigB, fmin, fmax, bmin, bmax);
        if done {
          return cut, Stop(c, ctx.fdiag[..], fmin, fmax, ctx.bdiag[..], bmin, bmax);
        }
      }
      c := c + 1;
    }
  }
}
