/** Sets of code points as inversion lists, and the restricted binary search. */
module InversionList {

  const HIGH: int := 0x110000

  ghost predicate WellFormed(list: seq<int>) {
    && |list| > 0 && list[0] >= 0 && list[|list| - 1] == HIGH
    && forall i, j :: 0 <= i < j < |list| ==> list[i] < list[j]
  }

  function Limit(list: seq<int>, i: int): int
    requires 0 <= i < |list|
  {
    if i + 1 < |list| then list[i + 1] else HIGH
  }

  /** Range `i`, from the entry at an even index up to the next, holds `c`. */
  ghost predicate InRange(list: seq<int>, i: int, c: int) {
    0 <= i < |list| && i % 2 == 0 && list[i] <= c < Limit(list, i)
  }

  /** The set contains `c`: it lies in one of the ranges. */
  ghost predicate Member(list: seq<int>, c: int) {
    exists i :: InRange(list, i, c)
  }

  /** `i` is the smallest index with c < list[i]. */
  ghost predicate Position(list: seq<int>, c: int, i: int) {
    0 <= i < |list| && c < list[i] && (i > 0 ==> list[i - 1] <= c)
  }

  lemma EvenPosition(list: seq<int>, c: int, i: int, j: int)
    requires WellFormed(list) && Position(list, c, i) && i % 2 == 0
    ensures !InRange(list, j, c)
  {}

  /** Membership is the parity of the position. */
  lemma Parity(list: seq<int>, c: int, i: int)
    requires WellFormed(list) && Position(list, c, i)
    ensures Member(list, c) <==> i % 2 == 1
  {
    if i % 2 == 1 {
      assert InRange(list, i - 1, c);
    }
    forall j | i % 2 == 0 ensures !InRange(list, j, c) {
      EvenPosition(list, c, i, j);
    }
  }

  /** The search stays within [lo, hi] and finds the position if it is there. */
  method FindCodePoint(list: seq<int>, c: int, lo: int, hi: int) returns (i: int)
    requires WellFormed(list) && 0 <= lo <= hi < |list|
    requires (lo > 0 ==> list[lo - 1] <= c) && c < list[hi]
    ensures lo <= i <= hi && Position(list, c, i)
  {
    if c < list[lo] {
      return lo;
    }
    if lo >= hi || c >= list[hi - 1] {
      return hi;
    }
    var l, h := lo, hi;
    while true
      invariant lo <= l < h <= hi && list[l] <= c < list[h]
      decreases h - l
    {
      var m := (l + h) / 2;
      if m == l {
        break;
      } else if c < list[m] {
        h := m;
      } else {
        l := m;
      }
    }
    i := h;
  }

  method ContainsSlow(list: seq<int>, c: int, lo: int, hi: int) returns (r: bool)
    requires WellFormed(list) && 0 <= lo <= hi < |list|
    requires (lo > 0 ==> list[lo - 1] <= c) && c < list[hi]
    ensures r == Member(list, c)
  {
    var i := FindCodePoint(list, c, lo, hi);
    Parity(list, c, i);
    r := i % 2 == 1;
  }

  /** Positions of two bounds restrict the search for what lies between them. */
  lemma Restricted(list: seq<int>, from: int, to: int, lo: int, hi: int, c: int)
    requires WellFormed(list) && Position(list, from, lo) && Position(list, to, hi) && from <= c <= to
    ensures lo <= hi && (lo > 0 ==> list[lo - 1] <= c) && c < list[hi]
  {
  }

  // ----- ranges

  ghost predicate Full(list: seq<int>, lo: int, hi: int) {
    forall c :: lo <= c < hi ==> Member(list, c)
  }

  ghost predicate Empty(list: seq<int>, lo: int, hi: int) {
    forall c :: lo <= c < hi ==> !Member(list, c)
  }

  lemma RangeFull(list: seq<int>, i: int)
    requires WellFormed(list) && 0 <= i < |list| && i % 2 == 0
    ensures Full(list, list[i], Limit(list, i))
    ensures i < |list| - 1 ==> list[i] < Limit(list, i)
    ensures i == |list| - 1 ==> list[i] == Limit(list, i) == HIGH
    ensures 0 <= list[i] <= HIGH
  {
    forall c | list[i] <= c < Limit(list, i) ensures Member(list, c) {
      assert InRange(list, i, c);
    }
    assert i > 0 ==> list[0] < list[i];
  }

  /** Between two ranges there is nothing. */
  lemma GapEmpty(list: seq<int>, i: int, lo: int)
    requires WellFormed(list) && 0 <= i < |list| && i % 2 == 0
    requires i > 0 ==> list[i - 1] <= lo
    ensures Empty(list, lo, list[i])
  {
    forall c | lo <= c < list[i] ensures !Member(list, c) {
      assert Position(list, c, i);
      Parity(list, c, i);
    }
  }

  /** The range read at an even index, and where to read the next one. */
  method NextRange(list: seq<int>, i: int) returns (start: int, limit: int, next: int)
    requires WellFormed(list) && 0 <= i < |list| && i % 2 == 0
    ensures start == list[i] && limit == Limit(list, i) && Full(list, start, limit) && 0 <= start <= limit <= HIGH
    ensures start < HIGH ==> start < limit
    ensures limit < HIGH ==> next == i + 2 < |list| && limit < list[next] && Empty(list, limit, list[next])
  {
    RangeFull(list, i);
    next := i;
    start := list[next];
    next := next + 1;
    if next < |list| {
      limit := list[next];
      next := next + 1;
    } else {
      limit := HIGH;
    }
    if limit < HIGH {
      GapEmpty(list, i + 2, limit);
    }
  }
}
