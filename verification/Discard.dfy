/** The pre-filter of analyze.c: lines without a match in the other file are
    dropped before the comparison, lines with very many matches are dropped
    only inside runs of such lines. */
module Discard {
  import opened Flags

  const KEEP: int := 0
  const NO_MATCH: int := 1
  const PROVISIONAL: int := 2

  // ----- counting and thresholds

  function Count(v: seq<int>, x: int): nat {
    if v == [] then 0 else Count(v[..|v| - 1], x) + (if v[|v| - 1] == x then 1 else 0)
  }

  lemma {:induction false} CountPositive(v: seq<int>, x: int)
    ensures Count(v, x) > 0 <==> x in v
    decreases |v|
  {
    if v != [] {
      CountPositive(v[..|v| - 1], x);
      assert v == v[..|v| - 1] + [v[|v| - 1]];
    }
  }

  /** Number of lines in each equivalence class. */
  method CountEquivs(equivs: seq<int>, equivMax: nat) returns (counts: array<int>)
    requires forall k :: 0 <= k < |equivs| ==> 0 <= equivs[k] < equivMax
    ensures fresh(counts) && counts.Length == equivMax
    ensures forall x :: 0 <= x < equivMax ==> counts[x] == Count(equivs, x)
  {
    counts := new int[equivMax](_ => 0);
    for i := 0 to |equivs|
      invariant forall x :: 0 <= x < equivMax ==> counts[x] == Count(equivs[..i], x)
    {
      assert equivs[..i + 1][..i] == equivs[..i];
      counts[equivs[i]] := counts[equivs[i]] + 1;
    }
    assert equivs[..|equivs|] == equivs;
  }

  /** Doubles once for every two bits beyond the lowest two. */
  function Scale(t: nat): nat {
    if t / 4 == 0 then 1 else 2 * Scale(t / 4)
  }

  /** `Scale` is an approximate square root. */
  lemma {:induction false} ScaleIsRoot(t: nat)
    requires t > 0
    ensures Scale(t) * Scale(t) <= t < 4 * (Scale(t) * Scale(t))
  {
    if t / 4 > 0 {
      var h := Scale(t / 4);
      ScaleIsRoot(t / 4);
      var q := h * h;
      assert (2 * h) * (2 * h) == 4 * q;
    }
  }

  lemma ScaleStep(many: int, t: nat)
    requires t / 4 > 0
    ensures many * Scale(t) == (many * 2) * Scale(t / 4)
  {
    MulTwo(many, Scale(t / 4));
  }

  lemma MulTwo(a: int, h: int)
    ensures a * (2 * h) == (a * 2) * h
  {}

  /** `base` times an approximate square root of `t`. */
  method ScaleUp(t: nat, base: nat) returns (many: nat)
    ensures many == base * Scale(t)
  {
    many := base;
    var tem := t;
    while tem / 4 > 0
      invariant tem >= 0 && many * Scale(tem) == base * Scale(t)
      decreases tem
    {
      ScaleStep(many, tem);
      many := many * 2;
      tem := tem / 4;
    }
  }

  // ----- first classification

  /** Lines that match nothing, and lines that match too much; class 0 is kept. */
  function Class(x: int, nmatch: int, many: int): int {
    if x == 0 then KEEP
    else if nmatch == 0 then NO_MATCH
    else if nmatch > many then PROVISIONAL
    else KEEP
  }

  ghost predicate Classified(equivs: seq<int>, other: seq<int>, many: int, d: seq<int>) {
    |d| == |equivs| && forall k :: 0 <= k < |d| ==> d[k] == Class(equivs[k], Count(other, equivs[k]), many)
  }

  method Classify(equivs: seq<int>, ghost other: seq<int>, counts: array<int>) returns (discards: array<int>)
    requires forall k :: 0 <= k < |equivs| ==> 0 <= equivs[k] < counts.Length
    requires forall x :: 0 <= x < counts.Length ==> counts[x] == Count(other, x)
    ensures fresh(discards)
    ensures Classified(equivs, other, 5 * Scale(|equivs| / 64), discards[..])
  {
    var many := ScaleUp(|equivs| / 64, 5);
    discards := new int[|equivs|](_ => KEEP);
    for i := 0 to |equivs|
      invariant forall k :: 0 <= k < i ==> discards[k] == Class(equivs[k], Count(other, equivs[k]), many)
      invariant forall k :: i <= k < |equivs| ==> discards[k] == KEEP
    {
      if equivs[i] != 0 {
        var nmatch := counts[equivs[i]];
        if nmatch == 0 {
          discards[i] := NO_MATCH;
        } else if nmatch > many {
          discards[i] := PROVISIONAL;
        }
      }
    }
  }

  // ----- cancelling provisional discards

  ghost predicate Codes(d: seq<int>) {
    forall k :: 0 <= k < |d| ==> d[k] == KEEP || d[k] == NO_MATCH || d[k] == PROVISIONAL
  }

  /** `after` is `before` with some provisional discards cancelled. */
  ghost predicate Cancelled(before: seq<int>, after: seq<int>) {
    && |after| == |before|
    && forall k :: 0 <= k < |before| ==> after[k] == before[k] || (before[k] == PROVISIONAL && after[k] == KEEP)
  }

  /** `k` lies between two unmatched lines of one unbroken run of discards. */
  ghost predicate Enclosed(d: seq<int>, k: int, end: int) {
    exists a, b :: Encloses(d, a, k, b) && b < end
  }

  ghost predicate Encloses(d: seq<int>, a: int, k: int, b: int) {
    && 0 <= a < k < b < |d| && d[a] == NO_MATCH && d[b] == NO_MATCH
    && forall q :: a <= q <= b ==> d[q] != KEEP
  }

  ghost predicate Settled(d: seq<int>, end: int)
    requires 0 <= end <= |d|
  {
    forall k :: 0 <= k < end && d[k] == PROVISIONAL ==> Enclosed(d, k, end)
  }

  /** All of [a, b) is provisional. */
  ghost predicate Subrun(d: seq<int>, a: int, b: int)
    requires 0 <= a <= b <= |d|
  {
    forall k :: a <= k < b ==> d[k] == PROVISIONAL
  }

  /** `k` is part of a stretch of at least `n` provisionals inside [lo, hi). */
  ghost predicate InLongSubrun(d: seq<int>, lo: int, hi: int, k: int, n: int)
    requires 0 <= lo <= hi <= |d|
  {
    exists a, b :: lo <= a <= k < b <= hi && b - a >= n && Subrun(d, a, b)
  }

  /** A run of discardable lines that begins and ends with an unmatched one. */
  ghost predicate Run(d: seq<int>, lo: int, hi: int) {
    && 0 <= lo < hi <= |d| && d[lo] == NO_MATCH && d[hi - 1] == NO_MATCH
    && forall k :: lo <= k < hi ==> d[k] == NO_MATCH || d[k] == PROVISIONAL
  }

  /** Within the run either all or none of a stretch of provisionals went. */
  ghost predicate WholeSubruns(base: seq<int>, d: seq<int>, lo: int, hi: int)
    requires 0 <= lo <= hi <= |base| == |d|
  {
    && (forall k :: lo <= k < hi ==> d[k] == base[k] || (base[k] == PROVISIONAL && d[k] == KEEP))
    && (forall k :: lo < k < hi && base[k - 1] == PROVISIONAL && base[k] == PROVISIONAL ==> d[k - 1] == d[k])
  }

  /** Walking left (right) from a surviving provisional stays among survivors
      until it meets an unmatched line. */
  lemma {:induction false} WalkLeft(base: seq<int>, d: seq<int>, lo: int, hi: int, k: int) returns (a: int)
    requires Run(base, lo, hi) && |d| == |base| && WholeSubruns(base, d, lo, hi)
    requires lo <= k < hi && d[k] != KEEP
    ensures lo <= a <= k && d[a] == NO_MATCH && forall q :: a <= q <= k ==> d[q] != KEEP
    decreases k
  {
    if d[k] == NO_MATCH {
      a := k;
    } else {
      assert base[k] == PROVISIONAL && k > lo;
      a := WalkLeft(base, d, lo, hi, k - 1);
    }
  }

  lemma {:induction false} WalkRight(base: seq<int>, d: seq<int>, lo: int, hi: int, k: int) returns (b: int)
    requires Run(base, lo, hi) && |d| == |base| && WholeSubruns(base, d, lo, hi)
    requires lo <= k < hi && d[k] != KEEP
    ensures k <= b < hi && d[b] == NO_MATCH && forall q :: k <= q <= b ==> d[q] != KEEP
    decreases hi - k
  {
    if d[k] == NO_MATCH {
      b := k;
    } else {
      assert base[k] == PROVISIONAL && k < hi - 1;
      b := WalkRight(base, d, lo, hi, k + 1);
    }
  }

  lemma RunSettled(base: seq<int>, d: seq<int>, lo: int, hi: int)
    requires Run(base, lo, hi) && |d| == |base| && WholeSubruns(base, d, lo, hi)
    ensures forall k :: lo <= k < hi && d[k] == PROVISIONAL ==> Enclosed(d, k, hi)
  {
    forall k | lo <= k < hi && d[k] == PROVISIONAL ensures Enclosed(d, k, hi) {
      var a := WalkLeft(base, d, lo, hi, k);
      var b := WalkRight(base, d, lo, hi, k);
      assert Encloses(d, a, k, b);
    }
  }

  /** What cancelling the long stretches of a run means for one line. */
  ghost predicate LongGone(base: seq<int>, d: seq<int>, lo: int, hi: int, n: int, k: int)
    requires 0 <= lo <= k < hi <= |base| == |d|
  {
    d[k] == if base[k] == PROVISIONAL && InLongSubrun(base, lo, hi, k, n) then KEEP else base[k]
  }

  ghost predicate AllLongGone(base: seq<int>, d: seq<int>, lo: int, hi: int, n: int)
    requires 0 <= lo <= hi <= |base| == |d|
  {
    forall k :: lo <= k < hi ==> LongGone(base, d, lo, hi, n, k)
  }

  lemma ShortStretch(base: seq<int>, lo: int, hi: int, s: int, q: int, n: int, k: int)
    requires 0 <= lo <= s <= k < q < hi <= |base| && q - s < n
    requires s == lo || base[s - 1] != PROVISIONAL
    requires base[q] != PROVISIONAL
    ensures !InLongSubrun(base, lo, hi, k, n)
  {
    forall a, b | lo <= a <= k < b <= hi && b - a >= n ensures !Subrun(base, a, b) {
      if a < s {
        assert a <= s - 1 < b;
      } else {
        assert a <= q < b;
      }
    }
  }

  lemma LongStretch(base: seq<int>, lo: int, hi: int, s: int, q: int, n: int, k: int)
    requires 0 <= lo <= s <= k < q <= hi <= |base| && q - s >= n && Subrun(base, s, q)
    ensures InLongSubrun(base, lo, hi, k, n)
  {}

  /** Cancels every stretch of `minimum` or more provisionals in the run, by
      backing up to the start of a stretch once it has proved long enough. */
  method CancelLongSubruns(discards: array<int>, i: int, length: int, minimum: int)
    requires Run(discards[..], i, i + length) && minimum >= 1
    modifies discards
    ensures forall k :: 0 <= k < discards.Length && !(i <= k < i + length) ==> discards[k] == old(discards[k])
    ensures AllLongGone(old(discards[..]), discards[..], i, i + length, minimum)
  {
    hide InLongSubrun;
    ghost var base := discards[..];
    ghost var hi := i + length;
    ghost var s := i;  // start of the current stretch of provisionals
    var j, consec := 0, 0;
    while j < length
      invariant 0 <= j <= length && i <= s <= i + j && 0 <= consec
      invariant s == i + j - (if consec < minimum then consec else consec - minimum)
      invariant Subrun(base, s, i + j) && (s == i || base[s - 1] != PROVISIONAL)
      invariant consec >= minimum ==> s + minimum <= hi && Subrun(base, s, s + minimum)
      invariant forall k :: s <= k < i + j ==> discards[k] == if consec < minimum then base[k] else KEEP
      invariant forall k :: 0 <= k < i || i + j <= k < discards.Length ==> discards[k] == base[k]
      invariant forall k :: i <= k < s ==> LongGone(base, discards[..], i, hi, minimum, k)
      decreases hi - s, if consec < minimum then 1 else 0, length - j
    {
      ghost var d := discards[..];
      var q := i + j;
      if discards[q] != PROVISIONAL {
        forall k | s <= k < q ensures LongGone(base, d, i, hi, minimum, k) {
          if consec < minimum {
            ShortStretch(base, i, hi, s, q, minimum, k);
          } else {
            assert q >= s + minimum;
            LongStretch(base, i, hi, s, q, minimum, k);
          }
        }
        assert LongGone(base, d, i, hi, minimum, q);
        consec := 0;
        s := q + 1;
      } else {
        consec := consec + 1;
        if minimum == consec {
          j := j - consec;
        } else if minimum < consec {
          discards[q] := KEEP;
          forall k | i <= k < s ensures LongGone(base, discards[..], i, hi, minimum, k) {
            assert LongGone(base, d, i, hi, minimum, k);
          }
        }
      }
      j := j + 1;
    }
  }

  /** Cancelling all long stretches cancels whole stretches. */
  lemma LongGoneIsWhole(base: seq<int>, d: seq<int>, lo: int, hi: int, n: int)
    requires Run(base, lo, hi) && |d| == |base| && AllLongGone(base, d, lo, hi, n)
    ensures WholeSubruns(base, d, lo, hi)
  {
    forall k | lo <= k < hi ensures d[k] == base[k] || (base[k] == PROVISIONAL && d[k] == KEEP) {
      assert LongGone(base, d, lo, hi, n, k);
    }
    forall k | lo < k < hi && base[k - 1] == PROVISIONAL && base[k] == PROVISIONAL
      ensures d[k - 1] == d[k]
    {
      assert LongGone(base, d, lo, hi, n, k - 1) && LongGone(base, d, lo, hi, n, k);
      StretchNeighbours(base, lo, hi, k, n);
    }
  }

  lemma StretchNeighbours(base: seq<int>, lo: int, hi: int, k: int, n: int)
    requires 0 <= lo < k < hi <= |base| && base[k - 1] == PROVISIONAL && base[k] == PROVISIONAL
    ensures InLongSubrun(base, lo, hi, k - 1, n) <==> InLongSubrun(base, lo, hi, k, n)
  {
    if InLongSubrun(base, lo, hi, k - 1, n) {
      var a, b :| lo <= a <= k - 1 < b <= hi && b - a >= n && Subrun(base, a, b);
      assert Subrun(base, a, if b == k then k + 1 else b);
    }
    if InLongSubrun(base, lo, hi, k, n) {
      var a, b :| lo <= a <= k < b <= hi && b - a >= n && Subrun(base, a, b);
      assert Subrun(base, if a == k then k - 1 else a, b);
    }
  }

  /** The scan from the start of a run stops at `p`: third unmatched line in a
      row, or an unmatched line at least eight lines in. */
  ghost predicate StopAt(d: seq<int>, lo: int, p: int)
    requires 0 <= lo <= p < |d|
  {
    d[p] == NO_MATCH && (p - lo >= 8 || (p - lo >= 2 && d[p - 1] == NO_MATCH && d[p - 2] == NO_MATCH))
  }

  ghost predicate StopBack(d: seq<int>, hi: int, p: int)
    requires 0 <= p < hi <= |d|
  {
    d[p] == NO_MATCH && (hi - 1 - p >= 8 || (hi - 1 - p >= 2 && d[p + 1] == NO_MATCH && d[p + 2] == NO_MATCH))
  }

  /** All provisionals before the first stopping point `cut` went. */
  ghost predicate ClearedBefore(before: seq<int>, after: seq<int>, lo: int, hi: int, cut: int)
    requires 0 <= lo <= hi <= |before| == |after|
  {
    && lo <= cut <= hi && (cut < hi ==> StopAt(before, lo, cut))
    && (forall p :: lo <= p < cut ==> !StopAt(before, lo, p))
    && forall k :: 0 <= k < |before| ==>
         after[k] == if lo <= k < cut && before[k] == PROVISIONAL then KEEP else before[k]
  }

  /** All provisionals from the last stopping point, just before `cut`, on went. */
  ghost predicate ClearedAfter(before: seq<int>, after: seq<int>, lo: int, hi: int, cut: int)
    requires 0 <= lo <= hi <= |before| == |after|
  {
    && lo <= cut <= hi && (lo < cut ==> StopBack(before, hi, cut - 1))
    && (forall p :: cut <= p < hi ==> !StopBack(before, hi, p))
    && forall k :: 0 <= k < |before| ==>
         after[k] == if cut <= k < hi && before[k] == PROVISIONAL then KEEP else before[k]
  }

  method CancelFromStart(discards: array<int>, i: int, length: int) returns (ghost cut: int)
    requires 0 <= i && 0 <= length && i + length <= discards.Length && Codes(discards[..])
    modifies discards
    ensures ClearedBefore(old(discards[..]), discards[..], i, i + length, cut)
  {
    ghost var base := discards[..];
    var j, consec := 0, 0;
    while j < length
      invariant 0 <= j <= length
      invariant forall k :: 0 <= k < discards.Length ==>
                  discards[k] == if i <= k < i + j && base[k] == PROVISIONAL then KEEP else base[k]
      invariant forall p :: i <= p < i + j ==> !StopAt(base, i, p)
      invariant 0 <= consec <= 2 && consec <= j
      invariant consec >= 1 <==> j >= 1 && base[i + j - 1] == NO_MATCH
      invariant consec == 2 <==> j >= 2 && base[i + j - 1] == NO_MATCH && base[i + j - 2] == NO_MATCH
    {
      if j >= 8 && discards[i + j] == NO_MATCH {
        cut := i + j;
        return;
      }
      if discards[i + j] == PROVISIONAL {
        consec := 0;
        discards[i + j] := KEEP;
      } else if discards[i + j] == KEEP {
        consec := 0;
      } else {
        consec := consec + 1;
      }
      if consec == 3 {
        cut := i + j;
        return;
      }
      j := j + 1;
    }
    cut := i + length;
  }

  /** The same from the end; `i` is the last line of the run. */
  method CancelFromEnd(discards: array<int>, i: int, length: int) returns (ghost cut: int)
    requires 0 <= length <= i + 1 <= discards.Length && Codes(discards[..])
    modifies discards
    ensures ClearedAfter(old(discards[..]), discards[..], i + 1 - length, i + 1, cut)
  {
    ghost var base := discards[..];
    ghost var hi := i + 1;
    var j, consec := 0, 0;
    while j < length
      invariant 0 <= j <= length
      invariant forall k :: 0 <= k < discards.Length ==>
                  discards[k] == if i - j < k <= i && base[k] == PROVISIONAL then KEEP else base[k]
      invariant forall p :: i - j < p <= i ==> !StopBack(base, hi, p)
      invariant 0 <= consec <= 2 && consec <= j
      invariant consec >= 1 <==> j >= 1 && base[i - j + 1] == NO_MATCH
      invariant consec == 2 <==> j >= 2 && base[i - j + 1] == NO_MATCH && base[i - j + 2] == NO_MATCH
    {
      if j >= 8 && discards[i - j] == NO_MATCH {
        cut := i - j + 1;
        return;
      }
      if discards[i - j] == PROVISIONAL {
        consec := 0;
        discards[i - j] := KEEP;
      } else if discards[i - j] == KEEP {
        consec := 0;
      } else {
        consec := consec + 1;
      }
      if consec == 3 {
        cut := i - j + 1;
        return;
      }
      j := j + 1;
    }
    cut := i + 1 - length;
  }

  lemma ClearedIsWhole(base: seq<int>, d: seq<int>, e: seq<int>, lo: int, hi: int, cut: int)
    requires Run(base, lo, hi) && |d| == |base| == |e| && WholeSubruns(base, d, lo, hi)
    requires ClearedBefore(d, e, lo, hi, cut) || ClearedAfter(d, e, lo, hi, cut)
    ensures WholeSubruns(base, e, lo, hi)
  {}

  function Provisionals(d: seq<int>, lo: int, hi: int): int
    requires 0 <= lo <= hi <= |d|
  {
    if lo == hi then 0 else Provisionals(d, lo, hi - 1) + (if d[hi - 1] == PROVISIONAL then 1 else 0)
  }

  /** The discards after treating the run [lo, hi): all provisionals go if they
      are more than a quarter of it, otherwise the long stretches and those
      near the two ends. */
  ghost predicate RunTreated(base: seq<int>, after: seq<int>, lo: int, hi: int)
    requires Run(base, lo, hi) && |after| == |base|
  {
    if Provisionals(base, lo, hi) * 4 > hi - lo then
      forall k :: 0 <= k < |base| ==>
        after[k] == if lo <= k < hi && base[k] == PROVISIONAL then KEEP else base[k]
    else
      exists d1: seq<int>, d2: seq<int>, cut1, cut2 ::
        && |d1| == |d2| == |base|
        && AllLongGone(base, d1, lo, hi, Scale((hi - lo) / 4) + 1)
        && (forall k :: 0 <= k < |base| && !(lo <= k < hi) ==> d1[k] == base[k])
        && ClearedBefore(d1, d2, lo, hi, cut1)
        && ClearedAfter(d2, after, lo, hi, cut2)
  }

  /** [lo, hi) is what is left of the run starting at `lo` once the
      provisionals at its end have been cancelled. */
  ghost predicate RunFound(start: seq<int>, base: seq<int>, lo: int, hi: int) {
    && |base| == |start| && Run(base, lo, hi)
    && exists end :: TailCancelled(start, base, hi, end)
  }

  ghost predicate TailCancelled(start: seq<int>, base: seq<int>, hi: int, end: int)
    requires |base| == |start| && 0 <= hi
  {
    && hi <= end <= |start| && (end < |start| ==> start[end] == KEEP)
    && (forall k :: hi <= k < end ==> start[k] == PROVISIONAL)
    && forall k :: 0 <= k < |start| ==> base[k] == if hi <= k < end then KEEP else start[k]
  }

  /** Finds the end of the run of discardable lines at `i`, cancels provisional
      discards at its end and counts the remaining ones. */
  method FindRun(discards: array<int>, i: int) returns (j: int, provisional: int)
    requires 0 <= i < discards.Length && discards[i] == NO_MATCH && Codes(discards[..])
    modifies discards
    ensures RunFound(old(discards[..]), discards[..], i, j)
    ensures provisional == Provisionals(discards[..], i, j)
  {
    ghost var start := discards[..];
    j, provisional := i, 0;
    while j < discards.Length && discards[j] != KEEP
      invariant i <= j <= discards.Length
      invariant forall k :: i <= k < j ==> discards[k] != KEEP
      invariant provisional == Provisionals(start, i, j)
    {
      if discards[j] == PROVISIONAL {
        provisional := provisional + 1;
      }
      j := j + 1;
    }
    ghost var end := j;
    while j > i && discards[j - 1] == PROVISIONAL
      invariant i < j <= end
      invariant forall k :: 0 <= k < discards.Length ==> discards[k] == if j <= k < end then KEEP else start[k]
      invariant forall k :: j <= k < end ==> start[k] == PROVISIONAL
      invariant provisional == Provisionals(start, i, j)
      decreases j
    {
      j := j - 1;
      discards[j] := KEEP;
      provisional := provisional - 1;
    }
    SameProvisionals(start, discards[..], i, j);
    assert TailCancelled(start, discards[..], j, end);
  }

  lemma {:induction false} SameProvisionals(d: seq<int>, e: seq<int>, lo: int, hi: int)
    requires 0 <= lo <= hi <= |d| == |e| && forall k :: lo <= k < hi ==> d[k] == e[k]
    ensures Provisionals(d, lo, hi) == Provisionals(e, lo, hi)
    decreases hi
  {
    if lo < hi { SameProvisionals(d, e, lo, hi - 1); }
  }

  /** Treats the run of discardable lines that starts at `i`; returns where the
      scan goes on. */
  method ProcessRun(discards: array<int>, i: int) returns (next: int, ghost base: seq<int>, ghost j: int)
    requires 0 <= i < discards.Length && discards[i] == NO_MATCH && Codes(discards[..])
    modifies discards
    ensures RunFound(old(discards[..]), base, i, j) && RunTreated(base, discards[..], i, j)
    ensures next == if Provisionals(base, i, j) * 4 > j - i then i + 1 else j
    ensures Cancelled(old(discards[..]), discards[..])
    ensures forall k :: 0 <= k <= i ==> discards[k] == old(discards[k])
    ensures forall k :: i <= k < next && discards[k] == PROVISIONAL ==> Enclosed(discards[..], k, next)
  {
    var end, provisional := FindRun(discards, i);
    j := end;
    base := discards[..];
    var length := end - i;
    if provisional * 4 > length {
      while end > i
        invariant i <= end <= j
        invariant forall k :: 0 <= k < discards.Length ==>
                    discards[k] == if end <= k < j && base[k] == PROVISIONAL then KEEP else base[k]
      {
        end := end - 1;
        if discards[end] == PROVISIONAL {
          discards[end] := KEEP;
        }
      }
      next := i + 1;
    } else {
      var root := ScaleUp(length / 4, 1);
      CancelLongSubruns(discards, i, length, root + 1);
      ghost var d1 := discards[..];
      LongGoneIsWhole(base, d1, i, j, root + 1);
      WholeCodes(base, d1, i, j);
      ghost var cut1 := CancelFromStart(discards, i, length);
      ghost var d2 := discards[..];
      ClearedIsWhole(base, d1, d2, i, j, cut1);
      ghost var cut2 := CancelFromEnd(discards, i + length - 1, length);
      ClearedIsWhole(base, d2, discards[..], i, j, cut2);
      RunSettled(base, discards[..], i, j);
      assert AllLongGone(base, d1, i, j, Scale((j - i) / 4) + 1);
      next := end;
    }
  }

  lemma WholeCodes(base: seq<int>, d: seq<int>, lo: int, hi: int)
    requires Run(base, lo, hi) && |d| == |base| && Codes(base) && WholeSubruns(base, d, lo, hi)
    requires forall k :: 0 <= k < |base| && !(lo <= k < hi) ==> d[k] == base[k]
    ensures Codes(d) && Cancelled(base, d)
  {}

  lemma SettledFrame(d: seq<int>, e: seq<int>, end: int)
    requires 0 <= end <= |d| == |e| && Settled(d, end) && forall k :: 0 <= k < end ==> d[k] == e[k]
    ensures Settled(e, end)
  {
    forall k | 0 <= k < end && e[k] == PROVISIONAL ensures Enclosed(e, k, end) {
      var a, b :| Encloses(d, a, k, b) && b < end;
      assert Encloses(e, a, k, b);
    }
  }

  lemma EnclosedWider(d: seq<int>, k: int, end: int, wider: int)
    requires Enclosed(d, k, end) && end <= wider
    ensures Enclosed(d, k, wider)
  {}

  // ----- all runs of a file

  /** No line of [a, b) is kept for certain. */
  ghost predicate Solid(d: seq<int>, a: int, b: int) {
    0 <= a <= b <= |d| && forall t :: a <= t < b ==> d[t] != KEEP
  }

  /** Nothing but provisionals comes before `lo` in its stretch of discards. */
  ghost predicate OpensStretch(d: seq<int>, lo: int) {
    forall q :: 0 <= q < lo && Solid(d, q, lo) ==> d[q] == PROVISIONAL
  }

  /** Nothing but provisionals comes from `hi` on in its stretch. */
  ghost predicate ClosesStretch(d: seq<int>, hi: int) {
    forall q :: 0 <= hi <= q < |d| && Solid(d, hi, q + 1) ==> d[q] == PROVISIONAL
  }

  /** The run from the first to the last unmatched line of a stretch of discards. */
  ghost predicate WholeRun(d: seq<int>, lo: int, hi: int) {
    Run(d, lo, hi) && OpensStretch(d, lo) && ClosesStretch(d, hi)
  }

  /** What happens to the lines of one run depends on that run alone. */
  ghost predicate TreatedAlone(d: seq<int>, e: seq<int>, lo: int, hi: int)
    requires 0 <= lo <= hi <= |d| == |e|
  {
    Run(d[lo..hi], 0, hi - lo) && RunTreated(d[lo..hi], e[lo..hi], 0, hi - lo)
  }

  /** Every whole run that starts before `done` has been treated. */
  ghost predicate RunsTreated(d: seq<int>, e: seq<int>, done: int)
    requires |d| == |e|
  {
    forall lo, hi :: WholeRun(d, lo, hi) && lo < done ==> TreatedAlone(d, e, lo, hi)
  }

  lemma LongGonePart(base: seq<int>, d: seq<int>, lo: int, hi: int, n: int)
    requires 0 <= lo <= hi <= |base| == |d| && AllLongGone(base, d, lo, hi, n)
    ensures AllLongGone(base[lo..hi], d[lo..hi], 0, hi - lo, n)
  {
    var x, y, m := base[lo..hi], d[lo..hi], hi - lo;
    forall k | 0 <= k < m ensures LongGone(x, y, 0, m, n, k) {
      assert LongGone(base, d, lo, hi, n, lo + k);
      if InLongSubrun(base, lo, hi, lo + k, n) {
        var a, b :| lo <= a <= lo + k < b <= hi && b - a >= n && Subrun(base, a, b);
        assert Subrun(x, a - lo, b - lo);
      }
      if InLongSubrun(x, 0, hi - lo, k, n) {
        var a, b :| 0 <= a <= k < b <= hi - lo && b - a >= n && Subrun(x, a, b);
        forall t | lo + a <= t < lo + b ensures base[t] == PROVISIONAL { assert x[t - lo] == base[t]; }
        assert Subrun(base, lo + a, lo + b);
      }
    }
  }

  lemma ClearedBeforePart(d: seq<int>, e: seq<int>, lo: int, hi: int, cut: int)
    requires 0 <= lo <= hi <= |d| == |e| && ClearedBefore(d, e, lo, hi, cut)
    ensures ClearedBefore(d[lo..hi], e[lo..hi], 0, hi - lo, cut - lo)
  {
    var x := d[lo..hi];
    forall p | 0 <= p < cut - lo ensures !StopAt(x, 0, p) {
      assert !StopAt(d, lo, lo + p);
    }
  }

  lemma ClearedAfterPart(d: seq<int>, e: seq<int>, lo: int, hi: int, cut: int)
    requires 0 <= lo <= hi <= |d| == |e| && ClearedAfter(d, e, lo, hi, cut)
    ensures ClearedAfter(d[lo..hi], e[lo..hi], 0, hi - lo, cut - lo)
  {
    var x, m, c := d[lo..hi], hi - lo, cut - lo;
    forall p | c <= p < m ensures !StopBack(x, m, p) {
      assert !StopBack(d, hi, lo + p);
    }
  }

  lemma {:induction false} ProvisionalsPart(d: seq<int>, lo: int, hi: int, k: int)
    requires 0 <= lo <= k <= hi <= |d|
    ensures Provisionals(d[lo..hi], 0, k - lo) == Provisionals(d, lo, k)
    decreases k
  {
    if lo < k { ProvisionalsPart(d, lo, hi, k - 1); }
  }

  /** A treated run is treated as if it were all there is; nothing else changed. */
  lemma RunTreatedPart(base: seq<int>, after: seq<int>, lo: int, hi: int)
    requires Run(base, lo, hi) && |after| == |base| && RunTreated(base, after, lo, hi)
    ensures TreatedAlone(base, after, lo, hi)
    ensures forall k :: 0 <= k < |base| && !(lo <= k < hi) ==> after[k] == base[k]
  {
    hide AllLongGone, ClearedBefore, ClearedAfter;
    var x, y := base[lo..hi], after[lo..hi];
    assert Run(x, 0, hi - lo);
    ProvisionalsPart(base, lo, hi, hi);
    if Provisionals(base, lo, hi) * 4 > hi - lo {
      forall k | 0 <= k < |x| ensures y[k] == if x[k] == PROVISIONAL then KEEP else x[k] {
        assert after[lo + k] == if base[lo + k] == PROVISIONAL then KEEP else base[lo + k];
      }
    } else {
      var d1: seq<int>, d2: seq<int>, cut1, cut2 :|
        && |d1| == |d2| == |base|
        && AllLongGone(base, d1, lo, hi, Scale((hi - lo) / 4) + 1)
        && (forall k :: 0 <= k < |base| && !(lo <= k < hi) ==> d1[k] == base[k])
        && ClearedBefore(d1, d2, lo, hi, cut1)
        && ClearedAfter(d2, after, lo, hi, cut2);
      LongGonePart(base, d1, lo, hi, Scale((hi - lo) / 4) + 1);
      ClearedBeforePart(d1, d2, lo, hi, cut1);
      ClearedAfterPart(d2, after, lo, hi, cut2);
      ClearedFrame(d1, d2, after, lo, hi, cut1, cut2);
      TreatedBy(x, y, d1[lo..hi], d2[lo..hi], cut1 - lo, cut2 - lo);
    }
  }

  lemma ClearedFrame(d1: seq<int>, d2: seq<int>, d3: seq<int>, lo: int, hi: int, cut1: int, cut2: int)
    requires 0 <= lo <= hi <= |d1| == |d2| == |d3|
    requires ClearedBefore(d1, d2, lo, hi, cut1) && ClearedAfter(d2, d3, lo, hi, cut2)
    ensures forall k :: 0 <= k < |d1| && !(lo <= k < hi) ==> d3[k] == d1[k]
  {}

  lemma TreatedBy(x: seq<int>, y: seq<int>, d1: seq<int>, d2: seq<int>, cut1: int, cut2: int)
    requires Run(x, 0, |x|) && |d1| == |d2| == |y| == |x| && Provisionals(x, 0, |x|) * 4 <= |x|
    requires AllLongGone(x, d1, 0, |x|, Scale(|x| / 4) + 1)
    requires ClearedBefore(d1, d2, 0, |x|, cut1) && ClearedAfter(d2, y, 0, |x|, cut2)
    ensures RunTreated(x, y, 0, |x|)
  {
    hide AllLongGone, ClearedBefore, ClearedAfter;
  }

  /** Lines `i` up to `seen` are done with: their provisionals are cancelled.
      Lines from there on are as at first, and a new stretch begins. */
  ghost predicate Scanned(first: seq<int>, d: seq<int>, i: int, seen: int) {
    && |d| == |first| && 0 <= i <= |d| && 0 <= seen <= |d|
    && (forall k :: 0 <= k < |d| && i <= k && seen <= k ==> d[k] == first[k])
    && (forall k :: i <= k < seen ==> d[k] == if first[k] == PROVISIONAL then KEEP else first[k])
    && (0 < seen < |d| ==> first[seen] == KEEP)
    && (seen <= i < |d| && first[i] != KEEP ==> OpensStretch(first, i))
    && (forall k :: seen <= k < i ==> first[k] != NO_MATCH)
  }

  /** Cancels provisional discards that are not in the middle of a run of
      discards: each run is treated by itself, all other provisionals go. */
  method Prune(discards: array<int>)
    requires Codes(discards[..])
    modifies discards
    ensures Cancelled(old(discards[..]), discards[..])
    ensures Settled(discards[..], discards.Length)
    ensures RunsTreated(old(discards[..]), discards[..], discards.Length)
  {
    hide Settled, RunsTreated, Scanned;
    ghost var first := discards[..];
    ghost var seen := 0;
    var i := 0;
    NothingScanned(first);
    while i < discards.Length
      invariant 0 <= i <= discards.Length
      invariant Codes(discards[..]) && Cancelled(first, discards[..])
      invariant Settled(discards[..], i)
      invariant Scanned(first, discards[..], i, seen) && RunsTreated(first, discards[..], seen)
    {
      ghost var d := discards[..];
      var next := i + 1;
      if discards[i] == PROVISIONAL {
        discards[i] := KEEP;
        assert discards[..] == d[i := KEEP];
        ScanProvisional(first, d, i, seen);
      } else if discards[i] != KEEP {
        ghost var base, j;
        next, base, j := ProcessRun(discards, i);
        seen := ScanRun(first, d, base, discards[..], i, j, next, seen);
      } else {
        ScanKeep(first, d, i, seen);
      }
      SettledFrame(d, discards[..], i);
      SettledUpTo(discards[..], i, next);
      i := next;
    }
    AllScanned(first, discards[..], i, seen);
  }

  lemma NothingScanned(d: seq<int>)
    ensures Scanned(d, d, 0, 0) && RunsTreated(d, d, 0) && Settled(d, 0)
  {}

  lemma AfterKeep(d: seq<int>, i: int)
    requires 0 <= i < |d| && d[i] == KEEP
    ensures OpensStretch(d, i + 1)
  {}

  lemma AfterProvisional(d: seq<int>, i: int)
    requires 0 <= i < |d| && d[i] == PROVISIONAL && OpensStretch(d, i)
    ensures OpensStretch(d, i + 1)
  {
    forall q | 0 <= q < i + 1 && Solid(d, q, i + 1) ensures d[q] == PROVISIONAL {
      assert Solid(d, q, i);
    }
  }

  lemma ScanKeep(first: seq<int>, d: seq<int>, i: int, seen: int)
    requires Scanned(first, d, i, seen) && i < |d| && d[i] == KEEP && Codes(first)
    ensures Scanned(first, d, i + 1, seen)
  {
    hide OpensStretch;
    if seen <= i { AfterKeep(first, i); }
  }

  lemma ScanProvisional(first: seq<int>, d: seq<int>, i: int, seen: int)
    requires Scanned(first, d, i, seen) && i < |d| && d[i] == PROVISIONAL
    ensures seen <= i && Scanned(first, d[i := KEEP], i + 1, seen)
    ensures RunsTreated(first, d, seen) ==> RunsTreated(first, d[i := KEEP], seen)
  {
    hide OpensStretch, RunsTreated;
    AfterProvisional(first, i);
    if RunsTreated(first, d, seen) {
      RunsKeep(first, d, d[i := KEEP], seen, i);
    }
  }

  lemma RunEndsBy(d: seq<int>, lo: int, hi: int, end: int)
    requires Run(d, lo, hi) && lo < end <= |d| && (end < |d| ==> d[end] == KEEP)
    ensures hi <= end
  {}

  /** Runs treated before stay so while only lines after them change. */
  lemma RunsKeep(first: seq<int>, d: seq<int>, e: seq<int>, seen: int, i: int)
    requires |first| == |d| == |e| && 0 <= seen <= i && seen <= |d| && RunsTreated(first, d, seen)
    requires 0 < seen < |d| ==> first[seen] == KEEP
    requires forall k :: 0 <= k < |d| && k < i ==> e[k] == d[k]
    ensures RunsTreated(first, e, seen)
  {
    hide RunTreated, OpensStretch, ClosesStretch;
    forall lo, hi | WholeRun(first, lo, hi) && lo < seen ensures TreatedAlone(first, e, lo, hi) {
      assert TreatedAlone(first, d, lo, hi);
      RunEndsBy(first, lo, hi, seen);
      assert e[lo..hi] == d[lo..hi];
    }
  }

  /** One run: either a new one, or the rest of one already done with. */
  lemma ScanRun(first: seq<int>, d: seq<int>, base: seq<int>, e: seq<int>, i: int, j: int, next: int, seen: int)
    returns (seen': int)
    requires Scanned(first, d, i, seen) && RunsTreated(first, d, seen) && Codes(first) && |e| == |d|
    requires 0 <= i < |d| && d[i] == NO_MATCH && RunFound(d, base, i, j) && RunTreated(base, e, i, j)
    requires next == if Provisionals(base, i, j) * 4 > j - i then i + 1 else j
    requires Cancelled(d, e)
    ensures Scanned(first, e, next, seen') && RunsTreated(first, e, seen')
  {
    hide RunsTreated, Scanned, Cancelled, TreatedAlone;
    RunTreatedPart(base, e, i, j);
    if next == i + 1 { QuarterGone(base, e, i, j); }
    hide RunTreated;
    var end :| TailCancelled(d, base, j, end);
    if i < seen {
      seen' := seen;
      ScanOldRun(first, d, base, e, i, j, end, next, seen);
    } else {
      seen' := end;
      ScanNewRun(first, d, base, e, i, j, end, next, seen);
    }
  }

  /** After a run of one line, or one with too many provisionals, none is left. */
  lemma QuarterGone(base: seq<int>, e: seq<int>, i: int, j: int)
    requires Run(base, i, j) && |e| == |base| && RunTreated(base, e, i, j)
    requires Provisionals(base, i, j) * 4 > j - i || j == i + 1
    ensures forall k :: i < k < j ==> e[k] == if base[k] == PROVISIONAL then KEEP else base[k]
  {}

  lemma ScanOldRun(first: seq<int>, d: seq<int>, base: seq<int>, e: seq<int>,
                   i: int, j: int, end: int, next: int, seen: int)
    requires Scanned(first, d, i, seen) && i < seen && RunsTreated(first, d, seen) && |e| == |d| == |base|
    requires Run(base, i, j) && TailCancelled(d, base, j, end) && Cancelled(d, e)
    requires forall k :: 0 <= k < |base| && !(i <= k < j) ==> e[k] == base[k]
    requires next == i + 1 || next == j
    ensures Scanned(first, e, next, seen) && RunsTreated(first, e, seen)
  {
    hide RunsTreated, OpensStretch;
    RunInside(first, d, base, i, j, end, seen);
    assert e == d;
  }

  /** The rest of a run already done with has no provisionals. */
  lemma RunInside(first: seq<int>, d: seq<int>, base: seq<int>, i: int, j: int, end: int, seen: int)
    requires Scanned(first, d, i, seen) && i < seen && |d| == |base|
    requires Run(base, i, j) && TailCancelled(d, base, j, end)
    ensures j <= seen && end == j && forall k :: i <= k < j ==> d[k] != PROVISIONAL
  {
    hide OpensStretch;
    assert seen < |d| ==> base[seen] == KEEP;
    RunEndsBy(base, i, j, seen);
    assert j < |d| ==> d[j] != PROVISIONAL;
  }

  lemma ScanNewRun(first: seq<int>, d: seq<int>, base: seq<int>, e: seq<int>,
                   i: int, j: int, end: int, next: int, seen: int)
    requires Scanned(first, d, i, seen) && seen <= i && RunsTreated(first, d, seen)
    requires |e| == |d| == |base| && Run(base, i, j) && TailCancelled(d, base, j, end) && d[i] == NO_MATCH
    requires TreatedAlone(base, e, i, j) && Cancelled(d, e)
    requires forall k :: 0 <= k < |base| && !(i <= k < j) ==> e[k] == base[k]
    requires next == i + 1 || next == j
    requires next == i + 1 ==> forall k :: i < k < j ==> e[k] == if base[k] == PROVISIONAL then KEEP else base[k]
    ensures Scanned(first, e, next, end) && RunsTreated(first, e, end)
  {
    hide OpensStretch, ClosesStretch, TreatedAlone;
    assert Scanned(first, e, next, end);
    RunsKeep(first, d, e, seen, i);
    TreatedSame(first, base, e, i, j);
    forall lo, hi | WholeRun(first, lo, hi) && lo < end ensures TreatedAlone(first, e, lo, hi) {
      if lo >= seen {
        assert first[lo] == NO_MATCH;
        NewRunOnly(first, i, j, end, lo, hi);
      }
    }
  }

  lemma TreatedSame(first: seq<int>, base: seq<int>, e: seq<int>, i: int, j: int)
    requires 0 <= i <= j <= |first| == |base| == |e| && TreatedAlone(base, e, i, j)
    requires forall k :: i <= k < j ==> base[k] == first[k]
    ensures TreatedAlone(first, e, i, j)
  {
    hide RunTreated;
    assert base[i..j] == first[i..j];
  }

  lemma OnlyOpening(d: seq<int>, i: int, lo: int)
    requires 0 <= i <= lo <= |d| && Solid(d, i, lo) && OpensStretch(d, lo) && (i < lo ==> d[i] == NO_MATCH)
    ensures i == lo
  {}

  lemma OnlyClosing(d: seq<int>, hi: int, j: int)
    requires 0 <= hi <= j <= |d| && Solid(d, hi, j) && ClosesStretch(d, hi) && (hi < j ==> d[j - 1] == NO_MATCH)
    ensures hi == j
  {}

  /** From `i` to `end` there is one whole run. */
  lemma NewRunOnly(d: seq<int>, i: int, j: int, end: int, lo: int, hi: int)
    requires Run(d, i, j) && j <= end <= |d| && (forall k :: j <= k < end ==> d[k] == PROVISIONAL)
    requires end < |d| ==> d[end] == KEEP
    requires WholeRun(d, lo, hi) && i <= lo < end
    ensures lo == i && hi == j
  {
    hide OpensStretch, ClosesStretch;
    assert Solid(d, i, lo);
    OnlyOpening(d, i, lo);
    RunEndsBy(d, lo, hi, end);
    assert hi <= j;
    assert Solid(d, hi, j);
    OnlyClosing(d, hi, j);
  }

  lemma AllScanned(first: seq<int>, d: seq<int>, i: int, seen: int)
    requires Scanned(first, d, i, seen) && i == |d| && RunsTreated(first, d, seen)
    ensures RunsTreated(first, d, |d|)
  {
    hide TreatedAlone;
    forall lo, hi | WholeRun(first, lo, hi) && lo < |d| ensures TreatedAlone(first, d, lo, hi) {
      assert first[lo] == NO_MATCH;
    }
  }

  lemma SettledUpTo(d: seq<int>, i: int, next: int)
    requires 0 <= i <= next <= |d| && Settled(d, i)
    requires forall k :: i <= k < next && d[k] == PROVISIONAL ==> Enclosed(d, k, next)
    ensures Settled(d, next)
  {
    forall k | 0 <= k < i && d[k] == PROVISIONAL ensures Enclosed(d, k, next) {
      EnclosedWider(d, k, i, next);
    }
  }

  // ----- squeezing out the discarded lines

  /** Data on one input file: its equivalence codes, one change flag per line
      with a clear sentinel at each end, and the lines left to compare. */
  class FileData {
    const equivs: seq<int>
    const changed: array<bool>
    var undiscarded: array<int>
    var realindexes: array<int>
    var nondiscarded: nat

    constructor (equivs: seq<int>)
      ensures this.equivs == equivs && Valid() && nondiscarded == 0
      ensures fresh(changed) && fresh(undiscarded) && fresh(realindexes)
      ensures forall k :: 0 <= k < changed.Length ==> !changed[k]
    {
      this.equivs := equivs;
      changed := new bool[|equivs| + 2](_ => false);
      undiscarded := new int[|equivs|];
      realindexes := new int[|equivs|];
      nondiscarded := 0;
    }

    ghost predicate Valid()
      reads this
    {
      && changed.Length == |equivs| + 2
      && undiscarded.Length == realindexes.Length == |equivs|
      && undiscarded != realindexes
      && nondiscarded <= |equivs|
    }
  }

  predicate Stays(d: seq<int>, minimal: bool, k: int)
    requires 0 <= k < |d|
  {
    minimal || d[k] == KEEP
  }

  /** Numbers of the first `n` lines that stay, in order. */
  ghost function Staying(d: seq<int>, minimal: bool, n: nat): (r: seq<int>)
    requires n <= |d|
    ensures |r| <= n
    ensures forall k :: 0 <= k < |r| ==> 0 <= r[k] < n && Stays(d, minimal, r[k])
    ensures forall j, k :: 0 <= j < k < |r| ==> r[j] < r[k]
  {
    if n == 0 then []
    else Staying(d, minimal, n - 1) + (if Stays(d, minimal, n - 1) then [n - 1] else [])
  }

  ghost function Pick<T>(v: seq<T>, index: seq<int>): (r: seq<T>)
    requires forall k :: 0 <= k < |index| ==> 0 <= index[k] < |v|
    ensures |r| == |index| && forall k :: 0 <= k < |index| ==> r[k] == v[index[k]]
  {
    seq(|index|, k requires 0 <= k < |index| => v[index[k]])
  }

  lemma StayingNone(v: seq<int>, d: seq<int>, minimal: bool)
    ensures Staying(d, minimal, 0) == [] && Pick(v, []) == []
  {}

  lemma StayingNext(d: seq<int>, minimal: bool, i: nat)
    requires i < |d|
    ensures Staying(d, minimal, i + 1)
         == if Stays(d, minimal, i) then Staying(d, minimal, i) + [i] else Staying(d, minimal, i)
  {}

  lemma PickAppend(v: seq<int>, index: seq<int>, i: int)
    requires 0 <= i < |v| && forall k :: 0 <= k < |index| ==> 0 <= index[k] < |v|
    ensures Pick(v, index + [i]) == Pick(v, index) + [v[i]]
  {}

  /** Lines that do not stay are flagged; lines that stay keep their flags. */
  method Squeeze(f: FileData, discards: array<int>, minimal: bool)
    requires f.Valid() && discards.Length == |f.equivs|
    requires discards != f.undiscarded && discards != f.realindexes
    requires forall k :: 0 <= k < f.changed.Length ==> !f.changed[k]
    modifies f`nondiscarded, f.undiscarded, f.realindexes, f.changed
    ensures f.Valid()
    ensures f.realindexes[..f.nondiscarded] == Staying(discards[..], minimal, |f.equivs|)
    ensures f.undiscarded[..f.nondiscarded] == Pick(f.equivs, f.realindexes[..f.nondiscarded])
    ensures !f.changed[0] && !f.changed[|f.equivs| + 1]
    ensures forall k :: 0 <= k < |f.equivs| ==> (f.changed[k + 1] <==> !Stays(discards[..], minimal, k))
  {
    hide Staying, Pick;
    ghost var d := discards[..];
    var j := 0;
    StayingNone(f.equivs, d, minimal);
    for i := 0 to |f.equivs|
      invariant j <= i && discards[..] == d
      invariant f.realindexes[..j] == Staying(d, minimal, i)
      invariant f.undiscarded[..j] == Pick(f.equivs, f.realindexes[..j])
      invariant forall k :: 0 <= k < i ==> (f.changed[k + 1] <==> !Stays(d, minimal, k))
      invariant !f.changed[0] && forall k :: i < k < f.changed.Length ==> !f.changed[k]
    {
      StayingNext(d, minimal, i);
      if minimal || discards[i] == KEEP {
        PickAppend(f.equivs, f.realindexes[..j], i);
        f.undiscarded[j] := f.equivs[i];
        f.realindexes[j] := i;
        assert f.realindexes[..j + 1] == Staying(d, minimal, i) + [i];
        assert f.undiscarded[..j + 1] == f.undiscarded[..j] + [f.equivs[i]];
        j := j + 1;
      } else {
        f.changed[i + 1] := true;
      }
    }
    f.nondiscarded := j;
  }

  /** Survivors of the whole file are the survivors among the lines that stay,
      as long as every other line is flagged. */
  lemma {:induction false} KeptAmongStaying(v: seq<int>, g: seq<bool>, d: seq<int>, minimal: bool, n: nat)
    requires |v| == |g| == |d| && n <= |d|
    requires forall k :: 0 <= k < n && !Stays(d, minimal, k) ==> g[k]
    ensures Kept(v[..n], g[..n]) == Kept(Pick(v, Staying(d, minimal, n)), Pick(g, Staying(d, minimal, n)))
    decreases n
  {
    hide Kept;
    if n == 0 {
      assert v[..0] == Pick(v, []) && g[..0] == Pick(g, []);
    } else {
      var r := Staying(d, minimal, n - 1);
      KeptAmongStaying(v, g, d, minimal, n - 1);
      LastLine(v, g, n);
      if Stays(d, minimal, n - 1) {
        assert Staying(d, minimal, n) == r + [n - 1];
        assert Pick(v, r + [n - 1]) == Pick(v, r) + [v[n - 1]];
        assert Pick(g, r + [n - 1]) == Pick(g, r) + [g[n - 1]];
        KeptConcat(Pick(v, r), Pick(g, r), [v[n - 1]], [g[n - 1]]);
      } else {
        assert Staying(d, minimal, n) == r;
        var k := Kept(v[..n - 1], g[..n - 1]);
        assert k + [] == k;
      }
    }
  }

  lemma LastLine(v: seq<int>, g: seq<bool>, n: nat)
    requires |v| == |g| && 0 < n <= |v|
    ensures Kept(v[..n], g[..n]) == Kept(v[..n - 1], g[..n - 1]) + Kept([v[n - 1]], [g[n - 1]])
    ensures g[n - 1] ==> Kept([v[n - 1]], [g[n - 1]]) == []
  {
    KeptNone([v[n - 1]], [true]);
    hide Kept;
    KeptConcat(v[..n - 1], g[..n - 1], [v[n - 1]], [g[n - 1]]);
    assert v[..n] == v[..n - 1] + [v[n - 1]] && g[..n] == g[..n - 1] + [g[n - 1]];
  }

  lemma {:induction false} AllStay(d: seq<int>, n: nat)
    requires n <= |d|
    ensures Staying(d, true, n) == seq(n, k => k)
  {
    if n > 0 { AllStay(d, n - 1); }
  }

  // ----- both files

  /** What the filter promises about one file: the lines left to compare are
      those that stay, class 0 always stays, a line with a match in the other
      file goes only between two lines without one, and of the frequent lines in
      each run exactly those stay that the treatment of the run cancels. */
  ghost predicate Filtered(equivs: seq<int>, other: seq<int>, d: seq<int>) {
    && |d| == |equivs| && Codes(d) && Settled(d, |d|)
    && (exists first ::
          |first| == |d| && Classified(equivs, other, 5 * Scale(|equivs| / 64), first) && RunsTreated(first, d, |d|))
    && forall k :: 0 <= k < |d| ==>
         && (equivs[k] == 0 ==> d[k] == KEEP)
         && (d[k] == NO_MATCH <==> equivs[k] != 0 && equivs[k] !in other)
         && (d[k] == PROVISIONAL ==> Count(other, equivs[k]) > 5 * Scale(|equivs| / 64))
  }

  lemma ClassifiedFiltered(equivs: seq<int>, other: seq<int>, first: seq<int>, d: seq<int>)
    requires Classified(equivs, other, 5 * Scale(|equivs| / 64), first)
    requires Cancelled(first, d) && Settled(d, |d|) && RunsTreated(first, d, |d|)
    ensures Filtered(equivs, other, d)
  {
    forall k | 0 <= k < |d|
      ensures d[k] == NO_MATCH <==> equivs[k] != 0 && equivs[k] !in other
    {
      CountPositive(other, equivs[k]);
    }
  }

  /** Filters one file against the line counts of the other. */
  method FilterFile(f: FileData, ghost other: seq<int>, counts: array<int>, minimal: bool) returns (ghost d: seq<int>)
    requires f.Valid()
    requires forall k :: 0 <= k < |f.equivs| ==> 0 <= f.equivs[k] < counts.Length
    requires forall x :: 0 <= x < counts.Length ==> counts[x] == Count(other, x)
    requires forall k :: 0 <= k < f.changed.Length ==> !f.changed[k]
    modifies f`nondiscarded, f.undiscarded, f.realindexes, f.changed
    ensures f.Valid() && Filtered(f.equivs, other, d)
    ensures f.realindexes[..f.nondiscarded] == Staying(d, minimal, |f.equivs|)
    ensures f.undiscarded[..f.nondiscarded] == Pick(f.equivs, f.realindexes[..f.nondiscarded])
    ensures !f.changed[0] && !f.changed[|f.equivs| + 1]
    ensures forall k :: 0 <= k < |f.equivs| ==> (f.changed[k + 1] <==> !Stays(d, minimal, k))
  {
    var discards := Classify(f.equivs, other, counts);
    ghost var first := discards[..];
    assert Codes(first);
    Prune(discards);
    Squeeze(f, discards, minimal);
    d := discards[..];
    ClassifiedFiltered(f.equivs, other, first, d);
  }
}
