/** Searching an edits iterator by source or destination index: whatever place
    the iterator was at, it lands on the span that holds the index. */
module EditsSearch {
  import opened Arithmetic
  import opened EditsLog
  import opened EditsIterator
  import opened EditsView

  function Start(it: Iterator, source: bool): int
    reads it
  {
    if source then it.srcIndex else it.destIndex
  }

  function Length(it: Iterator, source: bool): int
    reads it
  {
    if source then it.oldLength else it.newLength
  }

  ghost function UpTo(rs: seq<Record>, source: bool, k: int): int
    requires 0 <= k <= |rs|
  {
    if source then OldUpTo(rs, k) else NewUpTo(rs, k)
  }

  ghost function Step(rs: seq<Record>, coarse: bool, source: bool, a: int, b: int): int
    requires 0 <= a < b <= |rs|
  {
    if source then OldLen(rs, coarse, a, b) else NewLen(rs, coarse, a, b)
  }

  lemma {:induction false} UpToGrows(rs: seq<Record>, source: bool, j: int, k: int)
    requires AllValid(rs) && 0 <= j <= k <= |rs|
    ensures UpTo(rs, source, j) <= UpTo(rs, source, k)
    decreases k
  {
    if j < k {
      UpToGrows(rs, source, j, k - 1);
      OldNewNonNegative(rs[k - 1]);
    }
  }

  lemma OldNewNonNegative(r: Record)
    requires r.Valid()
    ensures r.Old() >= 0 && r.New() >= 0
  {}

  lemma StepNonNegative(rs: seq<Record>, coarse: bool, source: bool, a: int, b: int)
    requires AllValid(rs) && 0 <= a < b <= |rs|
    ensures Step(rs, coarse, source, a, b) >= 0
  {
    UpToGrows(rs, source, a, b);
  }

  /** Where a span of a group begins and ends. */
  lemma SpanEdges(rs: seq<Record>, coarse: bool, source: bool, a: int, b: int, sub: int)
    requires AllValid(rs) && Group(rs, coarse, a, b) && 0 <= sub < Count(rs, coarse, a)
    ensures 0 <= a < b <= |rs| && Boundary(rs, coarse, a) && Boundary(rs, coarse, b)
    ensures Step(rs, coarse, source, a, b) >= 0
    ensures sub == Count(rs, coarse, a) - 1 ==>
              UpTo(rs, source, a) + (sub + 1) * Step(rs, coarse, source, a, b) == UpTo(rs, source, b)
  {
    hide OldUpTo, NewUpTo, ReplUpTo, Group, Count, Off;
    PlaceFacts(rs, coarse, a, b, sub);
    StepNonNegative(rs, coarse, source, a, b);
  }

  lemma OnSpanStart(it: Iterator, source: bool)
    requires it.Log() && it.OnSpan()
    ensures 0 <= it.a < it.b <= |it.rs|
    ensures Length(it, source) == Step(it.rs, it.coarse, source, it.a, it.b) >= 0
    ensures Start(it, source) == UpTo(it.rs, source, it.a) + it.sub * Length(it, source)
    ensures Start(it, source) + Length(it, source) == UpTo(it.rs, source, it.a) + (it.sub + 1) * Length(it, source)
    ensures it.sub == Count(it.rs, it.coarse, it.a) - 1 ==>
              Start(it, source) + Length(it, source) == UpTo(it.rs, source, it.b)
    ensures Boundary(it.rs, it.coarse, it.a) && Boundary(it.rs, it.coarse, it.b)
  {
    hide OldUpTo, NewUpTo, ReplUpTo, Off, Units, Count, Group;
    SpanEdges(it.rs, it.coarse, source, it.a, it.b, it.sub);
    Distribute(it.sub, Length(it, source));
  }

  /** The group whose spans `Next` goes on with. */
  ghost function Ahead(it: Iterator): int
    reads it
  {
    if it.dir > 0 && it.remaining <= 1 then it.b else it.a
  }

  method StepForward(it: Iterator, i: int, source: bool) returns (found: bool)
    requires it.Log() && (it.Valid() || it.AtGroupEnd())
    requires i >= Start(it, source) + Length(it, source)
    modifies it
    ensures it.Valid() && found == (it.dir != 0)
    ensures found ==> it.dir == 1 && it.OnSpan() && i >= Start(it, source) && it.a >= old(Ahead(it))
    ensures !found ==> it.AtEnd() && it.a == |it.rs| && i >= UpTo(it.rs, source, |it.rs|)
  {
    hide OldUpTo, NewUpTo, ReplUpTo, Off, Units, Count, Group, OldLen, NewLen;
    if it.dir != 0 && !it.AtGroupEnd() {
      OnSpanStart(it, source);
    }
    found := it.Next(false);
    if found {
      OnSpanStart(it, source);
    }
  }

  /** Which of a run of equal spans holds `i`. */
  lemma Quotient(i: int, start: int, len: int, num: int)
    requires start + len <= i < start + num * len && len >= 0
    ensures len > 0 && 1 <= (i - start) / len <= num - 1
    ensures start + (i - start) / len * len <= i < start + (i - start) / len * len + len
  {
    MulZero(num, len);
    var n := (i - start) / len;
    assert n * len <= i - start < n * len + len;
    if n >= num {
      MulMonotone(num, n, len);
      assert false;
    }
  }

  lemma MulZero(x: int, z: int)
    ensures z == 0 ==> x * z == 0
  {}

  lemma MulSplit(x: int, y: int, z: int)
    ensures (x + y) * z == x * z + y * z && (x - y) * z == x * z - y * z
  {}

  /** Steps on `n` spans within a compressed change. */
  method SkipAhead(it: Iterator, n: int)
    requires it.Log() && it.OnSpan() && it.dir == 1 && it.remaining > 1 && 1 <= n <= it.remaining - 1
    modifies it
    ensures it.Valid() && it.OnSpan() && it.a == old(it.a) && it.b == old(it.b) && it.sub == old(it.sub) + n
    ensures it.dir == old(it.dir)
    ensures it.oldLength == old(it.oldLength) && it.newLength == old(it.newLength)
    ensures it.srcIndex == old(it.srcIndex) + n * it.oldLength
    ensures it.destIndex == old(it.destIndex) + n * it.newLength
  {
    hide OldUpTo, NewUpTo, ReplUpTo, Off, Units, Count, Group, OldLen, NewLen;
    PlaceFacts(it.rs, it.coarse, it.a, it.b, it.sub);
    MulSplit(it.sub, n, it.oldLength);
    MulSplit(it.sub, n, it.newLength);
    it.srcIndex := it.srcIndex + n * it.oldLength;
    it.replIndex := it.replIndex + n * it.newLength;
    it.destIndex := it.destIndex + n * it.newLength;
    it.remaining := it.remaining - n;
    it.sub := it.sub + n;
  }

  /** Makes the next step leave the compressed change. */
  method LeaveRun(it: Iterator)
    requires it.Log() && it.OnSpan() && it.dir == 1 && it.remaining > 1
    modifies it
    ensures it.Log() && it.AtGroupEnd() && it.a == old(it.a) && it.b == old(it.b)
    ensures it.srcIndex == old(it.srcIndex) && it.destIndex == old(it.destIndex)
    ensures it.oldLength == old(it.oldLength * it.remaining) && it.newLength == old(it.newLength * it.remaining)
  {
    hide OldUpTo, NewUpTo, ReplUpTo, Off, Units, Count, Group, OldLen, NewLen;
    PlaceFacts(it.rs, it.coarse, it.a, it.b, it.sub);
    ghost var c := Count(it.rs, it.coarse, it.a);
    PlaceFacts(it.rs, it.coarse, it.a, it.b, c - 1);
    RunTotal(it.sub, c, it.oldLength);
    RunTotal(it.sub, c, it.newLength);
    it.oldLength := it.oldLength * it.remaining;
    it.newLength := it.newLength * it.remaining;
    it.remaining := 0;
  }

  lemma RunTotal(x: int, c: int, z: int)
    ensures x * z + z * (c - x) == (c - 1) * z + z
  {
    MulSplit(c, x, z);
    MulSplit(c, 1, z);
    Commute(z, c - x);
  }

  method FindForward(it: Iterator, i: int, source: bool) returns (where: int)
    requires it.Valid() && i >= Start(it, source) + Length(it, source)
    modifies it
    ensures it.Valid() && (where == 0 || where == 1)
    ensures where == 0 ==> it.OnSpan() && Start(it, source) <= i < Start(it, source) + Length(it, source)
    ensures where == 0 ==> it.dir == 1
    ensures where == 1 ==> it.AtEnd() && it.a == |it.rs| && i >= UpTo(it.rs, source, |it.rs|)
  {
    hide OldUpTo, NewUpTo, ReplUpTo, Off, Units, Count, Group, OldLen, NewLen;
    if it.dir != 0 { OnSpanStart(it, source); }
    var found := StepForward(it, i, source);
    if found { OnSpanStart(it, source); }
    while found
      invariant it.Valid() && found == (it.dir != 0)
      invariant found ==> it.dir == 1 && it.OnSpan() && i >= Start(it, source) && 0 <= it.a < |it.rs|
      invariant !found ==> it.AtEnd() && it.a == |it.rs| && i >= UpTo(it.rs, source, |it.rs|)
      decreases |it.rs| - it.a
    {
      OnSpanStart(it, source);
      var spanStart, spanLength := Start(it, source), Length(it, source);
      if i < spanStart + spanLength {
        return 0;
      }
      if it.remaining > 1 {
        var len := it.remaining * spanLength;
        if i < spanStart + len {
          Quotient(i, spanStart, spanLength, it.remaining);
          var n := (i - spanStart) / spanLength;
          SkipAhead(it, n);
          return 0;
        }
        Commute(it.remaining, spanLength);
        LeaveRun(it);
      }
      found := StepForward(it, i, source);
      if found { OnSpanStart(it, source); }
    }
    where := 1;
  }

  /** The group `Previous` has still to leave. */
  ghost function Behind(it: Iterator): int
    reads it
  {
    if it.dir > 0 || (it.dir < 0 && it.sub > 0) then it.a + 1 else it.a
  }

  method StepBack(it: Iterator, i: int, source: bool)
    requires it.Log() && (it.Valid() || it.AtGroupStart()) && 0 <= i < Start(it, source)
    modifies it
    ensures it.Valid() && it.OnSpan() && it.dir == -1
    ensures i < Start(it, source) + Length(it, source) && 0 <= it.a < old(Behind(it))
  {
    hide OldUpTo, NewUpTo, ReplUpTo, Off, Units, Count, Group, OldLen, NewLen;
    if it.dir != 0 && !it.AtGroupStart() {
      OnSpanStart(it, source);
    }
    NothingBefore(it.rs);
    var found := it.Previous();
    assert found;
    OnSpanStart(it, source);
  }

  lemma NothingBefore(rs: seq<Record>)
    ensures OldUpTo(rs, 0) == 0 && NewUpTo(rs, 0) == 0 && ReplUpTo(rs, 0) == 0
  {}

  /** Steps back `n` spans within a compressed change. */
  method SkipBack(it: Iterator, n: int)
    requires it.Log() && it.OnSpan() && it.dir == -1 && it.remaining > 0 && 1 <= n <= it.sub
    modifies it
    ensures it.Valid() && it.OnSpan() && it.a == old(it.a) && it.b == old(it.b) && it.sub == old(it.sub) - n
    ensures it.dir == old(it.dir)
    ensures it.oldLength == old(it.oldLength) && it.newLength == old(it.newLength)
    ensures it.srcIndex == old(it.srcIndex) - n * it.oldLength
    ensures it.destIndex == old(it.destIndex) - n * it.newLength
  {
    hide OldUpTo, NewUpTo, ReplUpTo, Off, Units, Count, Group, OldLen, NewLen;
    PlaceFacts(it.rs, it.coarse, it.a, it.b, it.sub);
    MulSplit(it.sub, n, it.oldLength);
    MulSplit(it.sub, n, it.newLength);
    it.srcIndex := it.srcIndex - n * it.oldLength;
    it.replIndex := it.replIndex - n * it.newLength;
    it.destIndex := it.destIndex - n * it.newLength;
    it.remaining := it.remaining + n;
    it.sub := it.sub - n;
  }

  /** Skips the earlier spans of the compressed change all at once. */
  method LeaveRunBack(it: Iterator, num: int)
    requires it.Log() && it.OnSpan() && it.dir == -1 && it.remaining > 0 && num == it.sub
    modifies it
    ensures it.Log() && it.AtGroupStart() && it.a == old(it.a)
    ensures it.srcIndex == old(it.srcIndex - num * it.oldLength)
    ensures it.destIndex == old(it.destIndex - num * it.newLength)
  {
    hide OldUpTo, NewUpTo, ReplUpTo, Off, Units, Count, Group, OldLen, NewLen;
    PlaceFacts(it.rs, it.coarse, it.a, it.b, it.sub);
    it.srcIndex := it.srcIndex - num * it.oldLength;
    it.replIndex := it.replIndex - num * it.newLength;
    it.destIndex := it.destIndex - num * it.newLength;
    it.remaining := 0;
    it.sub := 0;
  }

  /** Which of a run of equal spans before `start` holds `i`. */
  lemma QuotientBack(i: int, start: int, len: int, num: int)
    requires start - num * len <= i < start && len >= 0
    ensures len > 0 && 1 <= (start - i - 1) / len + 1 <= num
    ensures start - ((start - i - 1) / len + 1) * len <= i < start - ((start - i - 1) / len + 1) * len + len
  {
    MulZero(num, len);
    var q := (start - i - 1) / len;
    assert q * len <= start - i - 1 < q * len + len;
    MulSplit(q, 1, len);
    if q >= num {
      MulMonotone(num, q, len);
      assert false;
    }
  }

  /** The unit under a compressed change tells how many spans it has. */
  lemma RunSize(it: Iterator)
    requires it.Log() && it.OnSpan() && it.dir == -1 && it.remaining > 0
    ensures 0 <= it.index < |it.units| && MAX_UNCHANGED < it.units[it.index] <= MAX_SHORT_CHANGE
    ensures it.units[it.index] % 0x200 + 1 - it.remaining == it.sub
  {
    hide OldUpTo, NewUpTo, ReplUpTo, Off, Units, OldLen, NewLen;
    RecordUnits(it.rs, it.a);
    HeadOf(it.rs, it.a);
  }

  method FindBackward(it: Iterator, i: int, source: bool)
    requires it.Valid() && 0 <= i < Start(it, source)
    modifies it
    ensures it.Valid() && it.OnSpan() && Start(it, source) <= i < Start(it, source) + Length(it, source)
    ensures it.dir == -1
  {
    hide OldUpTo, NewUpTo, ReplUpTo, Off, Units, Count, Group, OldLen, NewLen;
    while true
      invariant it.Log() && (it.Valid() || it.AtGroupStart()) && 0 <= i < Start(it, source)
      decreases Behind(it)
    {
      StepBack(it, i, source);
      OnSpanStart(it, source);
      var spanStart := Start(it, source);
      if i >= spanStart {
        return;
      }
      if it.remaining > 0 {
        var spanLength := Length(it, source);
        RunSize(it);
        var num := it.units[it.index] % 0x200 + 1 - it.remaining;
        var len := num * spanLength;
        if i >= spanStart - len {
          QuotientBack(i, spanStart, spanLength, num);
          var n := (spanStart - i - 1) / spanLength + 1;
          SkipBack(it, n);
          return;
        }
        LeaveRunBack(it, num);
      } else {
        LoneSpan(it);
      }
    }
  }

  lemma LoneSpan(it: Iterator)
    requires it.Log() && it.OnSpan() && it.remaining == 0
    ensures it.sub == 0
  {}

  /** A span ends within the text. */
  lemma SpanWithin(it: Iterator, source: bool)
    requires it.Log() && it.OnSpan()
    ensures Start(it, source) + Length(it, source) <= UpTo(it.rs, source, |it.rs|)
  {
    hide OldUpTo, NewUpTo, ReplUpTo, Off, Units, Count, Group, OldLen, NewLen;
    OnSpanStart(it, source);
    var c := Count(it.rs, it.coarse, it.a);
    SpanEdges(it.rs, it.coarse, source, it.a, it.b, c - 1);
    MulMonotone(it.sub + 1, c, Length(it, source));
    UpToGrows(it.rs, source, it.b, |it.rs|);
  }

  /** The search for `i` ends reading backward: it goes back less than half way,
      or finds `i` where it is and was reading backward before. */
  predicate EndsBackward(it: Iterator, i: int, source: bool)
    reads it
  {
    || Start(it, source) / 2 <= i < Start(it, source)
    || (Start(it, source) <= i < Start(it, source) + Length(it, source) && it.dir == -1)
  }

  /** Moves to the span that holds source or destination index `i`: -1 before
      the text, 1 at or after its end. */
  method FindIndex(it: Iterator, i: int, source: bool) returns (where: int)
    requires it.Valid()
    modifies it
    ensures it.Valid()
    ensures where == if i < 0 then -1 else if i < UpTo(it.rs, source, |it.rs|) then 0 else 1
    ensures where == -1 ==> unchanged(it)
    ensures where == 0 ==> it.OnSpan() && Start(it, source) <= i < Start(it, source) + Length(it, source)
    ensures where == 0 ==> it.dir == if old(EndsBackward(it, i, source)) then -1 else 1
    ensures where == 1 ==> it.AtEnd() && it.a == |it.rs|
  {
    hide OldUpTo, NewUpTo, ReplUpTo, Off, Units, Count, Group, OldLen, NewLen;
    if i < 0 {
      return -1;
    }
    var spanStart, spanLength := Start(it, source), Length(it, source);
    if i < spanStart {
      if i >= spanStart / 2 {
        FindBackward(it, i, source);
        SpanWithin(it, source);
        return 0;
      }
      it.dir, it.index, it.remaining, it.oldLength, it.newLength := 0, 0, 0, 0, 0;
      it.srcIndex, it.replIndex, it.destIndex := 0, 0, 0;
      it.a, it.sub := 0, 0;
      OffEnds(it.rs);
      NothingBefore(it.rs);
    } else if i < spanStart + spanLength {
      if it.dir != 0 { SpanWithin(it, source); }
      return 0;
    }
    where := FindForward(it, i, source);
    if where == 0 { SpanWithin(it, source); }
  }

  // ----- what the search found, in terms of the recorded edits

  ghost function Sum(s: seq<Span>, source: bool): int {
    if source then SumOld(s) else SumNew(s)
  }

  function Len(e: Span, source: bool): int {
    if source then e.old' else e.new'
  }

  /** Span `q` of a view covers index `i` of the source or destination text. */
  ghost predicate Covers(s: seq<Span>, source: bool, q: int, i: int) {
    0 <= q < |s| && Sum(s[..q], source) <= i < Sum(s[..q], source) + Len(s[q], source)
  }

  ghost predicate Sound(s: seq<Span>) {
    forall k :: 0 <= k < |s| ==> s[k].old' >= 0 && s[k].new' >= 0 && (s[k].changed || s[k].old' == s[k].new')
  }

  lemma SumStep(s: seq<Span>, source: bool, q: int)
    requires 0 <= q < |s|
    ensures Sum(s[..q + 1], source) == Sum(s[..q], source) + Len(s[q], source)
  {
    assert s[..q + 1][..q] == s[..q];
  }

  lemma {:induction false} SumGrows(s: seq<Span>, source: bool, p: int, q: int)
    requires Sound(s) && 0 <= p <= q <= |s|
    ensures Sum(s[..p], source) <= Sum(s[..q], source)
    decreases q
  {
    if p < q {
      SumGrows(s, source, p, q - 1);
      SumStep(s, source, q - 1);
    }
  }

  /** At most one span covers an index. */
  lemma CoversUnique(s: seq<Span>, source: bool, p: int, q: int, i: int)
    requires Sound(s) && Covers(s, source, p, i) && Covers(s, source, q, i)
    ensures p == q
  {
    if p < q {
      SumStep(s, source, p);
      SumGrows(s, source, p + 1, q);
    } else if q < p {
      SumStep(s, source, q);
      SumGrows(s, source, q + 1, p);
    }
  }

  lemma AddSpanSound(s: seq<Span>, e: Span, coarse: bool)
    requires Sound(s) && Sound([e])
    ensures Sound(AddSpan(s, e, coarse))
  {
    assert [e][0] == e;
  }

  lemma {:induction false} AddCopiesSound(s: seq<Span>, e: Span, n: nat, coarse: bool)
    requires Sound(s) && Sound([e])
    ensures Sound(AddCopies(s, e, n, coarse))
    decreases n
  {
    if n > 0 {
      AddCopiesSound(s, e, n - 1, coarse);
      AddSpanSound(AddCopies(s, e, n - 1, coarse), e, coarse);
    }
  }

  lemma {:induction false} SpansSound(rs: seq<Record>, coarse: bool)
    requires AllValid(rs)
    ensures Sound(Spans(rs, coarse))
    decreases |rs|
  {
    if rs != [] {
      var s := Spans(rs[..|rs| - 1], coarse);
      SpansSound(rs[..|rs| - 1], coarse);
      match rs[|rs| - 1]
      case Keep(n) => AddSpanSound(s, Span(false, n, n), coarse);
      case Long(m, n) => AddSpanSound(s, Span(true, m, n), coarse);
      case Short(m, n, c) => AddCopiesSound(s, Span(true, m, n), c, coarse);
    }
  }

  /** The number of the span the iterator stands on, and the fields it shows. */
  lemma Shows(it: Iterator) returns (q: int)
    requires it.Log() && it.OnSpan()
    ensures q == SpanNo(it.rs, it.coarse, it.a, it.sub)
    ensures var s := Spans(it.rs, it.coarse);
            && 0 <= q < |s| && s[q] == Span(it.changed, it.oldLength, it.newLength)
            && it.srcIndex == SumOld(s[..q]) && it.destIndex == SumNew(s[..q]) && it.replIndex == SumRepl(s[..q])
  {
    hide OldUpTo, NewUpTo, ReplUpTo, Off, Units, Spans, SumOld, SumNew, SumRepl;
    SpanAt(it.rs, it.coarse, it.a, it.b, it.sub);
    q := SpanNo(it.rs, it.coarse, it.a, it.sub);
  }

  /** Where an index of one text lies in the other: a linear scan. */
  ghost function MapIndex(s: seq<Span>, source: bool, i: int): int {
    if i < 0 then 0
    else if i >= Sum(s, source) then Sum(s, !source)
    else if s == [] then 0
    else
      var t, e := s[..|s| - 1], s[|s| - 1];
      if i < Sum(t, source) then MapIndex(t, source, i)
      else if i == Sum(t, source) then Sum(t, !source)
      else Sum(t, !source) + if e.changed then Len(e, !source) else i - Sum(t, source)
  }

  /** What the scan finds when span `q` covers the index. */
  lemma {:induction false} MapCovered(s: seq<Span>, source: bool, q: int, i: int)
    requires Sound(s) && Covers(s, source, q, i) && i >= 0
    ensures MapIndex(s, source, i)
         == if i == Sum(s[..q], source) then Sum(s[..q], !source)
            else Sum(s[..q], !source) + if s[q].changed then Len(s[q], !source) else i - Sum(s[..q], source)
    decreases |s|
  {
    var t := s[..|s| - 1];
    SumStep(s, source, q);
    SumGrows(s, source, q + 1, |s|);
    assert s[..|s|] == s;
    if q < |s| - 1 {
      SumGrows(s, source, q + 1, |s| - 1);
      assert t[..q] == s[..q];
      MapCovered(t, source, q, i);
    }
  }

  method DestinationIndexFromSourceIndex(it: Iterator, i: int) returns (r: int)
    requires it.Valid()
    modifies it
    ensures it.Valid() && r == MapIndex(Spans(it.rs, it.coarse), true, i)
  {
    hide OldUpTo, NewUpTo, ReplUpTo, Off, Units, Count, Group, OldLen, NewLen, Spans, SumOld, SumNew, SumRepl;
    SpansSums(it.rs, it.coarse);
    SpansSound(it.rs, it.coarse);
    var where := FindIndex(it, i, true);
    if where < 0 {
      return 0;
    }
    if where == 0 {
      ghost var q := Shows(it);
      MapCovered(Spans(it.rs, it.coarse), true, q, i);
    }
    if where > 0 || i == it.srcIndex {
      return it.destIndex;
    }
    if it.changed {
      return it.destIndex + it.newLength;
    }
    return it.destIndex + (i - it.srcIndex);
  }

  method SourceIndexFromDestinationIndex(it: Iterator, i: int) returns (r: int)
    requires it.Valid()
    modifies it
    ensures it.Valid() && r == MapIndex(Spans(it.rs, it.coarse), false, i)
  {
    hide OldUpTo, NewUpTo, ReplUpTo, Off, Units, Count, Group, OldLen, NewLen, Spans, SumOld, SumNew, SumRepl;
    SpansSums(it.rs, it.coarse);
    SpansSound(it.rs, it.coarse);
    var where := FindIndex(it, i, false);
    if where < 0 {
      return 0;
    }
    if where == 0 {
      ghost var q := Shows(it);
      MapCovered(Spans(it.rs, it.coarse), false, q, i);
    }
    if where > 0 || i == it.destIndex {
      return it.srcIndex;
    }
    if it.changed {
      return it.srcIndex + it.oldLength;
    }
    return it.srcIndex + (i - it.destIndex);
  }

  /** Whatever they did before, two iterators over the same view that found the
      same index show the same span at the same place. */
  lemma SameSpan(it: Iterator, other: Iterator, i: int, source: bool)
    requires it.Log() && it.OnSpan() && other.Log() && other.OnSpan()
    requires it.rs == other.rs && it.coarse == other.coarse
    requires Start(it, source) <= i < Start(it, source) + Length(it, source)
    requires Start(other, source) <= i < Start(other, source) + Length(other, source)
    ensures it.changed == other.changed && it.oldLength == other.oldLength && it.newLength == other.newLength
    ensures it.srcIndex == other.srcIndex && it.destIndex == other.destIndex && it.replIndex == other.replIndex
  {
    hide OldUpTo, NewUpTo, ReplUpTo, Off, Units, Count, Group, OldLen, NewLen, Spans, SumOld, SumNew, SumRepl;
    var p := Shows(it);
    var q := Shows(other);
    SpansSound(it.rs, it.coarse);
    CoversUnique(Spans(it.rs, it.coarse), source, p, q, i);
  }

  // ----- laws of the mapping

  /** Every index within the text is covered by a span. */
  lemma {:induction false} SomeCovers(s: seq<Span>, source: bool, i: int) returns (q: int)
    requires Sound(s) && 0 <= i < Sum(s, source)
    ensures Covers(s, source, q, i)
    decreases |s|
  {
    var t := s[..|s| - 1];
    if i < Sum(t, source) {
      q := SomeCovers(t, source, i);
      assert t[..q] == s[..q];
    } else {
      q := |s| - 1;
    }
  }

  /** A mapped index stays within the edges of its span. */
  lemma MapWithin(s: seq<Span>, source: bool, q: int, i: int)
    requires Sound(s) && Covers(s, source, q, i) && i >= 0
    ensures Sum(s[..q], !source) <= MapIndex(s, source, i) <= Sum(s[..q + 1], !source)
  {
    MapCovered(s, source, q, i);
    SumStep(s, !source, q);
  }

  /** The mapping keeps order and stays within the text. */
  lemma MapMonotone(s: seq<Span>, source: bool, i: int, j: int)
    requires Sound(s) && i <= j
    ensures 0 <= MapIndex(s, source, i) <= MapIndex(s, source, j) <= Sum(s, !source)
  {
    hide SumOld, SumNew, MapIndex;
    assert s[..|s|] == s && s[..0] == [];
    SumGrows(s, !source, 0, |s|);
    MapEnds(s, source, i);
    MapEnds(s, source, j);
    assert Sum(s[..0], !source) == 0;
    if 0 <= i < Sum(s, source) {
      var p := SomeCovers(s, source, i);
      MapWithin(s, source, p, i);
      SumGrows(s, !source, 0, p);
      SumGrows(s, !source, p + 1, |s|);
      if j < Sum(s, source) {
        var q := SomeCovers(s, source, j);
        MapWithin(s, source, q, j);
        SumGrows(s, !source, q + 1, |s|);
        if p < q {
          SumGrows(s, !source, p + 1, q);
        } else if q < p {
          SumStep(s, source, q);
          SumGrows(s, source, q + 1, p);
        } else {
          MapCovered(s, source, p, i);
          MapCovered(s, source, p, j);
        }
      }
    } else if 0 <= j < Sum(s, source) {
      var q := SomeCovers(s, source, j);
      MapWithin(s, source, q, j);
      SumGrows(s, !source, 0, q);
      SumGrows(s, !source, q + 1, |s|);
    }
  }

  lemma MapEnds(s: seq<Span>, source: bool, i: int)
    ensures i < 0 ==> MapIndex(s, source, i) == 0
    ensures i >= 0 && i >= Sum(s, source) ==> MapIndex(s, source, i) == Sum(s, !source)
    ensures Sum([], true) == 0 && Sum([], false) == 0
  {}

  /** Unchanged text maps back to itself. */
  lemma MapRoundTrip(s: seq<Span>, source: bool, q: int, i: int)
    requires Sound(s) && Covers(s, source, q, i) && i >= 0 && !s[q].changed
    ensures MapIndex(s, !source, MapIndex(s, source, i)) == i
  {
    MapCovered(s, source, q, i);
    SumGrows(s, !source, 0, q);
    assert s[..0] == [];
    MapCovered(s, !source, q, MapIndex(s, source, i));
  }
}
