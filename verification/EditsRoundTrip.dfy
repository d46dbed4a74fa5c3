/** Recording edits and iterating over the log gives the edits back. */
module EditsRoundTrip {
  import opened EditsLog
  import opened EditsIterator
  import opened EditsView
  import opened EditsSearch

  datatype Op = Unchanged(length: int) | Replace(oldLength: int, newLength: int)

  predicate Int32(x: int) {
    INT32_MIN <= x <= INT32_MAX
  }

  /** Arguments are 32-bit integers. */
  predicate Arguments(op: Op) {
    match op
    case Unchanged(n) => Int32(n)
    case Replace(m, n) => Int32(m) && Int32(n)
  }

  predicate NonNegative(op: Op) {
    match op
    case Unchanged(n) => n >= 0
    case Replace(m, n) => m >= 0 && n >= 0
  }

  /** The edits as called, with adjacent unchanged text fused, in a coarse view
      adjacent changes as well; empty edits leave no trace. */
  ghost function Called(ops: seq<Op>, coarse: bool): seq<Span> {
    if ops == [] then []
    else
      var s := Called(ops[..|ops| - 1], coarse);
      match ops[|ops| - 1]
      case Unchanged(n) => if n == 0 then s else AddSpan(s, Span(false, n, n), coarse)
      case Replace(m, n) => if m == 0 && n == 0 then s else AddSpan(s, Span(true, m, n), coarse)
  }

  /** Growth of the text, |new| - |old|. */
  ghost function Growth(ops: seq<Op>): int {
    if ops == [] then 0
    else Growth(ops[..|ops| - 1]) + match ops[|ops| - 1] case Unchanged(_) => 0 case Replace(m, n) => n - m
  }

  /** The calls leave no error: no length is negative, and the growth never
      leaves the 32-bit range on the way. */
  ghost predicate Recordable(ops: seq<Op>) {
    forall k :: 0 <= k < |ops| ==> RecordableAt(ops, k)
  }

  /** One call of a list can be recorded. */
  ghost predicate RecordableAt(ops: seq<Op>, k: int)
    requires 0 <= k < |ops|
  {
    NonNegative(ops[k]) && Int32(Growth(ops[..k + 1]))
  }

  lemma RecordableStep(ops: seq<Op>, k: int)
    requires 0 <= k < |ops|
    ensures Recordable(ops[..k + 1]) <==> Recordable(ops[..k]) && NonNegative(ops[k]) && Int32(Growth(ops[..k + 1]))
    ensures ops[..k + 1][..k] == ops[..k]
  {
    var s, t := ops[..k + 1], ops[..k];
    assert s[..k] == t && s[..k + 1] == s;
    forall j | 0 <= j < k ensures RecordableAt(s, j) <==> RecordableAt(t, j) {
      assert s[..j + 1] == t[..j + 1] && s[j] == t[j];
    }
    assert RecordableAt(s, k) <==> NonNegative(ops[k]) && Int32(Growth(s));
    hide RecordableAt;
    if Recordable(t) && RecordableAt(s, k) {
      assert forall j :: 0 <= j < |s| ==> RecordableAt(s, j);
    }
    if Recordable(s) {
      assert forall j :: 0 <= j < |t| ==> RecordableAt(t, j);
    }
  }

  method Record(ops: seq<Op>) returns (e: Edits)
    requires forall k :: 0 <= k < |ops| ==> Arguments(ops[k])
    ensures fresh(e) && e.Valid()
    ensures e.error == NoError <==> Recordable(ops)
    ensures e.error == NoError ==> e.delta == Growth(ops)
    ensures e.error == NoError ==> forall coarse :: Spans(e.records, coarse) == Called(ops, coarse)
  {
    hide Spans, AddSpan, Recordable, Units;
    e := new Edits();
    assert Recordable(ops[..0]) by { NothingRecorded(); assert ops[..0] == []; }
    forall coarse ensures Spans(e.records, coarse) == Called(ops[..0], coarse) { NothingSpans(coarse); }
    for k := 0 to |ops|
      invariant fresh(e) && e.Valid()
      invariant e.error == NoError <==> Recordable(ops[..k])
      invariant e.error == NoError ==> e.delta == Growth(ops[..k])
      invariant e.error == NoError ==> forall coarse :: Spans(e.records, coarse) == Called(ops[..k], coarse)
    {
      RecordableStep(ops, k);
      match ops[k]
      case Unchanged(n) => e.AddUnchanged(n);
      case Replace(m, n) => e.AddReplace(m, n);
    }
    assert ops[..|ops|] == ops;
  }

  lemma NothingRecorded()
    ensures Recordable([])
  {}

  lemma NothingSpans(coarse: bool)
    ensures Spans([], coarse) == []
  {}

  // ----- iterating

  /** Number of the span an iterator that only moved forward stands on. */
  ghost function At(it: Iterator): int
    requires it.Valid()
    reads it
  {
    if it.dir == 0 then (if it.a == 0 then -1 else |Spans(it.rs, it.coarse)|)
    else if 0 <= it.a <= |it.rs| then SpanNo(it.rs, it.coarse, it.a, it.sub) else -1
  }

  ghost predicate Forward(it: Iterator)
    reads it
  {
    it.Valid() && (it.dir == 1 || (it.dir == 0 && it.a == 0))
  }

  lemma EmptyPrefix(rs: seq<EditsLog.Record>, coarse: bool)
    requires AllValid(rs)
    ensures SpanNo(rs, coarse, 0, 0) == 0
    ensures rs[..|rs|] == rs
  {}

  /** One step of the iterator is one span, or the next change. */
  method Advance(it: Iterator, changesOnly: bool) returns (found: bool)
    requires Forward(it)
    modifies it
    ensures it.Valid() && found == (it.dir != 0) && (found ==> it.dir == 1 && it.OnSpan())
    ensures var s, p := Spans(it.rs, it.coarse), old(At(it));
            if changesOnly && p + 1 < |s| && !s[p + 1].changed then
              if found then At(it) == p + 2 && it.changed else |s| == p + 2
            else
              if found then At(it) == p + 1 && (changesOnly ==> it.changed) else |s| == p + 1
  {
    hide Spans, Units, Off, OldUpTo, NewUpTo, ReplUpTo, Count, Group, OldLen, NewLen;
    ghost var k := if it.dir > 0 then it.b else it.a;
    ghost var inRun := it.dir > 0 && it.remaining > 1;
    ghost var p := At(it);
    EmptyPrefix(it.rs, it.coarse);
    if it.dir > 0 {
      ForwardPlace(it);
    }
    found := it.Next(changesOnly);
    if inRun {
      ghost var q := Shows(it);
    } else {
      AtGroup(it.rs, it.coarse, k);
      if changesOnly && k < |it.rs| && it.rs[k].Keep? {
        KeepGroup(it.rs, it.coarse, k, it.a);
      }
      if found { ForwardPlace(it); }
    }
  }

  /** What follows the span an iterator stands on. */
  lemma ForwardPlace(it: Iterator)
    requires it.Log() && it.OnSpan() && it.dir == 1
    ensures 0 <= it.a < it.b <= |it.rs| && Boundary(it.rs, it.coarse, it.b)
    ensures it.changed == !it.rs[it.a].Keep?
    ensures it.remaining > 1 ==> it.changed
    ensures it.remaining <= 1 ==> SpanNo(it.rs, it.coarse, it.b, 0) == SpanNo(it.rs, it.coarse, it.a, it.sub) + 1
  {
    hide Spans, Units, Off, OldUpTo, NewUpTo, ReplUpTo, OldLen, NewLen;
    SpanAt(it.rs, it.coarse, it.a, it.b, it.sub);
    PlaceFacts(it.rs, it.coarse, it.a, it.b, it.sub);
  }

  lemma AtGroup(rs: seq<EditsLog.Record>, coarse: bool, k: int)
    requires AllValid(rs) && 0 <= k <= |rs| && Boundary(rs, coarse, k)
    ensures var s, q := Spans(rs, coarse), SpanNo(rs, coarse, k, 0);
            if k == |rs| then q == |s| else q < |s| && s[q].changed == !rs[k].Keep?
  {
    EmptyPrefix(rs, coarse);
    if k < |rs| {
      BoundaryPrefix(rs, coarse, k, |rs|);
      FirstKind(rs, coarse, k, |rs|);
    }
  }

  /** The first span of a group shows its kind, however the group goes on. */
  lemma {:induction false} FirstKind(rs: seq<EditsLog.Record>, coarse: bool, k: int, n: int)
    requires AllValid(rs) && 0 <= k < n <= |rs| && Boundary(rs, coarse, k)
    ensures SpanNo(rs, coarse, k, 0) < |Spans(rs[..n], coarse)|
    ensures Spans(rs[..n], coarse)[SpanNo(rs, coarse, k, 0)].changed == !rs[k].Keep?
    decreases n
  {
    hide Spans, AddRecord;
    BoundaryPrefix(rs, coarse, k, n);
    if n == k + 1 {
      FirstOfGroup(rs, coarse, k);
    } else {
      FirstKind(rs, coarse, k, n - 1);
      SpansStep(rs, coarse, n - 1);
      AddRecordKind(Spans(rs[..n - 1], coarse), rs[n - 1], coarse, SpanNo(rs, coarse, k, 0));
    }
  }

  lemma AddSpanKind(s: seq<Span>, e: Span, coarse: bool, q: int)
    requires 0 <= q < |s|
    ensures q < |AddSpan(s, e, coarse)| && AddSpan(s, e, coarse)[q].changed == s[q].changed
  {}

  lemma {:induction false} AddCopiesKind(s: seq<Span>, e: Span, n: nat, coarse: bool, q: int)
    requires 0 <= q < |s|
    ensures q < |AddCopies(s, e, n, coarse)| && AddCopies(s, e, n, coarse)[q].changed == s[q].changed
    decreases n
  {
    if n > 0 {
      AddCopiesKind(s, e, n - 1, coarse, q);
      AddSpanKind(AddCopies(s, e, n - 1, coarse), e, coarse, q);
    }
  }

  lemma AddRecordKind(s: seq<Span>, r: EditsLog.Record, coarse: bool, q: int)
    requires r.Valid() && 0 <= q < |s|
    ensures q < |AddRecord(s, r, coarse)| && AddRecord(s, r, coarse)[q].changed == s[q].changed
  {
    match r
    case Keep(n) => AddSpanKind(s, Span(false, n, n), coarse, q);
    case Long(m, n) => AddSpanKind(s, Span(true, m, n), coarse, q);
    case Short(m, n, c) => AddCopiesKind(s, Span(true, m, n), c, coarse, q);
  }

  /** Unchanged text is one span, and a change or the end follows it. */
  lemma KeepGroup(rs: seq<EditsLog.Record>, coarse: bool, k: int, a: int)
    requires AllValid(rs) && Group(rs, coarse, k, a) && rs[k].Keep?
    ensures SpanNo(rs, coarse, a, 0) == SpanNo(rs, coarse, k, 0) + 1
    ensures a == |rs| ==> |Spans(rs, coarse)| == SpanNo(rs, coarse, a, 0)
    ensures a < |rs| ==> !rs[a].Keep?
  {
    EmptyPrefix(rs, coarse);
    GroupSpans(rs, coarse, k, a);
    GroupKinds(rs, coarse, k, a);
  }

  /** A fresh iterator over the whole log yields the recorded edits. */
  method Collect(e: Edits, coarse: bool) returns (s: seq<Span>)
    requires e.Valid()
    ensures s == Spans(e.records, coarse)
  {
    hide Spans, Units, Off, OldUpTo, NewUpTo, ReplUpTo, Count, Group, OldLen, NewLen;
    var it := new Iterator(e, false, coarse);
    ghost var all := Spans(e.records, coarse);
    s := [];
    var found := Advance(it, it.onlyChanges);
    if found { ghost var q := Shows(it); }
    while found
      invariant it.Valid() && it.rs == e.records && it.coarse == coarse && !it.onlyChanges
      invariant |s| <= |all| && s == all[..|s|]
      invariant found ==> it.dir == 1 && it.OnSpan() && At(it) == |s| < |all|
      invariant !found ==> s == all
      decreases |all| - |s|
    {
      ghost var q := Shows(it);
      s := s + [Span(it.changed, it.oldLength, it.newLength)];
      found := Advance(it, it.onlyChanges);
      if found { q := Shows(it); }
    }
  }

  function Changes(s: seq<Span>): (r: seq<Span>)
    ensures forall k :: 0 <= k < |r| ==> r[k].changed
  {
    if s == [] then []
    else Changes(s[..|s| - 1]) + if s[|s| - 1].changed then [s[|s| - 1]] else []
  }

  lemma ChangesStep(s: seq<Span>, k: int)
    requires 0 <= k < |s|
    ensures Changes(s[..k + 1]) == Changes(s[..k]) + if s[k].changed then [s[k]] else []
    ensures s[..|s|] == s
  {
    assert s[..k + 1][..k] == s[..k];
  }

  /** A step over at most one stretch of unchanged text misses no change. */
  lemma ChangesSkip(s: seq<Span>, p: int, found: bool, next: int)
    requires -1 <= p < |s| && (found ==> next < |s|)
    requires if p + 1 < |s| && !s[p + 1].changed then if found then next == p + 2 else |s| == p + 2
             else if found then next == p + 1 else |s| == p + 1
    ensures Changes(s[..p + 1]) == if found then Changes(s[..next]) else Changes(s)
  {
    hide Changes;
    if p + 1 < |s| {
      ChangesStep(s, p + 1);
    }
    assert s[..|s|] == s;
  }

  /** An iterator over changes only yields the changes, in order. */
  method CollectChanges(e: Edits, coarse: bool) returns (s: seq<Span>)
    requires e.Valid()
    ensures s == Changes(Spans(e.records, coarse))
  {
    hide Spans, Units, Off, OldUpTo, NewUpTo, ReplUpTo, Count, Group, OldLen, NewLen, Changes;
    var it := new Iterator(e, true, coarse);
    ghost var all := Spans(e.records, coarse);
    s := [];
    ghost var p := -1;
    assert Changes(all[..0]) == [] by { NoChanges(); assert all[..0] == []; }
    var found := Advance(it, it.onlyChanges);
    if found { ghost var q := Shows(it); }
    ChangesSkip(all, p, found, At(it));
    while found
      invariant it.Valid() && it.rs == e.records && it.coarse == coarse && it.onlyChanges
      invariant -1 <= p < |all|
      invariant found ==> it.dir == 1 && it.OnSpan() && p < At(it) < |all| && it.changed
      invariant s == if found then Changes(all[..At(it)]) else Changes(all)
      decreases |all| - p
    {
      ghost var q := Shows(it);
      p := At(it);
      ChangesStep(all, p);
      s := s + [Span(it.changed, it.oldLength, it.newLength)];
      found := Advance(it, it.onlyChanges);
      if found { q := Shows(it); }
      ChangesSkip(all, p, found, At(it));
    }
  }

  lemma NoChanges()
    ensures Changes([]) == []
  {}

  /** Recording and reading back. */
  method RoundTrip(ops: seq<Op>, coarse: bool) returns (s: seq<Span>)
    requires forall k :: 0 <= k < |ops| ==> Arguments(ops[k])
    requires Recordable(ops)
    ensures s == Called(ops, coarse)
  {
    var e := Record(ops);
    s := Collect(e, coarse);
  }

  // ----- stepping on after a search

  /** From a span, `Next` goes on to the following one when reading forward, and
      shows the same span again when reading backward. */
  method NextFrom(it: Iterator) returns (found: bool, ghost q: int)
    requires it.Valid() && it.OnSpan()
    modifies it
    ensures it.Valid() && q == old(At(it)) && 0 <= q < |Spans(it.rs, it.coarse)|
    ensures old(it.dir) == -1 ==> found && it.OnSpan() && At(it) == q
    ensures old(it.dir) == 1 ==>
              if q + 1 < |Spans(it.rs, it.coarse)| then found && it.OnSpan() && At(it) == q + 1 else !found
  {
    hide Spans, Units, Off, OldUpTo, NewUpTo, ReplUpTo, Count, Group, OldLen, NewLen;
    q := Shows(it);
    OnSpanStart(it, true);
    if it.dir == 1 {
      found := Advance(it, false);
      if found { ghost var r := Shows(it); }
    } else {
      if it.remaining == 0 { LoneSpan(it); }
      found := it.Next(false);
    }
  }

  /** A search and a step. The step shows the found span `q` again exactly if the
      search ended reading backward; otherwise it shows the one after it, if any. */
  method StepAfterFind(it: Iterator, i: int, source: bool) returns (where: int, found: bool, ghost q: int)
    requires it.Valid()
    modifies it
    ensures it.Valid() && (where == 0 <==> 0 <= i < Sum(Spans(it.rs, it.coarse), source))
    ensures where == 0 ==>
              var s := Spans(it.rs, it.coarse);
              && Covers(s, source, q, i)
              && (found && it.OnSpan() && At(it) == q <==> old(EndsBackward(it, i, source)))
              && (!old(EndsBackward(it, i, source)) ==>
                    if q + 1 < |s| then found && it.OnSpan() && At(it) == q + 1 else !found)
  {
    hide Spans, Units, Off, OldUpTo, NewUpTo, ReplUpTo, Count, Group, OldLen, NewLen, SumOld, SumNew, SumRepl;
    SpansSums(it.rs, it.coarse);
    where := FindIndex(it, i, source);
    found, q := false, 0;
    if where == 0 {
      q := Shows(it);
      found, q := NextFrom(it);
    }
  }

  ghost function ThreeSpans(): seq<Span> {
    [Span(false, 2, 2), Span(true, 1, 1), Span(false, 2, 2)]
  }

  lemma ThreeSums()
    ensures var s := ThreeSpans();
            && |s| == 3 && Covers(s, true, 1, 2) && Covers(s, true, 2, 4)
            && SumOld(s) == 5 && SumOld(s[..2]) == 3 && Sound(s)
  {
    var s := ThreeSpans();
    assert s[..0] == [] && s[..1] == [] + [s[0]] && s[..2] == s[..1] + [s[1]] && s == s[..2] + [s[2]];
    SumsAppend([], s[0]);
    SumsAppend(s[..1], s[1]);
    SumsAppend(s[..2], s[2]);
  }

  lemma ThreeCalled(ops: seq<Op>)
    requires ops == [Unchanged(2), Replace(1, 1), Unchanged(2)]
    ensures Recordable(ops) && Called(ops, false) == ThreeSpans()
  {
    assert ops[..1] == [ops[0]] && ops[..2] == [ops[0], ops[1]] && ops[..3] == ops;
    assert ops[..1][..0] == [] && ops[..2][..1] == ops[..1] && ops[..3][..2] == ops[..2];
    assert Growth(ops[..0]) == 0;
    assert Growth(ops[..1]) == Growth(ops[..1][..0]);
    assert Growth(ops[..2]) == Growth(ops[..2][..1]);
    assert Growth(ops[..3]) == Growth(ops[..3][..2]);
    assert Called(ops[..1], false) == [Span(false, 2, 2)];
    assert Called(ops[..2], false) == [Span(false, 2, 2), Span(true, 1, 1)];
  }

  /** A fresh iterator finds index 2 and goes on. */
  method FreshStep(e: Edits) returns (shown: Span)
    requires e.Valid() && Spans(e.records, false) == ThreeSpans()
    ensures shown == ThreeSpans()[2]
  {
    hide Spans, ThreeSpans, Units, Off, OldUpTo, NewUpTo, ReplUpTo, SumOld, SumNew, SumRepl;
    ThreeSums();
    var it := new Iterator(e, false, false);
    NothingBefore(it.rs);
    var where, found;
    ghost var q;
    where, found, q := StepAfterFind(it, 2, true);
    CoversUnique(ThreeSpans(), true, q, 1, 2);
    q := Shows(it);
    shown := Span(it.changed, it.oldLength, it.newLength);
  }

  /** One that comes from index 4 finds index 2 reading backward and turns. */
  method TurnedStep(e: Edits) returns (shown: Span)
    requires e.Valid() && Spans(e.records, false) == ThreeSpans()
    ensures shown == ThreeSpans()[1]
  {
    hide Spans, ThreeSpans, Units, Off, OldUpTo, NewUpTo, ReplUpTo, SumOld, SumNew, SumRepl;
    ThreeSums();
    SpansSums(e.records, false);
    var it := new Iterator(e, false, false);
    var where, found;
    ghost var q;
    where := FindIndex(it, 4, true);
    q := Shows(it);
    CoversUnique(ThreeSpans(), true, q, 2, 4);
    where, found, q := StepAfterFind(it, 2, true);
    CoversUnique(ThreeSpans(), true, q, 1, 2);
    q := Shows(it);
    shown := Span(it.changed, it.oldLength, it.newLength);
  }

  /** The same log and the same index found, but the step that follows differs. */
  method TwoHistories() returns (fresh': Span, turned: Span)
    ensures fresh' == Span(false, 2, 2) && turned == Span(true, 1, 1)
  {
    hide Spans, Called, Recordable;
    var ops := [Unchanged(2), Replace(1, 1), Unchanged(2)];
    ThreeCalled(ops);
    var e := Record(ops);
    fresh' := FreshStep(e);
    turned := TurnedStep(e);
  }
}
