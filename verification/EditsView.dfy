/** What iterating over a log shows: exactly the recorded edits, in order, in a
    fine or a coarse view. */
module EditsView {
  import opened EditsLog
  import opened EditsIterator

  ghost function SumOld(s: seq<Span>): int {
    if s == [] then 0 else SumOld(s[..|s| - 1]) + s[|s| - 1].old'
  }

  ghost function SumNew(s: seq<Span>): int {
    if s == [] then 0 else SumNew(s[..|s| - 1]) + s[|s| - 1].new'
  }

  /** Replacement text only: unchanged spans contribute nothing. */
  ghost function SumRepl(s: seq<Span>): int {
    if s == [] then 0 else SumRepl(s[..|s| - 1]) + (if s[|s| - 1].changed then s[|s| - 1].new' else 0)
  }

  lemma SumsAppend(s: seq<Span>, e: Span)
    ensures SumOld(s + [e]) == SumOld(s) + e.old' && SumNew(s + [e]) == SumNew(s) + e.new'
    ensures SumRepl(s + [e]) == SumRepl(s) + (if e.changed then e.new' else 0)
  {
    assert (s + [e])[..|s|] == s;
  }

  lemma SumsAddSpan(s: seq<Span>, e: Span, coarse: bool)
    ensures SumOld(AddSpan(s, e, coarse)) == SumOld(s) + e.old'
    ensures SumNew(AddSpan(s, e, coarse)) == SumNew(s) + e.new'
    ensures SumRepl(AddSpan(s, e, coarse)) == SumRepl(s) + (if e.changed then e.new' else 0)
  {
    SumsAppend(s, e);
    if s != [] && s[|s| - 1].changed == e.changed && (coarse || !e.changed) {
      var l := s[|s| - 1];
      SumsAppend(s[..|s| - 1], Span(e.changed, l.old' + e.old', l.new' + e.new'));
    }
  }

  lemma {:induction false} SumsCopies(s: seq<Span>, e: Span, n: nat, coarse: bool)
    ensures SumOld(AddCopies(s, e, n, coarse)) == SumOld(s) + e.old' * n
    ensures SumNew(AddCopies(s, e, n, coarse)) == SumNew(s) + e.new' * n
    ensures SumRepl(AddCopies(s, e, n, coarse)) == SumRepl(s) + (if e.changed then e.new' * n else 0)
    decreases n
  {
    hide SumOld, SumNew, SumRepl, AddSpan;
    if n > 0 {
      SumsCopies(s, e, n - 1, coarse);
      var t := AddCopies(s, e, n - 1, coarse);
      assert AddCopies(s, e, n, coarse) == AddSpan(t, e, coarse);
      SumsAddSpan(t, e, coarse);
      hide AddCopies;
      MulStep(e.old', n);
      MulStep(e.new', n);
    }
  }

  lemma MulStep(x: int, n: int)
    ensures x * n == x * (n - 1) + x
  {}

  /** The spans of a log cover the same text as its records. */
  lemma {:induction false} SpansSums(rs: seq<Record>, coarse: bool)
    requires AllValid(rs)
    ensures SumOld(Spans(rs, coarse)) == OldUpTo(rs, |rs|)
    ensures SumNew(Spans(rs, coarse)) == NewUpTo(rs, |rs|)
    ensures SumRepl(Spans(rs, coarse)) == ReplUpTo(rs, |rs|)
    decreases |rs|
  {
    if rs != [] {
      var t, r := rs[..|rs| - 1], rs[|rs| - 1];
      SpansSums(t, coarse);
      UpToPrefix(rs, |rs| - 1, |t|);
      var s := Spans(t, coarse);
      match r
      case Keep(n) => SumsAddSpan(s, Span(false, n, n), coarse);
      case Long(m, n) => SumsAddSpan(s, Span(true, m, n), coarse);
      case Short(m, n, c) => SumsCopies(s, Span(true, m, n), c, coarse);
    }
  }

  lemma {:induction false} UpToPrefix(rs: seq<Record>, n: int, k: int)
    requires 0 <= k <= n <= |rs|
    ensures OldUpTo(rs[..n], k) == OldUpTo(rs, k) && NewUpTo(rs[..n], k) == NewUpTo(rs, k)
    ensures ReplUpTo(rs[..n], k) == ReplUpTo(rs, k)
    decreases k
  {
    if k > 0 { UpToPrefix(rs, n, k - 1); }
  }

  // ----- spans of a group

  function Copies(e: Span, n: nat): (r: seq<Span>)
    ensures |r| == n && forall k :: 0 <= k < n ==> r[k] == e
  {
    seq(n, _ => e)
  }

  lemma {:induction false} FreshCopies(s: seq<Span>, e: Span, n: nat)
    requires e.changed
    ensures AddCopies(s, e, n, false) == s + Copies(e, n)
    decreases n
  {
    if n == 0 {
      assert s + Copies(e, 0) == s;
    } else {
      FreshCopies(s, e, n - 1);
      assert Copies(e, n) == Copies(e, n - 1) + [e];
    }
  }

  /** In a coarse view copies join into one span. */
  lemma {:induction false} CoarseCopies(s: seq<Span>, e: Span, n: nat)
    requires e.changed && n > 0
    ensures AddCopies(s, e, n, true) == AddSpan(s, Span(true, e.old' * n, e.new' * n), true)
    decreases n
  {
    if n == 1 {
      assert AddCopies(s, e, 0, true) == s;
    } else {
      CoarseCopies(s, e, n - 1);
      assert AddCopies(s, e, n, true) == AddSpan(AddCopies(s, e, n - 1, true), e, true);
      hide AddSpan, AddCopies;
      var r := Span(true, e.old' * (n - 1), e.new' * (n - 1));
      MulStep(e.old', n);
      MulStep(e.new', n);
      AddTwice(s, r, e);
    }
  }

  lemma AddTwice(s: seq<Span>, d: Span, e: Span)
    requires d.changed == e.changed
    ensures AddSpan(AddSpan(s, d, true), e, true)
         == AddSpan(s, Span(d.changed, d.old' + e.old', d.new' + e.new'), true)
  {
    var r := AddSpan(s, d, true);
    assert r[..|r| - 1] == if s != [] && s[|s| - 1].changed == d.changed then s[..|s| - 1] else s;
  }

  /** Outside fine compressed changes a record adds a single span. */
  lemma OneSpan(s: seq<Span>, r: Record, coarse: bool)
    requires r.Valid() && (coarse || !r.Short?)
    ensures AddRecord(s, r, coarse) == AddSpan(s, Span(!r.Keep?, r.Old(), r.New()), coarse)
  {
    if r.Short? {
      CoarseCopies(s, Span(true, r.m, r.n), r.count);
    }
  }

  lemma {:induction false} LastSpanKind(rs: seq<Record>, coarse: bool)
    requires AllValid(rs) && rs != []
    ensures Spans(rs, coarse) != [] && Spans(rs, coarse)[|Spans(rs, coarse)| - 1].changed == !rs[|rs| - 1].Keep?
  {
    var s, r := Spans(rs[..|rs| - 1], coarse), rs[|rs| - 1];
    if r.Short? && !coarse {
      FreshCopies(s, Span(true, r.m, r.n), r.count);
    } else {
      OneSpan(s, r, coarse);
    }
  }

  lemma SpansStep(rs: seq<Record>, coarse: bool, k: int)
    requires AllValid(rs) && 0 <= k < |rs|
    ensures Spans(rs[..k + 1], coarse) == AddRecord(Spans(rs[..k], coarse), rs[k], coarse)
  {
    assert rs[..k + 1][..k] == rs[..k];
  }

  /** The group's span, and how often it occurs. */
  ghost function GroupSpan(rs: seq<Record>, coarse: bool, a: int, b: int): Span
    requires 0 <= a < b <= |rs|
  {
    Span(!rs[a].Keep?, OldLen(rs, coarse, a, b), NewLen(rs, coarse, a, b))
  }

  /** At a boundary nothing joins what came before. */
  lemma FirstOfGroup(rs: seq<Record>, coarse: bool, a: int)
    requires AllValid(rs) && 0 <= a < |rs| && Boundary(rs, coarse, a)
    ensures Spans(rs[..a + 1], coarse)
         == Spans(rs[..a], coarse) + (if !coarse && rs[a].Short? then Copies(Span(true, rs[a].m, rs[a].n), rs[a].count)
                                      else [Span(!rs[a].Keep?, rs[a].Old(), rs[a].New())])
  {
    SpansStep(rs, coarse, a);
    var s := Spans(rs[..a], coarse);
    if a > 0 {
      LastSpanKind(rs[..a], coarse);
    }
    if !coarse && rs[a].Short? {
      FreshCopies(s, Span(true, rs[a].m, rs[a].n), rs[a].count);
    } else {
      OneSpan(s, rs[a], coarse);
    }
  }

  /** Further records of a group only lengthen its span. */
  lemma {:induction false} RestOfGroup(rs: seq<Record>, coarse: bool, a: int, k: int)
    requires AllValid(rs) && 0 <= a < k <= |rs| && Boundary(rs, coarse, a)
    requires forall j :: a <= j < k ==> rs[j].Keep? == rs[a].Keep?
    requires coarse || !rs[a].Short?
    requires !coarse && !rs[a].Keep? ==> k == a + 1
    ensures Spans(rs[..k], coarse)
         == Spans(rs[..a], coarse)
            + [Span(!rs[a].Keep?, OldUpTo(rs, k) - OldUpTo(rs, a), NewUpTo(rs, k) - NewUpTo(rs, a))]
    decreases k
  {
    hide Spans, OldUpTo, NewUpTo, AddSpan, AddRecord;
    if k == a + 1 {
      FirstOfGroup(rs, coarse, a);
      UpToNext(rs, a);
    } else {
      RestOfGroup(rs, coarse, a, k - 1);
      SpansStep(rs, coarse, k - 1);
      UpToNext(rs, k - 1);
      OneSpan(Spans(rs[..k - 1], coarse), rs[k - 1], coarse);
      JoinLast(Spans(rs[..a], coarse),
               Span(!rs[a].Keep?, OldUpTo(rs, k - 1) - OldUpTo(rs, a), NewUpTo(rs, k - 1) - NewUpTo(rs, a)),
               Span(!rs[k - 1].Keep?, rs[k - 1].Old(), rs[k - 1].New()), coarse);
    }
  }

  lemma JoinLast(s: seq<Span>, d: Span, e: Span, coarse: bool)
    requires d.changed == e.changed && (coarse || !e.changed)
    ensures AddSpan(s + [d], e, coarse) == s + [Span(d.changed, d.old' + e.old', d.new' + e.new')]
  {
    assert (s + [d])[..|s|] == s;
  }

  lemma GroupSpans(rs: seq<Record>, coarse: bool, a: int, b: int)
    requires AllValid(rs) && Group(rs, coarse, a, b)
    ensures Count(rs, coarse, a) >= 1
    ensures Spans(rs[..b], coarse) == Spans(rs[..a], coarse) + Copies(GroupSpan(rs, coarse, a, b), Count(rs, coarse, a))
  {
    GroupKinds(rs, coarse, a, b);
    if !coarse && rs[a].Short? {
      FirstOfGroup(rs, coarse, a);
    } else {
      RestOfGroup(rs, coarse, a, b);
      assert Copies(GroupSpan(rs, coarse, a, b), 1) == [GroupSpan(rs, coarse, a, b)];
    }
  }

  lemma AddSpanKeeps(s: seq<Span>, e: Span, coarse: bool, p: seq<Span>)
    requires p <= s && |p| < |s|
    ensures p <= AddSpan(s, e, coarse) && |p| < |AddSpan(s, e, coarse)|
  {
    assert p == s[..|p|];
  }

  lemma {:induction false} AddCopiesKeeps(s: seq<Span>, e: Span, n: nat, coarse: bool, p: seq<Span>)
    requires p <= s && |p| < |s|
    ensures p <= AddCopies(s, e, n, coarse) && |p| < |AddCopies(s, e, n, coarse)|
    decreases n
  {
    if n > 0 {
      AddCopiesKeeps(s, e, n - 1, coarse, p);
      AddSpanKeeps(AddCopies(s, e, n - 1, coarse), e, coarse, p);
    }
  }

  lemma AddRecordKeeps(s: seq<Span>, r: Record, coarse: bool, p: seq<Span>)
    requires r.Valid() && p <= s && |p| < |s|
    ensures p <= AddRecord(s, r, coarse) && |p| < |AddRecord(s, r, coarse)|
  {
    match r
    case Keep(n) => AddSpanKeeps(s, Span(false, n, n), coarse, p);
    case Long(m, n) => AddSpanKeeps(s, Span(true, m, n), coarse, p);
    case Short(m, n, c) => AddCopiesKeeps(s, Span(true, m, n), c, coarse, p);
  }

  /** The spans before a boundary are final. */
  lemma {:induction false} BoundaryPrefix(rs: seq<Record>, coarse: bool, b: int, k: int)
    requires AllValid(rs) && 0 <= b <= k <= |rs| && Boundary(rs, coarse, b)
    ensures Spans(rs[..b], coarse) <= Spans(rs[..k], coarse)
    ensures b < k ==> |Spans(rs[..b], coarse)| < |Spans(rs[..k], coarse)|
    decreases k
  {
    hide Spans, AddRecord;
    if k == b + 1 {
      FirstOfGroup(rs, coarse, b);
    } else if k > b {
      BoundaryPrefix(rs, coarse, b, k - 1);
      SpansStep(rs, coarse, k - 1);
      AddRecordKeeps(Spans(rs[..k - 1], coarse), rs[k - 1], coarse, Spans(rs[..b], coarse));
    }
  }

  /** Number of the span at place `sub` of the group starting at record `a`. */
  ghost function SpanNo(rs: seq<Record>, coarse: bool, a: int, sub: int): int
    requires AllValid(rs) && 0 <= a <= |rs|
  {
    |Spans(rs[..a], coarse)| + sub
  }

  lemma {:induction false} SumsCopiesAppended(s: seq<Span>, e: Span, n: nat)
    ensures SumOld(s + Copies(e, n)) == SumOld(s) + n * e.old'
    ensures SumNew(s + Copies(e, n)) == SumNew(s) + n * e.new'
    ensures SumRepl(s + Copies(e, n)) == SumRepl(s) + (if e.changed then n * e.new' else 0)
    decreases n
  {
    if n == 0 {
      assert s + Copies(e, 0) == s;
    } else {
      SumsCopiesAppended(s, e, n - 1);
      assert s + Copies(e, n) == (s + Copies(e, n - 1)) + [e];
      SumsAppend(s + Copies(e, n - 1), e);
      hide SumOld, SumNew, SumRepl;
      Distribute(n - 1, e.old');
      Distribute(n - 1, e.new');
    }
  }

  /** The iterator's fields at a place are those of one of the recorded spans. */
  lemma SpanAt(rs: seq<Record>, coarse: bool, a: int, b: int, sub: int)
    requires AllValid(rs) && Group(rs, coarse, a, b) && 0 <= sub < Count(rs, coarse, a)
    ensures var s, q, e := Spans(rs, coarse), SpanNo(rs, coarse, a, sub), GroupSpan(rs, coarse, a, b);
            && 0 <= q < |s| && s[q] == e
            && SumOld(s[..q]) == OldUpTo(rs, a) + sub * e.old'
            && SumNew(s[..q]) == NewUpTo(rs, a) + sub * e.new'
            && SumRepl(s[..q]) == ReplUpTo(rs, a) + (if e.changed then sub * e.new' else 0)
            && (sub + 1 == Count(rs, coarse, a) ==> SpanNo(rs, coarse, b, 0) == q + 1)
            && (sub + 1 == Count(rs, coarse, a) ==> (b < |rs| <==> q + 1 < |s|))
  {
    var s, q, e := Spans(rs, coarse), SpanNo(rs, coarse, a, sub), GroupSpan(rs, coarse, a, b);
    GroupSpans(rs, coarse, a, b);
    BoundaryPrefix(rs, coarse, b, |rs|);
    assert rs[..|rs|] == rs;
    SpansSums(rs[..a], coarse);
    UpToPrefix(rs, a, a);
    var before := Spans(rs[..a], coarse);
    hide Spans, SumOld, SumNew, SumRepl, OldUpTo, NewUpTo, ReplUpTo, Group;
    SumsCopiesAppended(before, e, sub);
    assert s[..q] == before + Copies(e, sub);
  }
}
