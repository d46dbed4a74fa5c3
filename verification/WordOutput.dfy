/** The recursive driver of doDiff.c: it walks a script, keeps one cursor per
    file and consumes words as common, deleted or added. */
module WordOutput {
  import opened EditDistance
  import opened MidpointSearch
  import opened DiffFiles
  import opened Interning
  import opened ContextWindows
  import opened WordDiff
  import opened WordTrace
  import opened WordWalk

  class Printer {
    const v: seq<int>
    const w: seq<int>
    const baseHashMax: nat
    var oldPrinted: int
    var newPrinted: int
    var trace: seq<Event>

    constructor (v: seq<int>, w: seq<int>, baseHashMax: nat)
      ensures this.v == v && this.w == w && this.baseHashMax == baseHashMax
      ensures oldPrinted == 0 && newPrinted == 0 && trace == [] && Valid()
    {
      this.v := v;
      this.w := w;
      this.baseHashMax := baseHashMax;
      oldPrinted, newPrinted, trace := 0, 0, [];
    }

    ghost predicate Valid()
      reads this
    {
      && 0 <= oldPrinted <= |v| && 0 <= newPrinted <= |w|
      && Replays(v, w, trace, oldPrinted, newPrinted)
    }

    /** Nothing common has been consumed since the last change. */
    ghost predicate AtChange()
      reads this
    {
      trace == [] || !trace[|trace| - 1].Common?
    }

    /** The words from the cursors up to (at0, at1) pair up equal. */
    ghost predicate Behind(at0: int, at1: int)
      reads this
    {
      && 0 <= oldPrinted <= at0 <= |v| && 0 <= newPrinted <= at1 <= |w|
      && v[oldPrinted..at0] == w[newPrinted..at1]
    }

    /** Consumes common words until word `idx` of the new file. */
    method PrintToCommonWord(idx: int, ghost at0: int)
      requires Valid() && Behind(at0, idx)
      modifies this
      ensures Valid() && oldPrinted == at0 && newPrinted == idx && Changes(trace) == old(Changes(trace))
      ensures Printed(trace) == old(Printed(trace))
    {
      hide Replays, Changes, Printed;
      assert |v[oldPrinted..at0]| == |w[newPrinted..idx]|;
      while newPrinted < idx
        invariant Valid() && Behind(at0, idx) && at0 - oldPrinted == idx - newPrinted
        invariant Changes(trace) == old(Changes(trace)) && Printed(trace) == old(Printed(trace))
      {
        ChangesStep(trace, Event.Common(oldPrinted, newPrinted));
        PrintedStep(trace, Event.Common(oldPrinted, newPrinted));
        assert v[oldPrinted..at0][0] == w[newPrinted..idx][0];
        assert v[oldPrinted + 1..at0] == v[oldPrinted..at0][1..] && w[newPrinted + 1..idx] == w[newPrinted..idx][1..];
        ReplaysStep(v, w, trace, oldPrinted, newPrinted);
        trace := trace + [Event.Common(oldPrinted, newPrinted)];
        newPrinted := newPrinted + 1;
        oldPrinted := oldPrinted + 1;
      }
    }

    /** Consumes `count` deleted words; the cursor must stand at `start`. */
    method PrintDeletedWords(start: int, count: int)
      requires Valid() && oldPrinted == start && count >= 1 && start + count <= |v|
      modifies this
      ensures Valid() && oldPrinted == start + count && newPrinted == old(newPrinted)
      ensures AtChange() && Changes(trace) == old(Changes(trace)) + count
      ensures Printed(trace) == old(Printed(trace)) + Deletions(start, start + count)
    {
      hide Replays, Changes, Printed, Deletions;
      NoWords(start);
      ReplaysStep(v, w, trace, oldPrinted, newPrinted);
      ChangesStep(trace, Deletion(oldPrinted));
      PrintedStep(trace, Deletion(oldPrinted));
      OneWordMore(start, oldPrinted);
      trace := trace + [Deletion(oldPrinted)];
      oldPrinted := oldPrinted + 1;
      while oldPrinted < start + count
        invariant Valid() && start < oldPrinted <= start + count && newPrinted == old(newPrinted)
        invariant AtChange() && Changes(trace) == old(Changes(trace)) + (oldPrinted - start)
        invariant Printed(trace) == old(Printed(trace)) + Deletions(start, oldPrinted)
      {
        ChangesStep(trace, Deletion(oldPrinted));
        PrintedStep(trace, Deletion(oldPrinted));
        OneWordMore(start, oldPrinted);
        ReplaysStep(v, w, trace, oldPrinted, newPrinted);
        trace := trace + [Deletion(oldPrinted)];
        oldPrinted := oldPrinted + 1;
      }
    }

    method PrintAddedWords(start: int, count: int)
      requires Valid() && newPrinted == start && count >= 1 && start + count <= |w|
      modifies this
      ensures Valid() && newPrinted == start + count && oldPrinted == old(oldPrinted)
      ensures AtChange() && Changes(trace) == old(Changes(trace)) + count
      ensures Printed(trace) == old(Printed(trace)) + Additions(start, start + count)
    {
      hide Replays, Changes, Printed, Additions;
      NoWords(start);
      ReplaysStep(v, w, trace, oldPrinted, newPrinted);
      ChangesStep(trace, Addition(newPrinted));
      PrintedStep(trace, Addition(newPrinted));
      OneWordMore(start, newPrinted);
      trace := trace + [Addition(newPrinted)];
      newPrinted := newPrinted + 1;
      while newPrinted < start + count
        invariant Valid() && start < newPrinted <= start + count && oldPrinted == old(oldPrinted)
        invariant AtChange() && Changes(trace) == old(Changes(trace)) + (newPrinted - start)
        invariant Printed(trace) == old(Printed(trace)) + Additions(start, newPrinted)
      {
        ChangesStep(trace, Addition(newPrinted));
        PrintedStep(trace, Addition(newPrinted));
        OneWordMore(start, newPrinted);
        ReplaysStep(v, w, trace, oldPrinted, newPrinted);
        trace := trace + [Addition(newPrinted)];
        newPrinted := newPrinted + 1;
      }
    }

    /** Prints one trimmed change after the common words before it. */
    method PrintChange(c: Change)
      requires Valid() && Behind(c.line0, c.line1)
      requires 0 <= c.deleted && 0 <= c.inserted && c.deleted + c.inserted > 0
      requires c.End0() <= |v| && c.End1() <= |w|
      modifies this
      ensures Valid() && oldPrinted == c.End0() && newPrinted == c.End1()
      ensures AtChange() && Changes(trace) == old(Changes(trace)) + c.deleted + c.inserted
      ensures Printed(trace) == old(Printed(trace)) + ChangedWords(c)
    {
      hide Replays, Changes, Printed, Deletions, Additions;
      NoWords(c.line0);
      NoWords(c.line1);
      PrintToCommonWord(c.line1, c.line0);
      var reverse: bool := *;  // depends on the white space around the change
      if reverse && c.deleted > 0 && c.inserted > 0 {
        PrintAddedWords(c.line1, c.inserted);
        PrintDeletedWords(c.line0, c.deleted);
      } else {
        if c.deleted > 0 {
          PrintDeletedWords(c.line0, c.deleted);
        }
        if c.inserted > 0 {
          PrintAddedWords(c.line1, c.inserted);
        }
      }
    }

    /** Consumes the words after the last change, unless common words are not
        to be printed. */
    method PrintEnd(printCommon: bool)
      requires Valid() && Behind(|v|, |w|)
      modifies this
      ensures Valid() && Behind(|v|, |w|)
      ensures Changes(trace) == old(Changes(trace)) && Printed(trace) == old(Printed(trace))
      ensures if printCommon then oldPrinted == |v| && newPrinted == |w| else trace == old(trace)
    {
      if !printCommon {
        return;
      }
      PrintToCommonWord(|w|, |v|);
      assert v[|v|..|v|] == w[|w|..|w|];
    }
  }

  ghost predicate Fits(p: Printer, r: Range) {
    0 <= r.r0 && 0 <= r.n0 && r.r0 + r.n0 <= |p.v| && 0 <= r.r1 && 0 <= r.n1 && r.r1 + r.n1 <= |p.w|
  }

  ghost predicate Inputs(p: Printer) {
    && 2 * (|p.v| + |p.w|) < OFFSET_MAX && p.baseHashMax < VALUE_MAX
    && (forall k :: 0 <= k < |p.v| ==> 0 <= p.v[k] < p.baseHashMax)
    && (forall k :: 0 <= k < |p.w| ==> 0 <= p.w[k] < p.baseHashMax)
  }

  /** Windows of both ranges as tokens, numbered together. */
  method BothTokens(t: Interner, v: seq<int>, w: seq<int>, context: nat)
    returns (x: seq<int>, y: seq<int>, equivMax: int)
    requires t.Valid() && t.keys == [] && context <= |v| && context <= |w| && Words(v) && Words(w)
    requires |v| + |w| + 2 * context <= VALUE_MAX
    modifies t, t.table
    ensures t.Valid() && t.keys == [] && Tokens(v, w, context, x, y)
    ensures 0 <= equivMax && forall k :: 0 <= k < |x| ==> 0 <= x[k] < equivMax
    ensures forall k :: 0 <= k < |y| ==> 0 <= y[k] < equivMax
  {
    hide Table, Window, Encode, Words;
    var a := ContextTokens(t, v, context);
    ghost var keys := t.keys;
    var b := ContextTokens(t, w, context);
    x, y := a[..], b[..];
    TokensGrow(v, context, keys, t.keys, x);
    DistinctKeys(t);
    TokensFaithful(v, w, context, t.keys, x, y);
    equivMax := t.GetHashMax();
  }

  lemma DistinctKeys(t: Interner)
    requires t.Valid()
    ensures Distinct(t.keys)
  {}

  /** Compares the words of a range with the given context and prints the
      result. It fails exactly at a short swap in one of the scripts walked, and
      never if no context fits or no comparison is cut short. The words it leaves
      unprinted at the end pair up equal. */
  method DoDiffInternal(p: Printer, t: Interner, r: Range, context: nat, o: Options)
    returns (ok: bool, ghost walks: seq<Walk>)
    requires Fits(p, r) && Inputs(p) && p.Valid() && p.Behind(r.r0, r.r1)
    requires t.Valid() && t.keys == [] && p.AtChange()
    modifies p, t, t.table
    ensures p.Valid() && p.AtChange() && t.Valid() && t.keys == []
    ensures ok ==> p.Behind(r.r0 + r.n0, r.r1 + r.n1)
    ensures Outcome(p.v, p.w, o, walks, ok, old(Printed(p.trace)), Printed(p.trace))
    ensures Begins(walks[0], r, context)
    ensures !ok ==> Stopped(p.v, p.w, p.oldPrinted, p.newPrinted, walks)
    ensures o.minimal || context < 2 ==> ok
    ensures Small(o.minimal, o.speedLargeFiles, r.n0 + r.n1 + 2 * Fitting(context, r.n0, r.n1)) ==> ok
    ensures o.minimal && context < 2 ==>
              Changes(p.trace) == old(Changes(p.trace)) + Dist(p.v[r.r0..r.r0 + r.n0], p.w[r.r1..r.r1 + r.n1])
    decreases context, 2
  {
    hide Tokens, Window, Encode, Words, Table, Describes, Deleted, Inserted, Apply, Replays, Changes, Dist;
    hide ScriptOf, Outcome, Printed, Stopped, Interner.Valid, Printer.Valid, Printer.Behind, Small, Fitting;
    var v, w := p.v[r.r0..r.r0 + r.n0], p.w[r.r1..r.r1 + r.n1];
    RangeWords(p, r);
    RangeSizes(p, r);
    FittingLimits(context, r.n0, r.n1);
    hide Inputs;
    if context == 0 {
      var script;
      ghost var work;
      script, work := DiffTwoFiles(v, w, p.baseHashMax, o.minimal, o.speedLargeFiles);
      WordsAreTokens(v, w);
      ok, walks := WalkScript(p, t, r, 0, o, v, w, script, work);
    } else {
      var trimmed := if context > r.n0 then r.n0 else context;
      trimmed := if trimmed > r.n1 then r.n1 else trimmed;
      trimmed := trimmed - trimmed % 2;
      if trimmed == 0 {
        ok, walks := DoDiffInternal(p, t, r, 0, o);
        return;
      }
      var x, y, equivMax := BothTokens(t, v, w, trimmed);
      SizesOfTokens(v, w, trimmed, x, y);
      var script;
      ghost var work;
      script, work := DiffTwoFiles(x, y, equivMax, o.minimal, o.speedLargeFiles);
      ok, walks := WalkScript(p, t, r, trimmed, o, x, y, script, work);
    }
  }

  lemma FittingLimits(context: nat, n0: nat, n1: nat)
    ensures 0 <= Fitting(context, n0, n1) <= context && Fitting(context, n0, n1) <= n0 && Fitting(context, n0, n1) <= n1
    ensures Fitting(0, n0, n1) == 0 && (context < 2 ==> Fitting(context, n0, n1) == 0)
    ensures var m := if context > n0 then n0 else context;
            var k := if m > n1 then n1 else m;
            Fitting(context, n0, n1) == k - k % 2
  {}

  lemma RangeSizes(p: Printer, r: Range)
    requires Fits(p, r) && Inputs(p)
    ensures 2 * (r.n0 + r.n1) < OFFSET_MAX && 2 * (r.n0 + r.n1) < VALUE_MAX
    ensures var v := p.v[r.r0..r.r0 + r.n0]; forall k :: 0 <= k < |v| ==> 0 <= v[k] < p.baseHashMax
    ensures var w := p.w[r.r1..r.r1 + r.n1]; forall k :: 0 <= k < |w| ==> 0 <= w[k] < p.baseHashMax
  {}

  lemma RangeWords(p: Printer, r: Range)
    requires Fits(p, r) && Inputs(p)
    ensures Words(p.v[r.r0..r.r0 + r.n0]) && Words(p.w[r.r1..r.r1 + r.n1])
  {}

  /** Handles one change over windows that is not a short swap: prints it, or
      compares its range with less context. */
  method WalkChange(p: Printer, t: Interner, r: Range, context: nat, o: Options, c: Change)
    returns (ok: bool, ghost walks: seq<Walk>)
    requires Fits(p, r) && Inputs(p) && p.Valid() && p.Behind(r.r0 + c.line0, r.r1 + c.line1)
    requires t.Valid() && t.keys == [] && p.AtChange()
    requires 0 <= c.line0 && 0 <= c.line1 && 0 <= c.deleted && 0 <= c.inserted
    requires var d := TrimChange(c, context);
             c.line0 <= d.End0() <= r.n0 && c.line1 <= d.End1() <= r.n1 && d.deleted + d.inserted > 0
    modifies p, t, t.table
    ensures p.Valid() && p.AtChange() && t.Valid() && t.keys == []
    ensures context == 0 ==> Changes(p.trace) == old(Changes(p.trace)) + c.deleted + c.inserted
    ensures ok ==> p.Behind(r.r0 + c.End0() - Excess(c, context), r.r1 + c.End1() - Excess(c, context))
    ensures if Refined(c, context, o) then
              && Outcome(p.v, p.w, o, walks, ok, old(Printed(p.trace)), Printed(p.trace))
              && walks != [] && Begins(walks[0], Part(r, c, context), (context / 4) * 2)
              && (!ok ==> Stopped(p.v, p.w, p.oldPrinted, p.newPrinted, walks))
            else
              && ok && walks == []
              && Printed(p.trace) == old(Printed(p.trace)) + ChangedWords(Placed(TrimChange(c, context), r))
    ensures o.minimal || context < 4 ==> ok
    ensures Small(o.minimal, o.speedLargeFiles, r.n0 + r.n1 + 2 * context) ==> ok
    decreases context, 0
  {
    hide Table, Replays, Changes, Dist, Printer.Valid, Printer.Behind, Interner.Valid, Inputs;
    hide Outcome, Printed, Stopped, ChangedWords, Begins, Small, Fitting, ScriptOf;
    var trimmed := TrimChange(c, context);
    SmallPart(o, r, c, context);
    if context != 0 && c.deleted > context && c.inserted > context && !o.aggregate {
      var sub := Range(r.r0 + c.line0, trimmed.deleted, r.r1 + c.line1, trimmed.inserted);
      ok, walks := DoDiffInternal(p, t, sub, (context / 4) * 2, o);
      NotEmpty(p, o, walks, ok, old(Printed(p.trace)));
    } else {
      p.PrintChange(trimmed.(line0 := r.r0 + c.line0, line1 := r.r1 + c.line1));
      AtCursors(p);
      ok, walks := true, [];
    }
  }

  lemma SmallPart(o: Options, r: Range, c: Change, context: nat)
    requires 0 <= c.line0 && 0 <= c.line1 && 0 <= c.deleted && 0 <= c.inserted
    requires var d := TrimChange(c, context);
             d.deleted >= 0 && d.inserted >= 0 && d.End0() <= r.n0 && d.End1() <= r.n1
    ensures var d := TrimChange(c, context);
            var k := Fitting((context / 4) * 2, d.deleted, d.inserted);
            Small(o.minimal, o.speedLargeFiles, r.n0 + r.n1 + 2 * context) ==>
              Small(o.minimal, o.speedLargeFiles, d.deleted + d.inserted + 2 * k)
  {
    var d := TrimChange(c, context);
    FittingLimits((context / 4) * 2, d.deleted, d.inserted);
  }

  lemma NotEmpty(p: Printer, o: Options, walks: seq<Walk>, ok: bool, before: set<Event>)
    requires Outcome(p.v, p.w, o, walks, ok, before, Printed(p.trace))
    ensures walks != []
  {}

  /** Walks a script over windows of the range. */
  method WalkScript(p: Printer, t: Interner, r: Range, context: nat, o: Options,
                    ghost x: seq<int>, ghost y: seq<int>, script: seq<Change>, ghost work: Work)
    returns (ok: bool, ghost walks: seq<Walk>)
    requires Fits(p, r) && Inputs(p) && p.Valid() && p.Behind(r.r0, r.r1)
    requires t.Valid() && t.keys == [] && p.AtChange()
    requires Tokens(p.v[r.r0..r.r0 + r.n0], p.w[r.r1..r.r1 + r.n1], context, x, y)
    requires ScriptOf(x, y, o.minimal, o.speedLargeFiles, script, work)
    modifies p, t, t.table
    ensures p.Valid() && p.AtChange() && t.Valid() && t.keys == []
    ensures ok ==> p.Behind(r.r0 + r.n0, r.r1 + r.n1)
    ensures Outcome(p.v, p.w, o, walks, ok, old(Printed(p.trace)), Printed(p.trace))
    ensures walks != [] && walks[0] == Walk(r, context, x, y, script, work)
    ensures !ok ==> Stopped(p.v, p.w, p.oldPrinted, p.newPrinted, walks)
    ensures o.minimal || context == 0 ==> ok
    ensures Small(o.minimal, o.speedLargeFiles, r.n0 + r.n1 + 2 * context) ==> ok
    ensures ok && context == 0 ==> Changes(p.trace) == old(Changes(p.trace)) + Deleted(script) + Inserted(script)
    decreases context, 1
  {
    hide Tokens, Window, Encode, Words, Table, Describes, Deleted, Inserted, Apply, Replays, Between, Dist, Changes;
    hide Printer.Valid, Printer.Behind, Interner.Valid, Inputs, Outcome, Underway, Printed, Stopped, Tight, ScriptOf;
    assert o.minimal ==> Small(o.minimal, o.speedLargeFiles, r.n0 + r.n1 + 2 * context);
    hide Small;
    hide Compares, ChangedWords, Refines, TrimChange, Excess;
    ghost var v, w := p.v[r.r0..r.r0 + r.n0], p.w[r.r1..r.r1 + r.n1];
    RangeWords(p, r);
    ghost var e0, e1, excess := 0, 0, 0;
    OfScript(x, y, o, script, work);
    SizesOfTokens(v, w, context, x, y);
    BetweenStart(v, w, context, x, y, script);
    ghost var me, inner, before := Walk(r, context, x, y, script, work), [], Printed(p.trace);
    ComparesRange(p, me, o);
    UnderwayStart(p.v, p.w, o, me, before);
    var i := 0;
    assert script[0..] == script;
    while i < |script|
      invariant 0 <= i <= |script| && p.Valid() && t.Valid() && t.keys == []
      invariant Between(v, w, x, y, context, script[i..], e0, e1, excess)
      invariant p.Behind(r.r0 + e0 - excess, r.r1 + e1 - excess) && p.AtChange()
      invariant Underway(p.v, p.w, o, me, i, inner, before, Printed(p.trace))
      invariant context == 0 ==> Changes(p.trace) + Deleted(script[i..]) + Inserted(script[i..])
                                 == old(Changes(p.trace)) + Deleted(script) + Inserted(script)
      decreases |script| - i
    {
      var c := script[i];
      ghost var mid := Printed(p.trace);
      assert script[i..][0] == c && script[i..][1..] == script[i + 1..];
      ScriptTail(script[i..]);
      if Small(o.minimal, o.speedLargeFiles, r.n0 + r.n1 + 2 * context) {
        SmallTight(x, y, o.minimal, o.speedLargeFiles, script, work);
        TightHasNoSwap(v, w, context, x, y, script, i);
      }
      if ShortSwap(c, context) {
        UnderwaySwap(p.v, p.w, o, me, i, inner, before, mid);
        StopsHere(p, r, context, x, y, script, i, e0, e1, excess, me, [me] + inner);
        return false, [me] + inner;
      }
      UpToChange(p, r, context, x, y, script, i, e0, e1, excess);
      var done;
      ghost var subs;
      done, subs := WalkChange(p, t, r, context, o, c);
      if !done {
        FailsBelow(p, o, me, i, inner, subs, before, mid);
        return false, [me] + inner + subs;
      }
      OneChangeDone(p, o, me, i, inner, subs, before, mid);
      inner := inner + subs;
      e0, e1, excess := c.End0(), c.End1(), Excess(c, context);
      i := i + 1;
    }
    assert script[i..] == [];
    ScriptTail([]);
    UpToEnd(p, r, context, x, y, e0, e1, excess);
    UnderwayEnd(p.v, p.w, o, me, inner, before, Printed(p.trace));
    ok, walks := true, [me] + inner;
  }

  lemma OfScript(x: seq<int>, y: seq<int>, o: Options, script: seq<Change>, work: Work)
    requires ScriptOf(x, y, o.minimal, o.speedLargeFiles, script, work)
    ensures Describes(x, y, script, 0, 0)
  {
    hide Describes;
  }

  lemma ComparesRange(p: Printer, me: Walk, o: Options)
    requires Fits(p, me.range) && ScriptOf(me.x, me.y, o.minimal, o.speedLargeFiles, me.script, me.work)
    requires Tokens(p.v[me.range.r0..me.range.r0 + me.range.n0], p.w[me.range.r1..me.range.r1 + me.range.n1],
                    me.context, me.x, me.y)
    ensures Compares(me, p.v, p.w, o)
  {
    hide ScriptOf, Tokens;
  }

  /** A comparison inside the script failed. */
  lemma FailsBelow(p: Printer, o: Options, me: Walk, i: int, inner: seq<Walk>, subs: seq<Walk>,
                   before: set<Event>, mid: set<Event>)
    requires Underway(p.v, p.w, o, me, i, inner, before, mid) && 0 <= i < |me.script|
    requires var c := me.script[i];
             && Refined(c, me.context, o)
             && subs != [] && Begins(subs[0], Part(me.range, c, me.context), (me.context / 4) * 2)
    requires Outcome(p.v, p.w, o, subs, false, mid, Printed(p.trace))
    requires Stopped(p.v, p.w, p.oldPrinted, p.newPrinted, subs)
    ensures Outcome(p.v, p.w, o, [me] + inner + subs, false, before, Printed(p.trace))
    ensures Stopped(p.v, p.w, p.oldPrinted, p.newPrinted, [me] + inner + subs)
  {
    hide Underway, Outcome, Printed, Stopped;
    UnderwayFails(p.v, p.w, o, me, i, inner, subs, before, mid, Printed(p.trace));
    StoppedMore(p.v, p.w, p.oldPrinted, p.newPrinted, subs, [me] + inner + subs);
  }

  /** The words up to the next change of a script pair up. */
  lemma UpToChange(p: Printer, r: Range, context: nat, x: seq<int>, y: seq<int>, script: seq<Change>, i: int,
                   e0: int, e1: int, excess: int)
    requires Fits(p, r) && 0 <= i < |script| && !ShortSwap(script[i], context)
    requires Words(p.v[r.r0..r.r0 + r.n0]) && Words(p.w[r.r1..r.r1 + r.n1])
    requires Tokens(p.v[r.r0..r.r0 + r.n0], p.w[r.r1..r.r1 + r.n1], context, x, y)
    requires Between(p.v[r.r0..r.r0 + r.n0], p.w[r.r1..r.r1 + r.n1], x, y, context, script[i..], e0, e1, excess)
    requires p.Behind(r.r0 + e0 - excess, r.r1 + e1 - excess)
    ensures var c, d := script[i], TrimChange(script[i], context);
            && 0 <= c.line0 && 0 <= c.line1 && 0 <= c.deleted && 0 <= c.inserted
            && c.line0 <= d.End0() <= r.n0 && c.line1 <= d.End1() <= r.n1 && d.deleted + d.inserted > 0
            && p.Behind(r.r0 + c.line0, r.r1 + c.line1)
            && Between(p.v[r.r0..r.r0 + r.n0], p.w[r.r1..r.r1 + r.n1], x, y, context, script[i + 1..],
                       c.End0(), c.End1(), Excess(c, context))
  {
    hide Tokens, Words, Between, Printer.Behind, TrimChange, Excess;
    var v, w, c := p.v[r.r0..r.r0 + r.n0], p.w[r.r1..r.r1 + r.n1], script[i];
    assert script[i..][0] == c && script[i..][1..] == script[i + 1..];
    NextChange(v, w, context, x, y, script[i..], e0, e1, excess);
    BehindFurther(p, r, e0 - excess, e1 - excess, c.line0, c.line1);
  }

  /** The words after the last change pair up. */
  lemma UpToEnd(p: Printer, r: Range, context: nat, x: seq<int>, y: seq<int>, e0: int, e1: int, excess: int)
    requires Fits(p, r) && Words(p.v[r.r0..r.r0 + r.n0]) && Words(p.w[r.r1..r.r1 + r.n1])
    requires Tokens(p.v[r.r0..r.r0 + r.n0], p.w[r.r1..r.r1 + r.n1], context, x, y)
    requires Between(p.v[r.r0..r.r0 + r.n0], p.w[r.r1..r.r1 + r.n1], x, y, context, [], e0, e1, excess)
    requires p.Behind(r.r0 + e0 - excess, r.r1 + e1 - excess)
    ensures p.Behind(r.r0 + r.n0, r.r1 + r.n1)
  {
    hide Tokens, Words, Between, Printer.Behind;
    var v, w := p.v[r.r0..r.r0 + r.n0], p.w[r.r1..r.r1 + r.n1];
    LastGap(v, w, context, x, y, e0, e1, excess);
    assert v[e0 - excess..] == v[e0 - excess..r.n0] && w[e1 - excess..] == w[e1 - excess..r.n1];
    BehindFurther(p, r, e0 - excess, e1 - excess, r.n0, r.n1);
  }

  /** One change of a script printed, or its comparison passed. */
  lemma OneChangeDone(p: Printer, o: Options, me: Walk, i: int, inner: seq<Walk>, subs: seq<Walk>,
                      before: set<Event>, mid: set<Event>)
    requires Underway(p.v, p.w, o, me, i, inner, before, mid) && 0 <= i < |me.script|
    requires var c := me.script[i];
             && !ShortSwap(c, me.context)
             && if Refined(c, me.context, o) then
                  && Outcome(p.v, p.w, o, subs, true, mid, Printed(p.trace))
                  && subs != [] && Begins(subs[0], Part(me.range, c, me.context), (me.context / 4) * 2)
                else
                  subs == [] && Printed(p.trace) == mid + ChangedWords(Placed(TrimChange(c, me.context), me.range))
    ensures Underway(p.v, p.w, o, me, i + 1, inner + subs, before, Printed(p.trace))
  {
    hide Underway, Outcome, Printed, ShortSwap;
    var c := me.script[i];
    if Refined(c, me.context, o) {
      UnderwayRefine(p.v, p.w, o, me, i, inner, subs, before, mid, Printed(p.trace));
    } else {
      UnderwayPrint(p.v, p.w, o, me, i, inner, before, mid, Printed(p.trace));
      assert inner + subs == inner;
    }
  }

  /** A run that stops at a short swap has come as far as the swap. */
  lemma StopsHere(p: Printer, r: Range, context: nat, x: seq<int>, y: seq<int>, script: seq<Change>, i: int,
                  e0: int, e1: int, excess: int, me: Walk, walks: seq<Walk>)
    requires Fits(p, r) && me.range == r && me.context == context && me.script == script && me in walks
    requires 0 <= i < |script|
    requires Words(p.v[r.r0..r.r0 + r.n0]) && Words(p.w[r.r1..r.r1 + r.n1])
    requires Tokens(p.v[r.r0..r.r0 + r.n0], p.w[r.r1..r.r1 + r.n1], context, x, y)
    requires Between(p.v[r.r0..r.r0 + r.n0], p.w[r.r1..r.r1 + r.n1], x, y, context, script[i..], e0, e1, excess)
    requires ShortSwap(script[i], context) && p.Behind(r.r0 + e0 - excess, r.r1 + e1 - excess)
    ensures Stopped(p.v, p.w, p.oldPrinted, p.newPrinted, walks)
  {
    hide Tokens, Words, Between;
    var v, w, c := p.v[r.r0..r.r0 + r.n0], p.w[r.r1..r.r1 + r.n1], script[i];
    BeforeSwap(v, w, context, x, y, script[i..], e0, e1, excess);
    BehindFurther(p, r, e0 - excess, e1 - excess, Min(c.line0, r.n0), Min(c.line1, r.n1));
    assert AtSwap(p.v, p.w, p.oldPrinted, p.newPrinted, me, c);
  }

  lemma ScriptTail(s: seq<Change>)
    ensures s == [] ==> Deleted(s) == 0 && Inserted(s) == 0
    ensures s != [] ==> Deleted(s) == s[0].deleted + Deleted(s[1..]) && Inserted(s) == s[0].inserted + Inserted(s[1..])
  {}

  lemma AtCursors(p: Printer)
    requires p.Valid()
    ensures p.Behind(p.oldPrinted, p.newPrinted)
  {
    assert p.v[p.oldPrinted..p.oldPrinted] == p.w[p.newPrinted..p.newPrinted];
  }

  lemma BetweenStart(v: seq<int>, w: seq<int>, context: nat, x: seq<int>, y: seq<int>, s: seq<Change>)
    requires Tokens(v, w, context, x, y) && Describes(x, y, s, 0, 0)
    ensures Between(v, w, x, y, context, s[0..], 0, 0, 0)
  {
    assert s[0..] == s;
  }

  /** Words that pair up from the cursors to one place and from there to the
      next pair up to the next. */
  lemma BehindFurther(p: Printer, r: Range, a0: int, a1: int, b0: int, b1: int)
    requires Fits(p, r) && p.Behind(r.r0 + a0, r.r1 + a1)
    requires 0 <= a0 <= b0 <= r.n0 && 0 <= a1 <= b1 <= r.n1
    requires p.v[r.r0..r.r0 + r.n0][a0..b0] == p.w[r.r1..r.r1 + r.n1][a1..b1]
    ensures p.Behind(r.r0 + b0, r.r1 + b1)
  {
    Pasted(p.v, p.oldPrinted, r.r0, r.n0, a0, b0);
    Pasted(p.w, p.newPrinted, r.r1, r.n1, a1, b1);
  }

  lemma Pasted(v: seq<int>, from: int, r: int, n: int, a: int, b: int)
    requires 0 <= from <= r + a && 0 <= r && 0 <= a <= b <= n && r + n <= |v|
    ensures v[from..r + b] == v[from..r + a] + v[r..r + n][a..b]
  {
    var part := v[r..r + n];
    forall k | 0 <= k < b - a ensures part[a..b][k] == v[r + a..r + b][k] {
      assert part[a + k] == v[r + (a + k)];
    }
    assert part[a..b] == v[r + a..r + b];
  }

  /** One of the files is empty, or their last words differ. */
  predicate EndsDiffer(v: seq<int>, w: seq<int>) {
    v == [] || w == [] || v[|v| - 1] != w[|w| - 1]
  }

  /** The whole run. It passes exactly if no script walked has a short swap. Words
      0..i and 0..j are consumed once and in order; those printed as changed are
      the ones the scripts say. In a run that passes the words left over pair up
      equal. They are none if common words are printed, or if the files end with
      a change; otherwise the common words after the last change are left. */
  method DoDiff(v: seq<int>, w: seq<int>, baseHashMax: nat, matchContext: nat, o: Options)
    returns (ok: bool, trace: seq<Event>, i: int, j: int, ghost walks: seq<Walk>)
    requires 2 * (|v| + |w|) < OFFSET_MAX && baseHashMax < VALUE_MAX
    requires forall k :: 0 <= k < |v| ==> 0 <= v[k] < baseHashMax
    requires forall k :: 0 <= k < |w| ==> 0 <= w[k] < baseHashMax
    ensures Outcome(v, w, o, walks, ok, {}, Printed(trace))
    ensures Begins(walks[0], Range(0, |v|, 0, |w|), matchContext)
    ensures !ok ==> Stopped(v, w, i, j, walks)
    ensures o.minimal || matchContext < 2 ==> ok
    ensures Small(o.minimal, o.speedLargeFiles, |v| + |w| + 2 * Fitting(matchContext, |v|, |w|)) ==> ok
    ensures (forall k :: k in walks ==> Uncut(k, o)) ==> ok
    ensures 0 <= i <= |v| && 0 <= j <= |w| && Replays(v, w, trace, i, j)
    ensures OldWords(v, trace) == v[..i] && NewWords(w, trace) == w[..j]
    ensures ok ==> v[i..] == w[j..]
    ensures ok ==> (i == |v| && j == |w| <==> o.printCommon || EndsWithChange(v, w, trace))
    ensures ok && EndsDiffer(v, w) ==> i == |v| && j == |w|
    ensures !o.printCommon ==> trace == UpToLastChange(trace)
    ensures ok ==> Dist(v, w) <= Changes(trace)
    ensures o.minimal && matchContext < 2 ==> Changes(trace) == Dist(v, w)
    ensures o.minimal && matchContext < 2 && !o.printCommon && LastWordsNeeded(v, w) ==> i < |v| && j < |w|
  {
    hide Replays, Changes, Dist, OldWords, NewWords, EndsWithChange, EndsDiffer, Outcome, Printed, Stopped;
    hide LastWordsNeeded, UpToLastChange, Small, Fitting, Printer.Valid, Interner.Valid, Uncut;
    assert Words(v) && Words(w);
    hide Words;
    var p := new Printer(v, w, baseHashMax);
    var t := new Interner();
    ok, walks := Execute(p, t, matchContext, o);
    trace, i, j := p.trace, p.oldPrinted, p.newPrinted;
    if !o.printCommon {
      NothingCut(trace);
    }
    if forall k :: k in walks ==> Uncut(k, o) {
      UncutPasses(v, w, o, walks, ok, {}, Printed(trace));
    }
    if ok {
      Passed(v, w, trace, i, j, o.printCommon);
    }
  }

  /** Compares everything and prints the end. */
  method Execute(p: Printer, t: Interner, matchContext: nat, o: Options) returns (ok: bool, ghost walks: seq<Walk>)
    requires Inputs(p) && p.Valid() && p.trace == [] && p.oldPrinted == 0 && p.newPrinted == 0
    requires t.Valid() && t.keys == []
    modifies p, t, t.table
    ensures Outcome(p.v, p.w, o, walks, ok, {}, Printed(p.trace))
    ensures Begins(walks[0], Range(0, |p.v|, 0, |p.w|), matchContext)
    ensures !ok ==> Stopped(p.v, p.w, p.oldPrinted, p.newPrinted, walks)
    ensures o.minimal || matchContext < 2 ==> ok
    ensures var size := |p.v| + |p.w| + 2 * Fitting(matchContext, |p.v|, |p.w|);
            Small(o.minimal, o.speedLargeFiles, size) ==> ok
    ensures 0 <= p.oldPrinted <= |p.v| && 0 <= p.newPrinted <= |p.w|
    ensures Replays(p.v, p.w, p.trace, p.oldPrinted, p.newPrinted)
    ensures OldWords(p.v, p.trace) == p.v[..p.oldPrinted] && NewWords(p.w, p.trace) == p.w[..p.newPrinted]
    ensures ok ==> p.v[p.oldPrinted..|p.v|] == p.w[p.newPrinted..|p.w|]
    ensures ok && o.printCommon ==> p.oldPrinted == |p.v| && p.newPrinted == |p.w|
    ensures !o.printCommon ==> p.AtChange()
    ensures o.minimal && matchContext < 2 ==> Changes(p.trace) == Dist(p.v, p.w)
  {
    hide Replays, Changes, Dist, OldWords, NewWords, Outcome, Printed, Stopped, Small, Fitting;
    hide Printer.Valid, Printer.Behind, Interner.Valid, Inputs;
    NothingPrinted();
    AtCursors(p);
    assert p.v[0..|p.v|] == p.v && p.w[0..|p.w|] == p.w;
    ok, walks := DoDiffInternal(p, t, Range(0, |p.v|, 0, |p.w|), matchContext, o);
    if ok {
      p.PrintEnd(o.printCommon);
    }
    PrinterState(p, ok);
  }

  /** What a run that passes has done. */
  lemma Passed(v: seq<int>, w: seq<int>, trace: seq<Event>, i: int, j: int, printCommon: bool)
    requires 0 <= i <= |v| && 0 <= j <= |w| && Replays(v, w, trace, i, j) && v[i..|v|] == w[j..|w|]
    requires if printCommon then i == |v| && j == |w| else trace == [] || !trace[|trace| - 1].Common?
    ensures v[i..] == w[j..] && Dist(v, w) <= Changes(trace)
    ensures i == |v| && j == |w| <==> printCommon || EndsWithChange(v, w, trace)
    ensures EndsDiffer(v, w) ==> i == |v| && j == |w|
    ensures !printCommon && LastWordsNeeded(v, w) && Changes(trace) == Dist(v, w) ==> i < |v| && j < |w|
  {
    hide Replays, Changes, Dist, EndsWithChange, EndsDiffer, LastWordsNeeded;
    Finished(v, w, trace, i, j, printCommon);
    RestFollows(v, w, trace, i, j);
    assert |v[i..]| == |w[j..]|;
    if !printCommon && LastWordsNeeded(v, w) && Changes(trace) == Dist(v, w) {
      LastWordsLeft(v, w, trace, i, j);
    }
  }

  lemma NothingPrinted()
    ensures Changes([]) == 0 && Printed([]) == {}
  {}

  lemma PrinterState(p: Printer, ok: bool)
    requires p.Valid() && (ok ==> p.Behind(|p.v|, |p.w|))
    ensures 0 <= p.oldPrinted <= |p.v| && 0 <= p.newPrinted <= |p.w|
    ensures Replays(p.v, p.w, p.trace, p.oldPrinted, p.newPrinted)
    ensures OldWords(p.v, p.trace) == p.v[..p.oldPrinted] && NewWords(p.w, p.trace) == p.w[..p.newPrinted]
    ensures ok ==> p.v[p.oldPrinted..|p.v|] == p.w[p.newPrinted..|p.w|]
  {
    TraceReproduces(p.v, p.w, p.trace, p.oldPrinted, p.newPrinted);
  }

  lemma NothingCut(trace: seq<Event>)
    requires trace == [] || !trace[|trace| - 1].Common?
    ensures UpToLastChange(trace) == trace
  {}

  lemma Finished(v: seq<int>, w: seq<int>, trace: seq<Event>, i: int, j: int, printCommon: bool)
    requires 0 <= i <= |v| && 0 <= j <= |w| && Replays(v, w, trace, i, j) && v[i..|v|] == w[j..|w|]
    requires if printCommon then i == |v| && j == |w| else trace == [] || !trace[|trace| - 1].Common?
    ensures v[i..] == w[j..]
    ensures i == |v| && j == |w| <==> printCommon || EndsWithChange(v, w, trace)
    ensures EndsDiffer(v, w) ==> i == |v| && j == |w|
  {
    assert v[i..] == v[i..|v|] && w[j..] == w[j..|w|];
    assert |v[i..]| == |w[j..]|;
    if EndsWithChange(v, w, trace) {
      WholeFilesOnce(v, w, trace, i, j);
    }
    if i < |v| {
      assert v[|v| - 1] == v[i..][|v| - 1 - i] == w[j..][|w| - 1 - j] == w[|w| - 1];
    }
  }

  /** Equal files without common words printed: nothing is consumed at all, so
      not every run that completes consumes the files. */
  method EqualFiles(v: seq<int>, baseHashMax: nat, o: Options) returns (trace: seq<Event>, i: int, j: int)
    requires 4 * |v| < OFFSET_MAX && baseHashMax < VALUE_MAX && o.minimal && !o.printCommon
    requires forall k :: 0 <= k < |v| ==> 0 <= v[k] < baseHashMax
    ensures trace == [] && i == 0 && j == 0 && (EndsWithChange(v, v, trace) <==> v == [])
  {
    hide Dist;
    var ok;
    ghost var walks;
    ok, trace, i, j, walks := DoDiff(v, v, baseHashMax, 0, o);
    DistSame(v);
    if trace != [] {
      ChangesStep(trace[..|trace| - 1], trace[|trace| - 1]);
      assert trace == trace[..|trace| - 1] + [trace[|trace| - 1]];
      LastIsChange(trace);
    }
  }

  /** Files that end with the same word, found nowhere else in them: without
      common words printed the last words are not consumed. */
  method SameLastWord(v: seq<int>, w: seq<int>, baseHashMax: nat, o: Options)
    returns (trace: seq<Event>, i: int, j: int)
    requires 2 * (|v| + |w|) < OFFSET_MAX && baseHashMax < VALUE_MAX && o.minimal && !o.printCommon
    requires forall k :: 0 <= k < |v| ==> 0 <= v[k] < baseHashMax
    requires forall k :: 0 <= k < |w| ==> 0 <= w[k] < baseHashMax
    requires UniqueLastWord(v, w)
    ensures Replays(v, w, trace, i, j) && Changes(trace) == Dist(v, w) && i < |v| && j < |w|
  {
    hide Dist, Changes, Replays, Outcome, Stopped, Printed, UniqueLastWord, LastWordsNeeded, EndsWithChange;
    UniqueNeeded(v, w);
    var ok;
    ghost var walks;
    ok, trace, i, j, walks := DoDiff(v, w, baseHashMax, 0, o);
  }

  /** The smallest such input: one word in both files. */
  method OneEqualWord() returns (trace: seq<Event>, i: int, j: int)
    ensures trace == [] && i == 0 && j == 0
  {
    trace, i, j := EqualFiles([0], 1, Options(false, true, false, false));
  }
}
