/** The comparisons of a run: the window scripts walked, how they come from each
    other, and which words they print. */
module WordWalk {
  import opened EditDistance
  import opened DiffFiles
  import opened ContextWindows
  import opened WordDiff
  import opened WordTrace

  /** Part of the word arrays: `n0` words from `r0`, `n1` words from `r1`. */
  datatype Range = Range(r0: int, n0: int, r1: int, n1: int)

  datatype Options = Options(aggregate: bool, minimal: bool, speedLargeFiles: bool, printCommon: bool)

  /** One comparison: windows `x` and `y` of a range, the script between them, and
      how it was found. */
  datatype Walk = Walk(range: Range, context: nat, x: seq<int>, y: seq<int>, script: seq<Change>, work: Work)

  ghost predicate Compares(k: Walk, v: seq<int>, w: seq<int>, o: Options) {
    var r := k.range;
    && 0 <= r.r0 && 0 <= r.n0 && r.r0 + r.n0 <= |v| && 0 <= r.r1 && 0 <= r.n1 && r.r1 + r.n1 <= |w|
    && Tokens(v[r.r0..r.r0 + r.n0], w[r.r1..r.r1 + r.n1], k.context, k.x, k.y)
    && ScriptOf(k.x, k.y, o.minimal, o.speedLargeFiles, k.script, k.work)
  }

  /** The program's assertion holds for all changes of the script. */
  ghost predicate Clean(k: Walk) {
    forall c :: c in k.script ==> !ShortSwap(c, k.context)
  }

  /** The comparison was not cut short. */
  ghost predicate Uncut(k: Walk, o: Options) {
    && |k.work.d0| == |k.x| && |k.work.d1| == |k.y|
    && Affordable(o.minimal, o.speedLargeFiles, k.work.Left(k.x, o.minimal), k.work.Right(k.y, o.minimal))
  }

  /** Then the program's assertion holds. */
  lemma UncutIsClean(k: Walk, v: seq<int>, w: seq<int>, o: Options)
    requires Words(v) && Words(w) && Compares(k, v, w, o) && Uncut(k, o)
    ensures Clean(k)
  {
    hide Tokens, Affordable, Describes, WorkOf, OfFlags, Tight, Deleted, Inserted, ShortSwap, Dist, Lcs;
    var r := k.range;
    var a, b := v[r.r0..r.r0 + r.n0], w[r.r1..r.r1 + r.n1];
    forall c | c in k.script ensures !ShortSwap(c, k.context) {
      var i :| 0 <= i < |k.script| && k.script[i] == c;
      TightHasNoSwap(a, b, k.context, k.x, k.y, k.script, i);
    }
  }

  // ----- which ranges are compared again

  /** The largest even context that fits the range. */
  function Fitting(context: int, n0: int, n1: int): int {
    var m := Min(Min(context, n0), n1);
    m - m % 2
  }

  /** A change so long on both sides that its range is compared again. */
  predicate Refined(c: Change, context: int, o: Options) {
    context != 0 && c.deleted > context && c.inserted > context && !o.aggregate
  }

  function Part(r: Range, c: Change, context: int): Range {
    Range(r.r0 + c.line0, c.deleted - context, r.r1 + c.line1, c.inserted - context)
  }

  ghost predicate Begins(k: Walk, r: Range, context: int) {
    k.range == r && k.context == Fitting(context, r.n0, r.n1)
  }

  /** `k` compares again what change `c` of `q` covers. */
  ghost predicate Refines(k: Walk, q: Walk, c: Change, o: Options) {
    && c in q.script && Refined(c, q.context, o)
    && Begins(k, Part(q.range, c, q.context), (q.context / 4) * 2)
  }

  ghost predicate Descends(k: Walk, walks: seq<Walk>, o: Options) {
    exists q, c :: q in walks && Refines(k, q, c, o)
  }

  ghost predicate Followed(q: Walk, c: Change, walks: seq<Walk>, o: Options) {
    Refined(c, q.context, o) ==> exists k :: k in walks && Refines(k, q, c, o)
  }

  ghost predicate AllFollowed(some: seq<Walk>, walks: seq<Walk>, o: Options) {
    forall q, c :: q in some && c in q.script ==> Followed(q, c, walks, o)
  }

  lemma DescendsMore(k: Walk, walks: seq<Walk>, more: seq<Walk>, o: Options)
    requires Descends(k, walks, o) && forall q :: q in walks ==> q in more
    ensures Descends(k, more, o)
  {
    hide Refines;
    var q, c :| q in walks && Refines(k, q, c, o);
    assert q in more;
  }

  lemma FollowedMore(q: Walk, c: Change, walks: seq<Walk>, more: seq<Walk>, o: Options)
    requires Followed(q, c, walks, o) && forall k :: k in walks ==> k in more
    ensures Followed(q, c, more, o)
  {
    hide Refines;
  }

  lemma AllFollowedMore(some: seq<Walk>, walks: seq<Walk>, more: seq<Walk>, o: Options)
    requires AllFollowed(some, walks, o) && forall k :: k in walks ==> k in more
    ensures AllFollowed(some, more, o)
  {
    hide Followed;
    forall q, c | q in some && c in q.script ensures Followed(q, c, more, o) {
      FollowedMore(q, c, walks, more, o);
    }
  }

  lemma AllFollowedBoth(some: seq<Walk>, other: seq<Walk>, walks: seq<Walk>, o: Options)
    requires AllFollowed(some, walks, o) && AllFollowed(other, walks, o)
    ensures AllFollowed(some + other, walks, o)
  {
    hide Followed;
  }

  // ----- which words are printed

  /** The change in numbers of the whole files. */
  function Placed(c: Change, r: Range): Change {
    c.(line0 := r.r0 + c.line0, line1 := r.r1 + c.line1)
  }

  ghost function ChangedWords(c: Change): set<Event> {
    Deletions(c.line0, c.End0()) + Additions(c.line1, c.End1())
  }

  /** What one change prints: its trimmed words, or nothing if it is refined. */
  ghost function PrintedBy(k: Walk, c: Change, o: Options): set<Event> {
    if Refined(c, k.context, o) then {} else ChangedWords(Placed(TrimChange(c, k.context), k.range))
  }

  /** What the first `n` changes of a walk print. */
  ghost function WalkWords(k: Walk, n: nat, o: Options): set<Event>
    requires n <= |k.script|
  {
    if n == 0 then {} else WalkWords(k, n - 1, o) + PrintedBy(k, k.script[n - 1], o)
  }

  ghost function AllWords(walks: seq<Walk>, o: Options): set<Event> {
    if walks == [] then {}
    else WalkWords(walks[0], |walks[0].script|, o) + AllWords(walks[1..], o)
  }

  lemma {:induction false} AllWordsConcat(a: seq<Walk>, b: seq<Walk>, o: Options)
    ensures AllWords(a + b, o) == AllWords(a, o) + AllWords(b, o)
    decreases |a|
  {
    hide WalkWords;
    if a == [] {
      assert a + b == b;
    } else {
      assert (a + b)[0] == a[0] && (a + b)[1..] == a[1..] + b;
      AllWordsConcat(a[1..], b, o);
    }
  }

  lemma {:induction false} WalkWordsGrow(k: Walk, m: nat, n: nat, o: Options)
    requires m <= n <= |k.script|
    ensures WalkWords(k, m, o) <= WalkWords(k, n, o)
    decreases n
  {
    hide PrintedBy;
    if m < n { WalkWordsGrow(k, m, n - 1, o); }
  }

  // ----- the outcome of a comparison

  /** All comparisons are genuine, every one but the first comes from a change of
      another. The run passes exactly if none of the scripts has a short swap.
      Then every long change has been compared again, and the words printed as
      changed since `before` are those of the scripts. */
  ghost predicate Outcome(v: seq<int>, w: seq<int>, o: Options, walks: seq<Walk>, ok: bool,
                          before: set<Event>, after: set<Event>) {
    && walks != []
    && (forall k :: k in walks ==> Compares(k, v, w, o))
    && (forall i :: 0 < i < |walks| ==> Descends(walks[i], walks, o))
    && (ok <==> forall k :: k in walks ==> Clean(k))
    && (ok ==> AllFollowed(walks, walks, o) && after == before + AllWords(walks, o))
    && before <= after <= before + AllWords(walks, o)
  }

  /** A run fails only if one of its comparisons was cut short. */
  lemma UncutPasses(v: seq<int>, w: seq<int>, o: Options, walks: seq<Walk>, ok: bool,
                    before: set<Event>, after: set<Event>)
    requires Words(v) && Words(w) && Outcome(v, w, o, walks, ok, before, after)
    requires forall k :: k in walks ==> Uncut(k, o)
    ensures ok
  {
    hide Uncut, Compares, Clean;
    forall k | k in walks ensures Clean(k) {
      UncutIsClean(k, v, w, o);
    }
  }

  /** The first `n` changes of `me` have been dealt with, `inner` are the
      comparisons they led to. */
  ghost predicate Underway(v: seq<int>, w: seq<int>, o: Options, me: Walk, n: int, inner: seq<Walk>,
                           before: set<Event>, after: set<Event>) {
    && 0 <= n <= |me.script| && Compares(me, v, w, o)
    && (forall k :: k in inner ==> Compares(k, v, w, o) && Clean(k) && Descends(k, [me] + inner, o))
    && (forall c :: c in me.script[..n] ==> !ShortSwap(c, me.context) && Followed(me, c, inner, o))
    && AllFollowed(inner, inner, o)
    && after == before + WalkWords(me, n, o) + AllWords(inner, o)
  }

  lemma UnderwayStart(v: seq<int>, w: seq<int>, o: Options, me: Walk, before: set<Event>)
    requires Compares(me, v, w, o)
    ensures Underway(v, w, o, me, 0, [], before, before)
  {
    hide Compares;
  }

  lemma UnderwayPrint(v: seq<int>, w: seq<int>, o: Options, me: Walk, n: int, inner: seq<Walk>,
                      before: set<Event>, mid: set<Event>, after: set<Event>)
    requires Underway(v, w, o, me, n, inner, before, mid) && n < |me.script|
    requires !ShortSwap(me.script[n], me.context) && !Refined(me.script[n], me.context, o)
    requires after == mid + ChangedWords(Placed(TrimChange(me.script[n], me.context), me.range))
    ensures Underway(v, w, o, me, n + 1, inner, before, after)
  {
    hide Compares, Clean, Descends, AllFollowed, AllWords, ShortSwap, ChangedWords;
    assert me.script[..n + 1] == me.script[..n] + [me.script[n]];
  }

  lemma UnderwayRefine(v: seq<int>, w: seq<int>, o: Options, me: Walk, n: int, inner: seq<Walk>,
                       subs: seq<Walk>, before: set<Event>, mid: set<Event>, after: set<Event>)
    requires Underway(v, w, o, me, n, inner, before, mid) && n < |me.script|
    requires !ShortSwap(me.script[n], me.context) && Outcome(v, w, o, subs, true, mid, after)
    requires Refines(subs[0], me, me.script[n], o)
    ensures Underway(v, w, o, me, n + 1, inner + subs, before, after)
  {
    hide Compares, Clean, Descends, AllFollowed, AllWords, ShortSwap, Followed, Refines, WalkWords;
    assert me.script[..n + 1] == me.script[..n] + [me.script[n]];
    Descendants(me, me.script[n], inner, subs, o);
    AllFollowedMore(inner, inner, inner + subs, o);
    AllFollowedMore(subs, subs, inner + subs, o);
    AllFollowedBoth(inner, subs, inner + subs, o);
    forall c | c in me.script[..n + 1] ensures !ShortSwap(c, me.context) && Followed(me, c, inner + subs, o) {
      if c in me.script[..n] {
        FollowedMore(me, c, inner, inner + subs, o);
      } else {
        FollowedBy(me, c, subs[0], inner + subs, o);
      }
    }
    AllWordsConcat(inner, subs, o);
    RefinedPrintsNothing(me, n, subs[0], o);
  }

  lemma FollowedBy(q: Walk, c: Change, k: Walk, walks: seq<Walk>, o: Options)
    requires k in walks && Refines(k, q, c, o)
    ensures Followed(q, c, walks, o)
  {}

  lemma RefinedPrintsNothing(me: Walk, n: int, k: Walk, o: Options)
    requires 0 <= n < |me.script| && Refines(k, me, me.script[n], o)
    ensures WalkWords(me, n + 1, o) == WalkWords(me, n, o)
  {}

  /** Everything compared so far, and below the next change, comes from a change. */
  lemma Descendants(me: Walk, c: Change, inner: seq<Walk>, subs: seq<Walk>, o: Options)
    requires forall k :: k in inner ==> Descends(k, [me] + inner, o)
    requires subs != [] && Refines(subs[0], me, c, o)
    requires forall i :: 0 < i < |subs| ==> Descends(subs[i], subs, o)
    ensures forall k :: k in inner + subs ==> Descends(k, [me] + (inner + subs), o)
  {
    var all := [me] + (inner + subs);
    forall k | k in inner + subs ensures Descends(k, all, o) {
      if k in inner {
        DescendsMore(k, [me] + inner, all, o);
      } else {
        var i :| 0 <= i < |subs| && subs[i] == k;
        if i == 0 {
          assert me in all;
        } else {
          DescendsMore(k, subs, all, o);
        }
      }
    }
  }

  /** Stopping at a short swap. */
  lemma UnderwaySwap(v: seq<int>, w: seq<int>, o: Options, me: Walk, n: int, inner: seq<Walk>,
                     before: set<Event>, after: set<Event>)
    requires Underway(v, w, o, me, n, inner, before, after) && n < |me.script|
    requires ShortSwap(me.script[n], me.context)
    ensures Outcome(v, w, o, [me] + inner, false, before, after)
  {
    hide Compares, Descends, AllFollowed, ShortSwap, Followed, WalkWords, AllWords;
    assert me.script[n] in me.script && !Clean(me) && me in [me] + inner;
    hide Clean;
    WordsOfBoth(me, n, inner, [], o);
    assert [me] + inner + [] == [me] + inner;
  }

  /** Stopping inside a comparison of a change. */
  lemma UnderwayFails(v: seq<int>, w: seq<int>, o: Options, me: Walk, n: int, inner: seq<Walk>,
                      subs: seq<Walk>, before: set<Event>, mid: set<Event>, after: set<Event>)
    requires Underway(v, w, o, me, n, inner, before, mid) && n < |me.script|
    requires Outcome(v, w, o, subs, false, mid, after) && Refines(subs[0], me, me.script[n], o)
    ensures Outcome(v, w, o, [me] + inner + subs, false, before, after)
  {
    hide Compares, Clean, Descends, AllFollowed, AllWords, ShortSwap, Followed, Refines, WalkWords;
    var all := [me] + inner + subs;
    Descendants(me, me.script[n], inner, subs, o);
    assert [me] + (inner + subs) == all;
    forall i | 0 < i < |all| ensures Descends(all[i], all, o) {
      assert all[i] == (inner + subs)[i - 1];
    }
    assert forall k :: k in subs ==> k in all;
    WordsOfBoth(me, n, inner, subs, o);
  }

  lemma WordsOfBoth(me: Walk, n: nat, inner: seq<Walk>, subs: seq<Walk>, o: Options)
    requires n <= |me.script|
    ensures WalkWords(me, n, o) + AllWords(inner, o) + AllWords(subs, o)
         <= AllWords([me] + inner + subs, o)
    ensures AllWords([me] + inner + subs, o)
         == WalkWords(me, |me.script|, o) + AllWords(inner, o) + AllWords(subs, o)
  {
    WalkWordsGrow(me, n, |me.script|, o);
    AllWordsConcat([me] + inner, subs, o);
    AllWordsConcat([me], inner, o);
    assert [me][1..] == [];
  }

  /** The end of the script. */
  lemma UnderwayEnd(v: seq<int>, w: seq<int>, o: Options, me: Walk, inner: seq<Walk>,
                    before: set<Event>, after: set<Event>)
    requires Underway(v, w, o, me, |me.script|, inner, before, after)
    ensures Outcome(v, w, o, [me] + inner, true, before, after)
  {
    hide Compares, Descends, AllWords, ShortSwap, WalkWords;
    var n, all := |me.script|, [me] + inner;
    assert me.script[..n] == me.script;
    assert Clean(me);
    hide Clean, Followed;
    assert AllFollowed([me], inner, o);
    hide AllFollowed;
    AllFollowedMore([me], inner, all, o);
    AllFollowedMore(inner, inner, all, o);
    AllFollowedBoth([me], inner, all, o);
    WordsOfBoth(me, n, inner, [], o);
    NoWalks(o);
    assert all + [] == all;
  }

  lemma NoWalks(o: Options)
    ensures AllWords([], o) == {}
  {}

  // ----- where a run stops

  /** The words from (i, j) to the short swap `c` of walk `k` pair up. */
  ghost predicate AtSwap(v: seq<int>, w: seq<int>, i: int, j: int, k: Walk, c: Change) {
    var a, b := k.range.r0 + Min(c.line0, k.range.n0), k.range.r1 + Min(c.line1, k.range.n1);
    && c in k.script && ShortSwap(c, k.context)
    && 0 <= i <= a <= |v| && 0 <= j <= b <= |w| && v[i..a] == w[j..b]
  }

  ghost predicate Stopped(v: seq<int>, w: seq<int>, i: int, j: int, walks: seq<Walk>) {
    exists k, c :: k in walks && AtSwap(v, w, i, j, k, c)
  }

  lemma StoppedMore(v: seq<int>, w: seq<int>, i: int, j: int, walks: seq<Walk>, more: seq<Walk>)
    requires Stopped(v, w, i, j, walks) && forall k :: k in walks ==> k in more
    ensures Stopped(v, w, i, j, more)
  {
    hide AtSwap;
  }
}
