/** What a run of the program prints, as a sequence of words that are common,
    deleted or added. */
module WordTrace {
  import opened EditDistance
  import opened WordDiff

  datatype Event = Common(before: int, after: int) | Deletion(before: int) | Addition(after: int)

  /** The events consume words 0..i of `v` and 0..j of `w`, each once and in
      order, and common words are equal. */
  ghost predicate Replays<T>(v: seq<T>, w: seq<T>, trace: seq<Event>, i: int, j: int)
    decreases |trace|
  {
    if trace == [] then i == 0 && j == 0
    else
      var e, rest := trace[|trace| - 1], trace[..|trace| - 1];
      match e
      case Common(o, n) =>
        0 <= o < |v| && 0 <= n < |w| && o == i - 1 && n == j - 1 && v[o] == w[n] && Replays(v, w, rest, o, n)
      case Deletion(o) => 0 <= o < |v| && o == i - 1 && Replays(v, w, rest, o, j)
      case Addition(n) => 0 <= n < |w| && n == j - 1 && Replays(v, w, rest, i, n)
  }

  /** What one file's reader gets to see: its words in order. */
  ghost function OldWords<T>(v: seq<T>, trace: seq<Event>): seq<T> {
    if trace == [] then []
    else
      var e := trace[|trace| - 1];
      OldWords(v, trace[..|trace| - 1]) + (if !e.Addition? && 0 <= e.before < |v| then [v[e.before]] else [])
  }

  ghost function NewWords<T>(w: seq<T>, trace: seq<Event>): seq<T> {
    if trace == [] then []
    else
      var e := trace[|trace| - 1];
      NewWords(w, trace[..|trace| - 1]) + (if !e.Deletion? && 0 <= e.after < |w| then [w[e.after]] else [])
  }

  /** A trace reproduces the consumed part of both files. */
  lemma {:induction false} TraceReproduces<T>(v: seq<T>, w: seq<T>, trace: seq<Event>, i: int, j: int)
    requires Replays(v, w, trace, i, j)
    ensures 0 <= i <= |v| && 0 <= j <= |w|
    ensures OldWords(v, trace) == v[..i] && NewWords(w, trace) == w[..j]
    decreases |trace|
  {
    if trace != [] {
      var e, rest := trace[|trace| - 1], trace[..|trace| - 1];
      match e {
        case Common(o, n) =>
          TraceReproduces(v, w, rest, o, n);
          assert v[..i] == v[..o] + [v[o]] && w[..j] == w[..n] + [w[n]];
        case Deletion(o) =>
          TraceReproduces(v, w, rest, o, j);
          assert v[..i] == v[..o] + [v[o]];
        case Addition(n) =>
          TraceReproduces(v, w, rest, i, n);
          assert w[..j] == w[..n] + [w[n]];
      }
    }
  }

  lemma ReplaysStep<T>(v: seq<T>, w: seq<T>, trace: seq<Event>, i: int, j: int)
    requires Replays(v, w, trace, i, j)
    ensures 0 <= i < |v| && 0 <= j < |w| && v[i] == w[j] ==> Replays(v, w, trace + [Event.Common(i, j)], i + 1, j + 1)
    ensures 0 <= i < |v| ==> Replays(v, w, trace + [Deletion(i)], i + 1, j)
    ensures 0 <= j < |w| ==> Replays(v, w, trace + [Addition(j)], i, j + 1)
  {
    assert forall e :: (trace + [e])[..|trace|] == trace;
  }

  /** Words printed as deleted or added. */
  ghost function Changes(trace: seq<Event>): nat {
    if trace == [] then 0
    else Changes(trace[..|trace| - 1]) + if trace[|trace| - 1].Common? then 0 else 1
  }

  lemma ChangesStep(trace: seq<Event>, e: Event)
    ensures Changes(trace + [e]) == Changes(trace) + if e.Common? then 0 else 1
  {
    assert (trace + [e])[..|trace|] == trace;
  }

  /** No trace gets by with fewer changed words than the edit distance. */
  lemma {:induction false} TraceCost(v: seq<int>, w: seq<int>, trace: seq<Event>, i: int, j: int)
    requires Replays(v, w, trace, i, j)
    ensures 0 <= i <= |v| && 0 <= j <= |w| && Dist(v[..i], w[..j]) <= Changes(trace)
    decreases |trace|
  {
    hide Dist;
    if trace == [] {
      assert v[..0] == [] == w[..0];
      DistSame([]);
    } else {
      var e, rest := trace[|trace| - 1], trace[..|trace| - 1];
      match e {
        case Common(o, n) =>
          TraceCost(v, w, rest, o, n);
          assert v[..i] == v[..o] + [v[o]] && w[..j] == w[..n] + [v[o]];
          DistMatchAppend(v[..o], w[..n], v[o]);
        case Deletion(o) =>
          TraceCost(v, w, rest, o, j);
          assert v[..i] == v[..o] + [v[o]];
          DistAppendOne(v[..o], w[..j], v[o]);
        case Addition(n) =>
          TraceCost(v, w, rest, i, n);
          assert w[..j] == w[..n] + [w[n]];
          DistAppendOne(v[..i], w[..n], w[n]);
      }
    }
  }

  /** The trace without the common words after the last change. */
  ghost function UpToLastChange(trace: seq<Event>): seq<Event> {
    if trace == [] || !trace[|trace| - 1].Common? then trace else UpToLastChange(trace[..|trace| - 1])
  }

  /** The files end with a change: nothing common is left after it. */
  ghost predicate EndsWithChange(v: seq<int>, w: seq<int>, trace: seq<Event>) {
    Replays(v, w, UpToLastChange(trace), |v|, |w|)
  }

  /** A trace fixes how far both files have been consumed. */
  lemma {:induction false} CursorsFixed(v: seq<int>, w: seq<int>, trace: seq<Event>, i: int, j: int, k: int, l: int)
    requires Replays(v, w, trace, i, j) && Replays(v, w, trace, k, l)
    ensures i == k && j == l
    decreases |trace|
  {
    if trace != [] {
      var e, rest := trace[|trace| - 1], trace[..|trace| - 1];
      match e
      case Common(o, n) => CursorsFixed(v, w, rest, o, n, o, n);
      case Deletion(o) => CursorsFixed(v, w, rest, o, j, o, l);
      case Addition(n) => CursorsFixed(v, w, rest, i, n, k, n);
    }
  }

  /** Beyond the whole files nothing can be consumed. */
  lemma {:induction false} WholeFilesOnce(v: seq<int>, w: seq<int>, trace: seq<Event>, i: int, j: int)
    requires Replays(v, w, trace, i, j) && EndsWithChange(v, w, trace)
    ensures i == |v| && j == |w|
    decreases |trace|
  {
    if trace == [] || !trace[|trace| - 1].Common? {
      CursorsFixed(v, w, trace, i, j, |v|, |w|);
    } else {
      var e := trace[|trace| - 1];
      WholeFilesOnce(v, w, trace[..|trace| - 1], e.before, e.after);
      assert false;
    }
  }

  /** The words left over are equal, so they cost nothing. */
  lemma RestFollows(v: seq<int>, w: seq<int>, trace: seq<Event>, i: int, j: int)
    requires 0 <= i <= |v| && 0 <= j <= |w| && Replays(v, w, trace, i, j) && v[i..] == w[j..]
    ensures Dist(v, w) <= Changes(trace)
  {
    hide Dist, Changes, Replays;
    TraceCost(v, w, trace, i, j);
    assert v == v[..i] + v[i..] && w == w[..j] + w[j..];
    DistTriangle(v[..i], w[..j], v[i..], w[j..]);
    DistSame(v[i..]);
  }

  lemma LastIsChange(trace: seq<Event>)
    requires trace != [] && trace == UpToLastChange(trace)
    ensures !trace[|trace| - 1].Common?
  {
    if trace[|trace| - 1].Common? {
      Shorter(trace[..|trace| - 1]);
    }
  }

  lemma {:induction false} Shorter(trace: seq<Event>)
    ensures |UpToLastChange(trace)| <= |trace|
    decreases |trace|
  {
    if trace != [] { Shorter(trace[..|trace| - 1]); }
  }

  // ----- the words printed as changed

  ghost function Printed(trace: seq<Event>): set<Event> {
    set e | e in trace && !e.Common?
  }

  lemma PrintedStep(trace: seq<Event>, e: Event)
    ensures Printed(trace + [e]) == Printed(trace) + if e.Common? then {} else {e}
  {}

  ghost function Deletions(from: int, to: int): set<Event> {
    set k | from <= k < to :: Deletion(k)
  }

  ghost function Additions(from: int, to: int): set<Event> {
    set k | from <= k < to :: Addition(k)
  }

  lemma OneWordMore(from: int, to: int)
    requires from <= to
    ensures Deletions(from, to + 1) == Deletions(from, to) + {Deletion(to)}
    ensures Additions(from, to + 1) == Additions(from, to) + {Addition(to)}
  {}

  lemma NoWords(from: int)
    ensures Deletions(from, from) == {} && Additions(from, from) == {}
  {}

  // ----- the last words

  /** Neither file can lose its last word without a longer way between them, so
      every shortest way pairs the last words. */
  ghost predicate LastWordsNeeded(v: seq<int>, w: seq<int>) {
    && v != [] && w != []
    && Dist(v, w) <= Dist(v[..|v| - 1], w) && Dist(v, w) <= Dist(v, w[..|w| - 1])
  }

  /** A shortest trace that ends with a change then leaves the last words. */
  lemma LastWordsLeft(v: seq<int>, w: seq<int>, trace: seq<Event>, i: int, j: int)
    requires Replays(v, w, trace, i, j) && Changes(trace) == Dist(v, w) && LastWordsNeeded(v, w)
    requires trace == [] || !trace[|trace| - 1].Common?
    ensures i < |v| || j < |w|
  {
    hide Dist;
    TraceCost(v, w, trace, i, j);
    if i == |v| && j == |w| {
      var e, rest := trace[|trace| - 1], trace[..|trace| - 1];
      assert v[..|v|] == v && w[..|w|] == w;
      if e.Deletion? {
        TraceCost(v, w, rest, e.before, j);
      } else {
        TraceCost(v, w, rest, i, e.after);
      }
      assert false;
    }
  }

  /** The files end with the same word, which occurs nowhere else in them. */
  predicate UniqueLastWord(v: seq<int>, w: seq<int>) {
    && v != [] && w != [] && v[|v| - 1] == w[|w| - 1]
    && v[|v| - 1] !in v[..|v| - 1] && w[|w| - 1] !in w[..|w| - 1]
  }

  lemma {:induction false} SubseqWithin(s: seq<int>, a: seq<int>)
    requires Subseq(s, a)
    ensures forall e :: e in s ==> e in a
    decreases |a|
  {
    if s != [] {
      if s[0] == a[0] && Subseq(s[1..], a[1..]) {
        SubseqWithin(s[1..], a[1..]);
        assert s == [s[0]] + s[1..];
      } else {
        SubseqWithin(s, a[1..]);
      }
    }
  }

  /** A word that the first file does not have only adds to the distance. */
  lemma AbsentWord(a: seq<int>, b: seq<int>, u: int)
    requires u !in a
    ensures Dist(a, b + [u]) == Dist(a, b) + 1 && Dist(b + [u], a) == Dist(b, a) + 1
  {
    AbsentCommon(a, b, u);
    LcsSymmetric(a, b + [u]);
    LcsSymmetric(a, b);
  }

  lemma AbsentCommon(a: seq<int>, b: seq<int>, u: int)
    requires u !in a
    ensures Lcs(a, b + [u]) == Lcs(a, b)
  {
    hide Lcs;
    var s := LcsWitness(a, b + [u]);
    var k := SubseqSplit(s, b, [u]);
    SubseqWithin(s, a);
    SubseqWithin(s[k..], [u]);
    var t := s[k..];
    assert forall e :: e in t ==> e in s;
    assert t == [];
    assert s[..k] == s;
    LcsBound(s, a, b);
    var common := LcsWitness(a, b);
    SubseqConcat(common, b, [], [u]);
    assert common + [] == common;
    LcsBound(common, a, b + [u]);
  }

  lemma LcsSymmetric(a: seq<int>, b: seq<int>)
    ensures Lcs(a, b) == Lcs(b, a)
  {
    hide Lcs;
    var s := LcsWitness(a, b);
    LcsBound(s, b, a);
    var t := LcsWitness(b, a);
    LcsBound(t, a, b);
  }

  lemma UniqueNeeded(v: seq<int>, w: seq<int>)
    requires UniqueLastWord(v, w)
    ensures LastWordsNeeded(v, w)
  {
    hide Dist;
    var a, b, u := v[..|v| - 1], w[..|w| - 1], v[|v| - 1];
    assert v == a + [u] && w == b + [u];
    DistMatchAppend(a, b, u);
    AbsentWord(a, b, u);
    AbsentWord(b, a, u);
  }
}
