/** From two files of bytes to the words printed as common, deleted and added:
    reading, numbering and comparing together. */
module PrepareDiff {
  import opened EditDistance
  import opened MidpointSearch
  import opened Interning
  import opened DiffFiles
  import opened WordTrace
  import opened WordWalk
  import opened WordOutput
  import T = Tokenizer

  /** A file has at least one byte for every token. */
  lemma {:induction false} TokenCount(ws: seq<T.Bytes>, ts: seq<T.Bytes>)
    requires |ws| == |ts| && forall k :: 0 <= k < |ts| ==> ts[k] != []
    ensures |ts| <= |T.Interleaved(ws, ts)|
    decreases |ts|
  {
    if ts != [] {
      TokenCount(ws[..|ws| - 1], ts[..|ts| - 1]);
    }
  }

  /** What a file was split into. */
  ghost predicate SplitOf(classes: T.Classes, input: T.Bytes, ws: seq<T.Bytes>, ts: seq<T.Bytes>) {
    && |ws| == |ts| + 1 && classes.Tokenized(ws, ts)
    && input == T.Interleaved(ws[..|ts|], ts) + ws[|ts|]
  }

  lemma SplitSize(classes: T.Classes, input: T.Bytes, ws: seq<T.Bytes>, ts: seq<T.Bytes>)
    requires SplitOf(classes, input, ws, ts)
    ensures |ts| <= |input|
  {
    forall k | 0 <= k < |ts| ensures ts[k] != [] {
      assert classes.IsWord(ts[k]) || classes.IsDelimiter(ts[k]);
    }
    TokenCount(ws[..|ts|], ts);
  }

  /** What is printed of the numbers is printed of the words. */
  lemma {:induction false} ReplaysWords(keys: seq<Key>, x: seq<Key>, y: seq<Key>, v: seq<int>, w: seq<int>,
                                        trace: seq<Event>, i: int, j: int)
    requires Numbered(keys, x, v) && Numbered(keys, y, w) && Replays(v, w, trace, i, j)
    ensures Replays(x, y, trace, i, j)
    decreases |trace|
  {
    if trace != [] {
      var e, rest := trace[|trace| - 1], trace[..|trace| - 1];
      match e
      case Common(o, n) => ReplaysWords(keys, x, y, v, w, rest, o, n);
      case Deletion(o) => ReplaysWords(keys, x, y, v, w, rest, o, j);
      case Addition(n) => ReplaysWords(keys, x, y, v, w, rest, i, n);
    }
  }

  lemma RestMeansWords(keys: seq<Key>, x: seq<Key>, y: seq<Key>, v: seq<int>, w: seq<int>, i: int, j: int)
    requires Numbered(keys, x, v) && Numbered(keys, y, w) && 0 <= i <= |v| && 0 <= j <= |w| && v[i..] == w[j..]
    ensures x[i..] == y[j..]
  {
    assert |v[i..]| == |w[j..]|;
    forall k | 0 <= k < |x| - i ensures x[i..][k] == y[j..][k] {
      assert v[i..][k] == w[j..][k];
    }
  }

  /** What was read: two files split into words and whitespace, and their folded
      words numbered together. */
  datatype Files = Files(ws0: seq<T.Bytes>, ts0: seq<T.Bytes>, ws1: seq<T.Bytes>, ts1: seq<T.Bytes>,
                         keys: seq<Key>, v: seq<int>, w: seq<int>)

  ghost predicate FilesOf(f: Files, classes: T.Classes, input0: T.Bytes, input1: T.Bytes,
                          words0: seq<Key>, words1: seq<Key>) {
    && SplitOf(classes, input0, f.ws0, f.ts0) && words0 == classes.FoldTokens(f.ts0)
    && SplitOf(classes, input1, f.ws1, f.ts1) && words1 == classes.FoldTokens(f.ts1)
    && Distinct(f.keys) && Numbered(f.keys, words0, f.v) && Numbered(f.keys, words1, f.w)
  }

  /** Numbers of the two files are equal exactly if the words are. */
  lemma NumbersFaithful(f: Files, classes: T.Classes, input0: T.Bytes, input1: T.Bytes,
                        words0: seq<Key>, words1: seq<Key>, a: int, b: int)
    requires FilesOf(f, classes, input0, input1, words0, words1) && 0 <= a < |words0| && 0 <= b < |words1|
    ensures |f.v| == |words0| && |f.w| == |words1| && (f.v[a] == f.w[b] <==> words0[a] == words1[b])
  {}

  /** Reads both files and numbers their words together. */
  method ReadFiles(classes: T.Classes, input0: T.Bytes, input1: T.Bytes)
    returns (words0: seq<Key>, words1: seq<Key>, v: seq<int>, w: seq<int>, baseHashMax: nat, ghost f: Files)
    requires |input0| + |input1| < VALUE_MAX
    ensures FilesOf(f, classes, input0, input1, words0, words1) && f.v == v && f.w == w
    ensures |v| == |words0| <= |input0| && |w| == |words1| <= |input1| && baseHashMax <= |words0| + |words1|
    ensures forall k :: 0 <= k < |v| ==> 0 <= v[k] < baseHashMax
    ensures forall k :: 0 <= k < |w| ==> 0 <= w[k] < baseHashMax
  {
    hide T.Records, T.Interleaved, Numbered, Position, Table, Distinct, Interner.Valid, SeenAll;
    var t := new Interner();
    var f0 := new T.InputFile(classes);
    f0.ReadFile(input0);
    words0 := f0.words;
    ghost var ws0, ts0 := f0.split.ws, f0.split.ts;
    SplitSize(classes, input0, ws0, ts0);
    v := InternAll(t, words0);
    ghost var keys := t.keys;
    var f1 := new T.InputFile(classes);
    f1.ReadFile(input1);
    words1 := f1.words;
    ghost var ws1, ts1 := f1.split.ws, f1.split.ts;
    SplitSize(classes, input1, ws1, ts1);
    w := InternAll(t, words1);
    f := Files(ws0, ts0, ws1, ts1, t.keys, v, w);
    NumberedGrows(keys, f.keys, words0, v);
    CountedDistinct(t);
    InRange(f.keys, words0, v);
    InRange(f.keys, words1, w);
    baseHashMax := t.GetHashMax();
  }

  /** Reads two files and compares their words: the words consumed are those of
      the two files, in order, common words and the words left over are equal
      after folding, and everything DoDiff promises of the numbers holds. */
  method PrepareAndExecuteDiff(classes: T.Classes, input0: T.Bytes, input1: T.Bytes, matchContext: nat, o: Options)
    returns (words0: seq<Key>, words1: seq<Key>, ok: bool, trace: seq<Event>, i: int, j: int,
             ghost f: Files, ghost walks: seq<Walk>)
    requires 2 * (|input0| + |input1|) < OFFSET_MAX
    ensures FilesOf(f, classes, input0, input1, words0, words1) && |words0| <= |input0| && |words1| <= |input1|
    ensures 0 <= i <= |words0| && 0 <= j <= |words1| && Replays(words0, words1, trace, i, j)
    ensures OldWords(words0, trace) == words0[..i] && NewWords(words1, trace) == words1[..j]
    ensures |f.v| == |words0| && |f.w| == |words1|
    ensures Outcome(f.v, f.w, o, walks, ok, {}, Printed(trace))
    ensures Begins(walks[0], Range(0, |f.v|, 0, |f.w|), matchContext)
    ensures !ok ==> Stopped(f.v, f.w, i, j, walks)
    ensures o.minimal || matchContext < 2 ==> ok
    ensures var size := |words0| + |words1| + 2 * Fitting(matchContext, |words0|, |words1|);
            Small(o.minimal, o.speedLargeFiles, size) ==> ok
    ensures (forall k :: k in walks ==> Uncut(k, o)) ==> ok
    ensures ok ==> words0[i..] == words1[j..]
    ensures ok ==> (i == |words0| && j == |words1| <==> o.printCommon || EndsWithChange(f.v, f.w, trace))
    ensures !o.printCommon ==> trace == UpToLastChange(trace)
    ensures ok ==> Dist(f.v, f.w) <= Changes(trace)
    ensures o.minimal && matchContext < 2 ==> Changes(trace) == Dist(f.v, f.w)
  {
    hide Replays, Changes, Dist, OldWords, NewWords, Outcome, Printed, Stopped, EndsWithChange, EndsDiffer;
    hide UpToLastChange, LastWordsNeeded, Small, Fitting, FilesOf, Uncut;
    var v, w, baseHashMax;
    words0, words1, v, w, baseHashMax, f := ReadFiles(classes, input0, input1);
    ok, trace, i, j, walks := DoDiff(v, w, baseHashMax, matchContext, o);
    SameInWords(f, classes, input0, input1, words0, words1, trace, i, j, ok);
  }

  lemma SameInWords(f: Files, classes: T.Classes, input0: T.Bytes, input1: T.Bytes,
                    words0: seq<Key>, words1: seq<Key>, trace: seq<Event>, i: int, j: int, ok: bool)
    requires FilesOf(f, classes, input0, input1, words0, words1)
    requires Replays(f.v, f.w, trace, i, j) && 0 <= i <= |f.v| && 0 <= j <= |f.w| && (ok ==> f.v[i..] == f.w[j..])
    ensures i <= |words0| && j <= |words1| && Replays(words0, words1, trace, i, j)
    ensures OldWords(words0, trace) == words0[..i] && NewWords(words1, trace) == words1[..j]
    ensures ok ==> words0[i..] == words1[j..]
  {
    hide Replays, OldWords, NewWords, SplitOf, Distinct;
    ReplaysWords(f.keys, words0, words1, f.v, f.w, trace, i, j);
    TraceReproduces(words0, words1, trace, i, j);
    if ok {
      RestMeansWords(f.keys, words0, words1, f.v, f.w, i, j);
    }
  }

  lemma InRange(keys: seq<Key>, requests: seq<Key>, ids: seq<int>)
    requires Numbered(keys, requests, ids)
    ensures |ids| == |requests| && forall k :: 0 <= k < |ids| ==> 0 <= ids[k] < |keys|
  {}
}
