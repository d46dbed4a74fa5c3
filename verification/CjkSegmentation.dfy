/** Dividing a range of Chinese or Japanese text into words: dynamic programming
    over word costs, then a trace back along the best predecessors. */
module CjkSegmentation {
  import opened Arithmetic

  const UINT32: int := 0x1_0000_0000
  const UNREACHED: int := 0xffff_ffff
  const MAX_SNLP: int := 255
  const MAX_KATAKANA_LENGTH: int := 8
  const MAX_KATAKANA_GROUP_LENGTH: int := 20

  const KATAKANA_COST: seq<int> := [8192, 984, 408, 240, 204, 252, 300, 372, 480]

  function KatakanaCost(length: nat): int {
    if length > MAX_KATAKANA_LENGTH then 8192 else KATAKANA_COST[length]
  }

  predicate IsKatakana(c: int) {
    (0x30a1 <= c <= 0x30fe && c != 0x30fb) || 0xff66 <= c <= 0xff9f
  }

  predicate IsHangul(c: int) {
    0xac00 <= c <= 0xd7a3
  }

  /** A word starting at some place: its length and cost. */
  datatype Word = Word(length: int, cost: int)

  /** The code points of the range, and the dictionary words at each of them. */
  datatype Input = Input(text: seq<int>, dictionary: seq<seq<Word>>) {
    ghost predicate Valid() {
      && |dictionary| == |text|
      && forall i, j :: 0 <= i < |text| && 0 <= j < |dictionary[i]| ==>
           var w := dictionary[i][j]; 1 <= w.length <= |text| - i && 0 <= w.cost < UINT32
    }
  }

  // ----- the words on offer

  /** Dictionary words at `i`, and the single character if it is not among them;
      Hangul is left together. */
  function Listed(input: Input, i: int): seq<Word>
    requires input.Valid() && 0 <= i < |input.text|
  {
    var words := input.dictionary[i];
    if (words == [] || words[0].length != 1) && !IsHangul(input.text[i]) then words + [Word(1, MAX_SNLP)] else words
  }

  lemma ListedValid(input: Input, i: int, j: int)
    requires input.Valid() && 0 <= i < |input.text| && 0 <= j < |Listed(input, i)|
    ensures var w := Listed(input, i)[j]; 1 <= w.length <= |input.text| - i && 0 <= w.cost < UINT32
  {}

  /** Length of the run of Katakana from `i`, counted up to the group limit. */
  ghost predicate KatakanaRun(text: seq<int>, i: int, n: int) {
    && 0 <= i && 1 <= n <= MAX_KATAKANA_GROUP_LENGTH && i + n <= |text|
    && (forall k :: i < k < i + n ==> IsKatakana(text[k]))
    && (n == MAX_KATAKANA_GROUP_LENGTH || i + n == |text| || !IsKatakana(text[i + n]))
  }

  lemma RunUnique(text: seq<int>, i: int, m: int, n: int)
    requires KatakanaRun(text, i, m) && KatakanaRun(text, i, n)
    ensures m == n
  {}

  /** `w` is offered at `i` when the place visited before it was or was not
      Katakana: a listed word, or the whole Katakana run that starts here. */
  ghost predicate Offered(input: Input, i: int, afterKatakana: bool, w: Word)
    requires input.Valid() && 0 <= i < |input.text|
  {
    || w in Listed(input, i)
    || (!afterKatakana && IsKatakana(input.text[i]) && KatakanaRun(input.text, i, w.length)
        && w.length < MAX_KATAKANA_GROUP_LENGTH && w.cost == KatakanaCost(w.length))
  }

  lemma OfferedValid(input: Input, i: int, afterKatakana: bool, w: Word)
    requires input.Valid() && 0 <= i < |input.text| && Offered(input, i, afterKatakana, w)
    ensures 1 <= w.length <= |input.text| - i && 0 <= w.cost < UINT32
  {
    if w in Listed(input, i) {
      var j :| 0 <= j < |Listed(input, i)| && Listed(input, i)[j] == w;
      ListedValid(input, i, j);
    }
  }

  /** Some word offered at `i` ends at `k`. */
  ghost predicate Joined(input: Input, i: int, afterKatakana: bool, k: int)
    requires input.Valid() && 0 <= i < |input.text|
  {
    exists w: Word :: w.length == k - i && Offered(input, i, afterKatakana, w)
  }

  /** Words can be laid from the start up to `k`. */
  ghost predicate Reachable(input: Input, k: int)
    requires input.Valid() && 0 <= k <= |input.text|
    decreases k, 2
  {
    k == 0 || ReachedBefore(input, k, k)
  }

  /** The last of these words starts before `i`. */
  ghost predicate ReachedBefore(input: Input, i: int, k: int)
    requires input.Valid() && 0 <= i <= |input.text|
    decreases i, 1
  {
    && i > 0
    && (|| (Reachable(input, i - 1) && Joined(input, i - 1, AfterKatakana(input, i - 1), k))
        || ReachedBefore(input, i - 1, k))
  }

  /** The last reachable place before `i` is Katakana. Places that are not
      reachable are passed over without notice. */
  ghost predicate AfterKatakana(input: Input, i: int)
    requires input.Valid() && 0 <= i <= |input.text|
    decreases i, 0
  {
    i > 0 && if Reachable(input, i - 1) then IsKatakana(input.text[i - 1]) else AfterKatakana(input, i - 1)
  }

  lemma {:induction false} LastWord(input: Input, i: int, k: int) returns (a: int, w: Word)
    requires input.Valid() && 0 <= i <= |input.text| && ReachedBefore(input, i, k)
    ensures 0 <= a < i && Reachable(input, a) && OnOffer(input, a, w) && w.length == k - a
    decreases i
  {
    if Reachable(input, i - 1) && Joined(input, i - 1, AfterKatakana(input, i - 1), k) {
      a := i - 1;
      w :| w.length == k - a && Offered(input, a, AfterKatakana(input, a), w);
    } else {
      a, w := LastWord(input, i - 1, k);
    }
  }

  lemma {:induction false} AfterWord(input: Input, i: int, a: int, w: Word)
    requires input.Valid() && 0 <= a < i <= |input.text| && Reachable(input, a) && OnOffer(input, a, w)
    ensures ReachedBefore(input, i, a + w.length)
    decreases i
  {
    if a == i - 1 {
      assert Joined(input, a, AfterKatakana(input, a), a + w.length);
    } else {
      AfterWord(input, i - 1, a, w);
    }
  }

  // ----- segmentations

  ghost predicate OnOffer(input: Input, i: int, w: Word)
    requires input.Valid()
  {
    0 <= i < |input.text| && Offered(input, i, AfterKatakana(input, i), w)
  }

  function End(words: seq<Word>): int {
    if words == [] then 0 else End(words[..|words| - 1]) + words[|words| - 1].length
  }

  function Cost(words: seq<Word>): int {
    if words == [] then 0 else Cost(words[..|words| - 1]) + words[|words| - 1].cost
  }

  /** The words are laid from the start, each on offer at its place. */
  ghost predicate Segmentation(input: Input, words: seq<Word>)
    requires input.Valid()
  {
    words == [] ||
    (Segmentation(input, words[..|words| - 1]) && OnOffer(input, End(words[..|words| - 1]), words[|words| - 1]))
  }

  lemma Extended(input: Input, words: seq<Word>, w: Word)
    requires input.Valid() && Segmentation(input, words) && OnOffer(input, End(words), w)
    ensures Segmentation(input, words + [w])
    ensures End(words + [w]) == End(words) + w.length && Cost(words + [w]) == Cost(words) + w.cost
  {
    assert (words + [w])[..|words|] == words;
  }

  /** No segmentation costs as much as the mark for unreached places. */
  ghost predicate NoOverflow(input: Input)
    requires input.Valid()
  {
    forall words :: Segmentation(input, words) ==> Cost(words) < UNREACHED
  }

  /** Bounded word costs keep every segmentation below the mark. */
  lemma {:induction false} CostBound(input: Input, words: seq<Word>, c: int)
    requires input.Valid() && Segmentation(input, words) && c >= 8192
    requires forall i, j :: 0 <= i < |input.text| && 0 <= j < |input.dictionary[i]| ==> input.dictionary[i][j].cost <= c
    ensures 0 <= End(words) <= |input.text| && 0 <= Cost(words) <= End(words) * c
    decreases |words|
  {
    if words != [] {
      var t, w := words[..|words| - 1], words[|words| - 1];
      CostBound(input, t, c);
      var i := End(t);
      OfferedValid(input, i, AfterKatakana(input, i), w);
      assert w.cost <= c by {
        if w in Listed(input, i) {
          var j :| 0 <= j < |Listed(input, i)| && Listed(input, i)[j] == w;
          assert w == Word(1, MAX_SNLP) || (j < |input.dictionary[i]| && input.dictionary[i][j] == w);
        }
      }
      Product(i, w.length, c);
    }
  }

  lemma Product(i: int, l: int, c: int)
    requires l >= 1 && c >= 0
    ensures i * c + c <= (i + l) * c
  {
    assert (i + l) * c == i * c + l * c;
  }

  lemma SmallCosts(input: Input, c: int)
    requires input.Valid() && c >= 8192 && |input.text| * c < UNREACHED
    requires forall i, j :: 0 <= i < |input.text| && 0 <= j < |input.dictionary[i]| ==> input.dictionary[i][j].cost <= c
    ensures NoOverflow(input)
  {
    hide Segmentation, Cost, End;
    forall words | Segmentation(input, words) ensures Cost(words) < UNREACHED {
      CostBound(input, words, c);
      MulMonotone(End(words), |input.text|, c);
    }
  }

  /** No other segmentation of the same part is cheaper. */
  ghost predicate Cheapest(input: Input, words: seq<Word>)
    requires input.Valid()
  {
    && Segmentation(input, words)
    && forall other :: Segmentation(input, other) && End(other) == End(words) ==> Cost(words) <= Cost(other)
  }

  lemma {:induction false} SegmentationEnd(input: Input, words: seq<Word>)
    requires input.Valid() && Segmentation(input, words)
    ensures 0 <= End(words) <= |input.text| && 0 <= Cost(words) && Reachable(input, End(words))
    decreases |words|
  {
    hide Offered, ReachedBefore;
    if words != [] {
      var t, w := words[..|words| - 1], words[|words| - 1];
      SegmentationEnd(input, t);
      OfferedValid(input, End(t), AfterKatakana(input, End(t)), w);
      AfterWord(input, End(t) + w.length, End(t), w);
    }
  }

  lemma {:induction false} FindCheapest(input: Input, words: seq<Word>) returns (u: seq<Word>)
    requires input.Valid() && Segmentation(input, words)
    ensures Cheapest(input, u) && End(u) == End(words)
    decreases Cost(words)
  {
    hide Segmentation, Cost, End;
    SegmentationEnd(input, words);
    if other :| Segmentation(input, other) && End(other) == End(words) && Cost(other) < Cost(words) {
      SegmentationEnd(input, other);
      u := FindCheapest(input, other);
    } else {
      u := words;
    }
  }

  /** A reachable place has a cheapest segmentation. */
  lemma {:induction false} SomeSegmentation(input: Input, k: int) returns (words: seq<Word>)
    requires input.Valid() && 0 <= k <= |input.text| && Reachable(input, k)
    ensures Segmentation(input, words) && End(words) == k
    decreases k
  {
    hide Offered, ReachedBefore, AfterKatakana;
    if k == 0 {
      words := [];
    } else {
      var a, w := LastWord(input, k, k);
      var t := SomeSegmentation(input, a);
      Extended(input, t, w);
      words := t + [w];
    }
  }

  /** All but the last word of a cheapest segmentation are one, too. */
  lemma CheapestPrefix(input: Input, words: seq<Word>)
    requires input.Valid() && Cheapest(input, words) && words != []
    ensures Cheapest(input, words[..|words| - 1])
  {
    var t, w := words[..|words| - 1], words[|words| - 1];
    assert words == t + [w];
    Extended(input, t, w);
    hide OnOffer, Segmentation, Cost, End;
    forall other | Segmentation(input, other) && End(other) == End(t) ensures Cost(t) <= Cost(other) {
      Extended(input, other, w);
      assert Segmentation(input, other + [w]) && End(other + [w]) == End(words);
    }
  }

  // ----- the tables

  function Sum32(x: int, y: int): int {
    (x + y) % UINT32
  }

  /** The last place before `i` that the table has reached is Katakana. */
  ghost predicate Noted(text: seq<int>, best: seq<int>, i: int)
    requires 0 <= i <= |text| < |best|
  {
    i > 0 && if best[i - 1] != UNREACHED then IsKatakana(text[i - 1]) else Noted(text, best, i - 1)
  }

  lemma {:induction false} NotedFrame(text: seq<int>, best: seq<int>, other: seq<int>, i: int)
    requires 0 <= i <= |text| < |best| == |other| && forall k :: 0 <= k < i ==> best[k] == other[k]
    ensures Noted(text, best, i) == Noted(text, other, i)
    decreases i
  {
    if i > 0 { NotedFrame(text, best, other, i - 1); }
  }

  /** What the search offers at `i`, going by its table. */
  ghost predicate Tried(input: Input, best: seq<int>, i: int, w: Word)
    requires input.Valid() && |best| == |input.text| + 1
  {
    0 <= i < |input.text| && Offered(input, i, Noted(input.text, best, i), w)
  }

  lemma TriedFrame(input: Input, best: seq<int>, other: seq<int>, i: int, w: Word)
    requires input.Valid() && |best| == |other| == |input.text| + 1 && i <= |input.text|
    requires forall k :: 0 <= k < i ==> best[k] == other[k]
    ensures Tried(input, best, i, w) == Tried(input, other, i, w)
  {
    if 0 <= i { NotedFrame(input.text, best, other, i); }
  }

  /** Every reached place has a predecessor before `i` that accounts for its cost. */
  ghost predicate Supported(input: Input, best: seq<int>, prev: seq<int>, i: int)
    requires input.Valid()
  {
    && |best| == |prev| == |input.text| + 1 && best[0] == 0
    && (forall k :: 0 <= k < |best| ==> 0 <= best[k] <= UNREACHED)
    && forall k :: 0 < k < |best| && best[k] != UNREACHED ==> Backed(input, best, prev, i, k)
  }

  ghost predicate Backed(input: Input, best: seq<int>, prev: seq<int>, i: int, k: int)
    requires input.Valid() && |best| == |prev| == |input.text| + 1 && 0 < k < |best|
  {
    && 0 <= prev[k] < k && prev[k] < i && best[prev[k]] != UNREACHED
    && exists w :: BackedBy(input, best, prev[k], k, w)
  }

  ghost predicate BackedBy(input: Input, best: seq<int>, a: int, k: int, w: Word)
    requires input.Valid() && |best| == |input.text| + 1 && 0 <= a < k < |best|
  {
    Tried(input, best, a, w) && w.length == k - a && best[k] == Sum32(best[a], w.cost)
  }

  /** No word tried before `i` improves on the table. */
  ghost predicate Relaxed(input: Input, best: seq<int>, i: int)
    requires input.Valid() && |best| == |input.text| + 1
  {
    forall a, w :: 0 <= a < i && a < |best| && best[a] != UNREACHED && Tried(input, best, a, w) ==> Met(best, a, w)
  }

  predicate Met(best: seq<int>, a: int, w: Word)
    requires 0 <= a < |best|
  {
    0 <= a + w.length < |best| && best[a + w.length] <= Sum32(best[a], w.cost)
  }

  /** Words from places before the predecessor of `k` cost more. */
  ghost predicate Earliest(input: Input, best: seq<int>, prev: seq<int>)
    requires input.Valid() && |best| == |prev| == |input.text| + 1
  {
    forall k, a, w :: 0 < k < |best| && best[k] != UNREACHED && 0 <= a < prev[k] && a < |best| ==>
      best[a] != UNREACHED && Tried(input, best, a, w) && w.length == k - a ==> Dearer(best, a, k, w)
  }

  predicate Dearer(best: seq<int>, a: int, k: int, w: Word)
    requires 0 <= a < |best| && 0 <= k < |best|
  {
    best[k] < Sum32(best[a], w.cost)
  }

  /** The tables of a search, which they determine. */
  ghost predicate Solved(input: Input, best: seq<int>, prev: seq<int>)
    requires input.Valid()
  {
    && Supported(input, best, prev, |input.text|) && Relaxed(input, best, |input.text|)
    && Earliest(input, best, prev)
  }

  /** The table after words at `i`: nothing got worse, nothing up to `i` changed. */
  ghost predicate Improved(was: seq<int>, best: seq<int>, i: int) {
    && |was| == |best|
    && (forall k :: 0 <= k < |best| ==> best[k] <= was[k])
    && (forall k :: 0 <= k < |best| && k <= i ==> best[k] == was[k])
  }

  lemma ImprovedMet(was: seq<int>, best: seq<int>, i: int, a: int, w: Word)
    requires Improved(was, best, i) && 0 <= a < |best| && a <= i && Met(was, a, w)
    ensures Met(best, a, w)
  {}

  lemma ImprovedRelaxed(input: Input, was: seq<int>, best: seq<int>, i: int)
    requires input.Valid() && |was| == |input.text| + 1 && Improved(was, best, i) && Relaxed(input, was, i)
    ensures Relaxed(input, best, i)
  {
    hide Tried;
    forall a, w | 0 <= a < i && a < |best| && best[a] != UNREACHED && Tried(input, best, a, w) ensures Met(best, a, w) {
      TriedFrame(input, best, was, a, w);
      assert Met(was, a, w);
    }
  }

  lemma SupportStep(input: Input, was: seq<int>, prev: seq<int>, i: int, w: Word)
    requires input.Valid() && Supported(input, was, prev, i + 1) && 0 <= i < |input.text| && was[i] != UNREACHED
    requires Tried(input, was, i, w) && 1 <= w.length <= |input.text| - i
    requires 0 <= Sum32(was[i], w.cost) < was[i + w.length]
    ensures Supported(input, was[i + w.length := Sum32(was[i], w.cost)], prev[i + w.length := i], i + 1)
  {
    hide Tried, Sum32;
    var t := i + w.length;
    var best, prev' := was[t := Sum32(was[i], w.cost)], prev[t := i];
    forall k | 0 < k < |best| && best[k] != UNREACHED ensures Backed(input, best, prev', i + 1, k) {
      if k == t {
        TriedFrame(input, was, best, i, w);
        assert BackedBy(input, best, i, k, w);
      } else {
        assert Backed(input, was, prev, i + 1, k);
        var u :| BackedBy(input, was, prev[k], k, u);
        TriedFrame(input, was, best, prev[k], u);
        assert BackedBy(input, best, prev[k], k, u);
      }
    }
  }

  /** An improvement from `i` leaves the earlier places behind. */
  lemma EarliestStep(input: Input, was: seq<int>, prev: seq<int>, i: int, w: Word)
    requires input.Valid() && Supported(input, was, prev, i + 1) && Earliest(input, was, prev)
    requires Relaxed(input, was, i) && 0 <= i < |input.text| && 1 <= w.length <= |input.text| - i
    requires Sum32(was[i], w.cost) < was[i + w.length]
    ensures Earliest(input, was[i + w.length := Sum32(was[i], w.cost)], prev[i + w.length := i])
  {
    hide Tried, Sum32, Dearer, Backed, Met;
    var t, sum := i + w.length, Sum32(was[i], w.cost);
    var best, prev' := was[t := sum], prev[t := i];
    forall k, a, u | 0 < k < |best| && best[k] != UNREACHED && 0 <= a < prev'[k] && a < |best|
                     && best[a] != UNREACHED && Tried(input, best, a, u) && u.length == k - a
      ensures Dearer(best, a, k, u)
    {
      if k == t {
        EarliestNew(input, was, i, t, sum, a, u);
      } else {
        EarliestOld(input, was, prev, i, t, sum, k, a, u);
      }
    }
  }

  lemma EarliestNew(input: Input, was: seq<int>, i: int, t: int, sum: int, a: int, u: Word)
    requires input.Valid() && |was| == |input.text| + 1 && Relaxed(input, was, i) && 0 <= a < i < t < |was|
    requires sum < was[t] && was[a] != UNREACHED && Tried(input, was[t := sum], a, u) && u.length == t - a
    ensures Dearer(was[t := sum], a, t, u)
  {
    hide Tried, Sum32;
    TriedFrame(input, was[t := sum], was, a, u);
    assert Met(was, a, u);
  }

  lemma EarliestOld(input: Input, was: seq<int>, prev: seq<int>, i: int, t: int, sum: int, k: int, a: int, u: Word)
    requires input.Valid() && Supported(input, was, prev, i + 1) && Earliest(input, was, prev)
    requires 0 <= i < t < |was| && 0 < k < |was| && k != t && was[k] != UNREACHED && 0 <= a < prev[k] && a < |was|
    requires a != t ==> was[a] != UNREACHED
    requires Tried(input, was[t := sum], a, u) && u.length == k - a
    ensures Dearer(was[t := sum], a, k, u)
  {
    hide Tried, Sum32, Relaxed;
    assert Backed(input, was, prev, i + 1, k);
    TriedFrame(input, was[t := sum], was, a, u);
    assert Dearer(was, a, k, u);
  }

  method Relax(input: Input, best: array<int>, prev: array<int>, i: int, w: Word)
    requires input.Valid() && best != prev && 0 <= i < |input.text|
    requires Supported(input, best[..], prev[..], i + 1) && best[i] != UNREACHED && Tried(input, best[..], i, w)
    requires Relaxed(input, best[..], i) && Earliest(input, best[..], prev[..])
    modifies best, prev
    ensures Supported(input, best[..], prev[..], i + 1) && Improved(old(best[..]), best[..], i)
    ensures Earliest(input, best[..], prev[..]) && Met(best[..], i, w)
  {
    ghost var was, before := best[..], prev[..];
    OfferedValid(input, i, Noted(input.text, was, i), w);
    assert |was| == |before| == |input.text| + 1 && 0 <= was[i];
    hide Tried, Backed, Supported, Noted, Offered, Input.Valid, Relaxed, Earliest;
    var newSnlp := Sum32(best[i], w.cost);
    var end := w.length + i;
    if newSnlp < best[end] {
      SupportStep(input, was, before, i, w);
      EarliestStep(input, was, before, i, w);
      best[end] := newSnlp;
      prev[end] := i;
      assert best[..] == was[end := newSnlp] && prev[..] == before[end := i];
    }
  }

  method RunLength(text: seq<int>, i: int) returns (n: int)
    requires 0 <= i < |text|
    ensures KatakanaRun(text, i, n)
  {
    n := 1;
    while i + n < |text| && n < MAX_KATAKANA_GROUP_LENGTH && IsKatakana(text[i + n])
      invariant 1 <= n <= MAX_KATAKANA_GROUP_LENGTH && i + n <= |text|
      invariant forall k :: i < k < i + n ==> IsKatakana(text[k])
    {
      n := n + 1;
    }
  }

  /** Tries all words at the reached place `i`. */
  method Visit(input: Input, best: array<int>, prev: array<int>, i: int, afterKatakana: bool)
    requires input.Valid() && best != prev && 0 <= i < |input.text|
    requires Supported(input, best[..], prev[..], i) && Relaxed(input, best[..], i) && best[i] != UNREACHED
    requires Earliest(input, best[..], prev[..])
    requires afterKatakana == Noted(input.text, best[..], i)
    modifies best, prev
    ensures Supported(input, best[..], prev[..], i + 1) && Relaxed(input, best[..], i + 1)
    ensures Earliest(input, best[..], prev[..])
    ensures forall k :: 0 <= k <= i ==> best[k] == old(best[k])
  {
    hide Tried, Relaxed, Backed, Offered, Earliest;
    ghost var first := best[..];
    var words := Listed(input, i);
    SupportedLater(input, best[..], prev[..], i);
    for j := 0 to |words|
      invariant Supported(input, best[..], prev[..], i + 1) && Relaxed(input, best[..], i) && best[i] != UNREACHED
      invariant Improved(first, best[..], i) && Earliest(input, best[..], prev[..])
      invariant forall k :: 0 <= k < j ==> Met(best[..], i, words[k])
    {
      ghost var was := best[..];
      NotedFrame(input.text, first, was, i);
      ListedTried(input, was, i, words[j]);
      Relax(input, best, prev, i, words[j]);
      ImprovedRelaxed(input, was, best[..], i);
      forall k | 0 <= k < j ensures Met(best[..], i, words[k]) {
        ImprovedMet(was, best[..], i, i, words[k]);
      }
    }
    ghost var run := 0;
    if !afterKatakana && IsKatakana(input.text[i]) {
      var n := RunLength(input.text, i);
      run := n;
      if n < MAX_KATAKANA_GROUP_LENGTH {
        ghost var was := best[..];
        NotedFrame(input.text, first, was, i);
        RunTried(input, was, i, n);
        Relax(input, best, prev, i, Word(n, KatakanaCost(n)));
        ImprovedRelaxed(input, was, best[..], i);
        forall k | 0 <= k < |words| ensures Met(best[..], i, words[k]) {
          ImprovedMet(was, best[..], i, i, words[k]);
        }
      }
    }
    NotedFrame(input.text, first, best[..], i);
    RelaxedNext(input, best[..], i, run);
    assert forall k :: 0 <= k <= i ==> best[k] == best[..][k] == first[k];
  }

  lemma SupportedLater(input: Input, best: seq<int>, prev: seq<int>, i: int)
    requires input.Valid() && Supported(input, best, prev, i)
    ensures Supported(input, best, prev, i + 1)
  {
    hide Tried;
    forall k | 0 < k < |best| && best[k] != UNREACHED ensures Backed(input, best, prev, i + 1, k) {
      assert Backed(input, best, prev, i, k);
    }
  }

  lemma ListedTried(input: Input, best: seq<int>, i: int, w: Word)
    requires input.Valid() && |best| == |input.text| + 1 && 0 <= i < |input.text| && w in Listed(input, i)
    ensures Tried(input, best, i, w)
  {}

  lemma RunTried(input: Input, best: seq<int>, i: int, n: int)
    requires input.Valid() && |best| == |input.text| + 1 && 0 <= i < |input.text|
    requires !Noted(input.text, best, i) && IsKatakana(input.text[i])
    requires KatakanaRun(input.text, i, n) && n < MAX_KATAKANA_GROUP_LENGTH
    ensures Tried(input, best, i, Word(n, KatakanaCost(n)))
  {}

  lemma RelaxedNext(input: Input, best: seq<int>, i: int, run: int)
    requires input.Valid() && 0 <= i < |input.text| && |best| == |input.text| + 1 && Relaxed(input, best, i)
    requires forall k :: 0 <= k < |Listed(input, i)| ==> Met(best, i, Listed(input, i)[k])
    requires !Noted(input.text, best, i) && IsKatakana(input.text[i]) ==>
               && KatakanaRun(input.text, i, run)
               && (run < MAX_KATAKANA_GROUP_LENGTH ==> Met(best, i, Word(run, KatakanaCost(run))))
    ensures Relaxed(input, best, i + 1)
  {
    hide Listed, Noted, KatakanaRun;
    forall a, w | 0 <= a < i + 1 && a < |best| && best[a] != UNREACHED && Tried(input, best, a, w)
      ensures Met(best, a, w)
    {
      if a == i && w !in Listed(input, i) {
        RunUnique(input.text, i, run, w.length);
      }
    }
  }

  /** Fills the tables. For all inputs, whatever the costs: every entry is
      accounted for by its predecessor, the earliest that does, and no word
      improves on it. */
  method Search(input: Input, best: array<int>, prev: array<int>)
    requires input.Valid() && best != prev
    requires best.Length == prev.Length == |input.text| + 1
    modifies best, prev
    ensures Solved(input, best[..], prev[..])
  {
    hide Relaxed, Offered, Tried, Earliest;
    var n := |input.text|;
    for k := 0 to n + 1
      invariant forall j :: 0 <= j < k ==> best[j] == (if j == 0 then 0 else UNREACHED) && prev[j] == -1
    {
      best[k] := if k == 0 then 0 else UNREACHED;
      prev[k] := -1;
    }
    NothingRelaxed(input, best[..], prev[..]);
    var isPrevKatakana := false;
    for i := 0 to n
      invariant Supported(input, best[..], prev[..], i) && Relaxed(input, best[..], i)
      invariant Earliest(input, best[..], prev[..])
      invariant isPrevKatakana == Noted(input.text, best[..], i)
    {
      if best[i] == UNREACHED {
        SupportedLater(input, best[..], prev[..], i);
        RelaxedUnreached(input, best[..], i);
        continue;
      }
      Visit(input, best, prev, i, isPrevKatakana);
      isPrevKatakana := IsKatakana(input.text[i]);
    }
  }

  lemma NothingRelaxed(input: Input, best: seq<int>, prev: seq<int>)
    requires input.Valid() && |best| == |prev| == |input.text| + 1
    requires forall k :: 0 < k < |best| ==> best[k] == UNREACHED
    ensures Relaxed(input, best, 0) && Earliest(input, best, prev)
  {}

  lemma RelaxedUnreached(input: Input, best: seq<int>, i: int)
    requires input.Valid() && |best| == |input.text| + 1 && 0 <= i < |best| && Relaxed(input, best, i)
    requires best[i] == UNREACHED
    ensures Relaxed(input, best, i + 1)
  {
    hide Tried;
    forall a, w | 0 <= a < i + 1 && best[a] != UNREACHED && Tried(input, best, a, w) ensures Met(best, a, w) {
      assert a < i;
    }
  }

  // ----- when the table is right

  /** The table entry of `k`: reached exactly if `k` can be reached, and then the
      cost of a cheapest segmentation. */
  ghost predicate ExactAt(input: Input, best: seq<int>, k: int)
    requires input.Valid() && 0 <= k <= |input.text| < |best|
  {
    && (best[k] != UNREACHED <==> Reachable(input, k))
    && forall words :: Cheapest(input, words) && End(words) == k ==> best[k] == Cost(words)
  }

  ghost predicate Exact(input: Input, best: seq<int>)
    requires input.Valid() && |best| == |input.text| + 1
  {
    forall k :: 0 <= k <= |input.text| ==> ExactAt(input, best, k)
  }

  /** `u` is a cheapest segmentation up to where the word `w` ends after the
      cheapest segmentation `words`. */
  ghost predicate Follows(input: Input, words: seq<Word>, w: Word, u: seq<Word>)
    requires input.Valid()
  {
    && Cheapest(input, words) && OnOffer(input, End(words), w)
    && Cheapest(input, u) && End(u) == End(words) + w.length
  }

  /** One more word after a cheapest segmentation wraps to nothing below the
      true minimum `u` of where it ends. */
  ghost predicate Harmless(words: seq<Word>, w: Word, u: seq<Word>) {
    Cost(u) <= Sum32(Cost(words), w.cost)
  }

  /** No minimum reaches the mark for unreached places, and no sum that wraps
      around falls below a minimum. */
  ghost predicate NoHarmfulWrap(input: Input)
    requires input.Valid()
  {
    && (forall words :: Cheapest(input, words) ==> Cost(words) < UNREACHED)
    && forall words, w, u :: Follows(input, words, w, u) ==> Harmless(words, w, u)
  }

  /** As long as reached and reachable agree, so do the words tried and offered. */
  lemma {:induction false} NotedIs(input: Input, best: seq<int>, i: int)
    requires input.Valid() && |best| == |input.text| + 1 && 0 <= i <= |input.text|
    requires forall k :: 0 <= k < i ==> ExactAt(input, best, k)
    ensures Noted(input.text, best, i) == AfterKatakana(input, i)
    decreases i
  {
    hide Cheapest;
    if i > 0 {
      assert ExactAt(input, best, i - 1);
      NotedIs(input, best, i - 1);
    }
  }

  lemma TriedIs(input: Input, best: seq<int>, i: int, w: Word)
    requires input.Valid() && |best| == |input.text| + 1 && i <= |input.text|
    requires forall k :: 0 <= k < i ==> ExactAt(input, best, k)
    ensures Tried(input, best, i, w) == OnOffer(input, i, w)
  {
    hide ExactAt, Offered;
    if 0 <= i < |input.text| { NotedIs(input, best, i); }
  }

  /** An entry reached from an exact one stands for a segmentation, and wraps to
      nothing below the minimum. */
  lemma ReachedAbove(input: Input, best: seq<int>, prev: seq<int>, k: int, u: seq<Word>)
    requires input.Valid() && Supported(input, best, prev, |input.text|) && 0 < k <= |input.text|
    requires forall a :: 0 <= a < k ==> ExactAt(input, best, a)
    requires best[k] != UNREACHED && NoHarmfulWrap(input)
    ensures Reachable(input, k)
    ensures Cheapest(input, u) && End(u) == k ==> Cost(u) <= best[k]
  {
    hide Offered, OnOffer, Tried, Segmentation, Cost, End, Cheapest, ReachedBefore, Sum32;
    assert Backed(input, best, prev, |input.text|, k);
    var a := prev[k];
    var w :| BackedBy(input, best, a, k, w);
    TriedIs(input, best, a, w);
    assert ExactAt(input, best, a);
    AfterWord(input, k, a, w);
    if Cheapest(input, u) && End(u) == k {
      var t := SomeSegmentation(input, a);
      t := FindCheapest(input, t);
      OnOfferEnd(input, a, t, w);
      assert Follows(input, t, w, u);
      assert Harmless(t, w, u);
    }
  }

  lemma OnOfferEnd(input: Input, a: int, t: seq<Word>, w: Word)
    requires input.Valid() && End(t) == a && OnOffer(input, a, w)
    ensures OnOffer(input, End(t), w)
  {}

  /** The last word of a cheapest segmentation. */
  lemma LastOfCheapest(input: Input, u: seq<Word>) returns (t: seq<Word>, w: Word)
    requires input.Valid() && Cheapest(input, u) && (u != [] || End(u) > 0)
    ensures u != [] && t == u[..|u| - 1] && w == u[|u| - 1]
    ensures Cheapest(input, t) && OnOffer(input, End(t), w)
    ensures Cost(u) == Cost(t) + w.cost && End(u) == End(t) + w.length
    ensures 0 <= End(t) < End(u) <= |input.text| && 0 <= Cost(t) && 0 <= w.cost && Reachable(input, End(t))
  {
    hide Offered, AfterKatakana, Reachable;
    t, w := u[..|u| - 1], u[|u| - 1];
    CheapestPrefix(input, u);
    SegmentationEnd(input, t);
    SegmentationEnd(input, u);
    OfferedValid(input, End(t), AfterKatakana(input, End(t)), w);
  }

  /** A reachable place is reached at no more than its minimum. */
  lemma ReachedBelow(input: Input, best: seq<int>, k: int, u: seq<Word>)
    requires input.Valid() && |best| == |input.text| + 1 && Relaxed(input, best, |input.text|) && 0 < k <= |input.text|
    requires forall a :: 0 <= a < k ==> ExactAt(input, best, a)
    requires NoHarmfulWrap(input) && Cheapest(input, u) && End(u) == k
    ensures best[k] <= Cost(u) < UNREACHED
  {
    hide Offered, OnOffer, Tried, Segmentation, Cost, End, Cheapest, Reachable, Follows;
    var t, w := LastOfCheapest(input, u);
    assert ExactAt(input, best, End(t));
    TriedIs(input, best, End(t), w);
    assert Cost(u) < UNREACHED;
    assert Met(best, End(t), w);
  }

  lemma {:induction false} ExactUpTo(input: Input, best: seq<int>, prev: seq<int>, k: int)
    requires input.Valid() && Supported(input, best, prev, |input.text|) && Relaxed(input, best, |input.text|)
    requires NoHarmfulWrap(input) && 0 <= k <= |input.text|
    ensures forall a :: 0 <= a <= k ==> ExactAt(input, best, a)
    decreases k
  {
    hide NoHarmfulWrap, Relaxed;
    if k > 0 {
      ExactUpTo(input, best, prev, k - 1);
      hide Backed, Segmentation, Cost, End, Cheapest, ExactAt;
      ExactHere(input, best, prev, k);
    } else {
      hide Backed;
      NothingCheapest(input);
    }
  }

  lemma NothingCheapest(input: Input)
    requires input.Valid()
    ensures forall words :: Cheapest(input, words) && End(words) == 0 ==> Cost(words) == 0
  {
    assert Segmentation(input, []) && End([]) == 0 && Cost([]) == 0;
    forall words | Cheapest(input, words) && End(words) == 0 ensures Cost(words) == 0 {
      SegmentationEnd(input, words);
    }
  }

  lemma ExactHere(input: Input, best: seq<int>, prev: seq<int>, k: int)
    requires input.Valid() && Supported(input, best, prev, |input.text|) && Relaxed(input, best, |input.text|)
    requires NoHarmfulWrap(input) && 0 < k <= |input.text|
    requires forall a :: 0 <= a < k ==> ExactAt(input, best, a)
    ensures ExactAt(input, best, k)
  {
    hide NoHarmfulWrap, Relaxed, Backed, Segmentation, Cost, End, Cheapest, Reachable;
    if best[k] != UNREACHED {
      ReachedAbove(input, best, prev, k, []);
    } else if Reachable(input, k) {
      var t := SomeSegmentation(input, k);
      t := FindCheapest(input, t);
      ReachedBelow(input, best, k, t);
    }
    forall words | Cheapest(input, words) && End(words) == k ensures best[k] == Cost(words) {
      ReachedBelow(input, best, k, words);
      ReachedAbove(input, best, prev, k, words);
    }
  }

  /** The exact condition: for all inputs, the table holds the minimum costs if
      and only if no sum wraps around harmfully. */
  lemma ExactIff(input: Input, best: seq<int>, prev: seq<int>)
    requires input.Valid() && Supported(input, best, prev, |input.text|) && Relaxed(input, best, |input.text|)
    ensures Exact(input, best) <==> NoHarmfulWrap(input)
  {
    hide Backed, Segmentation, Cost, End, Cheapest, Reachable, Tried, OnOffer, ExactAt, Sum32;
    if NoHarmfulWrap(input) {
      ExactUpTo(input, best, prev, |input.text|);
    }
    if Exact(input, best) {
      forall words | Cheapest(input, words) ensures Cost(words) < UNREACHED {
        ExactCost(input, best, words);
      }
      forall words, w, u | Follows(input, words, w, u) ensures Harmless(words, w, u) {
        ExactCost(input, best, words);
        ExactCost(input, best, u);
        TriedIs(input, best, End(words), w);
        TriedPlace(input, best, End(words), w);
        assert Met(best, End(words), w);
      }
    }
  }

  lemma TriedPlace(input: Input, best: seq<int>, i: int, w: Word)
    requires input.Valid() && |best| == |input.text| + 1 && Tried(input, best, i, w)
    ensures 0 <= i < |input.text|
  {}

  lemma ExactCost(input: Input, best: seq<int>, words: seq<Word>)
    requires input.Valid() && |best| == |input.text| + 1 && Exact(input, best) && Cheapest(input, words)
    requires forall k :: 0 <= k < |best| ==> 0 <= best[k] <= UNREACHED
    ensures 0 <= End(words) <= |input.text| && best[End(words)] == Cost(words) < UNREACHED
  {
    SegmentationEnd(input, words);
    hide Segmentation, Reachable;
    assert ExactAt(input, best, End(words));
  }

  /** Costs that stay below the mark do not wrap around at all. */
  lemma OverflowFree(input: Input)
    requires input.Valid() && NoOverflow(input)
    ensures NoHarmfulWrap(input) && NoWrapAtMinimum(input)
  {
    hide OnOffer, Segmentation, Cost, End;
    forall words, w, u | Follows(input, words, w, u)
      ensures 0 <= Cost(words) + w.cost < UNREACHED && Harmless(words, w, u)
    {
      Extended(input, words, w);
      assert Segmentation(input, words + [w]);
      NonNegativeCost(input, words, w);
    }
  }

  lemma NonNegativeCost(input: Input, words: seq<Word>, w: Word)
    requires input.Valid() && Segmentation(input, words) && OnOffer(input, End(words), w)
    ensures 0 <= Cost(words) && 0 <= w.cost
  {
    SegmentationEnd(input, words);
    OfferedValid(input, End(words), AfterKatakana(input, End(words)), w);
  }

  /** Sums that wrap around stay above the minimum of where they end. */
  ghost predicate NoWrapAtMinimum(input: Input)
    requires input.Valid()
  {
    forall words, w, u :: Follows(input, words, w, u) && Cost(words) + w.cost >= UINT32 ==>
      Cost(u) < Sum32(Cost(words), w.cost)
  }

  // ----- the trace back

  /** The ends of the words, last one first. */
  ghost function Ends(words: seq<Word>): seq<int> {
    if words == [] then [] else [End(words)] + Ends(words[..|words| - 1])
  }

  /** The places passed when following predecessors from `k` to the start. */
  ghost function Trace(prev: seq<int>, k: int): seq<int> {
    if 0 < k < |prev| && prev[k] < k then [k] + Trace(prev, prev[k]) else []
  }

  ghost predicate Falling(s: seq<int>) {
    forall j, k :: 0 <= j < k < |s| ==> s[j] > s[k]
  }

  /** Every word starts at the predecessor of its end. */
  ghost predicate Along(prev: seq<int>, words: seq<Word>) {
    forall n :: 0 < n <= |words| ==> AlongAt(prev, words, n)
  }

  ghost predicate AlongAt(prev: seq<int>, words: seq<Word>, n: int)
    requires 0 < n <= |words|
  {
    0 <= End(words[..n]) < |prev| && prev[End(words[..n])] == End(words[..n - 1])
  }

  lemma AlongStep(prev: seq<int>, t: seq<Word>, w: Word)
    requires Along(prev, t) && 0 <= End(t) + w.length < |prev| && prev[End(t) + w.length] == End(t)
    ensures Along(prev, t + [w])
  {
    var words := t + [w];
    forall n | 0 < n <= |words| ensures AlongAt(prev, words, n) {
      if n == |words| {
        assert words[..n] == words && words[..n - 1] == t;
      } else {
        assert words[..n] == t[..n] && words[..n - 1] == t[..n - 1] && AlongAt(prev, t, n);
      }
    }
  }

  /** The predecessors of a reached place spell out a segmentation of its cost. */
  lemma {:induction false} Chain(input: Input, best: seq<int>, prev: seq<int>, k: int) returns (words: seq<Word>)
    requires input.Valid() && Supported(input, best, prev, |input.text|) && Exact(input, best)
    requires NoWrapAtMinimum(input) && 0 <= k < |best| && best[k] != UNREACHED
    ensures Segmentation(input, words) && End(words) == k && Cost(words) == best[k] && Ends(words) == Trace(prev, k)
    ensures Along(prev, words)
    decreases k
  {
    hide Supported, Exact, OnOffer, NoWrapAtMinimum, Sum32, Along, Segmentation, End, Cost, Ends, Trace, Reachable;
    hide Input.Valid;
    if k == 0 {
      words := [];
      ChainStart(input, best, prev);
    } else {
      var a, w := ChainStep(input, best, prev, k);
      var t := Chain(input, best, prev, a);
      UnwrappedStep(input, best, a, k, t, w);
      Extended(input, t, w);
      AlongStep(prev, t, w);
      EndsAppend(t, w);
      words := t + [w];
    }
  }

  lemma ChainStart(input: Input, best: seq<int>, prev: seq<int>)
    requires input.Valid() && Supported(input, best, prev, |input.text|)
    ensures Segmentation(input, []) && End([]) == 0 && Cost([]) == 0 == best[0]
    ensures Ends([]) == Trace(prev, 0) && Along(prev, [])
  {}

  /** The last word of a reached place. */
  lemma ChainStep(input: Input, best: seq<int>, prev: seq<int>, k: int) returns (a: int, w: Word)
    requires input.Valid() && Supported(input, best, prev, |input.text|) && Exact(input, best)
    requires 0 < k < |best| && best[k] != UNREACHED
    ensures |best| == |prev| == |input.text| + 1 && 0 <= a < k && a == prev[k] && best[a] != UNREACHED
    ensures OnOffer(input, a, w) && w.length == k - a && best[k] == Sum32(best[a], w.cost)
    ensures Trace(prev, k) == [k] + Trace(prev, a)
  {
    hide Offered, OnOffer, Tried, ExactAt, Sum32;
    TraceStep(input, best, prev, |input.text|, k);
    assert Backed(input, best, prev, |input.text|, k);
    a := prev[k];
    w :| BackedBy(input, best, a, k, w);
    TriedIs(input, best, a, w);
  }

  lemma EndsAppend(t: seq<Word>, w: Word)
    ensures Ends(t + [w]) == [End(t) + w.length] + Ends(t)
  {
    assert (t + [w])[..|t|] == t;
  }

  /** The sum that gave an exact entry did not wrap around. */
  lemma UnwrappedStep(input: Input, best: seq<int>, a: int, k: int, t: seq<Word>, w: Word)
    requires input.Valid() && |best| == |input.text| + 1 && Exact(input, best) && NoWrapAtMinimum(input)
    requires 0 <= a < k <= |input.text| && best[k] != UNREACHED && best[k] == Sum32(best[a], w.cost)
    requires Segmentation(input, t) && End(t) == a && Cost(t) == best[a] && OnOffer(input, a, w) && w.length == k - a
    ensures best[k] == Cost(t) + w.cost
  {
    hide OnOffer, Segmentation, Cost, End, Reachable;
    OnOfferEnd(input, a, t, w);
    NonNegativeCost(input, t, w);
    CostIsMinimum(input, best, t);
    assert ExactAt(input, best, k);
    var u := SomeSegmentation(input, k);
    u := FindCheapest(input, u);
    assert best[k] == Cost(u);
    assert Follows(input, t, w, u);
  }

  lemma CostIsMinimum(input: Input, best: seq<int>, t: seq<Word>)
    requires input.Valid() && |best| == |input.text| + 1 && Exact(input, best) && Segmentation(input, t)
    requires 0 <= End(t) <= |input.text| && Cost(t) == best[End(t)]
    ensures Cheapest(input, t)
  {
    hide Segmentation, Cost, End, Reachable;
    assert ExactAt(input, best, End(t));
    var u := FindCheapest(input, t);
  }

  lemma TraceStep(input: Input, best: seq<int>, prev: seq<int>, n: int, i: int)
    requires input.Valid() && Supported(input, best, prev, n) && 0 < i < |best| && best[i] != UNREACHED
    ensures 0 <= prev[i] < i && best[prev[i]] != UNREACHED && Trace(prev, i) == [i] + Trace(prev, prev[i])
  {
    hide Tried;
    assert Backed(input, best, prev, n, i);
  }

  lemma TraceEnd(prev: seq<int>)
    ensures Trace(prev, 0) == []
  {}

  lemma Regroup(s: seq<int>, i: int, t: seq<int>)
    ensures s + ([i] + t) == (s + [i]) + t
  {}

  /** Follows the predecessors from the end of the range back to its start. */
  method TraceBack(input: Input, best: seq<int>, prev: seq<int>) returns (boundaries: seq<int>)
    requires input.Valid() && input.text != [] && Supported(input, best, prev, |input.text|)
    requires best[|input.text|] != UNREACHED
    ensures boundaries == Trace(prev, |input.text|) && boundaries != []
    ensures boundaries[0] == |input.text| && 0 < boundaries[|boundaries| - 1] <= |input.text|
    ensures prev[boundaries[|boundaries| - 1]] == 0
    ensures Falling(boundaries)
  {
    hide Tried, Offered, Backed, Trace;
    var n := |input.text|;
    boundaries := [];
    var i := n;
    assert [] + Trace(prev, n) == Trace(prev, n);
    while i > 0
      invariant 0 <= i <= n && best[i] != UNREACHED && boundaries + Trace(prev, i) == Trace(prev, n)
      invariant boundaries == [] ==> i == n
      invariant boundaries != [] ==>
                  var last := boundaries[|boundaries| - 1]; boundaries[0] == n && i < last <= n && prev[last] == i
      invariant Falling(boundaries)
    {
      TraceStep(input, best, prev, n, i);
      Regroup(boundaries, i, Trace(prev, prev[i]));
      boundaries := boundaries + [i];
      i := prev[i];
    }
    TraceEnd(prev);
    assert boundaries + [] == boundaries;
  }

  /** The words are laid so that the last word of every part is the longest of
      those that end a cheapest segmentation of it. */
  ghost predicate Longest(input: Input, words: seq<Word>)
    requires input.Valid()
  {
    forall n: int, other: seq<Word> ::
      0 < n <= |words| && Cheapest(input, other) && other != [] && End(other) == End(words[..n]) ==>
        other[|other| - 1].length <= words[n - 1].length
  }

  /** The word ends, last one first: the places on the way back along the
      predecessors, or only the end of the range if that is not reached. Unless
      sums wrap around harmfully they are those of a cheapest segmentation of the
      range, with the longest words from the end. */
  method Divide(input: Input)
    returns (boundaries: seq<int>, ghost words: seq<Word>, ghost table: seq<int>, ghost back: seq<int>)
    requires input.Valid() && input.text != []
    ensures boundaries != [] && boundaries[0] == |input.text| && Falling(boundaries)
    ensures Solved(input, table, back) && boundaries == Boundaries(table, back, |input.text|)
    ensures NoHarmfulWrap(input) && NoWrapAtMinimum(input) ==>
              if Reachable(input, |input.text|) then
                && Cheapest(input, words) && End(words) == |input.text| && boundaries == Ends(words)
                && Longest(input, words)
              else boundaries == [|input.text|]
  {
    hide Relaxed, Offered, Segmentation, Backed, Cheapest, Reachable, NoHarmfulWrap, NoWrapAtMinimum, ExactAt,
         Trace, Ends, Earliest, Longest, Along;
    var n := |input.text|;
    var best, prev := new int[n + 1], new int[n + 1];
    Search(input, best, prev);
    table, back := best[..], prev[..];
    boundaries, words := [], [];
    if best[n] == UNREACHED {
      boundaries := boundaries + [n];
    } else {
      boundaries := TraceBack(input, best[..], prev[..]);
    }
    if NoHarmfulWrap(input) && NoWrapAtMinimum(input) {
      ExactIff(input, table, back);
      ExactReached(input, table, n);
      if table[n] != UNREACHED {
        words := Chain(input, table, back, n);
        CostIsMinimum(input, table, words);
        WordsLongest(input, table, back, words);
      }
    }
  }

  ghost function Boundaries(best: seq<int>, prev: seq<int>, n: int): seq<int>
    requires 0 <= n < |best|
  {
    if best[n] == UNREACHED then [n] else Trace(prev, n)
  }

  lemma WordsLongest(input: Input, best: seq<int>, prev: seq<int>, words: seq<Word>)
    requires input.Valid() && Solved(input, best, prev) && Exact(input, best) && Along(prev, words)
    ensures Longest(input, words)
  {
    hide Solved, Exact, Along, Cheapest, End;
    forall n, other: seq<Word> | 0 < n <= |words| && Cheapest(input, other) && other != []
                                 && End(other) == End(words[..n])
      ensures other[|other| - 1].length <= words[n - 1].length
    {
      LongestAt(input, best, prev, words, n, other);
    }
  }

  /** A longer last word would start before the predecessor and cost more. */
  lemma LongestAt(input: Input, best: seq<int>, prev: seq<int>, words: seq<Word>, n: int, other: seq<Word>)
    requires input.Valid() && Solved(input, best, prev) && Exact(input, best) && Along(prev, words)
    requires 0 < n <= |words| && Cheapest(input, other) && other != [] && End(other) == End(words[..n])
    ensures other[|other| - 1].length <= words[n - 1].length
  {
    hide OnOffer, Solved, Longest, Cheapest, Segmentation, End, Cost, Exact, Tried, Along, Reachable, Sum32;
    SolvedSizes(input, best, prev);
    var t, u := LastOfCheapest(input, other);
    var k, a := End(other), End(t);
    ExactCosts(input, best, t, other);
    assert OnOffer(input, a, u);
    OnExact(input, best, a, u);
    StartOf(prev, words, n);
    if u.length > words[n - 1].length {
      EarlierIsDearer(input, best, prev, k, a, u);
      SmallSum(best[a], u.cost);
      assert false;
    }
  }

  lemma SolvedSizes(input: Input, best: seq<int>, prev: seq<int>)
    requires input.Valid() && Solved(input, best, prev)
    ensures |best| == |prev| == |input.text| + 1 && forall k :: 0 <= k < |best| ==> 0 <= best[k] <= UNREACHED
  {}

  lemma SmallSum(x: int, y: int)
    requires 0 <= x + y < UINT32
    ensures Sum32(x, y) == x + y
  {}

  lemma EarlierIsDearer(input: Input, best: seq<int>, prev: seq<int>, k: int, a: int, u: Word)
    requires input.Valid() && Solved(input, best, prev) && 0 < k < |best| && best[k] != UNREACHED
    requires 0 <= a < prev[k] && a < |best| && best[a] != UNREACHED && Tried(input, best, a, u) && u.length == k - a
    ensures best[k] < Sum32(best[a], u.cost)
  {
    hide Tried, Supported, Relaxed;
    assert Dearer(best, a, k, u);
  }

  lemma StartOf(prev: seq<int>, words: seq<Word>, n: int)
    requires Along(prev, words) && 0 < n <= |words|
    ensures var k := End(words[..n]); 0 <= k < |prev| && prev[k] == End(words[..n - 1]) == k - words[n - 1].length
  {
    assert AlongAt(prev, words, n) && words[..n][..n - 1] == words[..n - 1];
  }

  lemma OnExact(input: Input, best: seq<int>, a: int, u: Word)
    requires input.Valid() && |best| == |input.text| + 1 && Exact(input, best) && OnOffer(input, a, u)
    ensures Tried(input, best, a, u)
  {
    hide Offered, ExactAt;
    TriedIs(input, best, a, u);
  }

  lemma ExactCosts(input: Input, best: seq<int>, t: seq<Word>, other: seq<Word>)
    requires input.Valid() && |best| == |input.text| + 1 && Exact(input, best)
    requires forall k :: 0 <= k < |best| ==> 0 <= best[k] <= UNREACHED
    requires Cheapest(input, t) && Cheapest(input, other)
    ensures 0 <= End(t) < |best| && 0 <= End(other) < |best|
    ensures best[End(t)] == Cost(t) != UNREACHED && best[End(other)] == Cost(other) != UNREACHED
  {
    hide Segmentation, Cost, End, Reachable;
    SegmentationEnd(input, t);
    SegmentationEnd(input, other);
    assert ExactAt(input, best, End(t)) && ExactAt(input, best, End(other));
  }

  lemma ExactReached(input: Input, best: seq<int>, k: int)
    requires input.Valid() && |best| == |input.text| + 1 && Exact(input, best) && 0 <= k <= |input.text|
    ensures best[k] != UNREACHED <==> Reachable(input, k)
  {
    hide Reachable, Cheapest;
    assert ExactAt(input, best, k);
  }

  // ----- an input whose costs wrap around

  /** Three characters: as single words they cost 2^32 together, as one word 1. */
  function Wrapping(): (input: Input)
    ensures input.Valid()
  {
    Input([0x4e00, 0x4e00, 0x4e00],
          [[Word(1, 0x7fff_ffff), Word(3, 1)], [Word(1, 0x7fff_ffff)], [Word(1, 2)]])
  }

  /** The words tried there are those of the dictionary. */
  lemma WrappingTried(best: seq<int>, i: int, w: Word)
    requires |best| == 4 && 0 <= i < 3
    ensures Tried(Wrapping(), best, i, w) <==> w in Wrapping().dictionary[i]
  {}

  /** The search takes the wrapped sum 0 for the cheapest, so the table is not
      exact for every input. */
  lemma WrappingFails(best: seq<int>, prev: seq<int>)
    requires Supported(Wrapping(), best, prev, 3) && Relaxed(Wrapping(), best, 3)
    ensures best[3] == 0 && !Exact(Wrapping(), best) && !NoHarmfulWrap(Wrapping())
  {
    hide Tried, Exact, NoHarmfulWrap;
    var input := Wrapping();
    WrappingTable(best, prev);
    ExactIff(input, best, prev);
    if Exact(input, best) {
      WrappingCosts(best);
      assert false;
    }
  }

  lemma WrappingTable(best: seq<int>, prev: seq<int>)
    requires Supported(Wrapping(), best, prev, 3) && Relaxed(Wrapping(), best, 3)
    ensures best[3] == 0
  {
    hide Tried;
    var input := Wrapping();
    var d := input.dictionary;
    WrappingTried(best, 0, d[0][0]);
    assert Met(best, 0, d[0][0]);
    assert Backed(input, best, prev, 3, 1);
    var u :| BackedBy(input, best, 0, 1, u);
    WrappingTried(best, 0, u);
    assert best[1] == 0x7fff_ffff;
    WrappingTried(best, 1, d[1][0]);
    assert Met(best, 1, d[1][0]);
    assert Backed(input, best, prev, 3, 2);
    var x :| BackedBy(input, best, prev[2], 2, x);
    WrappingTried(best, prev[2], x);
    assert best[2] == 0xffff_fffe;
    WrappingTried(best, 2, d[2][0]);
    assert Met(best, 2, d[2][0]);
  }

  /** Every segmentation of the three characters costs something. */
  lemma WrappingCosts(best: seq<int>)
    requires |best| == 4 && Exact(Wrapping(), best)
    ensures best[3] > 0
  {
    hide Reachable;
    var input := Wrapping();
    assert Segmentation(input, []) && End([]) == 0;
    var w := Word(3, 1);
    assert OnOffer(input, 0, w);
    Extended(input, [], w);
    hide Segmentation, OnOffer, Cheapest;
    var u := FindCheapest(input, [] + [w]);
    assert ExactAt(input, best, 3);
    LastCosts(input, u);
  }

  lemma LastCosts(input: Input, u: seq<Word>)
    requires input == Wrapping() && Cheapest(input, u) && End(u) == 3
    ensures Cost(u) > 0
  {
    hide Segmentation, Cheapest, Cost, End, Reachable;
    var t, w := LastOfCheapest(input, u);
    assert w.cost > 0 by { WordCosts(input, End(t), w); }
  }

  lemma WordCosts(input: Input, i: int, w: Word)
    requires input == Wrapping() && OnOffer(input, i, w)
    ensures w.cost > 0
  {}
}
