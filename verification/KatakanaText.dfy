/** What the word division does with runs of Katakana: when a run is one word, and
    when its characters are words of their own. */
module KatakanaText {
  import opened Arithmetic
  import opened CjkSegmentation

  /** Katakana only. At every place the character itself is listed, at cost `c`,
      and at the first, unless `d` is negative, a word over the whole text at cost
      `d` before it. */
  ghost predicate Uniform(input: Input, c: int, d: int)
    requires input.Valid()
  {
    && input.text != [] && 0 <= c < UINT32 && d < UINT32
    && forall i :: 0 <= i < |input.text| ==>
         IsKatakana(input.text[i]) && Listed(input, i) == WordsAt(|input.text|, c, d, i)
  }

  function WordsAt(n: int, c: int, d: int, i: int): seq<Word> {
    (if i == 0 && n >= 2 && d >= 0 then [Word(n, d)] else []) + [Word(1, c)]
  }

  /** Without dictionary words a character costs 255. */
  lemma NoWordsUniform(input: Input)
    requires input.Valid() && input.text != []
    requires forall i :: 0 <= i < |input.text| ==> IsKatakana(input.text[i]) && input.dictionary[i] == []
    ensures Uniform(input, 255, -1)
  {}

  /** The cost of the cheapest word over a whole text of `n` characters: that of the
      dictionary or the run; negative if there is none. */
  function Whole(n: nat, d: int): int {
    var run := if n < MAX_KATAKANA_GROUP_LENGTH then KatakanaCost(n) else -1;
    var word := if n >= 2 then d else -1;
    if run < 0 || 0 <= word < run then word else run
  }

  lemma {:induction false} NotedAlways(text: seq<int>, best: seq<int>, i: int)
    requires 0 < i <= |text| < |best| && best[0] != UNREACHED && forall k :: 0 <= k < |text| ==> IsKatakana(text[k])
    ensures Noted(text, best, i)
    decreases i
  {
    if i > 1 && best[i - 1] == UNREACHED { NotedAlways(text, best, i - 1); }
  }

  /** The words tried: single characters, and the whole text if it is short enough. */
  lemma UniformTried(input: Input, c: int, d: int, best: seq<int>, i: int, w: Word)
    requires input.Valid() && Uniform(input, c, d) && |best| == |input.text| + 1 && best[0] != UNREACHED
    requires 0 <= i < |input.text|
    ensures var n := |input.text|;
            Tried(input, best, i, w) <==>
              || w == Word(1, c) || (i == 0 && n >= 2 && d >= 0 && w == Word(n, d))
              || (i == 0 && n < MAX_KATAKANA_GROUP_LENGTH && w == Word(n, KatakanaCost(n)))
  {
    var n := |input.text|;
    hide KatakanaCost, Noted;
    assert Listed(input, i) == WordsAt(n, c, d, i);
    if i > 0 {
      NotedAlways(input.text, best, i);
    } else {
      FirstNotNoted(input.text, best);
      assert n < MAX_KATAKANA_GROUP_LENGTH ==> KatakanaRun(input.text, 0, n);
      if KatakanaRun(input.text, 0, w.length) && w.length < MAX_KATAKANA_GROUP_LENGTH {
        WholeRun(input.text, w.length);
      }
    }
  }

  lemma WholeRun(text: seq<int>, m: int)
    requires KatakanaRun(text, 0, m) && m < MAX_KATAKANA_GROUP_LENGTH
    requires forall k :: 0 <= k < |text| ==> IsKatakana(text[k])
    ensures m == |text|
  {}

  lemma FirstNotNoted(text: seq<int>, best: seq<int>)
    requires |text| < |best|
    ensures !Noted(text, best, 0)
  {}

  lemma ReachedFirst(input: Input, best: seq<int>, prev: seq<int>)
    requires input.Valid() && Solved(input, best, prev)
    ensures |best| == |prev| == |input.text| + 1 && best[0] == 0
    ensures forall k :: 0 <= k < |best| ==> 0 <= best[k] <= UNREACHED
  {}

  /** A word tried from a reached place bounds the table. */
  lemma AtMost(input: Input, best: seq<int>, prev: seq<int>, a: int, w: Word)
    requires input.Valid() && Solved(input, best, prev) && 0 <= a < |input.text| && best[a] != UNREACHED
    requires Tried(input, best, a, w)
    ensures 0 <= a + w.length < |best| && best[a + w.length] <= Sum32(best[a], w.cost)
  {
    hide Tried, Backed, Earliest, Sum32;
    assert Met(best, a, w);
  }

  /** A reached place has a last word. */
  lemma LastOf(input: Input, best: seq<int>, prev: seq<int>, k: int) returns (w: Word)
    requires input.Valid() && Solved(input, best, prev) && 0 < k < |best| && best[k] != UNREACHED
    ensures |prev| == |best| && 0 <= prev[k] < k <= |input.text| && best[prev[k]] != UNREACHED
    ensures Tried(input, best, prev[k], w) && w.length == k - prev[k] && best[k] == Sum32(best[prev[k]], w.cost)
  {
    hide Tried, Relaxed, Earliest, Sum32;
    assert Backed(input, best, prev, |input.text|, k);
    w :| BackedBy(input, best, prev[k], k, w);
  }

  /** Inside the text every character is a word. */
  lemma {:induction false} PlaceCost(input: Input, c: int, d: int, best: seq<int>, prev: seq<int>, k: int)
    requires input.Valid() && Uniform(input, c, d) && Solved(input, best, prev)
    requires 0 <= k < |input.text| && k * c < UNREACHED
    ensures |best| == |prev| == |input.text| + 1 && best[k] == k * c && (k > 0 ==> prev[k] == k - 1)
    decreases k
  {
    hide Solved, Uniform, Tried, Sum32, KatakanaCost;
    ReachedFirst(input, best, prev);
    if k > 0 {
      Smaller(k, c, d, input);
      PlaceCost(input, c, d, best, prev, k - 1);
      UniformTried(input, c, d, best, k - 1, Word(1, c));
      AtMost(input, best, prev, k - 1, Word(1, c));
      SmallSum(best[k - 1], c);
      var w := LastOf(input, best, prev, k);
      UniformTried(input, c, d, best, prev[k], w);
    }
  }

  lemma Smaller(k: int, c: int, d: int, input: Input)
    requires k > 0 && input.Valid() && Uniform(input, c, d)
    ensures k * c == (k - 1) * c + c && (k - 1) * c <= k * c && 0 <= (k - 1) * c
  {
    MulMonotone(0, k - 1, c);
  }

  /** All ends of single characters, last one first. */
  function CountDown(n: nat): seq<int> {
    if n == 0 then [] else [n] + CountDown(n - 1)
  }

  lemma {:induction false} SinglesTraced(prev: seq<int>, k: nat)
    requires k < |prev| && forall j :: 0 < j <= k ==> prev[j] == j - 1
    ensures Trace(prev, k) == CountDown(k)
    decreases k
  {
    if k > 0 { SinglesTraced(prev, k - 1); }
  }

  /** The end of the text: the run as one word, or single characters if these are
      cheaper. */
  lemma EndCost(input: Input, c: int, d: int, best: seq<int>, prev: seq<int>)
    requires input.Valid() && Uniform(input, c, d) && Solved(input, best, prev) && |input.text| * c < UNREACHED
    ensures |best| == |prev| == |input.text| + 1
    ensures var n := |input.text|;
            if 0 <= Whole(n, d) <= n * c then best[n] == Whole(n, d) && prev[n] == 0
            else best[n] == n * c && prev[n] == n - 1
  {
    hide Solved, Uniform, Tried, Sum32, KatakanaCost;
    var n := |input.text|;
    ReachedFirst(input, best, prev);
    NotEmpty(input, c, d);
    Smaller(n, c, d, input);
    PlaceCost(input, c, d, best, prev, n - 1);
    var one := Word(1, c);
    UniformTried(input, c, d, best, n - 1, one);
    AtMost(input, best, prev, n - 1, one);
    SmallSum(best[n - 1], c);
    var w := LastOf(input, best, prev, n);
    UniformTried(input, c, d, best, prev[n], w);
    RunSum(n);
    if n < MAX_KATAKANA_GROUP_LENGTH {
      WholeWord(input, c, d, best, prev, Word(n, KatakanaCost(n)));
    }
    if n >= 2 && d >= 0 {
      SmallSum(0, d);
      WholeWord(input, c, d, best, prev, Word(n, d));
    }
  }

  /** A word over the whole text is taken before the last character alone. */
  lemma WholeWord(input: Input, c: int, d: int, best: seq<int>, prev: seq<int>, w: Word)
    requires input.Valid() && Uniform(input, c, d) && Solved(input, best, prev) && w.length == |input.text|
    requires |best| == |prev| == |input.text| + 1 && best[|input.text|] != UNREACHED
    requires || (w.length < MAX_KATAKANA_GROUP_LENGTH && w.cost == KatakanaCost(w.length))
             || (w.length >= 2 && d >= 0 && w.cost == d)
    ensures best[0] == 0 && best[w.length] <= Sum32(0, w.cost)
    ensures prev[w.length] > 0 ==> best[w.length] < Sum32(0, w.cost)
  {
    hide Solved, Uniform, Tried, Sum32, KatakanaCost;
    ReachedFirst(input, best, prev);
    NotEmpty(input, c, d);
    UniformTried(input, c, d, best, 0, w);
    AtMost(input, best, prev, 0, w);
    if prev[w.length] > 0 {
      EarlierIsDearer(input, best, prev, w.length, 0, w);
    }
  }

  lemma NotEmpty(input: Input, c: int, d: int)
    requires input.Valid() && Uniform(input, c, d)
    ensures |input.text| > 0 && 0 <= c < UINT32 && d < UINT32
  {}

  lemma RunSum(n: int)
    requires n >= 1
    ensures Sum32(0, KatakanaCost(n)) == KatakanaCost(n)
  {}

  /** A text of n Katakana of which each is listed at cost `c` is one word exactly
      if a word over all of it costs no more than its characters. */
  lemma RunOrSingles(input: Input, c: int, d: int, best: seq<int>, prev: seq<int>)
    requires input.Valid() && Uniform(input, c, d) && Solved(input, best, prev) && |input.text| * c < UNREACHED
    ensures |best| == |prev| == |input.text| + 1
    ensures var n := |input.text|;
            Boundaries(best, prev, n) ==
            if n == 1 || 0 <= Whole(n, d) <= n * c then [n] else CountDown(n)
  {
    hide Solved, Uniform, Whole;
    var n := |input.text|;
    ReachedFirst(input, best, prev);
    NotEmpty(input, c, d);
    EndCost(input, c, d, best, prev);
    if prev[n] == 0 {
      assert Trace(prev, 0) == [];
      assert Trace(prev, n) == [n] + Trace(prev, 0);
    } else {
      forall j | 0 < j <= n ensures prev[j] == j - 1 {
        if j < n {
          MulMonotone(j, n, c);
          PlaceCost(input, c, d, best, prev, j);
        }
      }
      SinglesTraced(prev, n);
    }
  }

  /** The cost of a run by its length, from 1 to 19 characters. */
  lemma RunCosts(input: Input, c: int, best: seq<int>, prev: seq<int>)
    requires input.Valid() && Uniform(input, c, -1) && Solved(input, best, prev) && |input.text| * c < UNREACHED
    ensures |best| == |input.text| + 1
    ensures var n := |input.text|; var cost := best[n];
            && (n == 1 ==> cost == if c < 984 then c else 984)
            && (n == 2 ==> cost == if 2 * c < 408 then 2 * c else 408)
            && (n == 3 ==> cost == if 3 * c < 240 then 3 * c else 240)
            && (n == 4 ==> cost == if 4 * c < 204 then 4 * c else 204)
            && (n == 5 ==> cost == if 5 * c < 252 then 5 * c else 252)
            && (n == 6 ==> cost == if 6 * c < 300 then 6 * c else 300)
            && (n == 7 ==> cost == if 7 * c < 372 then 7 * c else 372)
            && (n == 8 ==> cost == if 8 * c < 480 then 8 * c else 480)
            && (9 <= n <= 19 ==> cost == if n * c < 8192 then n * c else 8192)
            && (n >= 20 ==> cost == n * c)
  {
    hide Solved, Uniform;
    EndCost(input, c, -1, best, prev);
  }

  /** A dictionary word over the whole of a run of 2 to 8 characters is preferred to
      the run exactly if it costs less than the run. */
  lemma WordOverRun(input: Input, d: int, best: seq<int>, prev: seq<int>)
    requires input.Valid() && 2 <= |input.text| <= 8 && Solved(input, best, prev) && 0 <= d < UINT32
    requires input.dictionary[0] == [Word(|input.text|, d)]
    requires forall i :: 0 <= i < |input.text| ==> IsKatakana(input.text[i]) && (i > 0 ==> input.dictionary[i] == [])
    ensures |best| == |prev| == |input.text| + 1 && Boundaries(best, prev, |input.text|) == [|input.text|]
    ensures var n := |input.text|; var cost := best[n];
            && (n == 2 ==> cost == if d < 408 then d else 408)
            && (n == 3 ==> cost == if d < 240 then d else 240)
            && (n == 4 ==> cost == if d < 204 then d else 204)
            && (n == 5 ==> cost == if d < 252 then d else 252)
            && (n == 6 ==> cost == if d < 300 then d else 300)
            && (n == 7 ==> cost == if d < 372 then d else 372)
            && (n == 8 ==> cost == if d < 480 then d else 480)
  {
    WordUniform(input, d);
    hide Solved, Uniform, Boundaries, Whole, Input.Valid;
    WholeCost(|input.text|, d);
    EndCost(input, 255, d, best, prev);
    RunOrSingles(input, 255, d, best, prev);
  }

  lemma WordUniform(input: Input, d: int)
    requires input.Valid() && |input.text| >= 2 && 0 <= d < UINT32 && input.dictionary[0] == [Word(|input.text|, d)]
    requires forall i :: 0 <= i < |input.text| ==> IsKatakana(input.text[i]) && (i > 0 ==> input.dictionary[i] == [])
    ensures Uniform(input, 255, d)
  {}

  lemma WholeCost(n: int, d: int)
    requires 2 <= n <= 8 && d >= 0
    ensures 0 <= Whole(n, d) <= n * 255
    ensures && (n == 2 ==> Whole(n, d) == if d < 408 then d else 408)
            && (n == 3 ==> Whole(n, d) == if d < 240 then d else 240)
            && (n == 4 ==> Whole(n, d) == if d < 204 then d else 204)
            && (n == 5 ==> Whole(n, d) == if d < 252 then d else 252)
            && (n == 6 ==> Whole(n, d) == if d < 300 then d else 300)
            && (n == 7 ==> Whole(n, d) == if d < 372 then d else 372)
            && (n == 8 ==> Whole(n, d) == if d < 480 then d else 480)
  {}

  // ----- two characters without dictionary words

  /** From U+30A1 to U+30FE without the middle dot, or a halfwidth form. */
  predicate InKatakana(c: int) {
    0x30a1 <= c <= 0x30fa || 0x30fc <= c <= 0x30fe || 0xff66 <= c <= 0xff9f
  }

  /** The words tried on two characters. */
  lemma TwoTried(input: Input, best: seq<int>, i: int, w: Word)
    requires input.Valid() && input.dictionary == [[], []] && |best| == 3 && best[0] != UNREACHED && 0 <= i < 2
    ensures var a, b := input.text[0], input.text[1];
            Tried(input, best, i, w) <==>
              || (w == Word(1, 255) && !IsHangul(input.text[i]))
              || (i == 0 && w == Word(2, 408) && IsKatakana(a) && IsKatakana(b))
              || (i == 0 && w == Word(1, 984) && IsKatakana(a) && !IsKatakana(b))
              || (i == 1 && w == Word(1, 984) && !IsKatakana(a) && IsKatakana(b))
  {
    var text := input.text;
    assert Noted(text, best, 1) == IsKatakana(text[0]) && !Noted(text, best, 0);
    assert KatakanaRun(text, 0, 2) == IsKatakana(text[1]) && KatakanaRun(text, 0, 1) == !IsKatakana(text[1]);
    assert KatakanaRun(text, 1, 1);
  }

  /** The first of two characters, unless it is Hangul, is reached as a word. */
  lemma TwoFirst(input: Input, best: seq<int>, prev: seq<int>)
    requires input.Valid() && input.dictionary == [[], []] && Solved(input, best, prev)
    ensures |best| == |prev| == 3 && |input.text| == 2 && best[0] == 0
    ensures if IsHangul(input.text[0]) then best[1] == UNREACHED else best[1] == 255 && prev[1] == 0
  {
    hide Solved, Tried, IsHangul, IsKatakana;
    ReachedFirst(input, best, prev);
    TwoTried(input, best, 0, Word(1, 255));
    if !IsHangul(input.text[0]) {
      AtMost(input, best, prev, 0, Word(1, 255));
    }
    if best[1] != UNREACHED {
      var w := LastOf(input, best, prev, 1);
      TwoTried(input, best, 0, w);
      KatakanaNotHangul(input.text[0]);
    }
  }

  lemma KatakanaNotHangul(c: int)
    ensures !(IsKatakana(c) && IsHangul(c))
  {}

  /** Two characters without dictionary words stay together exactly if both are
      Katakana, or one is Hangul. */
  lemma TwoCharacters(input: Input, best: seq<int>, prev: seq<int>)
    requires input.Valid() && input.dictionary == [[], []] && Solved(input, best, prev)
    ensures |best| == |prev| == 3 && |input.text| == 2
    ensures var a, b := input.text[0], input.text[1];
            Boundaries(best, prev, 2) ==
            if (InKatakana(a) && InKatakana(b)) || 0xac00 <= a <= 0xd7a3 || 0xac00 <= b <= 0xd7a3 then [2] else [2, 1]
  {
    var a, b := input.text[0], input.text[1];
    assert (InKatakana(a) <==> IsKatakana(a)) && (InKatakana(b) <==> IsKatakana(b));
    KatakanaNotHangul(a);
    KatakanaNotHangul(b);
    TwoEnd(input, best, prev);
    hide Solved;
    TwoFirst(input, best, prev);
    assert Trace(prev, 0) == [];
    assert prev[1] == 0 ==> Trace(prev, 1) == [1] + Trace(prev, 0);
    assert 0 <= prev[2] < 2 ==> Trace(prev, 2) == [2] + Trace(prev, prev[2]);
  }

  lemma TwoEnd(input: Input, best: seq<int>, prev: seq<int>)
    requires input.Valid() && input.dictionary == [[], []] && Solved(input, best, prev)
    ensures |best| == |prev| == 3 && |input.text| == 2
    ensures var a, b := input.text[0], input.text[1];
            if IsKatakana(a) && IsKatakana(b) then best[2] == 408 && prev[2] == 0
            else if IsHangul(a) || IsHangul(b) then best[2] == UNREACHED
            else best[2] == 510 && prev[2] == 1
  {
    hide Solved, Tried, IsHangul, IsKatakana;
    var a, b := input.text[0], input.text[1];
    TwoFirst(input, best, prev);
    KatakanaNotHangul(a);
    KatakanaNotHangul(b);
    TwoTried(input, best, 0, Word(2, 408));
    TwoTried(input, best, 1, Word(1, 255));
    if IsKatakana(a) && IsKatakana(b) {
      AtMost(input, best, prev, 0, Word(2, 408));
    }
    if !IsHangul(a) && !IsHangul(b) {
      AtMost(input, best, prev, 1, Word(1, 255));
    }
    if best[2] != UNREACHED {
      var w := LastOf(input, best, prev, 2);
      TwoTried(input, best, prev[2], w);
    }
  }

  /** Characters whose costs add up to the mark for unreached places. */
  const LAST_SINGLE: int := 16843009

  /** From there on nothing is reached by single characters at 255. */
  lemma {:induction false} BeyondMark(input: Input, best: seq<int>, prev: seq<int>, k: int)
    requires input.Valid() && Uniform(input, 255, -1) && Solved(input, best, prev)
    requires LAST_SINGLE <= k <= |input.text|
    ensures |best| == |input.text| + 1 && best[k] == UNREACHED
    decreases k
  {
    hide Solved, Uniform, Tried, Sum32, KatakanaCost;
    ReachedFirst(input, best, prev);
    if best[k] != UNREACHED {
      var w := LastOf(input, best, prev, k);
      UniformTried(input, 255, -1, best, prev[k], w);
      if k == LAST_SINGLE {
        PlaceCost(input, 255, -1, best, prev, k - 1);
        SmallSum(best[k - 1], 255);
      } else {
        BeyondMark(input, best, prev, k - 1);
      }
      assert false;
    }
  }

  /** Katakana without dictionary words: the boundary is only the end exactly for
      runs of up to 8 characters, and for runs so long that their costs reach the
      mark for unreached places; otherwise every character is a word. */
  lemma NoDictionary(input: Input, best: seq<int>, prev: seq<int>)
    requires input.Valid() && input.text != [] && Solved(input, best, prev)
    requires forall i :: 0 <= i < |input.text| ==> IsKatakana(input.text[i]) && input.dictionary[i] == []
    ensures |best| == |prev| == |input.text| + 1
    ensures var n := |input.text|;
            Boundaries(best, prev, n) == if n <= 8 || n >= LAST_SINGLE then [n] else CountDown(n)
    ensures var n := |input.text|; Boundaries(best, prev, n) == [n] <==> n <= 8 || n >= LAST_SINGLE
  {
    NoWordsUniform(input);
    hide Solved, Uniform, Boundaries, Whole, CountDown, Input.Valid;
    var n := |input.text|;
    ReachedFirst(input, best, prev);
    if n < LAST_SINGLE {
      MulMonotone(n, LAST_SINGLE - 1, 255);
      RunOrSingles(input, 255, -1, best, prev);
      ShortRuns(n);
      Counts(n);
    } else {
      BeyondMark(input, best, prev, n);
      NotReached(best, prev, n);
    }
  }

  lemma Counts(n: nat)
    ensures n > 1 ==> CountDown(n) != [n]
  {
    if n > 1 {
      assert CountDown(n) == [n] + ([n - 1] + CountDown(n - 2));
    }
  }

  lemma NotReached(best: seq<int>, prev: seq<int>, n: int)
    requires 0 <= n < |best| && best[n] == UNREACHED
    ensures Boundaries(best, prev, n) == [n]
  {}

  lemma ShortRuns(n: int)
    requires n >= 1
    ensures n == 1 || 0 <= Whole(n, -1) <= n * 255 <==> n <= 8
  {}
}
