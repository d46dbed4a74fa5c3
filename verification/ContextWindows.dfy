/** Words seen through windows: with match context, doDiff.c compares windows of
    `context + 1` words, cut off at the two ends by a -1. */
module ContextWindows {
  import opened Interning

  /** Window number `k`: words k - context to k, as far as they exist. */
  function Window(w: seq<int>, context: nat, k: int): seq<int>
    requires context <= |w| && 0 <= k < |w| + context
  {
    if k < context then [-1] + w[..k + 1]
    else if k < |w| then w[k - context..k + 1]
    else w[k - context..] + [-1]
  }

  /** Word values are table numbers, never the -1 at the edges. */
  ghost predicate Words(w: seq<int>) {
    forall k :: 0 <= k < |w| ==> 0 <= w[k] < VALUE_MAX
  }

  lemma WindowEdges(w: seq<int>, context: nat, k: int)
    requires context <= |w| && 0 <= k < |w| + context && Words(w)
    ensures var n := Window(w, context, k);
            && n != []
            && (n[0] == -1 <==> k < context)
            && (n[|n| - 1] == -1 <==> k >= |w|)
            && (k < context ==> |n| == k + 2)
            && (context <= k < |w| ==> |n| == context + 1)
            && (k >= |w| ==> |n| == |w| + context - k + 1)
  {}

  /** Equal windows hold the same words at the same distance from their end. */
  lemma WindowMatch(v: seq<int>, w: seq<int>, context: nat, a: int, b: int)
    requires context <= |v| && context <= |w| && Words(v) && Words(w)
    requires 0 <= a < |v| + context && 0 <= b < |w| + context
    requires Window(v, context, a) == Window(w, context, b)
    ensures a < context <==> b < context
    ensures a < context ==> a == b
    ensures a >= |v| <==> b >= |w|
    ensures a >= |v| ==> a - |v| == b - |w|
    ensures forall p :: 0 <= p < |v| && a - context <= p <= a ==>
              0 <= p + b - a < |w| && v[p] == w[p + b - a]
  {
    WindowEdges(v, context, a);
    WindowEdges(w, context, b);
    var n, m := Window(v, context, a), Window(w, context, b);
    forall p | 0 <= p < |v| && a - context <= p <= a
      ensures 0 <= p + b - a < |w| && v[p] == w[p + b - a]
    {
      var i := if a < context then p + 1 else p - (a - context);
      assert n[i] == v[p] && m[i] == w[p + b - a];
    }
  }

  /** Conversely, windows at level places with equal words are equal. */
  lemma WindowsEqual(v: seq<int>, w: seq<int>, context: nat, a: int, b: int)
    requires context <= |v| && context <= |w|
    requires 0 <= a < |v| + context && 0 <= b < |w| + context
    requires (a < context || b < context) ==> a == b
    requires (a >= |v| || b >= |w|) ==> a - |v| == b - |w|
    requires forall p :: 0 <= p < |v| && a - context <= p <= a && 0 <= p + b - a < |w| ==> v[p] == w[p + b - a]
    ensures Window(v, context, a) == Window(w, context, b)
  {
    var n, m := Window(v, context, a), Window(w, context, b);
    assert |n| == |m|;
    forall i | 0 <= i < |n| ensures n[i] == m[i] {
      var p := if a < context then i - 1 else a - context + i;
      if 0 <= p < |v| {
        assert p <= a;
        assert n[i] == v[p] && m[i] == w[p + b - a];
      }
    }
  }

  // ----- windows as byte strings

  /** The `n` low bytes of a number, least significant first. */
  function Bytes(x: int, n: nat): (r: Key)
    ensures |r| == n
    decreases n
  {
    if n == 0 then [] else [x % 256] + Bytes(x / 256, n - 1)
  }

  function Pow256(n: nat): (p: int)
    ensures p >= 1
  {
    if n == 0 then 1 else 256 * Pow256(n - 1)
  }

  lemma {:induction false} BytesInjective(x: int, y: int, n: nat)
    requires Bytes(x, n) == Bytes(y, n) && -Pow256(n) < x - y < Pow256(n)
    ensures x == y
    decreases n
  {
    if n > 0 {
      assert Bytes(x, n)[0] == x % 256 && Bytes(y, n)[0] == y % 256;
      assert Bytes(x, n)[1..] == Bytes(x / 256, n - 1) && Bytes(y, n)[1..] == Bytes(y / 256, n - 1);
      BytesInjective(x / 256, y / 256, n - 1);
    }
  }

  /** A vector of table numbers as it lies in memory, eight bytes each. */
  function Encode(w: seq<int>): (r: Key)
    ensures |r| == 8 * |w|
  {
    if w == [] then [] else Bytes(w[0], 8) + Encode(w[1..])
  }

  ghost predicate Values(w: seq<int>) {
    forall k :: 0 <= k < |w| ==> -1 <= w[k] < VALUE_MAX
  }

  lemma {:induction false} EncodeInjective(v: seq<int>, w: seq<int>)
    requires Values(v) && Values(w) && Encode(v) == Encode(w)
    ensures v == w
    decreases |v|
  {
    hide Encode, Bytes, Pow256;
    if v != [] && w != [] {
      HeadsEqual(v, w);
      PowEight();
      BytesInjective(v[0], w[0], 8);
      EncodeInjective(v[1..], w[1..]);
      assert v == [v[0]] + v[1..] && w == [w[0]] + w[1..];
    }
  }

  lemma HeadsEqual(v: seq<int>, w: seq<int>)
    requires v != [] && w != [] && Encode(v) == Encode(w)
    ensures Bytes(v[0], 8) == Bytes(w[0], 8) && Encode(v[1..]) == Encode(w[1..])
  {
    hide Encode, Bytes;
    EncodeHead(v);
    EncodeHead(w);
  }

  lemma EncodeHead(w: seq<int>)
    requires w != []
    ensures Encode(w)[..8] == Bytes(w[0], 8) && Encode(w)[8..] == Encode(w[1..])
  {
    hide Bytes;
  }

  lemma PowEight()
    ensures Pow256(8) == 0x1_0000_0000_0000_0000
  {
    assert Pow256(4) == 0x1_0000_0000;
  }

  // ----- interning the windows of a file

  /** `tokens` are the numbers of the windows of `w` among `keys`. */
  ghost predicate TokensOf(w: seq<int>, context: nat, keys: seq<Key>, tokens: seq<int>)
    requires context <= |w|
  {
    && |tokens| == |w| + context
    && forall k :: 0 <= k < |tokens| ==>
         0 <= tokens[k] < |keys| && keys[tokens[k]] == Encode(Window(w, context, k))
  }

  lemma TokensGrow(w: seq<int>, context: nat, keys: seq<Key>, more: seq<Key>, tokens: seq<int>)
    requires context <= |w| && TokensOf(w, context, keys, tokens) && keys <= more
    ensures TokensOf(w, context, more, tokens)
  {}

  lemma WindowValues(w: seq<int>, context: nat, k: int)
    requires context <= |w| && 0 <= k < |w| + context && Words(w)
    ensures Values(Window(w, context, k))
  {}

  /** Tokens of two files are equal exactly where the windows are. */
  ghost predicate Tokens(v: seq<int>, w: seq<int>, context: nat, x: seq<int>, y: seq<int>) {
    && context <= |v| && context <= |w| && |x| == |v| + context && |y| == |w| + context
    && forall a, b :: 0 <= a < |x| && 0 <= b < |y| ==>
         (x[a] == y[b] <==> Window(v, context, a) == Window(w, context, b))
  }

  lemma TokensFaithful(v: seq<int>, w: seq<int>, context: nat, keys: seq<Key>, x: seq<int>, y: seq<int>)
    requires context <= |v| && context <= |w| && Words(v) && Words(w) && Distinct(keys)
    requires TokensOf(v, context, keys, x) && TokensOf(w, context, keys, y)
    ensures Tokens(v, w, context, x, y)
  {
    hide Window, Encode, Values, Words;
    forall a, b | 0 <= a < |x| && 0 <= b < |y|
      ensures x[a] == y[b] <==> Window(v, context, a) == Window(w, context, b)
    {
      var n, m := Window(v, context, a), Window(w, context, b);
      WindowValues(v, context, a);
      WindowValues(w, context, b);
      if x[a] == y[b] {
        EncodeInjective(n, m);
      }
    }
  }

  /** Without context a window is a single word. */
  lemma WordsAreTokens(v: seq<int>, w: seq<int>)
    ensures Tokens(v, w, 0, v, w)
  {
    forall a, b | 0 <= a < |v| && 0 <= b < |w|
      ensures v[a] == w[b] <==> Window(v, 0, a) == Window(w, 0, b)
    {
      assert Window(v, 0, a) == [v[a]] && Window(w, 0, b) == [w[b]];
    }
  }

  /** The first `n` tokens are right. */
  ghost predicate Filled(w: seq<int>, context: nat, keys: seq<Key>, tokens: seq<int>, n: int)
    requires context <= |w|
  {
    && 0 <= n <= |tokens| == |w| + context
    && forall k :: 0 <= k < n ==>
         0 <= tokens[k] < |keys| && keys[tokens[k]] == Encode(Window(w, context, k))
  }

  lemma FilledStep(w: seq<int>, context: nat, keys: seq<Key>, more: seq<Key>, tokens: seq<int>, n: int, id: int)
    requires context <= |w| && Filled(w, context, keys, tokens, n) && keys <= more && n < |tokens|
    requires 0 <= id < |more| && more[id] == Encode(Window(w, context, n))
    ensures Filled(w, context, more, tokens[n := id], n + 1)
  {}

  method AddToken(t: Interner, ghost w: seq<int>, ghost context: nat, tokens: array<int>, idx: int, window: seq<int>)
    requires t.Valid() && t.nextValue < VALUE_MAX && context <= |w| && idx < tokens.Length
    requires Filled(w, context, t.keys, tokens[..], idx) && window == Window(w, context, idx)
    modifies t, t.table, tokens
    ensures t.Valid() && old(t.keys) <= t.keys && |t.keys| <= old(|t.keys|) + 1 && t.nextValue == |t.keys|
    ensures Filled(w, context, t.keys, tokens[..], idx + 1)
  {
    hide Filled;
    ghost var keys := t.keys;
    ghost var before := tokens[..];
    FilledBounds(w, context, keys, before, idx);
    var r := t.GetValue(Encode(window));
    assert keys <= t.keys;
    tokens[idx] := r.value;
    assert tokens[..] == before[idx := r.value];
    FilledStep(w, context, keys, t.keys, before, idx, r.value);
  }

  lemma FilledBounds(w: seq<int>, context: nat, keys: seq<Key>, tokens: seq<int>, n: int)
    requires context <= |w| && Filled(w, context, keys, tokens, n)
    ensures 0 <= n <= |tokens| == |w| + context
  {}

  /** Enters the windows from `idx` on: those cut off by the start of the file,
      from an edge array. */
  method StartWindows(t: Interner, w: seq<int>, context: nat, tokens: array<int>)
    requires t.Valid() && context <= |w| && t.nextValue + context <= VALUE_MAX
    requires Filled(w, context, t.keys, tokens[..], 0)
    modifies t, t.table, tokens
    ensures t.Valid() && old(t.keys) <= t.keys && |t.keys| <= old(|t.keys|) + context && t.nextValue == |t.keys|
    ensures Filled(w, context, t.keys, tokens[..], context)
  {
    ghost var first := t.keys;
    assert t.nextValue == |first|;
    FilledBounds(w, context, first, tokens[..], 0);
    hide Filled, Window, Encode, Table, Interner.Valid;
    var edge := [-1] + w[..context];
    for i := 1 to context + 1
      invariant t.Valid() && first <= t.keys && |t.keys| <= |first| + i - 1 && t.nextValue == |t.keys|
      invariant Filled(w, context, t.keys, tokens[..], i - 1)
    {
      WindowSlices(w, context, i - 1);
      AddToken(t, w, context, tokens, i - 1, edge[..i + 1]);
    }
  }

  /** Windows that lie inside the file. */
  method FullWindows(t: Interner, w: seq<int>, context: nat, tokens: array<int>)
    requires t.Valid() && context <= |w| && t.nextValue + |w| - context <= VALUE_MAX
    requires Filled(w, context, t.keys, tokens[..], context)
    modifies t, t.table, tokens
    ensures t.Valid() && old(t.keys) <= t.keys && |t.keys| <= old(|t.keys|) + |w| - context && t.nextValue == |t.keys|
    ensures Filled(w, context, t.keys, tokens[..], |w|)
  {
    ghost var first := t.keys;
    assert t.nextValue == |first|;
    FilledBounds(w, context, first, tokens[..], context);
    hide Filled, Window, Encode, Table, Interner.Valid;
    for i := 0 to |w| - context
      invariant t.Valid() && first <= t.keys && |t.keys| <= |first| + i && t.nextValue == |t.keys|
      invariant Filled(w, context, t.keys, tokens[..], context + i)
    {
      WindowSlices(w, context, context + i);
      AddToken(t, w, context, tokens, context + i, w[i..i + context + 1]);
    }
  }

  /** Windows cut off by the end of the file. */
  method EndWindows(t: Interner, w: seq<int>, context: nat, tokens: array<int>)
    requires t.Valid() && context <= |w| && t.nextValue + context <= VALUE_MAX
    requires Filled(w, context, t.keys, tokens[..], |w|)
    modifies t, t.table, tokens
    ensures t.Valid() && old(t.keys) <= t.keys && |t.keys| <= old(|t.keys|) + context && t.nextValue == |t.keys|
    ensures Filled(w, context, t.keys, tokens[..], |w| + context)
  {
    ghost var first := t.keys;
    assert t.nextValue == |first|;
    FilledBounds(w, context, first, tokens[..], |w|);
    hide Filled, Window, Encode, Table, Interner.Valid;
    var edge := w[|w| - context..] + [-1];
    for i := 0 to context
      invariant t.Valid() && first <= t.keys && |t.keys| <= |first| + i && t.nextValue == |t.keys|
      invariant Filled(w, context, t.keys, tokens[..], |w| + i)
    {
      WindowSlices(w, context, |w| + i);
      AddToken(t, w, context, tokens, |w| + i, edge[i..]);
    }
  }

  /** Turns one file into window tokens: cut-off windows at the start, full
      windows, cut-off windows at the end. */
  method ContextTokens(t: Interner, w: seq<int>, context: nat) returns (tokens: array<int>)
    requires t.Valid() && context <= |w| && t.nextValue + |w| + context <= VALUE_MAX
    modifies t, t.table
    ensures t.Valid() && old(t.keys) <= t.keys && |t.keys| <= old(|t.keys|) + |w| + context
    ensures fresh(tokens) && TokensOf(w, context, t.keys, tokens[..])
  {
    assert t.nextValue == |t.keys|;
    hide Filled, Window, Encode, Table, Interner.Valid, TokensOf;
    tokens := new int[|w| + context];
    FilledNone(w, context, t.keys, tokens[..]);
    StartWindows(t, w, context, tokens);
    FullWindows(t, w, context, tokens);
    EndWindows(t, w, context, tokens);
    FilledAll(w, context, t.keys, tokens[..]);
  }

  /** Where in the words and the two edge arrays a window lies. */
  lemma WindowSlices(w: seq<int>, context: nat, k: int)
    requires context <= |w| && 0 <= k < |w| + context
    ensures k < context ==> ([-1] + w[..context])[..k + 2] == Window(w, context, k)
    ensures context <= k < |w| ==> w[k - context..k + 1] == Window(w, context, k)
    ensures k >= |w| ==> (w[|w| - context..] + [-1])[k - |w|..] == Window(w, context, k)
  {}

  lemma FilledNone(w: seq<int>, context: nat, keys: seq<Key>, tokens: seq<int>)
    requires context <= |w| && |tokens| == |w| + context
    ensures Filled(w, context, keys, tokens, 0)
  {}

  lemma FilledAll(w: seq<int>, context: nat, keys: seq<Key>, tokens: seq<int>)
    requires context <= |w| && Filled(w, context, keys, tokens, |w| + context)
    ensures TokensOf(w, context, keys, tokens)
  {}
}
