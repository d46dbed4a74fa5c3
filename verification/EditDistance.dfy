/** Common subsequences of two token vectors and the insert/delete edit
    distance between them: the reference against which the diff engine's
    "guaranteed minimal set of changes" is stated. */
module EditDistance {

  /** `s` can be obtained from `a` by deleting elements. */
  ghost predicate Subseq(s: seq<int>, a: seq<int>) {
    if s == [] then true
    else if a == [] then false
    else if s[0] == a[0] then Subseq(s[1..], a[1..])
    else Subseq(s, a[1..])
  }

  ghost predicate Common(s: seq<int>, a: seq<int>, b: seq<int>) {
    Subseq(s, a) && Subseq(s, b)
  }

  function Max(i: int, j: int): int { if i < j then j else i }
  function Min(i: int, j: int): int { if i < j then i else j }

  /** Length of a longest common subsequence; `LcsIsMaximum` says so. */
  ghost function Lcs(a: seq<int>, b: seq<int>): nat
    decreases |a| + |b|
  {
    if a == [] || b == [] then 0
    else if a[0] == b[0] then 1 + Lcs(a[1..], b[1..])
    else Max(Lcs(a[1..], b), Lcs(a, b[1..]))
  }

  /** Number of single-element deletions and insertions in a shortest script. */
  ghost function Dist(a: seq<int>, b: seq<int>): int {
    |a| + |b| - 2 * Lcs(a, b)
  }

  // ----- subsequences

  lemma {:induction false} SubseqDropFirst(s: seq<int>, a: seq<int>)
    requires s != [] && Subseq(s, a)
    ensures Subseq(s[1..], a)
    decreases |a|
  {
    if s[0] == a[0] {
      SubseqSkip(s[1..], a);
    } else {
      SubseqDropFirst(s, a[1..]);
      SubseqSkip(s[1..], a);
    }
  }

  lemma {:induction false} SubseqSkip(s: seq<int>, a: seq<int>)
    requires a != [] && Subseq(s, a[1..])
    ensures Subseq(s, a)
    decreases |a|, 0
  {
    if s != [] && s[0] == a[0] {
      SubseqDropFirst(s, a[1..]);
    }
  }

  lemma {:induction false} SubseqLength(s: seq<int>, a: seq<int>)
    requires Subseq(s, a)
    ensures |s| <= |a|
    decreases |a|
  {
    if s != [] {
      if s[0] == a[0] { SubseqLength(s[1..], a[1..]); } else { SubseqLength(s, a[1..]); }
    }
  }

  lemma {:induction false} SubseqConcat(s: seq<int>, a: seq<int>, t: seq<int>, b: seq<int>)
    requires Subseq(s, a) && Subseq(t, b)
    ensures Subseq(s + t, a + b)
    decreases |a|
  {
    if a == [] {
      assert s + t == t && a + b == b;
    } else if s != [] && s[0] == a[0] {
      SubseqConcat(s[1..], a[1..], t, b);
      assert (s + t)[1..] == s[1..] + t && (a + b)[1..] == a[1..] + b;
    } else {
      SubseqConcat(s, a[1..], t, b);
      assert (a + b)[1..] == a[1..] + b;
      SubseqSkip(s + t, a + b);
    }
  }

  lemma {:induction false} SubseqSplit(s: seq<int>, a: seq<int>, b: seq<int>) returns (k: nat)
    requires Subseq(s, a + b)
    ensures k <= |s| && Subseq(s[..k], a) && Subseq(s[k..], b)
    decreases |a|
  {
    if s == [] || a == [] {
      k := 0;
      assert s[0..] == s;
      if a == [] { assert a + b == b; }
    } else {
      assert (a + b)[1..] == a[1..] + b;
      if s[0] == a[0] {
        k := SubseqSplit(s[1..], a[1..], b);
        assert s[..k + 1][1..] == s[1..][..k] && s[k + 1..] == s[1..][k..];
        k := k + 1;
      } else {
        k := SubseqSplit(s, a[1..], b);
        SubseqSkip(s[..k], a);
      }
    }
  }

  // ----- Lcs is the maximum length of a common subsequence

  lemma {:induction false} LcsBound(s: seq<int>, a: seq<int>, b: seq<int>)
    requires Common(s, a, b)
    ensures |s| <= Lcs(a, b)
    decreases |a| + |b|
  {
    if s != [] {
      if a[0] == b[0] {
        if s[0] == a[0] {
          LcsBound(s[1..], a[1..], b[1..]);
        } else {
          LcsBound(s, a[1..], b[1..]);
        }
      } else if s[0] != a[0] {
        LcsBound(s, a[1..], b);
      } else {
        LcsBound(s, a, b[1..]);
      }
    }
  }

  lemma {:induction false} LcsWitness(a: seq<int>, b: seq<int>) returns (s: seq<int>)
    ensures Common(s, a, b) && |s| == Lcs(a, b)
    decreases |a| + |b|
  {
    if a == [] || b == [] {
      s := [];
    } else if a[0] == b[0] {
      var t := LcsWitness(a[1..], b[1..]);
      s := [a[0]] + t;
      assert s[1..] == t;
    } else if Lcs(a[1..], b) >= Lcs(a, b[1..]) {
      s := LcsWitness(a[1..], b);
      SubseqSkip(s, a);
    } else {
      s := LcsWitness(a, b[1..]);
      SubseqSkip(s, b);
    }
  }

  /** `Lcs` is attained by a common subsequence and exceeded by none. */
  lemma LcsIsMaximum(a: seq<int>, b: seq<int>)
    ensures exists s :: Common(s, a, b) && |s| == Lcs(a, b)
    ensures forall s :: Common(s, a, b) ==> |s| <= Lcs(a, b)
  {
    var s := LcsWitness(a, b);
    forall t | Common(t, a, b) ensures |t| <= Lcs(a, b) {
      LcsBound(t, a, b);
    }
  }

  // ----- distance: growth at either end, concatenation, diagonals

  lemma DistTriangle(a: seq<int>, b: seq<int>, c: seq<int>, d: seq<int>)
    ensures Dist(a + c, b + d) <= Dist(a, b) + Dist(c, d)
  {
    var s := LcsWitness(a, b);
    var t := LcsWitness(c, d);
    SubseqConcat(s, a, t, c);
    SubseqConcat(s, b, t, d);
    LcsBound(s + t, a + c, b + d);
  }

  lemma DistNonNegative(a: seq<int>, b: seq<int>)
    ensures 0 <= Dist(a, b)
  {
    var s := LcsWitness(a, b);
    SubseqLength(s, a);
    SubseqLength(s, b);
  }

  /** Appending one element to one side moves the distance by exactly one. */
  lemma DistAppendOne(a: seq<int>, b: seq<int>, e: int)
    ensures Dist(a, b) - 1 <= Dist(a + [e], b) <= Dist(a, b) + 1
    ensures Dist(a, b) - 1 <= Dist(a, b + [e]) <= Dist(a, b) + 1
  {
    DistTriangle(a, b, [e], []);
    DistTriangle(a, b, [], [e]);
    assert b + [] == b && a + [] == a;
    var s := LcsWitness(a + [e], b);
    var k := SubseqSplit(s, a, [e]);
    SubseqLength(s[k..], [e]);
    assert s[..k] + s[k..] == s;
    SubseqPrefix(s, k, b);
    LcsBound(s[..k], a, b);
    var t := LcsWitness(a, b + [e]);
    var m := SubseqSplit(t, b, [e]);
    SubseqLength(t[m..], [e]);
    SubseqPrefix(t, m, a);
    LcsBound(t[..m], a, b);
  }

  lemma {:induction false} SubseqPrefix(s: seq<int>, k: nat, a: seq<int>)
    requires k <= |s| && Subseq(s, a)
    ensures Subseq(s[..k], a)
    decreases |a|
  {
    if k > 0 {
      if s[0] == a[0] {
        SubseqPrefix(s[1..], k - 1, a[1..]);
        assert s[..k][1..] == s[1..][..k - 1];
      } else {
        SubseqPrefix(s, k, a[1..]);
      }
    }
  }

  lemma DistPrependOne(a: seq<int>, b: seq<int>, e: int)
    ensures Dist(a, b) - 1 <= Dist([e] + a, b) <= Dist(a, b) + 1
    ensures Dist(a, b) - 1 <= Dist(a, [e] + b) <= Dist(a, b) + 1
  {
    DistTriangle([e], [], a, b);
    DistTriangle([], [e], a, b);
    assert [] + b == b && [] + a == a;
    var s := LcsWitness([e] + a, b);
    DropHead(s, [e] + a, b, a);
    var t := LcsWitness(a, [e] + b);
    DropHead(t, [e] + b, a, b);
  }

  lemma DropHead(s: seq<int>, ea: seq<int>, b: seq<int>, a: seq<int>)
    requires ea != [] && a == ea[1..] && Common(s, ea, b)
    ensures |s| - 1 <= Lcs(a, b) && |s| - 1 <= Lcs(b, a)
  {
    if s != [] {
      if s[0] == ea[0] {
        SubseqDropFirst(s, b);
        LcsBound(s[1..], a, b);
        LcsBound(s[1..], b, a);
      } else {
        LcsBound(s, a, b);
        LcsBound(s, b, a);
      }
    }
  }

  lemma DistMatchAppend(a: seq<int>, b: seq<int>, e: int)
    ensures Dist(a + [e], b + [e]) == Dist(a, b)
  {
    DistTriangle(a, b, [e], [e]);
    LcsBound([e], [e], [e]);
    var s := LcsWitness(a + [e], b + [e]);
    var k := SubseqSplit(s, a, [e]);
    SubseqLength(s[k..], [e]);
    var m := SubseqSplit(s, b, [e]);
    SubseqLength(s[m..], [e]);
    var n := Min(k, m);
    SubseqPrefix(s[..k], n, a);
    SubseqPrefix(s[..m], n, b);
    assert s[..k][..n] == s[..n] && s[..m][..n] == s[..n];
    LcsBound(s[..n], a, b);
  }

  lemma DistMatchPrepend(a: seq<int>, b: seq<int>, e: int)
    ensures Dist([e] + a, [e] + b) == Dist(a, b)
  {
    assert ([e] + a)[1..] == a && ([e] + b)[1..] == b;
  }

  /** With unequal last elements a shortest script edits one of them last. */
  lemma DistMismatchAppend(a: seq<int>, b: seq<int>, e: int, f: int)
    requires e != f
    ensures Dist(a + [e], b + [f]) == 1 + Min(Dist(a, b + [f]), Dist(a + [e], b))
  {
    DistAppendOne(a, b + [f], e);
    DistAppendOne(a + [e], b, f);
    var s := LcsWitness(a + [e], b + [f]);
    var k := SubseqSplit(s, a, [e]);
    var m := SubseqSplit(s, b, [f]);
    SubseqLength(s[k..], [e]);
    SubseqLength(s[m..], [f]);
    if k == |s| {
      assert s[..k] == s;
      LcsBound(s, a, b + [f]);
    } else if m == |s| {
      assert s[..m] == s;
      LcsBound(s, a + [e], b);
    } else {
      SubseqSingleton(s[k..], e);
      SubseqSingleton(s[m..], f);
      assert false;
    }
  }

  lemma SubseqSingleton(s: seq<int>, e: int)
    requires |s| == 1 && Subseq(s, [e])
    ensures s[0] == e
  {}

  /** With unequal first elements a shortest script edits one of them first. */
  lemma DistMismatchPrepend(a: seq<int>, b: seq<int>, e: int, f: int)
    requires e != f
    ensures Dist([e] + a, [f] + b) == 1 + Min(Dist(a, [f] + b), Dist([e] + a, b))
  {
    assert ([e] + a)[1..] == a && ([f] + b)[1..] == b;
  }

  /** Dropping one element from both fronts never lengthens the script:
      the remaining distance falls along every diagonal of the edit graph. */
  lemma DistDropBothFirst(a: seq<int>, b: seq<int>, e: int, f: int)
    ensures Dist(a, b) <= Dist([e] + a, [f] + b)
  {
    if e == f {
      DistMatchPrepend(a, b, e);
    } else {
      DistMismatchPrepend(a, b, e, f);
      DistPrependOne(a, b, f);
      DistPrependOne(a, b, e);
    }
  }

  /** Likewise for the last elements. */
  lemma DistDropBothLast(a: seq<int>, b: seq<int>, e: int, f: int)
    ensures Dist(a, b) <= Dist(a + [e], b + [f])
  {
    if e == f {
      DistMatchAppend(a, b, e);
    } else {
      DistMismatchAppend(a, b, e, f);
      DistAppendOne(a, b, f);
      DistAppendOne(a, b, e);
    }
  }

  /** A shortest script passes through a point at every intermediate cost. */
  lemma {:induction false} PathPoint(a: seq<int>, b: seq<int>, c: nat) returns (i: nat, j: nat)
    requires c <= Dist(a, b)
    ensures i <= |a| && j <= |b|
    ensures Dist(a[..i], b[..j]) == c && Dist(a[i..], b[j..]) == Dist(a, b) - c
    decreases |a| + |b|
  {
    if c == 0 {
      i, j := 0, 0;
      assert a[0..] == a && b[0..] == b;
    } else if a == [] || b == [] {
      if a == [] { i, j := 0, c; } else { i, j := c, 0; }
    } else if a[0] == b[0] {
      i, j := PathPoint(a[1..], b[1..], c);
      PrefixCons(a, i);
      PrefixCons(b, j);
      DistMatchPrepend(a[1..][..i], b[1..][..j], a[0]);
      assert a[i + 1..] == a[1..][i..] && b[j + 1..] == b[1..][j..];
      i, j := i + 1, j + 1;
    } else if Lcs(a[1..], b) >= Lcs(a, b[1..]) {
      i, j := PathPoint(a[1..], b, c - 1);
      PrefixCons(a, i);
      DistPrependOne(a[1..][..i], b[..j], a[0]);
      assert a[i + 1..] == a[1..][i..];
      i := i + 1;
      TriangleAt(a, b, i, j);
    } else {
      i, j := PathPoint(a, b[1..], c - 1);
      PrefixCons(b, j);
      DistPrependOne(a[..i], b[1..][..j], b[0]);
      assert b[j + 1..] == b[1..][j..];
      j := j + 1;
      TriangleAt(a, b, i, j);
    }
  }

  lemma PrefixCons(a: seq<int>, i: nat)
    requires i + 1 <= |a|
    ensures a[..i + 1] == [a[0]] + a[1..][..i]
  {}

  lemma TriangleAt(a: seq<int>, b: seq<int>, i: nat, j: nat)
    requires i <= |a| && j <= |b|
    ensures Dist(a, b) <= Dist(a[..i], b[..j]) + Dist(a[i..], b[j..])
  {
    DistTriangle(a[..i], b[..j], a[i..], b[j..]);
    assert a[..i] + a[i..] == a && b[..j] + b[j..] == b;
  }

  lemma {:induction false} DistCommonPrefix(p: seq<int>, a: seq<int>, b: seq<int>)
    ensures Dist(p + a, p + b) == Dist(a, b)
    decreases |p|
  {
    if p == [] {
      assert p + a == a && p + b == b;
    } else {
      assert p + a == [p[0]] + (p[1..] + a) && p + b == [p[0]] + (p[1..] + b);
      DistMatchPrepend(p[1..] + a, p[1..] + b, p[0]);
      DistCommonPrefix(p[1..], a, b);
    }
  }

  lemma {:induction false} DistCommonSuffix(s: seq<int>, a: seq<int>, b: seq<int>)
    ensures Dist(a + s, b + s) == Dist(a, b)
    decreases |s|
  {
    if s == [] {
      assert a + s == a && b + s == b;
    } else {
      var t, e := s[..|s| - 1], s[|s| - 1];
      assert a + s == (a + t) + [e] && b + s == (b + t) + [e];
      DistMatchAppend(a + t, b + t, e);
      DistCommonSuffix(t, a, b);
    }
  }
}
