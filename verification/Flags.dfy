/** Change flags over a vector: which elements survive. */
module Flags {

  /** The elements of `v` whose flag is clear, in order. */
  function Kept(v: seq<int>, m: seq<bool>): seq<int>
    requires |v| == |m|
  {
    if v == [] then []
    else (if m[0] then [] else [v[0]]) + Kept(v[1..], m[1..])
  }

  lemma KeptHead(v: seq<int>, m: seq<bool>)
    requires |v| == |m| && v != []
    ensures Kept(v, m) == (if m[0] then [] else [v[0]]) + Kept(v[1..], m[1..])
  {}

  lemma {:induction false} KeptConcat(v: seq<int>, m: seq<bool>, w: seq<int>, n: seq<bool>)
    requires |v| == |m| && |w| == |n|
    ensures Kept(v + w, m + n) == Kept(v, m) + Kept(w, n)
    decreases |v|
  {
    if v == [] {
      assert v + w == w && m + n == n;
      assert Kept(v, m) == [];
    } else {
      hide Kept;
      KeptHead(v, m);
      KeptHead(v + w, m + n);
      KeptConcat(v[1..], m[1..], w, n);
      assert (v + w)[1..] == v[1..] + w && (m + n)[1..] == m[1..] + n;
      SeqAssoc(if m[0] then [] else [v[0]], Kept(v[1..], m[1..]), Kept(w, n));
    }
  }

  lemma SeqAssoc(p: seq<int>, q: seq<int>, r: seq<int>)
    ensures p + (q + r) == (p + q) + r
  {}

  /** The survivors of a range are those of its two parts in order. */
  lemma KeptSplit(v: seq<int>, m: seq<bool>, lo: int, mid: int, hi: int)
    requires |v| == |m| && 0 <= lo <= mid <= hi <= |v|
    ensures Kept(v[lo..hi], m[lo..hi]) == Kept(v[lo..mid], m[lo..mid]) + Kept(v[mid..hi], m[mid..hi])
  {
    hide Kept;
    KeptConcat(v[lo..mid], m[lo..mid], v[mid..hi], m[mid..hi]);
    assert v[lo..mid] + v[mid..hi] == v[lo..hi] && m[lo..mid] + m[mid..hi] == m[lo..hi];
  }

  lemma {:induction false} KeptAll(v: seq<int>, m: seq<bool>)
    requires |v| == |m| && forall k :: 0 <= k < |m| ==> !m[k]
    ensures Kept(v, m) == v
    decreases |v|
  {
    if v != [] { KeptAll(v[1..], m[1..]); }
  }

  lemma {:induction false} KeptNone(v: seq<int>, m: seq<bool>)
    requires |v| == |m| && forall k :: 0 <= k < |m| ==> m[k]
    ensures Kept(v, m) == []
    decreases |v|
  {
    if v != [] { KeptNone(v[1..], m[1..]); }
  }

  // ----- flags reached through an index table

  /** `index` is strictly increasing and addresses a flag vector with one
      sentinel at each end. */
  ghost predicate Indexes(index: seq<int>, flags: nat) {
    && (forall k :: 0 <= k < |index| ==> 0 <= index[k] && index[k] + 2 < flags)
    && (forall j, k :: 0 <= j < k < |index| ==> index[j] < index[k])
  }

  /** The flags of the elements listed in `index`. */
  ghost function Marks(flags: seq<bool>, index: seq<int>): (m: seq<bool>)
    requires Indexes(index, |flags|)
    ensures |m| == |index|
    ensures forall k :: 0 <= k < |index| ==> m[k] == flags[index[k] + 1]
  {
    seq(|index|, k requires 0 <= k < |index| => flags[index[k] + 1])
  }

  /** Nothing changed but flags of elements number `lo` to `hi` of `index`. */
  ghost predicate OnlyWithin(before: seq<bool>, after: seq<bool>, index: seq<int>, lo: int, hi: int)
    requires Indexes(index, |before|) && 0 <= lo <= hi <= |index|
  {
    && |after| == |before|
    && forall p :: 0 <= p < |before| && (forall k :: lo <= k < hi ==> index[k] + 1 != p) ==> after[p] == before[p]
  }

  /** No flag of elements number `lo` to `hi` is set. */
  ghost predicate Clear(flags: seq<bool>, index: seq<int>, lo: int, hi: int)
    requires Indexes(index, |flags|) && 0 <= lo <= hi <= |index|
  {
    forall k :: lo <= k < hi ==> !flags[index[k] + 1]
  }

  /** Elements before `lo` and from `hi` on keep their flags. */
  lemma OnlyWithinMarks(before: seq<bool>, after: seq<bool>, index: seq<int>, lo: int, hi: int)
    requires Indexes(index, |before|) && 0 <= lo <= hi <= |index| && OnlyWithin(before, after, index, lo, hi)
    ensures Marks(after, index)[..lo] == Marks(before, index)[..lo]
    ensures Marks(after, index)[hi..] == Marks(before, index)[hi..]
  {
    forall k | 0 <= k < lo || hi <= k < |index| ensures after[index[k] + 1] == before[index[k] + 1] {
      forall j | lo <= j < hi ensures index[j] + 1 != index[k] + 1 {
        if j < k { assert index[j] < index[k]; } else { assert index[k] < index[j]; }
      }
    }
  }

  lemma OnlyWithinClear(before: seq<bool>, after: seq<bool>, index: seq<int>, lo: int, hi: int, from: int, to: int)
    requires Indexes(index, |before|) && 0 <= lo <= hi <= |index| && OnlyWithin(before, after, index, lo, hi)
    requires 0 <= from <= to <= |index| && Clear(before, index, from, to) && (to <= lo || hi <= from)
    ensures Clear(after, index, from, to)
  {
    OnlyWithinMarks(before, after, index, lo, hi);
    forall k | from <= k < to ensures !after[index[k] + 1] {
      if k < lo {
        assert Marks(after, index)[..lo][k] == Marks(before, index)[..lo][k];
      } else {
        assert Marks(after, index)[hi..][k - hi] == Marks(before, index)[hi..][k - hi];
      }
    }
  }

  lemma OnlyWithinTrans(f: seq<bool>, g: seq<bool>, h: seq<bool>, index: seq<int>,
                        lo: int, hi: int, from: int, to: int, least: int, most: int)
    requires Indexes(index, |f|) && 0 <= lo <= hi <= |index| && 0 <= from <= to <= |index|
    requires 0 <= least <= lo && least <= from && hi <= most <= |index| && to <= most
    requires OnlyWithin(f, g, index, lo, hi) && OnlyWithin(g, h, index, from, to)
    ensures OnlyWithin(f, h, index, least, most)
  {}
}
