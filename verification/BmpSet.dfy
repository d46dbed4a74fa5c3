/** ICU's BMPSet: an immutable set of code points with bit tables in front of
    its inversion list. */
module BmpSet {
  import opened BitTable
  import opened InversionList
  import opened BmpTables

  // ----- values for ill-formed UTF-8

  /** Words lo up to hi are masked, then or-ed. */
  method MaskWords(table: array<bv32>, lo: int, hi: int, mask: bv32, bits: bv32)
    requires table.Length == 64 && 0 <= lo <= hi <= 64
    modifies table
    ensures forall k :: 0 <= k < 64 ==>
              table[k] == if lo <= k < hi then Or(And(old(table[k]), mask), bits) else old(table[k])
  {
    hide Or, And;
    for i := lo to hi
      invariant forall k :: 0 <= k < 64 ==>
                  table[k] == if lo <= k < i then Or(And(old(table[k]), mask), bits) else old(table[k])
    {
      table[i] := Or(And(table[i], mask), bits);
    }
  }

  /** Words lo up to hi are masked. */
  method ClearWords(table: array<bv32>, lo: int, hi: int, mask: bv32)
    requires table.Length == 64 && 0 <= lo <= hi <= 64
    modifies table
    ensures forall k :: 0 <= k < 64 ==>
              table[k] == if lo <= k < hi then And(old(table[k]), mask) else old(table[k])
  {
    hide And;
    for i := lo to hi
      invariant forall k :: 0 <= k < 64 ==>
                  table[k] == if lo <= k < i then And(old(table[k]), mask) else old(table[k])
    {
      table[i] := And(table[i], mask);
    }
  }

  lemma ThreeBits(k: nat)
    requires k < 32
    ensures Bit(3, k) == (k < 2)
  {
    assert 3 == Or(One(0), One(1)) by { OneTable(); }
    hide Bit, Or, One;
    OrBit(One(0), One(1), k);
    OneBit(0, k);
    OneBit(1, k);
  }

  lemma OneIsFirst(k: nat)
    requires k < 32
    ensures Bit(1, k) == (k == 0)
  {
    assert 1 == One(0) by { OneTable(); }
    hide Bit, One;
    OneBit(0, k);
  }

  lemma MaskBit(w: bv32, k: nat)
    requires k < 32
    ensures Bit(And(w, Not(Shl(0x10001, 0xd))), k) == (Bit(w, k) && k != 0xd && k != 0xd + 16)
  {
    hide Bit, And, Not, Shl;
    AndBit(w, Not(Shl(0x10001, 0xd)), k);
    NotBit(Shl(0x10001, 0xd), k);
    PairBit(0xd, k);
  }

  /** Bits of U+0000..U+007F are those of U+FFFD. */
  ghost predicate Overridden7FF(was: seq<bv32>, t: seq<bv32>, f: bool) {
    && |was| == 64 && |t| == 64
    && forall x :: 0 <= x < 0x800 ==> Has(t, x) == (Has(was, x) || (f && x < 0x80))
  }

  /** Blocks of U+0000..U+07FF and of the surrogates are not mixed, and have the
      value of U+FFFD. */
  ghost predicate OverriddenBlocks(was: seq<bv32>, t: seq<bv32>, f: bool) {
    && |was| == 64 && |t| == 64
    && forall x :: 0 <= x < 0x800 ==>
         Has(t, x) == if 0x360 <= x < 0x380 then f else if 0x760 <= x < 0x780 then false
                      else Has(was, x) || (f && x < 0x20)
  }

  method OverrideIllegal(containsFFFD: bool, table7FF: array<bv32>, bmpBlockBits: array<bv32>)
    requires table7FF.Length == 64 && bmpBlockBits.Length == 64 && table7FF != bmpBlockBits
    modifies table7FF, bmpBlockBits
    ensures Overridden7FF(old(table7FF[..]), table7FF[..], containsFFFD)
    ensures OverriddenBlocks(old(bmpBlockBits[..]), bmpBlockBits[..], containsFFFD)
  {
    hide Bit, And, Or, Not, Shl, One, Ored;
    ghost var t, b := table7FF[..], bmpBlockBits[..];
    var mask := Not(Shl(0x10001, 0xd));
    if containsFFFD {
      OrWords(table7FF, 0, 64, 3);
      OredLength(t, table7FF[..], 0, 64, 3);
      forall x | 0 <= x < 0x800 ensures Has(table7FF[..], x) == (Has(t, x) || x < 0x80) {
        OredBit(t, table7FF[..], 0, 64, 3, x);
        ThreeBits(x / 64);
      }
      OrWords(bmpBlockBits, 0, 32, 1);
      ghost var c := bmpBlockBits[..];
      MaskWords(bmpBlockBits, 32, 64, mask, One(0xd));
      forall x | 0 <= x < 0x800
        ensures Has(bmpBlockBits[..], x) == if 0x360 <= x < 0x380 then true else if 0x760 <= x < 0x780 then false
                                            else Has(b, x) || x < 0x20
      {
        OredBit(b, c, 0, 32, 1, x);
        OneIsFirst(x / 64);
        OrBit(And(c[x % 64], mask), One(0xd), x / 64);
        MaskBit(c[x % 64], x / 64);
        OneBit(0xd, x / 64);
      }
    } else {
      ClearWords(bmpBlockBits, 32, 64, mask);
      forall x | 0 <= x < 0x800
        ensures Has(bmpBlockBits[..], x) == if 0x360 <= x < 0x380 || 0x760 <= x < 0x780 then false else Has(b, x)
      {
        MaskBit(b[x % 64], x / 64);
      }
    }
  }

  // ----- the set

  ghost predicate Table7FFOk(list: seq<int>, t: seq<bv32>, f: bool) {
    |t| == 64 && forall x :: 0 <= x < 0x800 ==> Has(t, x) == if x < 0x80 then f else Member(list, x)
  }

  predicate Legal(b: int) {
    0x20 <= b < 0x360 || 0x380 <= b < 0x400
  }

  ghost predicate BlocksOk(list: seq<int>, t: seq<bv32>, f: bool) {
    |t| == 64 && forall b :: 0 <= b < 0x400 ==> BlockOk(list, t, f, b)
  }

  ghost predicate BlockOk(list: seq<int>, t: seq<bv32>, f: bool, b: int)
    requires |t| == 64 && 0 <= b < 0x400
  {
    if Legal(b) then Exact(list, t, b) else !Has(t, b + 0x400) && Has(t, b) == f
  }

  /** Positions of U+0800, U+1000, .. U+10000, and the end of the list. */
  ghost predicate StartsOk(list: seq<int>, s: seq<int>) {
    && |s| == 18 && s[17] == |list| - 1
    && forall i :: 0 <= i <= 16 ==> Position(list, (if i == 0 then 0x800 else i * 0x1000), s[i])
  }

  lemma Table7FFReady(list: seq<int>, was: seq<bv32>, t: seq<bv32>, f: bool)
    requires Filed(list, was, 0x800) && Overridden7FF(was, t, f)
    ensures Table7FFOk(list, t, f)
  {
    hide Has, Member;
  }

  lemma BlocksReady(list: seq<int>, was: seq<bv32>, t: seq<bv32>, f: bool)
    requires Blocked(list, was, 0x400) && OverriddenBlocks(was, t, f)
    ensures BlocksOk(list, t, f)
  {
    hide Has, Member, Uniform;
    forall b | 0 <= b < 0x400 ensures BlockOk(list, t, f, b) {
      if b < 0x20 {
        assert Clear(was, b);
      } else {
        assert Exact(list, was, b);
      }
    }
  }

  lemma BlankTables(list: seq<int>, t: seq<bv32>)
    requires |t| == 64 && forall k :: 0 <= k < 64 ==> t[k] == 0
    ensures Filed(list, t, 0x80) && Blocked(list, t, 0x20)
  {
    hide Member, One;
    forall x | 0 <= x < 0x800 ensures !Has(t, x) { NoBit(x / 64); }
  }

  lemma NoBit(k: nat)
    requires k < 32
    ensures !Bit(0, k)
  {
    assert 0 & One(k) == 0;
  }

  /** All of a block that is not mixed is like its first code point. */
  lemma BlockMember(list: seq<int>, t: seq<bv32>, c: int)
    requires |t| == 64 && 0 <= c < 0x10000 && Exact(list, t, c / 64) && !Has(t, c / 64 + 0x400)
    ensures Member(list, c) == Has(t, c / 64)
  {
    hide Has, Member;
    var b := c / 64;
    assert b * 64 <= b * 64 < b * 64 + 64 && b * 64 <= c < b * 64 + 64;
  }

  /** The value of a 32-bit integer read as unsigned. */
  function Unsigned(c: int): int {
    if c < 0 then c + 0x1_0000_0000 else c
  }

  // ----- code points in UTF-16 text

  predicate Lead(c: int) { 0xd800 <= c < 0xdc00 }

  predicate Trail(c: int) { 0xdc00 <= c < 0xe000 }

  predicate Units(s: seq<int>) {
    forall i :: 0 <= i < |s| ==> 0 <= s[i] <= 0xffff
  }

  /** A surrogate pair starts at `i`. */
  predicate PairAt(s: seq<int>, i: int)
    requires 0 <= i < |s|
  {
    Lead(s[i]) && i + 1 < |s| && Trail(s[i + 1])
  }

  /** A code point starts at `i`, or the text ends there. */
  predicate Boundary(s: seq<int>, i: int) {
    0 <= i <= |s| && !(0 < i < |s| && PairAt(s, i - 1))
  }

  /** The code point at `i`; a single surrogate counts as one. */
  function CodePoint(s: seq<int>, i: int): int
    requires 0 <= i < |s|
  {
    if PairAt(s, i) then (s[i] - 0xd800) * 0x400 + (s[i + 1] - 0xdc00) + 0x10000 else s[i]
  }

  /** Up to `n` every code point's membership is `condition`. */
  ghost predicate AllLike(list: seq<int>, s: seq<int>, n: int, condition: bool) {
    forall k :: 0 <= k < n && k < |s| && Boundary(s, k) ==> Member(list, CodePoint(s, k)) == condition
  }

  lemma NothingLike(list: seq<int>, s: seq<int>, condition: bool)
    ensures AllLike(list, s, 0, condition)
  {}

  lemma NextCodePoint(list: seq<int>, s: seq<int>, i: int, condition: bool)
    requires 0 <= i < |s| && Boundary(s, i) && AllLike(list, s, i, condition)
    requires Member(list, CodePoint(s, i)) == condition
    ensures var n := if PairAt(s, i) then i + 2 else i + 1;
            n <= |s| && Boundary(s, n) && AllLike(list, s, n, condition)
  {
    hide Member;
  }

  class BMPSet {
    const list: seq<int>
    const latin1Contains: array<bool>
    const table7FF: array<bv32>
    const bmpBlockBits: array<bv32>
    const list4kStarts: array<int>
    var containsFFFD: bool

    ghost predicate Valid()
      reads this, latin1Contains, table7FF, bmpBlockBits, list4kStarts
    {
      && WellFormed(list) && Entered(list, latin1Contains[..], 0x100)
      && Table7FFOk(list, table7FF[..], containsFFFD) && BlocksOk(list, bmpBlockBits[..], containsFFFD)
      && StartsOk(list, list4kStarts[..]) && containsFFFD == Member(list, 0xfffd)
    }

    constructor (list: seq<int>)
      requires WellFormed(list)
      ensures Valid() && this.list == list
    {
      hide Entered, Filed, Blocked, Member, WellFormed, Table7FFOk, BlocksOk, Pending, Overridden7FF, OverriddenBlocks;
      this.list := list;
      latin1Contains := new bool[0x100](_ => false);
      table7FF := new bv32[64](_ => 0);
      bmpBlockBits := new bv32[64](_ => 0);
      list4kStarts := new int[18](_ => 0);
      containsFFFD := false;
      new;
      InitStarts();
      StartsAt(list, list4kStarts[..], 0xfffd, 0xf);
      containsFFFD := ContainsSlow(list, 0xfffd, list4kStarts[0xf], list4kStarts[0x10]);
      BlankTables(list, table7FF[..]);
      BlankTables(list, bmpBlockBits[..]);
      InitLatin1(list, latin1Contains);
      var start, limit, listIndex := InitTable7FF(list, table7FF);
      InitBlocks(list, bmpBlockBits, start, limit, listIndex);
      ghost var t, b := table7FF[..], bmpBlockBits[..];
      OverrideIllegal(containsFFFD, table7FF, bmpBlockBits);
      Table7FFReady(list, t, table7FF[..], containsFFFD);
      BlocksReady(list, b, bmpBlockBits[..], containsFFFD);
    }

    /** Finds where to search in each block of 4096 code points. */
    method InitStarts()
      requires WellFormed(list) && list4kStarts.Length == 18
      modifies list4kStarts
      ensures StartsOk(list, list4kStarts[..])
    {
      list4kStarts[0] := FindCodePoint(list, 0x800, 0, |list| - 1);
      for i := 1 to 0x11
        invariant forall j :: 0 <= j < i ==> Position(list, (if j == 0 then 0x800 else j * 0x1000), list4kStarts[j])
      {
        assert Position(list, (if i - 1 == 0 then 0x800 else (i - 1) * 0x1000), list4kStarts[i - 1]);
        var k := FindCodePoint(list, i * 0x1000, list4kStarts[i - 1], |list| - 1);
        list4kStarts[i] := k;
      }
      list4kStarts[0x11] := |list| - 1;
    }

    /** For all integers: true exactly for the code points in the set. */
    method Contains(c: int) returns (r: bool)
      requires Valid() && -0x8000_0000 <= c < 0x8000_0000
      ensures r == (0 <= c <= 0x10ffff && Member(list, c))
    {
      hide Member, WellFormed, Has, Bit, Shr, And, One, StartsOk, Exact;
      if Unsigned(c) <= 0xff {
        r := latin1Contains[c];
        assert r == latin1Contains[..][c];
      } else if Unsigned(c) <= 0x7ff {
        r := ContainsBelow800(c);
      } else if Unsigned(c) < 0xd800 || 0xe000 <= c <= 0xffff {
        r := ContainsBmp(c);
      } else if Unsigned(c) <= 0x10ffff {
        StartsEnd(list, list4kStarts[..], c, 0xd);
        r := ContainsSlow(list, c, list4kStarts[0xd], list4kStarts[0x11]);
      } else {
        r := false;
        NoneBeyond(list, c);
      }
    }

    method ContainsBelow800(c: int) returns (r: bool)
      requires Valid() && 0x80 <= c <= 0x7ff
      ensures r == Member(list, c)
    {
      hide Member, WellFormed, One, Exact, Blocked;
      r := And(table7FF[c % 64], One(c / 64)) != 0;
      assert r == Bit(table7FF[c % 64], c / 64);
      assert r == Has(table7FF[..], c);
    }

    /** Looks at the two bits of the block, and searches only if it is mixed. */
    method ContainsBmp(c: int) returns (r: bool)
      requires Valid() && (0x800 <= c < 0xd800 || 0xe000 <= c <= 0xffff)
      ensures r == Member(list, c)
    {
      hide Member, WellFormed, Bit, Shr, And, One, StartsOk, Exact;
      var lead := c / 0x1000;
      var twoBits := And(Shr(bmpBlockBits[c / 64 % 64], lead), 0x10001);
      ghost var t, b := bmpBlockBits[..], c / 64;
      TwoBits(t[b % 64], lead);
      assert Legal(b) && (b + 0x400) % 64 == b % 64 && (b + 0x400) / 64 == lead + 16 && b / 64 == lead;
      if twoBits <= 1 {
        assert BlockOk(list, t, containsFFFD, b);
        BlockMember(list, t, c);
        r := twoBits == 1;
        TwoValues(twoBits);
      } else {
        StartsAt(list, list4kStarts[..], c, lead);
        r := ContainsSlow(list, c, list4kStarts[lead], list4kStarts[lead + 1]);
      }
    }

    /** Membership of the code point at `i`, and whether it is a pair. */
    method ContainsAt(s: seq<int>, i: int) returns (r: bool, pair: bool)
      requires Valid() && Units(s) && 0 <= i < |s|
      ensures r == Member(list, CodePoint(s, i)) && pair == PairAt(s, i)
    {
      hide Member, WellFormed, StartsOk, Table7FFOk, BlocksOk;
      var c := s[i];
      pair := false;
      if c <= 0xff {
        r := latin1Contains[c];
        assert r == latin1Contains[..][c];
      } else if c <= 0x7ff {
        r := ContainsBelow800(c);
      } else if c < 0xd800 || c >= 0xe000 {
        r := ContainsBmp(c);
      } else if c >= 0xdc00 || i + 1 == |s| || s[i + 1] < 0xdc00 || s[i + 1] >= 0xe000 {
        StartsAt(list, list4kStarts[..], c, 0xd);
        r := ContainsSlow(list, c, list4kStarts[0xd], list4kStarts[0xe]);
      } else {
        var d := (c - 0xd800) * 0x400 + (s[i + 1] - 0xdc00) + 0x10000;
        StartsEnd(list, list4kStarts[..], d, 0x10);
        r := ContainsSlow(list, d, list4kStarts[0x10], list4kStarts[0x11]);
        pair := true;
      }
    }

    /** The end of the initial part of `s` whose code points are all in the set,
        or all not in it. */
    method Span(s: seq<int>, condition: bool) returns (n: int)
      requires Valid() && Units(s) && |s| > 0
      ensures Boundary(s, n) && AllLike(list, s, n, condition)
      ensures n < |s| ==> Member(list, CodePoint(s, n)) != condition
    {
      hide Valid, Member, AllLike, CodePoint;
      n := 0;
      NothingLike(list, s, condition);
      while true
        invariant 0 <= n < |s| && Boundary(s, n) && AllLike(list, s, n, condition)
        decreases |s| - n
      {
        var r, pair := ContainsAt(s, n);
        if r != condition {
          break;
        }
        NextCodePoint(list, s, n, condition);
        if pair {
          n := n + 1;
        }
        n := n + 1;
        if n >= |s| {
          break;
        }
      }
    }
  }

  lemma TwoValues(w: bv32)
    ensures w <= 1 <==> w == 0 || w == 1
  {}

  lemma NoneBeyond(list: seq<int>, c: int)
    requires WellFormed(list) && (c < 0 || c >= HIGH)
    ensures !Member(list, c)
  {}

  lemma StartsAt(list: seq<int>, s: seq<int>, c: int, lead: int)
    requires WellFormed(list) && StartsOk(list, s) && 0 <= lead <= 0xf
    requires c / 0x1000 == lead && 0x800 <= c
    ensures |s| == 18 && 0 <= s[lead] <= s[lead + 1] < |list|
    ensures (s[lead] > 0 ==> list[s[lead] - 1] <= c) && c < list[s[lead + 1]]
  {
    var from := if lead == 0 then 0x800 else lead * 0x1000;
    assert Position(list, from, s[lead]);
    assert Position(list, if lead + 1 == 0 then 0x800 else (lead + 1) * 0x1000, s[lead + 1]);
    Restricted(list, from, (lead + 1) * 0x1000, s[lead], s[lead + 1], c);
  }

  lemma StartsEnd(list: seq<int>, s: seq<int>, c: int, lead: int)
    requires WellFormed(list) && StartsOk(list, s) && 1 <= lead <= 0x10 && lead * 0x1000 <= c < HIGH
    ensures |s| == 18 && 0 <= s[lead] <= s[0x11] < |list|
    ensures (s[lead] > 0 ==> list[s[lead] - 1] <= c) && c < list[s[0x11]]
  {
    assert Position(list, (if lead == 0 then 0x800 else lead * 0x1000), s[lead]);
  }
}
