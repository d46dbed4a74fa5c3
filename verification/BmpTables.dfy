/** Filling the bit tables of ICU's BMPSet from an inversion list. */
module BmpTables {
  import opened BitTable
  import opened InversionList

  // ----- Latin-1

  /** Code points below `p` are entered, none from there on. */
  ghost predicate Entered(list: seq<int>, t: seq<bool>, p: int) {
    |t| == 0x100 && forall c :: 0 <= c < 0x100 ==> t[c] == (c < p && Member(list, c))
  }

  lemma EnterRange(list: seq<int>, t: seq<bool>, u: seq<bool>, p: int, start: int, limit: int)
    requires Entered(list, t, p) && p <= start <= limit && Empty(list, p, start) && Full(list, start, limit)
    requires |u| == 0x100 && forall c :: 0 <= c < 0x100 ==> u[c] == (t[c] || start <= c < limit)
    ensures Entered(list, u, limit)
  {
    hide Member;
    forall c | 0 <= c < 0x100 ensures u[c] == (c < limit && Member(list, c)) {
      assert t[c] == (c < p && Member(list, c));
    }
  }

  lemma EnterNothing(list: seq<int>, t: seq<bool>, p: int, start: int)
    requires Entered(list, t, p) && p <= start && Empty(list, p, start)
    ensures Entered(list, t, start)
  {
    hide Member;
    forall c | 0 <= c < 0x100 ensures t[c] == (c < start && Member(list, c)) {
      assert t[c] == (c < p && Member(list, c));
    }
  }

  lemma EnteredAll(list: seq<int>, t: seq<bool>, p: int)
    requires Entered(list, t, p) && p >= 0x100
    ensures Entered(list, t, 0x100)
  {}

  method SetLatin1(latin1: array<bool>, start: int, limit: int)
    requires latin1.Length == 0x100 && 0 <= start < limit && start < 0x100
    modifies latin1
    ensures forall c :: 0 <= c < 0x100 ==> latin1[c] == (old(latin1[c]) || start <= c < limit)
  {
    var s := start;
    latin1[s] := true;
    s := s + 1;
    while s < limit && s < 0x100
      invariant start < s <= 0x100 && s <= limit
      invariant forall c :: 0 <= c < 0x100 ==> latin1[c] == (old(latin1[c]) || start <= c < s)
    {
      latin1[s] := true;
      s := s + 1;
    }
  }

  method InitLatin1(list: seq<int>, latin1: array<bool>)
    requires WellFormed(list) && latin1.Length == 0x100 && forall c :: 0 <= c < 0x100 ==> !latin1[c]
    modifies latin1
    ensures Entered(list, latin1[..], 0x100)
  {
    hide Entered, Empty, Full, Member;
    var listIndex := 0;
    ghost var p := 0;
    GapEmpty(list, 0, 0);
    NothingEntered(list, latin1[..]);
    while true
      invariant 0 <= listIndex < |list| && listIndex % 2 == 0 && p <= 0x100 && p <= list[listIndex]
      invariant Empty(list, p, list[listIndex]) && Entered(list, latin1[..], p)
      decreases |list| - listIndex
    {
      var start, limit, next := NextRange(list, listIndex);
      if start >= 0x100 {
        EnterNothing(list, latin1[..], p, start);
        EnteredAll(list, latin1[..], start);
        break;
      }
      ghost var t := latin1[..];
      SetLatin1(latin1, start, limit);
      EnterRange(list, t, latin1[..], p, start, limit);
      if limit > 0x100 {
        EnteredAll(list, latin1[..], limit);
        break;
      }
      p, listIndex := limit, next;
    }
  }

  lemma NothingEntered(list: seq<int>, t: seq<bool>)
    requires |t| == 0x100 && forall c :: 0 <= c < 0x100 ==> !t[c]
    ensures Entered(list, t, 0)
  {}

  // ----- code points below U+0800

  /** Bits from U+0080 up to `p` are entered, none elsewhere. */
  ghost predicate Filed(list: seq<int>, t: seq<bv32>, p: int) {
    |t| == 64 && forall x :: 0 <= x < 0x800 ==> Has(t, x) == (0x80 <= x < p && Member(list, x))
  }

  lemma FileRange(list: seq<int>, t: seq<bv32>, u: seq<bv32>, p: int, start: int, limit: int)
    requires Filed(list, t, p) && 0x80 <= p <= start <= limit && Empty(list, p, start) && Full(list, start, limit)
    requires Filled(t, u, start, limit)
    ensures Filed(list, u, limit)
  {
    hide Member, Has;
    forall x | 0 <= x < 0x800 ensures Has(u, x) == (0x80 <= x < limit && Member(list, x)) {
      assert Has(t, x) == (0x80 <= x < p && Member(list, x));
    }
  }

  lemma FileNothing(list: seq<int>, t: seq<bv32>, p: int, start: int)
    requires Filed(list, t, p) && 0x80 <= p <= start && Empty(list, p, start)
    ensures Filed(list, t, start)
  {
    hide Member, Has;
    forall x | 0 <= x < 0x800 ensures Has(t, x) == (0x80 <= x < start && Member(list, x)) {
      assert Has(t, x) == (0x80 <= x < p && Member(list, x));
    }
  }

  lemma FiledAll(list: seq<int>, t: seq<bv32>, p: int)
    requires Filed(list, t, p) && p >= 0x800
    ensures Filed(list, t, 0x800)
  {
    hide Member, Has;
  }

  lemma FullPart(list: seq<int>, lo: int, hi: int, l: int, h: int)
    requires lo <= l && h <= hi
    ensures Full(list, lo, hi) ==> Full(list, l, h)
    ensures Empty(list, lo, hi) ==> Empty(list, l, h)
  {}

  /** What is left to enter: the range [start, limit), everything before it from
      `p` on is empty. */
  ghost predicate Pending(list: seq<int>, p: int, start: int, limit: int, listIndex: int) {
    && 0 <= p <= start <= limit <= HIGH && Empty(list, p, start) && Full(list, start, limit)
    && (start < HIGH ==> start < limit)
    && (limit < HIGH ==>
          && 0 <= listIndex < |list| && listIndex % 2 == 0 && limit < list[listIndex]
          && Empty(list, limit, list[listIndex]))
  }

  /** Finds the first range that reaches beyond U+007F, cut to start there. */
  method FirstBeyondAscii(list: seq<int>) returns (start: int, limit: int, listIndex: int)
    requires WellFormed(list)
    ensures Pending(list, 0x80, start, limit, listIndex)
  {
    hide Empty, Full, Member;
    listIndex := 0;
    ghost var p := 0;
    GapEmpty(list, 0, 0);
    while true
      invariant 0 <= listIndex < |list| && listIndex % 2 == 0 && 0 <= p <= 0x80 && p <= list[listIndex]
      invariant Empty(list, p, list[listIndex])
      decreases |list| - listIndex
    {
      ghost var q := listIndex;
      start, limit, listIndex := NextRange(list, listIndex);
      if limit > 0x80 {
        if start < 0x80 {
          FullPart(list, start, limit, 0x80, limit);
          start := 0x80;
          NothingEmpty(list, 0x80);
        } else {
          FullPart(list, p, start, 0x80, start);
        }
        break;
      }
      p := limit;
    }
  }

  lemma NothingEmpty(list: seq<int>, p: int)
    ensures Empty(list, p, p)
  {}

  /** Enters U+0080..U+07FF; returns the range to go on with from U+0800. */
  method InitTable7FF(list: seq<int>, table: array<bv32>) returns (start: int, limit: int, listIndex: int)
    requires WellFormed(list) && table.Length == 64 && Filed(list, table[..], 0x80)
    modifies table
    ensures Filed(list, table[..], 0x800) && Pending(list, 0x800, start, limit, listIndex)
  {
    hide Empty, Full, Member, Filed, Filled, Has, WellFormed;
    start, limit, listIndex := FirstBeyondAscii(list);
    ghost var p := 0x80;
    while start < 0x800
      invariant 0x80 <= p && Pending(list, p, start, limit, listIndex) && Filed(list, table[..], p)
      invariant p <= 0x800
      decreases HIGH - start
    {
      ghost var t := table[..];
      var end := if limit <= 0x800 then limit else 0x800;
      FullPart(list, start, limit, start, end);
      Set32x64Bits(table, start, end);
      FileRange(list, t, table[..], p, start, end);
      if limit > 0x800 {
        FullPart(list, start, limit, 0x800, limit);
        NothingEmpty(list, 0x800);
        start := 0x800;
        return;
      }
      p := limit;
      start, limit, listIndex := NextRange(list, listIndex);
    }
    FileNothing(list, table[..], p, start);
    FiledAll(list, table[..], start);
    FullPart(list, p, start, 0x800, start);
  }

  // ----- blocks of 64 code points

  /** All of block `b` is in the set, or none of it. */
  ghost predicate Uniform(list: seq<int>, b: int) {
    Full(list, b * 64, b * 64 + 64) || Empty(list, b * 64, b * 64 + 64)
  }

  /** Block `b` is entered: the upper bit tells whether it is mixed, and if it
      is not the lower bit tells whether it is in the set. */
  ghost predicate Exact(list: seq<int>, t: seq<bv32>, b: int)
    requires |t| == 64 && 0 <= b < 0x400
  {
    && Has(t, b + 0x400) == !Uniform(list, b)
    && (Uniform(list, b) ==> Has(t, b) == Member(list, b * 64))
  }

  predicate Clear(t: seq<bv32>, b: int)
    requires |t| == 64 && 0 <= b < 0x400
  {
    !Has(t, b) && !Has(t, b + 0x400)
  }

  /** Blocks from U+0800 up to block `q` are entered, none elsewhere. */
  ghost predicate Blocked(list: seq<int>, t: seq<bv32>, q: int) {
    && |t| == 64 && 0x20 <= q <= 0x400
    && (forall b :: 0x20 <= b < q ==> Exact(list, t, b))
    && (forall b :: 0 <= b < 0x400 && (b < 0x20 || b >= q) ==> Clear(t, b))
  }

  lemma EmptyBlock(list: seq<int>, t: seq<bv32>, b: int)
    requires |t| == 64 && 0 <= b < 0x400 && Clear(t, b) && Empty(list, b * 64, b * 64 + 64)
    ensures Exact(list, t, b)
  {
    hide Member, Has;
  }

  lemma FullBlock(list: seq<int>, t: seq<bv32>, b: int)
    requires |t| == 64 && 0 <= b < 0x400 && Has(t, b) && !Has(t, b + 0x400) && Full(list, b * 64, b * 64 + 64)
    ensures Exact(list, t, b)
  {
    hide Member, Has;
  }

  lemma SkipBlocks(list: seq<int>, t: seq<bv32>, q: int, r: int)
    requires Blocked(list, t, q) && q <= r <= 0x400 && Empty(list, q * 64, r * 64)
    ensures Blocked(list, t, r)
  {
    hide Member, Has, Exact, Empty, Clear;
    forall b | 0x20 <= b < r ensures Exact(list, t, b) {
      if b >= q {
        FullPart(list, q * 64, r * 64, b * 64, b * 64 + 64);
        EmptyBlock(list, t, b);
      }
    }
  }

  lemma FillBlocks(list: seq<int>, t: seq<bv32>, u: seq<bv32>, q: int, r: int)
    requires Blocked(list, t, q) && q <= r <= 0x400 && Full(list, q * 64, r * 64) && Filled(t, u, q, r)
    ensures Blocked(list, u, r)
  {
    hide Member, Has, Full, Empty;
    forall b | 0x20 <= b < r ensures Exact(list, u, b) {
      if b >= q {
        assert Clear(t, b);
        FullPart(list, q * 64, r * 64, b * 64, b * 64 + 64);
        FullBlock(list, u, b);
      } else {
        assert Exact(list, t, b);
      }
    }
    forall b | 0 <= b < 0x400 && (b < 0x20 || b >= r) ensures Clear(u, b) {
      assert Clear(t, b);
    }
  }

  /** Both bits of block `q` are set. */
  ghost predicate Marked(t: seq<bv32>, u: seq<bv32>, q: int) {
    && |t| == 64 && |u| == 64
    && forall x :: 0 <= x < 0x800 ==> Has(u, x) == (Has(t, x) || x == q || x == q + 0x400)
  }

  method MarkMixed(table: array<bv32>, q: int)
    requires table.Length == 64 && 0 <= q < 0x400
    modifies table
    ensures Marked(old(table[..]), table[..], q)
  {
    hide Bit, Or, Shl, One;
    ghost var t := table[..];
    table[q % 64] := Or(table[q % 64], Shl(0x10001, q / 64));
    forall x | 0 <= x < 0x800 ensures Has(table[..], x) == (Has(t, x) || x == q || x == q + 0x400) {
      OrBit(t[q % 64], Shl(0x10001, q / 64), x / 64);
      PairBit(q / 64, x / 64);
    }
  }

  lemma MixBlock(list: seq<int>, t: seq<bv32>, u: seq<bv32>, q: int, c: int, d: int)
    requires Blocked(list, t, q) && q < 0x400 && Marked(t, u, q)
    requires q * 64 <= c < q * 64 + 64 && Member(list, c)
    requires q * 64 <= d < q * 64 + 64 && !Member(list, d)
    ensures Blocked(list, u, q + 1)
  {
    hide Member, Has;
    forall b | 0x20 <= b < q + 1 ensures Exact(list, u, b) {
      if b < q {
        assert Exact(list, t, b);
      }
    }
    forall b | 0 <= b < 0x400 && (b < 0x20 || b >= q + 1) ensures Clear(u, b) {
      assert Clear(t, b);
    }
  }

  /** The part of a range that begins with a whole block. */
  method EnterAligned(list: seq<int>, table: array<bv32>, s: int, stop: int, minStart: int,
                      ghost p: int, ghost start: int, ghost limit: int)
    returns (end: int, min: int, ghost r: int)
    requires WellFormed(list) && table.Length == 64 && Blocked(list, table[..], s / 64)
    requires 0x800 <= p <= start < limit <= HIGH && start <= s < stop
    requires stop == (if limit > 0x10000 then 0x10000 else limit) && s % 64 == 0
    requires Empty(list, p, start) && Full(list, start, limit) && (limit < HIGH ==> !Member(list, limit))
    requires minStart % 64 == 0 && minStart <= s
    modifies table
    ensures Blocked(list, table[..], r) && min % 64 == 0 && minStart <= min <= r * 64
    ensures limit <= 0x10000 ==> limit <= r * 64 && (min < r * 64 ==> limit == r * 64)
    ensures end == 0x10000 ==> r == 0x400
    ensures end != 0x10000 ==> limit < 0x10000
  {
    hide Empty, Full, Member, Has, Blocked, Marked, Filled, WellFormed;
    end, min, r := stop, minStart, s / 64;
    ghost var t := table[..];
    var low := end - end % 64;
    if s < low {
      Set32x64Bits(table, s / 64, end / 64);
      FullPart(list, start, limit, s, low);
      FillBlocks(list, t, table[..], s / 64, end / 64);
      r := end / 64;
    }
    if end % 64 != 0 {
      t := table[..];
      Inside(list, p, start, limit);
      MarkMixed(table, end / 64);
      MixBlock(list, t, table[..], r, end - 1, end);
      end := (end / 64 + 1) * 64;
      min := end;
      r := end / 64;
    }
  }

  /** One range: blocks up to `q` were entered before, up to `r` are after. What
      is already known to be mixed, below minStart, is skipped. */
  method EnterBlocks(list: seq<int>, table: array<bv32>, start: int, limit: int, minStart: int,
                     ghost p: int, ghost q: int)
    returns (end: int, min: int, ghost r: int)
    requires WellFormed(list) && table.Length == 64 && Blocked(list, table[..], q)
    requires 0x800 <= p <= start < limit <= HIGH && start < 0x10000
    requires Empty(list, p, start) && Full(list, start, limit) && (limit < HIGH ==> !Member(list, limit))
    requires minStart % 64 == 0 && p <= q * 64 && minStart <= q * 64 && (minStart < q * 64 ==> p == q * 64)
    requires start == p ==> start % 64 == 0
    modifies table
    ensures Blocked(list, table[..], r) && min % 64 == 0 && minStart <= min <= r * 64
    ensures limit <= 0x10000 ==> limit <= r * 64 && (min < r * 64 ==> limit == r * 64)
    ensures end == 0x10000 ==> r == 0x400
    ensures end != 0x10000 ==> limit < 0x10000
  {
    hide Empty, Full, Member, Has, Blocked, Marked, Filled, WellFormed;
    BlockedBounds(list, table[..], q);
    r, end, min := q, (if limit > 0x10000 then 0x10000 else limit), minStart;
    var s := if start < min then min else start;
    if s < end {
      if s == start {
        FullPart(list, p, start, q * 64, s / 64 * 64);
      } else {
        NothingEmpty(list, q * 64);
      }
      SkipBlocks(list, table[..], q, s / 64);
      r := s / 64;
      ghost var t := table[..];
      if s % 64 != 0 {
        Inside(list, p, start, limit);
        MarkMixed(table, s / 64);
        MixBlock(list, t, table[..], r, s, s - 1);
        s := (s / 64 + 1) * 64;
        min := s;
        r := s / 64;
      }
      if s < end {
        end, min, r := EnterAligned(list, table, s, end, min, p, start, limit);
      }
    }
    BlockedBounds(list, table[..], r);
  }

  lemma BlockedBounds(list: seq<int>, t: seq<bv32>, q: int)
    requires Blocked(list, t, q)
    ensures 0x20 <= q <= 0x400
  {}

  lemma Inside(list: seq<int>, p: int, start: int, limit: int)
    requires p <= start < limit && Empty(list, p, start) && Full(list, start, limit)
    ensures Member(list, start) && Member(list, limit - 1) && (p < start ==> !Member(list, start - 1))
  {}

  /** Enters the blocks of U+0800..U+FFFF. */
  method InitBlocks(list: seq<int>, table: array<bv32>, start0: int, limit0: int, listIndex0: int)
    requires WellFormed(list) && table.Length == 64 && Blocked(list, table[..], 0x20)
    requires Pending(list, 0x800, start0, limit0, listIndex0)
    modifies table
    ensures Blocked(list, table[..], 0x400)
  {
    hide Empty, Full, Member, Has, Blocked, WellFormed;
    var start, limit, listIndex := start0, limit0, listIndex0;
    var minStart := 0x800;
    ghost var p, q := 0x800, 0x20;
    while start < 0x10000
      invariant Blocked(list, table[..], q) && Pending(list, p, start, limit, listIndex) && 0x800 <= p <= 0x10000
      invariant minStart % 64 == 0 && p <= q * 64 && minStart <= q * 64 && (minStart < q * 64 ==> p == q * 64)
      invariant start == p ==> start % 64 == 0
      decreases HIGH - start
    {
      if limit < HIGH { EmptyFirst(list, limit, list[listIndex]); }
      var end;
      end, minStart, q := EnterBlocks(list, table, start, limit, minStart, p, q);
      if end == 0x10000 {
        return;
      }
      p := limit;
      start, limit, listIndex := NextRange(list, listIndex);
    }
    BlockedBounds(list, table[..], q);
    FullPart(list, p, start, q * 64, 0x10000);
    SkipBlocks(list, table[..], q, 0x400);
  }

  lemma EmptyFirst(list: seq<int>, lo: int, hi: int)
    requires Empty(list, lo, hi) && lo < hi
    ensures !Member(list, lo)
  {}
}
