/** A table of 64 words of 32 bits, read as 2048 bits with consecutive bits in
    consecutive words: ICU's "vertical" organisation. */
module BitTable {

  // ----- operations on words

  function Or(w: bv32, v: bv32): bv32 { w | v }

  function And(w: bv32, v: bv32): bv32 { w & v }

  function Not(w: bv32): bv32 { !w }

  function Twice(w: bv32): bv32 { w << 1 }

  function Half(w: bv32): bv32 { w >> 1 }

  function Minus1(w: bv32): bv32 { w - 1 }

  predicate Less(w: bv32, v: bv32) { w < v }

  predicate Meets(w: bv32, m: bv32) { w & m != 0 }

  /** m has exactly one bit. */
  predicate Single(m: bv32) { m != 0 && m & (m - 1) == 0 }

  const TOP: bv32 := 0x8000_0000

  lemma OrMeets(w: bv32, v: bv32, m: bv32)
    ensures Meets(Or(w, v), m) <==> Meets(w, m) || Meets(v, m)
  {
    assert (w | v) & m == (w & m) | (v & m);
  }

  lemma AndMeets(w: bv32, v: bv32, m: bv32)
    requires Single(m)
    ensures Meets(And(w, v), m) <==> Meets(w, m) && Meets(v, m)
  {
    assert (w & v) & m == (w & m) & (v & m);
    SinglePart(w, m);
    SinglePart(v, m);
  }

  lemma SinglePart(w: bv32, m: bv32)
    requires Single(m)
    ensures w & m == 0 || w & m == m
  {}

  lemma NotMeets(w: bv32, m: bv32)
    requires Single(m)
    ensures Meets(Not(w), m) == !Meets(w, m)
  {
    SinglePart(w, m);
    SinglePart(Not(w), m);
    assert (w & m) | (!w & m) == m;
    assert (w & m) & (!w & m) == 0;
  }

  lemma TwiceSingle(m: bv32)
    requires Single(m) && Less(m, TOP)
    ensures Single(Twice(m)) && Less(m, Twice(m))
  {}

  lemma SinglesMeet(a: bv32, b: bv32)
    requires Single(a) && Single(b)
    ensures Meets(a, b) == (a == b)
    ensures Meets(Minus1(a), b) == Less(b, a)
  {}

  lemma LessOrder(a: bv32, b: bv32, c: bv32)
    ensures Less(a, b) ==> a != b && !Less(b, a)
    ensures Less(a, b) && Less(b, c) ==> Less(a, c)
  {}

  lemma HalfMeets(w: bv32, m: bv32)
    requires Less(m, TOP)
    ensures Meets(Half(w), m) == Meets(w, Twice(m))
  {}

  lemma TwiceOr(w: bv32, v: bv32)
    ensures Twice(Or(w, v)) == Or(Twice(w), Twice(v))
  {}

  lemma LowPair(w: bv32)
    ensures And(w, 0x10001) <= 1 <==> !Meets(w, 0x10000)
    ensures And(w, 0x10001) == 0 <==> !Meets(w, 0x10000) && !Meets(w, 1)
    ensures And(w, 0x10001) == 1 <==> !Meets(w, 0x10000) && Meets(w, 1)
  {}

  // ----- bit numbers

  /** w << l */
  function Shl(w: bv32, l: nat): bv32 {
    if l == 0 then w else Twice(Shl(w, l - 1))
  }

  /** w >> l */
  function Shr(w: bv32, l: nat): bv32 {
    if l == 0 then w else Half(Shr(w, l - 1))
  }

  /** 1 << l */
  function One(l: nat): bv32
    requires l < 32
  {
    Shl(1, l)
  }

  /** (1 << l) - 1 */
  function Below(l: nat): bv32
    requires l < 32
  {
    Minus1(One(l))
  }

  predicate Bit(w: bv32, k: nat)
    requires k < 32
  {
    Meets(w, One(k))
  }

  lemma OneTable()
    ensures One(0) == 0x1 && One(1) == 0x2 && One(2) == 0x4 && One(3) == 0x8
    ensures One(4) == 0x10 && One(5) == 0x20 && One(6) == 0x40 && One(7) == 0x80
    ensures One(8) == 0x100 && One(9) == 0x200 && One(10) == 0x400 && One(11) == 0x800
    ensures One(12) == 0x1000 && One(13) == 0x2000 && One(14) == 0x4000 && One(15) == 0x8000
    ensures One(16) == 0x10000 && One(17) == 0x20000 && One(18) == 0x40000 && One(19) == 0x80000
    ensures One(20) == 0x100000 && One(21) == 0x200000 && One(22) == 0x400000 && One(23) == 0x800000
    ensures One(24) == 0x1000000 && One(25) == 0x2000000 && One(26) == 0x4000000 && One(27) == 0x8000000
    ensures One(28) == 0x10000000 && One(29) == 0x20000000 && One(30) == 0x40000000 && One(31) == 0x80000000
  {}

  lemma OneSmall(l: nat)
    requires l < 31
    ensures Less(One(l), TOP)
  {
    OneTable();
    hide One;
    assert l < 8 || 8 <= l < 16 || 16 <= l < 24 || 24 <= l < 31;
  }

  lemma {:induction false} OneSingle(l: nat)
    requires l < 32
    ensures Single(One(l))
    decreases l
  {
    hide Less, Twice, Single;
    if l == 0 {
      OneIsSingle();
    } else {
      OneSingle(l - 1);
      OneSmall(l - 1);
      TwiceSingle(One(l - 1));
    }
  }

  lemma OneIsSingle()
    ensures Single(1)
  {}

  lemma {:induction false} OneGrows(k: nat, l: nat)
    requires k < l < 32
    ensures Less(One(k), One(l))
    decreases l
  {
    hide Less, Twice, Single;
    OneSingle(l - 1);
    OneSmall(l - 1);
    TwiceSingle(One(l - 1));
    if k < l - 1 {
      OneGrows(k, l - 1);
      LessOrder(One(k), One(l - 1), One(l));
    }
  }

  lemma OneOrder(k: nat, l: nat)
    requires k < 32 && l < 32
    ensures One(k) == One(l) <==> k == l
    ensures Less(One(k), One(l)) <==> k < l
    ensures Single(One(k)) && Single(One(l))
  {
    hide One, Less, Single;
    OneSingle(k);
    OneSingle(l);
    LessOrder(One(k), One(l), One(l));
    LessOrder(One(l), One(k), One(k));
    if k < l { OneGrows(k, l); } else if l < k { OneGrows(l, k); }
  }

  lemma OrBit(w: bv32, v: bv32, k: nat)
    requires k < 32
    ensures Bit(Or(w, v), k) == (Bit(w, k) || Bit(v, k))
  {
    hide One, Meets, Or;
    OrMeets(w, v, One(k));
  }

  lemma AndBit(w: bv32, v: bv32, k: nat)
    requires k < 32
    ensures Bit(And(w, v), k) == (Bit(w, k) && Bit(v, k))
  {
    hide One, Meets, And, Single;
    OneSingle(k);
    AndMeets(w, v, One(k));
  }

  lemma NotBit(w: bv32, k: nat)
    requires k < 32
    ensures Bit(Not(w), k) == !Bit(w, k)
  {
    hide One, Meets, Not, Single;
    OneSingle(k);
    NotMeets(w, One(k));
  }

  lemma OneBit(l: nat, k: nat)
    requires l < 32 && k < 32
    ensures Bit(One(l), k) == (k == l)
  {
    hide One, Meets, Single, Less, Minus1;
    OneOrder(k, l);
    SinglesMeet(One(l), One(k));
  }

  lemma BitsBelow(l: nat, k: nat)
    requires l < 32 && k < 32
    ensures Bit(Below(l), k) == (k < l)
  {
    hide One, Meets, Single, Less, Minus1;
    OneOrder(k, l);
    SinglesMeet(One(l), One(k));
  }

  lemma {:induction false} PairWord(l: nat)
    requires l < 16
    ensures Shl(0x10001, l) == Or(One(l), One(l + 16))
    decreases l
  {
    if l == 0 {
      OneTable();
    } else {
      hide Or, Twice;
      PairWord(l - 1);
      TwiceOr(One(l - 1), One(l + 15));
    }
  }

  lemma PairBit(l: nat, k: nat)
    requires l < 16 && k < 32
    ensures Bit(Shl(0x10001, l), k) == (k == l || k == l + 16)
  {
    hide Bit, One, Shl, Or;
    PairWord(l);
    OrBit(One(l), One(l + 16), k);
    OneBit(l, k);
    OneBit(l + 16, k);
  }

  lemma {:induction false} ShrBit(w: bv32, l: nat, k: nat)
    requires l + k < 32
    ensures Meets(Shr(w, l), One(k)) <==> Bit(w, l + k)
    decreases l
  {
    hide Meets, Half, Twice, Less;
    if l > 0 {
      OneSmall(k);
      HalfMeets(Shr(w, l - 1), One(k));
      ShrBit(w, l - 1, k + 1);
    }
  }

  /** The two bits of a 64-block: a low bit and the bit 16 above it. */
  lemma TwoBits(w: bv32, l: nat)
    requires l < 16
    ensures And(Shr(w, l), 0x10001) <= 1 <==> !Bit(w, l + 16)
    ensures And(Shr(w, l), 0x10001) == 0 <==> !Bit(w, l + 16) && !Bit(w, l)
    ensures And(Shr(w, l), 0x10001) == 1 <==> !Bit(w, l + 16) && Bit(w, l)
  {
    OneTable();
    hide Bit, One, Shr, Meets, And;
    ShrBit(w, l, 0);
    ShrBit(w, l, 16);
    LowPair(Shr(w, l));
  }

  /** The columns from `lead` on, up to `limitLead` if that is one. */
  function Columns(lead: int, limitLead: int): bv32
    requires 0 <= lead < 32 && 0 <= limitLead <= 32
  {
    var bits := Not(Below(lead));
    if limitLead < 0x20 then And(bits, Below(limitLead)) else bits
  }

  lemma ColumnBits(lead: int, limitLead: int, k: int)
    requires 0 <= lead < 32 && 0 <= limitLead <= 32 && 0 <= k < 32
    ensures Bit(Columns(lead, limitLead), k) == (lead <= k < limitLead)
  {
    hide Bit, Below, Not, And;
    BitsBelow(lead, k);
    NotBit(Below(lead), k);
    if limitLead < 0x20 {
      BitsBelow(limitLead, k);
      AndBit(Not(Below(lead)), Below(limitLead), k);
    }
  }

  /** Bit `x` of the table. */
  predicate Has(t: seq<bv32>, x: int)
    requires |t| == 64 && 0 <= x < 0x800
  {
    Bit(t[x % 64], x / 64)
  }

  /** The table `t` with the columns `bits` set in words lo up to hi. */
  ghost predicate Ored(was: seq<bv32>, t: seq<bv32>, lo: int, hi: int, bits: bv32) {
    && |was| == 64 && |t| == 64
    && forall k :: 0 <= k < 64 ==> t[k] == if lo <= k < hi then Or(was[k], bits) else was[k]
  }

  lemma OredBit(was: seq<bv32>, t: seq<bv32>, lo: int, hi: int, bits: bv32, x: int)
    requires Ored(was, t, lo, hi, bits) && 0 <= x < 0x800
    ensures Has(t, x) == (Has(was, x) || (lo <= x % 64 < hi && Bit(bits, x / 64)))
  {
    hide Bit, Or;
    OrBit(was[x % 64], bits, x / 64);
  }

  method OrWords(table: array<bv32>, lo: int, hi: int, bits: bv32)
    requires table.Length == 64 && 0 <= lo && hi <= 64
    modifies table
    ensures Ored(old(table[..]), table[..], lo, hi, bits)
  {
    hide Or;
    var trail := lo;
    while trail < hi
      invariant lo <= trail && (trail <= hi || trail == lo)
      invariant forall k :: 0 <= k < 64 ==>
                  table[k] == if lo <= k < trail then Or(old(table[k]), bits) else old(table[k])
    {
      table[trail] := Or(table[trail], bits);
      trail := trail + 1;
    }
  }

  ghost predicate Filled(was: seq<bv32>, t: seq<bv32>, start: int, limit: int) {
    && |was| == 64 && |t| == 64
    && forall x :: 0 <= x < 0x800 ==> Has(t, x) == (Has(was, x) || start <= x < limit)
  }

  lemma FilledColumn(was: seq<bv32>, t: seq<bv32>, lead: int, lo: int, hi: int)
    requires 0 <= lead < 32 && Ored(was, t, lo, hi, One(lead)) && 0 <= lo <= hi <= 64
    ensures Filled(was, t, lead * 64 + lo, lead * 64 + hi)
  {
    hide Bit, Has, Ored, One;
    OredLength(was, t, lo, hi, One(lead));
    forall x | 0 <= x < 0x800 ensures Has(t, x) == (Has(was, x) || lead * 64 + lo <= x < lead * 64 + hi) {
      OredBit(was, t, lo, hi, One(lead), x);
      OneBit(lead, x / 64);
    }
  }

  lemma OredLength(was: seq<bv32>, t: seq<bv32>, lo: int, hi: int, bits: bv32)
    requires Ored(was, t, lo, hi, bits)
    ensures |was| == 64 && |t| == 64
  {}

  lemma FilledColumns(was: seq<bv32>, t: seq<bv32>, lead: int, limitLead: int)
    requires 0 <= lead < 32 && 0 <= limitLead <= 32 && Ored(was, t, 0, 64, Columns(lead, limitLead))
    ensures Filled(was, t, lead * 64, limitLead * 64)
  {
    hide Bit, Has, Ored, Columns;
    OredLength(was, t, 0, 64, Columns(lead, limitLead));
    forall x | 0 <= x < 0x800 ensures Has(t, x) == (Has(was, x) || lead * 64 <= x < limitLead * 64) {
      OredBit(was, t, 0, 64, Columns(lead, limitLead), x);
      ColumnBits(lead, limitLead, x / 64);
    }
  }

  lemma FilledJoin(was: seq<bv32>, s: seq<bv32>, t: seq<bv32>, start: int, mid: int, limit: int)
    requires Filled(was, s, start, mid) && Filled(s, t, mid, limit) && start <= mid <= limit
    ensures Filled(was, t, start, limit)
  {
    hide Has;
  }

  /** Sets bits start up to limit: a column part, a rectangle, a column part. */
  method Set32x64Bits(table: array<bv32>, start: int, limit: int)
    requires table.Length == 64 && 0 <= start < limit <= 0x800
    modifies table
    ensures Filled(old(table[..]), table[..], start, limit)
  {
    hide Bit, Has, Ored, Filled, Columns, One;
    var lead, trail := start / 64, start % 64;
    ghost var was := table[..];
    if start + 1 == limit {
      OrWords(table, trail, trail + 1, One(lead));
      FilledColumn(was, table[..], lead, trail, trail + 1);
      return;
    }
    var limitLead, limitTrail := limit / 64, limit % 64;
    if lead == limitLead {
      OrWords(table, trail, limitTrail, One(lead));
      FilledColumn(was, table[..], lead, trail, limitTrail);
      return;
    }
    ghost var at := start;
    FilledNothing(was, start);
    if trail > 0 {
      OrWords(table, trail, 64, One(lead));
      FilledColumn(was, table[..], lead, trail, 64);
      lead := lead + 1;
      at := lead * 64;
    }
    if lead < limitLead {
      ghost var t := table[..];
      OrWords(table, 0, 64, Columns(lead, limitLead));
      FilledColumns(t, table[..], lead, limitLead);
      FilledJoin(was, t, table[..], start, at, limitLead * 64);
    }
    at := limitLead * 64;
    ghost var t := table[..];
    var bits := One(if limitLead == 0x20 then limitLead - 1 else limitLead);
    OrWords(table, 0, limitTrail, bits);
    if limitLead < 0x20 {
      FilledColumn(t, table[..], limitLead, 0, limitTrail);
      FilledJoin(was, t, table[..], start, at, limit);
    } else {
      OredNothing(t, table[..], bits);
    }
  }

  lemma FilledNothing(t: seq<bv32>, start: int)
    requires |t| == 64
    ensures Filled(t, t, start, start)
  {}

  lemma OredNothing(was: seq<bv32>, t: seq<bv32>, bits: bv32)
    requires Ored(was, t, 0, 0, bits)
    ensures was == t
  {}
}
