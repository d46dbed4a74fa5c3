/** The edit log of ICU's Edits: a sequence of 16-bit units recording unchanged
    stretches and replacements, with runs of equal short replacements sharing a
    unit and long lengths spilling into trail units. */
module EditsLog {

  const MAX_UNCHANGED_LENGTH: int := 0x1000
  const MAX_UNCHANGED: int := 0xfff
  const MAX_SHORT_CHANGE_OLD_LENGTH: int := 6
  const MAX_SHORT_CHANGE_NEW_LENGTH: int := 7
  const SHORT_CHANGE_NUM_MASK: int := 0x1ff
  const MAX_SHORT_CHANGE: int := 0x6fff
  const LENGTH_IN_1TRAIL: int := 61
  const LENGTH_IN_2TRAIL: int := 62
  const TRAIL: int := 0x8000
  const NO_UNIT: int := 0xffff
  const INT32_MAX: int := 0x7fff_ffff
  const INT32_MIN: int := -0x8000_0000

  // ----- edits as a reader sees them

  /** `old` source units correspond to `new'` destination units. */
  datatype Span = Span(changed: bool, old': int, new': int)

  /** Adds one edit: unchanged text joins unchanged text before it, and in a
      coarse view changes join changes. */
  function AddSpan(s: seq<Span>, e: Span, coarse: bool): (r: seq<Span>)
    ensures |s| <= |r| <= |s| + 1 && r != []
  {
    if s != [] && s[|s| - 1].changed == e.changed && (coarse || !e.changed) then
      var l := s[|s| - 1];
      s[..|s| - 1] + [Span(e.changed, l.old' + e.old', l.new' + e.new')]
    else s + [e]
  }

  function AddCopies(s: seq<Span>, e: Span, n: nat, coarse: bool): seq<Span> {
    if n == 0 then s else AddSpan(AddCopies(s, e, n - 1, coarse), e, coarse)
  }

  // ----- records

  datatype Record =
    | Keep(n: int)                        // unchanged text units
    | Short(m: int, n: int, count: int)   // `count` replacements of m:n units
    | Long(m: int, n: int)                // one replacement
  {
    predicate Valid() {
      match this
      case Keep(n) => 1 <= n <= MAX_UNCHANGED_LENGTH
      case Short(m, n, c) =>
        && 1 <= m <= MAX_SHORT_CHANGE_OLD_LENGTH && 0 <= n <= MAX_SHORT_CHANGE_NEW_LENGTH
        && 1 <= c <= SHORT_CHANGE_NUM_MASK + 1
      case Long(m, n) => 0 <= m <= INT32_MAX && 0 <= n <= INT32_MAX
    }

    function Old(): int {
      match this case Keep(n) => n case Short(m, n, c) => m * c case Long(m, n) => m
    }

    function New(): int {
      match this case Keep(n) => n case Short(m, n, c) => n * c case Long(m, n) => n
    }
  }

  function AddRecord(s: seq<Span>, r: Record, coarse: bool): seq<Span>
    requires r.Valid()
  {
    match r
    case Keep(n) => AddSpan(s, Span(false, n, n), coarse)
    case Short(m, n, c) => AddCopies(s, Span(true, m, n), c, coarse)
    case Long(m, n) => AddSpan(s, Span(true, m, n), coarse)
  }

  ghost predicate AllValid(rs: seq<Record>) {
    forall k :: 0 <= k < |rs| ==> rs[k].Valid()
  }

  /** The edits recorded by a log. */
  ghost function Spans(rs: seq<Record>, coarse: bool): seq<Span>
    requires AllValid(rs)
  {
    if rs == [] then [] else AddRecord(Spans(rs[..|rs| - 1], coarse), rs[|rs| - 1], coarse)
  }

  // ----- units

  /** Head field and trail units of a length in a long record. */
  function Field(len: int): (f: int)
    requires 0 <= len <= INT32_MAX
    ensures 0 <= f < 64
  {
    if len < LENGTH_IN_1TRAIL then len
    else if len <= 0x7fff then LENGTH_IN_1TRAIL
    else LENGTH_IN_2TRAIL + len / 0x4000_0000
  }

  function Trails(len: int): (t: seq<int>)
    requires 0 <= len <= INT32_MAX
    ensures |t| <= 2 && forall k :: 0 <= k < |t| ==> TRAIL <= t[k] <= 0xffff
  {
    if len < LENGTH_IN_1TRAIL then []
    else if len <= 0x7fff then [TRAIL + len]
    else [TRAIL + len / 0x8000 % 0x8000, TRAIL + len % 0x8000]
  }

  function Head(r: Record): (u: int)
    requires r.Valid()
    ensures 0 <= u <= 0x7fff
    ensures r.Keep? <==> u <= MAX_UNCHANGED
    ensures r.Short? <==> MAX_UNCHANGED < u <= MAX_SHORT_CHANGE
  {
    match r
    case Keep(n) => n - 1
    case Short(m, n, c) => m * 0x1000 + n * 0x200 + (c - 1)
    case Long(m, n) => 0x7000 + Field(m) * 64 + Field(n)
  }

  function Tail(r: Record): (t: seq<int>)
    requires r.Valid()
    ensures |t| <= 4 && forall k :: 0 <= k < |t| ==> TRAIL <= t[k] <= 0xffff
    ensures !r.Long? ==> t == []
  {
    match r
    case Long(m, n) => Trails(m) + Trails(n)
    case _ => []
  }

  /** The units of a log. */
  ghost function Units(rs: seq<Record>): seq<int>
    requires AllValid(rs)
  {
    if rs == [] then []
    else Units(rs[..|rs| - 1]) + [Head(rs[|rs| - 1])] + Tail(rs[|rs| - 1])
  }

  /** Reading a length back from its head field and the units that follow. */
  function ReadLength(field: int, rest: seq<int>): (r: (int, int))
    requires 0 <= field < 64
    requires field == LENGTH_IN_1TRAIL ==> |rest| >= 1
    requires field >= LENGTH_IN_2TRAIL ==> |rest| >= 2
  {
    if field < LENGTH_IN_1TRAIL then (field, 0)
    else if field < LENGTH_IN_2TRAIL then (rest[0] % 0x8000, 1)
    else (field % 2 * 0x4000_0000 + rest[0] % 0x8000 * 0x8000 + rest[1] % 0x8000, 2)
  }

  /** Lengths of all sizes survive: none, one or two trail units. */
  lemma LengthRoundTrip(len: int, after: seq<int>)
    requires 0 <= len <= INT32_MAX
    ensures Field(len) == LENGTH_IN_1TRAIL ==> |Trails(len) + after| >= 1
    ensures Field(len) >= LENGTH_IN_2TRAIL ==> |Trails(len) + after| >= 2
    ensures ReadLength(Field(len), Trails(len) + after) == (len, |Trails(len)|)
  {
    if len > 0x7fff {
      var t := Trails(len) + after;
      var hi, mid, lo := len / 0x4000_0000, len / 0x8000 % 0x8000, len % 0x8000;
      assert t[0] == TRAIL + mid && t[1] == TRAIL + lo;
      assert len == (len / 0x8000) * 0x8000 + lo;
      assert len / 0x8000 == hi * 0x8000 + mid;
    }
  }

  /** The parts of a short change come back from its unit. */
  lemma ShortRoundTrip(r: Record)
    requires r.Short? && r.Valid()
    ensures Head(r) / 0x1000 == r.m && Head(r) / 0x200 % 8 == r.n && Head(r) % 0x200 + 1 == r.count
  {}

  lemma LongFields(r: Record)
    requires r.Long? && r.Valid()
    ensures Head(r) / 64 % 64 == Field(r.m) && Head(r) % 64 == Field(r.n)
  {}

  // ----- appending to a log

  datatype Error = NoError | IllegalArgument | IndexOutOfBounds

  lemma AddSpanTwice(s: seq<Span>, p: int, q: int, coarse: bool)
    ensures AddSpan(AddSpan(s, Span(false, p, p), coarse), Span(false, q, q), coarse)
         == AddSpan(s, Span(false, p + q, p + q), coarse)
  {
    var r := AddSpan(s, Span(false, p, p), coarse);
    assert r[..|r| - 1] == if s != [] && !s[|s| - 1].changed then s[..|s| - 1] else s;
  }

  lemma SpansAppend(rs: seq<Record>, r: Record, coarse: bool)
    requires AllValid(rs) && r.Valid()
    ensures AllValid(rs + [r])
    ensures Spans(rs + [r], coarse) == AddRecord(Spans(rs, coarse), r, coarse)
    ensures Units(rs + [r]) == Units(rs) + [Head(r)] + Tail(r)
  {
    assert (rs + [r])[..|rs|] == rs;
  }

  /** What the last unit of a log tells about its last record. */
  lemma LastUnit(rs: seq<Record>)
    requires AllValid(rs)
    ensures rs == [] <==> Units(rs) == []
    ensures rs != [] ==>
              var r, u := rs[|rs| - 1], Units(rs);
              && u[|u| - 1] == (if Tail(r) == [] then Head(r) else Tail(r)[|Tail(r)| - 1])
              && (Tail(r) == [] ==> u[..|u| - 1] == Units(rs[..|rs| - 1]))
  {}

  /** Difference between destination and source length. */
  ghost function Delta(rs: seq<Record>): int {
    if rs == [] then 0 else Delta(rs[..|rs| - 1]) + rs[|rs| - 1].New() - rs[|rs| - 1].Old()
  }

  lemma DeltaAppend(rs: seq<Record>, r: Record)
    ensures Delta(rs + [r]) == Delta(rs) + r.New() - r.Old()
  {
    assert (rs + [r])[..|rs|] == rs;
  }

  /** Replacing a last record without trail units replaces the last unit. */
  lemma ReplaceLast(rs: seq<Record>, r: Record, coarse: bool)
    requires AllValid(rs) && rs != [] && r.Valid() && Tail(rs[|rs| - 1]) == [] && Tail(r) == []
    ensures var t := rs[..|rs| - 1] + [r];
            && AllValid(t) && Units(t) == Units(rs)[|Units(rs)| - 1 := Head(r)]
            && Spans(t, coarse) == AddRecord(Spans(rs[..|rs| - 1], coarse), r, coarse)
            && Delta(t) == Delta(rs) + r.New() - r.Old() - rs[|rs| - 1].New() + rs[|rs| - 1].Old()
  {
    LastUnit(rs);
    SpansAppend(rs[..|rs| - 1], r, coarse);
    DeltaAppend(rs[..|rs| - 1], r);
  }

  /** The log after recording `p` more unchanged units. */
  ghost predicate Kept(before: seq<Record>, after: seq<Record>, p: int)
    requires AllValid(before) && AllValid(after)
  {
    && Delta(after) == Delta(before)
    && forall coarse ::
         Spans(after, coarse) == if p == 0 then Spans(before, coarse)
                                 else AddSpan(Spans(before, coarse), Span(false, p, p), coarse)
  }

  lemma KeptNothing(rs: seq<Record>)
    requires AllValid(rs)
    ensures Kept(rs, rs, 0)
  {}

  lemma KeptMore(before: seq<Record>, rs: seq<Record>, p: int, n: int)
    requires AllValid(before) && AllValid(rs) && Kept(before, rs, p) && 0 <= p && Keep(n).Valid()
    ensures AllValid(rs + [Keep(n)]) && Kept(before, rs + [Keep(n)], p + n)
    ensures Delta(rs + [Keep(n)]) == Delta(rs)
    ensures Units(rs + [Keep(n)]) == Units(rs) + [n - 1]
  {
    hide Spans, AddSpan, Units, Delta;
    DeltaAppend(rs, Keep(n));
    forall coarse
      ensures Spans(rs + [Keep(n)], coarse) == AddSpan(Spans(before, coarse), Span(false, p + n, p + n), coarse)
    {
      SpansAppend(rs, Keep(n), coarse);
      AddSpanTwice(Spans(before, coarse), p, n, coarse);
    }
    SpansAppend(rs, Keep(n), false);
  }

  lemma KeptLonger(rs: seq<Record>, k: int)
    requires AllValid(rs) && rs != [] && rs[|rs| - 1].Keep? && 1 <= k && rs[|rs| - 1].n + k <= MAX_UNCHANGED_LENGTH
    ensures var t := rs[..|rs| - 1] + [Keep(rs[|rs| - 1].n + k)];
            && AllValid(t) && Kept(rs, t, k) && Delta(t) == Delta(rs)
            && Units(t) == Units(rs)[|Units(rs)| - 1 := Units(rs)[|Units(rs)| - 1] + k]
  {
    hide Spans, AddSpan, Units, Delta;
    var n := rs[|rs| - 1].n;
    var t := rs[..|rs| - 1] + [Keep(n + k)];
    LastUnit(rs);
    ReplaceLast(rs, Keep(n + k), false);
    assert rs == rs[..|rs| - 1] + [Keep(n)];
    forall coarse ensures Spans(t, coarse) == AddSpan(Spans(rs, coarse), Span(false, k, k), coarse) {
      ReplaceLast(rs, Keep(n + k), coarse);
      SpansAppend(rs[..|rs| - 1], Keep(n), coarse);
      AddSpanTwice(Spans(rs[..|rs| - 1], coarse), n, k, coarse);
    }
  }

  /** The log after recording one replacement. */
  ghost predicate Replaced(before: seq<Record>, after: seq<Record>, m: int, n: int)
    requires AllValid(before) && AllValid(after)
  {
    && Delta(after) == Delta(before) + n - m
    && forall coarse :: Spans(after, coarse) == AddSpan(Spans(before, coarse), Span(true, m, n), coarse)
  }

  lemma ReplacedAppend(rs: seq<Record>, r: Record, m: int, n: int)
    requires AllValid(rs) && r.Valid() && (r == Short(m, n, 1) || r == Long(m, n))
    ensures AllValid(rs + [r]) && Replaced(rs, rs + [r], m, n)
    ensures Units(rs + [r]) == Units(rs) + [Head(r)] + Tail(r)
  {
    DeltaAppend(rs, r);
    forall coarse ensures Spans(rs + [r], coarse) == AddSpan(Spans(rs, coarse), Span(true, m, n), coarse) {
      SpansAppend(rs, r, coarse);
      assert AddCopies(Spans(rs, coarse), Span(true, m, n), 0, coarse) == Spans(rs, coarse);
    }
    SpansAppend(rs, r, false);
  }

  lemma ReplacedAgain(rs: seq<Record>, m: int, n: int, c: int)
    requires AllValid(rs) && rs != [] && rs[|rs| - 1] == Short(m, n, c) && c <= SHORT_CHANGE_NUM_MASK
    ensures var t := rs[..|rs| - 1] + [Short(m, n, c + 1)];
            && AllValid(t) && Replaced(rs, t, m, n)
            && Units(t) == Units(rs)[|Units(rs)| - 1 := Units(rs)[|Units(rs)| - 1] + 1]
  {
    hide Spans, AddSpan, Units, Delta;
    var t := rs[..|rs| - 1] + [Short(m, n, c + 1)];
    LastUnit(rs);
    ReplaceLast(rs, Short(m, n, c + 1), false);
    assert m * (c + 1) == m * c + m && n * (c + 1) == n * c + n;
    assert rs == rs[..|rs| - 1] + [Short(m, n, c)];
    forall coarse ensures Spans(t, coarse) == AddSpan(Spans(rs, coarse), Span(true, m, n), coarse) {
      ReplaceLast(rs, Short(m, n, c + 1), coarse);
      SpansAppend(rs[..|rs| - 1], Short(m, n, c), coarse);
    }
  }

  /** A unit in the range of short changes at the end is the last record. */
  lemma LastShort(rs: seq<Record>, last: int, m: int, n: int)
    requires AllValid(rs) && Short(m, n, 1).Valid()
    requires last == if |Units(rs)| > 0 then Units(rs)[|Units(rs)| - 1] else NO_UNIT
    requires MAX_UNCHANGED < last < MAX_SHORT_CHANGE && last - last % 0x200 == m * 0x1000 + n * 0x200
    ensures rs != [] && rs[|rs| - 1] == Short(m, n, last % 0x200 + 1)
  {
    LastUnit(rs);
    ShortRoundTrip(rs[|rs| - 1]);
  }

  class Edits {
    var units: seq<int>
    var delta: int
    var numChanges: int
    var error: Error
    ghost var records: seq<Record>

    ghost predicate Valid()
      reads this
    {
      && AllValid(records) && units == Units(records)
      && delta == Delta(records) && INT32_MIN <= delta <= INT32_MAX
    }

    constructor ()
      ensures Valid() && records == [] && error == NoError && numChanges == 0
    {
      units, delta, numChanges, error, records := [], 0, 0, NoError, [];
    }

    /** The last unit of the log, or an out-of-band value for an empty log. */
    function LastUnitOrNone(): int
      reads this
    {
      if |units| > 0 then units[|units| - 1] else NO_UNIT
    }

    method SetLastUnit(u: int)
      requires |units| > 0
      modifies this`units
      ensures units == old(units)[|old(units)| - 1 := u]
    {
      units := units[|units| - 1 := u];
    }

    method Append(u: int)
      modifies this`units
      ensures units == old(units) + [u]
    {
      units := units + [u];
    }

    /** Records unchanged text; joins an unchanged record before it and splits
        lengths that do not fit one unit. */
    method AddUnchanged(length: int)
      requires Valid()
      modifies this
      ensures Valid() && numChanges == old(numChanges) && delta == old(delta)
      ensures old(error) != NoError || length == 0 ==> records == old(records) && error == old(error)
      ensures old(error) == NoError && length < 0 ==> records == old(records) && error == IllegalArgument
      ensures old(error) == NoError && length > 0 ==> error == NoError && Kept(old(records), records, length)
    {
      hide Spans, Units, Delta, AddSpan, Kept;
      if error != NoError || length == 0 {
        return;
      }
      if length < 0 {
        error := IllegalArgument;
        return;
      }
      KeptNothing(records);
      var rest := length;
      var last := LastUnitOrNone();
      LastUnit(records);
      if last < MAX_UNCHANGED {
        ghost var r := records[|records| - 1];
        var remaining := MAX_UNCHANGED - last;
        if remaining >= rest {
          KeptLonger(records, rest);
          SetLastUnit(last + rest);
          records := records[..|records| - 1] + [Keep(r.n + rest)];
          return;
        }
        KeptLonger(records, remaining);
        SetLastUnit(MAX_UNCHANGED);
        records := records[..|records| - 1] + [Keep(r.n + remaining)];
        rest := rest - remaining;
      }
      while rest >= MAX_UNCHANGED_LENGTH
        invariant Valid() && 0 <= rest <= length && Kept(old(records), records, length - rest)
        invariant numChanges == old(numChanges) && delta == old(delta) && error == NoError
      {
        KeptMore(old(records), records, length - rest, MAX_UNCHANGED_LENGTH);
        Append(MAX_UNCHANGED);
        records := records + [Keep(MAX_UNCHANGED_LENGTH)];
        rest := rest - MAX_UNCHANGED_LENGTH;
      }
      if rest > 0 {
        KeptMore(old(records), records, length - rest, rest);
        Append(rest - 1);
        records := records + [Keep(rest)];
      }
    }

    /** Records a replacement; fails if the total length difference leaves the
        32-bit range. */
    method AddReplace(oldLength: int, newLength: int)
      requires Valid() && oldLength <= INT32_MAX && newLength <= INT32_MAX
      modifies this
      ensures Valid()
      ensures old(error) != NoError ==> records == old(records) && error == old(error)
      ensures old(error) == NoError && (oldLength < 0 || newLength < 0) ==>
                records == old(records) && error == IllegalArgument
      ensures old(error) == NoError && oldLength == 0 && newLength == 0 ==>
                records == old(records) && error == NoError && numChanges == old(numChanges)
      ensures old(error) == NoError && oldLength >= 0 && newLength >= 0 && oldLength + newLength > 0 ==>
                && numChanges == old(numChanges) + 1
                && (error == IndexOutOfBounds <==> !(INT32_MIN <= old(delta) + newLength - oldLength <= INT32_MAX))
                && (error == NoError || error == IndexOutOfBounds)
                && (error == NoError ==> Replaced(old(records), records, oldLength, newLength))
                && (error != NoError ==> records == old(records))
    {
      hide Spans, Units, Delta, AddSpan, AddCopies;
      if error != NoError {
        return;
      }
      if oldLength < 0 || newLength < 0 {
        error := IllegalArgument;
        return;
      }
      if oldLength == 0 && newLength == 0 {
        return;
      }
      numChanges := numChanges + 1;
      var newDelta := newLength - oldLength;
      if newDelta != 0 {
        if (newDelta > 0 && delta >= 0 && newDelta > INT32_MAX - delta) ||
           (newDelta < 0 && delta < 0 && newDelta < INT32_MIN - delta)
        {
          error := IndexOutOfBounds;
          return;
        }
        delta := delta + newDelta;
      }
      if 0 < oldLength <= MAX_SHORT_CHANGE_OLD_LENGTH && newLength <= MAX_SHORT_CHANGE_NEW_LENGTH {
        var u := oldLength * 0x1000 + newLength * 0x200;
        var last := LastUnitOrNone();
        if MAX_UNCHANGED < last < MAX_SHORT_CHANGE && last - last % 0x200 == u &&
           last % 0x200 < SHORT_CHANGE_NUM_MASK
        {
          LastShort(records, last, oldLength, newLength);
          ghost var c := last % 0x200 + 1;
          ReplacedAgain(records, oldLength, newLength, c);
          SetLastUnit(last + 1);
          records := records[..|records| - 1] + [Short(oldLength, newLength, c + 1)];
          return;
        }
        ReplacedAppend(records, Short(oldLength, newLength, 1), oldLength, newLength);
        Append(u);
        records := records + [Short(oldLength, newLength, 1)];
        return;
      }
      ReplacedAppend(records, Long(oldLength, newLength), oldLength, newLength);
      AppendLong(oldLength, newLength);
      records := records + [Long(oldLength, newLength)];
    }

    /** Writes a head unit and the trail units of both lengths. */
    method AppendLong(oldLength: int, newLength: int)
      requires 0 <= oldLength <= INT32_MAX && 0 <= newLength <= INT32_MAX
      modifies this`units
      ensures units == old(units) + [Head(Long(oldLength, newLength))] + Tail(Long(oldLength, newLength))
    {
      var head := 0x7000;
      if oldLength < LENGTH_IN_1TRAIL && newLength < LENGTH_IN_1TRAIL {
        head := head + oldLength * 64;
        head := head + newLength;
        Append(head);
      } else {
        var f, s := SplitLength(oldLength);
        var g, t := SplitLength(newLength);
        hide Field, Trails;
        head := head + f * 64;
        head := head + g;
        units := units + [head] + (s + t);
      }
    }

    /** Head field and trail units of one length. */
    method SplitLength(length: int) returns (field: int, trail: seq<int>)
      requires 0 <= length <= INT32_MAX
      ensures field == Field(length) && trail == Trails(length)
    {
      if length < LENGTH_IN_1TRAIL {
        field, trail := length, [];
      } else if length <= 0x7fff {
        field, trail := LENGTH_IN_1TRAIL, [TRAIL + length];
      } else {
        field := LENGTH_IN_2TRAIL + length / 0x4000_0000;
        trail := [TRAIL + length / 0x8000 % 0x8000, TRAIL + length % 0x8000];
      }
    }
  }
}
