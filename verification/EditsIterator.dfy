/** The bidirectional iterator over an edit log: spans are assembled from units
    in either direction, compressed changes are split in a fine view and
    adjacent changes joined in a coarse one. */
module EditsIterator {
  import opened EditsLog

  // ----- where records lie

  ghost function Off(rs: seq<Record>, k: int): nat
    requires AllValid(rs) && 0 <= k <= |rs|
  {
    |Units(rs[..k])|
  }

  lemma {:induction false} UnitsPrefix(rs: seq<Record>, k: int)
    requires AllValid(rs) && 0 <= k <= |rs|
    ensures Off(rs, k) <= |Units(rs)| && Units(rs)[..Off(rs, k)] == Units(rs[..k])
    decreases |rs|
  {
    if k == |rs| {
      assert rs[..k] == rs;
    } else {
      var t := rs[..|rs| - 1];
      UnitsPrefix(t, k);
      assert t[..k] == rs[..k];
    }
  }

  /** Head and trail units of record `k`, and the last unit before the next. */
  lemma RecordUnits(rs: seq<Record>, k: int)
    requires AllValid(rs) && 0 <= k < |rs|
    ensures Off(rs, k + 1) == Off(rs, k) + 1 + |Tail(rs[k])| <= |Units(rs)|
    ensures Units(rs)[Off(rs, k)] == Head(rs[k])
    ensures Units(rs)[Off(rs, k) + 1..Off(rs, k + 1)] == Tail(rs[k])
  {
    hide Head, Tail;
    UnitsPrefix(rs, k + 1);
    assert rs[..k + 1][..k] == rs[..k];
    var p, u := Units(rs[..k + 1]), Units(rs);
    assert p == Units(rs[..k]) + [Head(rs[k])] + Tail(rs[k]);
    assert u[..Off(rs, k + 1)] == p;
    assert u[Off(rs, k)] == p[Off(rs, k)];
    assert u[Off(rs, k) + 1..Off(rs, k + 1)] == p[Off(rs, k) + 1..];
  }

  lemma OffEnds(rs: seq<Record>)
    requires AllValid(rs)
    ensures Off(rs, 0) == 0 && Off(rs, |rs|) == |Units(rs)|
  {
    assert rs[..|rs|] == rs;
  }

  lemma {:induction false} OffGrows(rs: seq<Record>, j: int, k: int)
    requires AllValid(rs) && 0 <= j <= k <= |rs|
    ensures Off(rs, j) + (k - j) <= Off(rs, k) <= |Units(rs)|
    decreases k - j
  {
    hide Units, Head, Tail, Off;
    if j < k {
      RecordUnits(rs, k - 1);
      OffGrows(rs, j, k - 1);
    } else {
      UnitsPrefix(rs, k);
    }
  }

  /** Being at a unit offset before the end means being at a record. */
  lemma AtRecord(rs: seq<Record>, k: int)
    requires AllValid(rs) && 0 <= k <= |rs|
    ensures Off(rs, k) < |Units(rs)| <==> k < |rs|
    ensures 0 < Off(rs, k) <==> 0 < k
  {
    OffEnds(rs);
    OffGrows(rs, k, |rs|);
    OffGrows(rs, 0, k);
  }

  // ----- text covered by the first `k` records

  ghost function OldUpTo(rs: seq<Record>, k: int): int
    requires 0 <= k <= |rs|
  {
    if k == 0 then 0 else OldUpTo(rs, k - 1) + rs[k - 1].Old()
  }

  ghost function NewUpTo(rs: seq<Record>, k: int): int
    requires 0 <= k <= |rs|
  {
    if k == 0 then 0 else NewUpTo(rs, k - 1) + rs[k - 1].New()
  }

  ghost function ReplUpTo(rs: seq<Record>, k: int): int
    requires 0 <= k <= |rs|
  {
    if k == 0 then 0 else ReplUpTo(rs, k - 1) + (if rs[k - 1].Keep? then 0 else rs[k - 1].New())
  }

  // ----- groups of records that form one span, or one run of equal spans

  /** A span of the view may start at record `k`. */
  ghost predicate Boundary(rs: seq<Record>, coarse: bool, k: int)
    requires 0 <= k <= |rs|
  {
    k == 0 || k == |rs| || rs[k - 1].Keep? != rs[k].Keep? || (!coarse && !rs[k].Keep?)
  }

  /** Records [a, b) form one group. */
  ghost predicate Group(rs: seq<Record>, coarse: bool, a: int, b: int) {
    && 0 <= a < b <= |rs| && Boundary(rs, coarse, a) && Boundary(rs, coarse, b)
    && forall k :: a < k < b ==> !Boundary(rs, coarse, k)
  }

  /** Number of equal spans in the group starting at record `a`. */
  ghost function Count(rs: seq<Record>, coarse: bool, a: int): int
    requires 0 <= a < |rs|
  {
    if !coarse && rs[a].Short? then rs[a].count else 1
  }

  ghost function OldLen(rs: seq<Record>, coarse: bool, a: int, b: int): int
    requires 0 <= a < b <= |rs|
  {
    if !coarse && rs[a].Short? then rs[a].m else OldUpTo(rs, b) - OldUpTo(rs, a)
  }

  ghost function NewLen(rs: seq<Record>, coarse: bool, a: int, b: int): int
    requires 0 <= a < b <= |rs|
  {
    if !coarse && rs[a].Short? then rs[a].n else NewUpTo(rs, b) - NewUpTo(rs, a)
  }

  lemma GroupKinds(rs: seq<Record>, coarse: bool, a: int, b: int)
    requires Group(rs, coarse, a, b)
    ensures forall k :: a <= k < b ==> rs[k].Keep? == rs[a].Keep?
    ensures !rs[a].Keep? && !coarse ==> b == a + 1
  {
    assert b > a + 1 ==> !Boundary(rs, coarse, a + 1);
    var k := a + 1;
    while k < b
      invariant a < k <= b && forall j :: a <= j < k ==> rs[j].Keep? == rs[a].Keep?
    {
      assert !Boundary(rs, coarse, k);
      k := k + 1;
    }
  }

  lemma {:induction false} ReplOver(rs: seq<Record>, a: int, b: int)
    requires 0 <= a <= b <= |rs| && forall k :: a <= k < b ==> rs[k].Keep? == rs[a].Keep?
    ensures a < b && rs[a].Keep? ==> ReplUpTo(rs, b) == ReplUpTo(rs, a)
    ensures a < b && !rs[a].Keep? ==> ReplUpTo(rs, b) - ReplUpTo(rs, a) == NewUpTo(rs, b) - NewUpTo(rs, a)
    ensures a < b && rs[a].Keep? ==> OldUpTo(rs, b) - OldUpTo(rs, a) == NewUpTo(rs, b) - NewUpTo(rs, a)
    decreases b
  {
    if a + 1 < b { ReplOver(rs, a, b - 1); }
  }

  /** The whole group covers `Count` spans. */
  lemma GroupTotal(rs: seq<Record>, coarse: bool, a: int, b: int)
    requires AllValid(rs) && Group(rs, coarse, a, b)
    ensures OldUpTo(rs, b) == OldUpTo(rs, a) + Count(rs, coarse, a) * OldLen(rs, coarse, a, b)
    ensures NewUpTo(rs, b) == NewUpTo(rs, a) + Count(rs, coarse, a) * NewLen(rs, coarse, a, b)
    ensures ReplUpTo(rs, b)
         == ReplUpTo(rs, a) + (if rs[a].Keep? then 0 else Count(rs, coarse, a) * NewLen(rs, coarse, a, b))
  {
    GroupKinds(rs, coarse, a, b);
    ReplOver(rs, a, b);
    if !coarse && rs[a].Short? {
      hide OldUpTo, NewUpTo, ReplUpTo;
      UpToNext(rs, a);
      Commute(rs[a].m, rs[a].count);
      Commute(rs[a].n, rs[a].count);
    }
  }

  lemma Commute(x: int, y: int)
    ensures x * y == y * x
  {}

  lemma UpToNext(rs: seq<Record>, k: int)
    requires 0 <= k < |rs|
    ensures OldUpTo(rs, k + 1) == OldUpTo(rs, k) + rs[k].Old()
    ensures NewUpTo(rs, k + 1) == NewUpTo(rs, k) + rs[k].New()
    ensures ReplUpTo(rs, k + 1) == ReplUpTo(rs, k) + (if rs[k].Keep? then 0 else rs[k].New())
  {}

  /** Both lengths of a long record can be read from the units after its head. */
  lemma LongAt(rs: seq<Record>, k: int)
    requires AllValid(rs) && 0 <= k < |rs| && rs[k].Long?
    ensures var u, i, r := Units(rs), Off(rs, k), rs[k];
            && Off(rs, k + 1) == i + 1 + |Trails(r.m)| + |Trails(r.n)| <= |u|
            && u[i] / 64 % 64 == Field(r.m) && u[i] % 64 == Field(r.n)
            && |Trails(r.m)| == Spill(Field(r.m)) && |Trails(r.n)| == Spill(Field(r.n))
            && ReadLength(Field(r.m), u[i + 1..]) == (r.m, |Trails(r.m)|)
            && ReadLength(Field(r.n), u[i + 1 + |Trails(r.m)|..]) == (r.n, |Trails(r.n)|)
  {
    hide Units, Off, Field, Trails, Head, ReadLength, Spill;
    RecordUnits(rs, k);
    LongFields(rs[k]);
    var u, i, e, r := Units(rs), Off(rs, k), Off(rs, k + 1), rs[k];
    SpillIs(r.m);
    SpillIs(r.n);
    assert u[i + 1..] == u[i + 1..e] + u[e..];
    TwoLengths(u, i + 1, r.m, r.n, u[e..]);
  }

  lemma SpillIs(len: int)
    requires 0 <= len <= INT32_MAX
    ensures |Trails(len)| == Spill(Field(len))
  {}

  lemma TwoLengths(u: seq<int>, i: int, m: int, n: int, after: seq<int>)
    requires 0 <= i <= |u| && 0 <= m <= INT32_MAX && 0 <= n <= INT32_MAX
    requires u[i..] == Trails(m) + Trails(n) + after
    ensures i + |Trails(m)| <= |u|
    ensures Field(m) == LENGTH_IN_1TRAIL ==> |u[i..]| >= 1
    ensures Field(m) >= LENGTH_IN_2TRAIL ==> |u[i..]| >= 2
    ensures Field(n) == LENGTH_IN_1TRAIL ==> |u[i + |Trails(m)|..]| >= 1
    ensures Field(n) >= LENGTH_IN_2TRAIL ==> |u[i + |Trails(m)|..]| >= 2
    ensures ReadLength(Field(m), u[i..]) == (m, |Trails(m)|)
    ensures ReadLength(Field(n), u[i + |Trails(m)|..]) == (n, |Trails(n)|)
  {
    hide Trails, Field, ReadLength;
    var p, q := Trails(m), Trails(n);
    assert p + q + after == p + (q + after);
    LengthRoundTrip(m, q + after);
    LengthRoundTrip(n, after);
    assert u[i + |p|..] == u[i..][|p|..];
    assert u[i + |p|..] == q + after;
  }

  /** Number of trail units a head field announces. */
  function Spill(field: int): int {
    if field < LENGTH_IN_1TRAIL then 0 else if field < LENGTH_IN_2TRAIL then 1 else 2
  }

  lemma GroupFrom(rs: seq<Record>, coarse: bool, a: int, b: int)
    requires 0 <= a < b <= |rs| && Boundary(rs, coarse, a)
    requires forall k :: a <= k < b ==> rs[k].Keep? == rs[a].Keep?
    requires b == |rs| || rs[b].Keep? != rs[a].Keep? || (!coarse && !rs[a].Keep?)
    requires !coarse && !rs[a].Keep? ==> b == a + 1
    ensures Group(rs, coarse, a, b)
  {}

  lemma GroupBack(rs: seq<Record>, coarse: bool, a: int, b: int)
    requires 0 <= a < b <= |rs| && Boundary(rs, coarse, b)
    requires forall k :: a <= k < b ==> rs[k].Keep? == rs[b - 1].Keep?
    requires a == 0 || rs[a - 1].Keep? != rs[b - 1].Keep? || (!coarse && !rs[b - 1].Keep?)
    requires !coarse && !rs[b - 1].Keep? ==> b == a + 1
    ensures Group(rs, coarse, a, b)
  {}

  class Iterator {
    const units: seq<int>
    const onlyChanges: bool
    const coarse: bool
    var index: int
    var remaining: int
    var dir: int
    var changed: bool
    var oldLength: int
    var newLength: int
    var srcIndex: int
    var replIndex: int
    var destIndex: int
    // The records behind the units, the group [a, b) the iterator is on, and
    // the span within the group.
    ghost const rs: seq<Record>
    ghost var a: int
    ghost var b: int
    ghost var sub: int

    ghost predicate Log() {
      AllValid(rs) && units == Units(rs)
    }

    /** The string indexes are those of the start of record `k`. */
    ghost predicate AtSums(k: int)
      requires 0 <= k <= |rs|
      reads this
    {
      srcIndex == OldUpTo(rs, k) && destIndex == NewUpTo(rs, k) && replIndex == ReplUpTo(rs, k)
    }

    /** Before the first span or after the last one. */
    ghost predicate AtEnd()
      requires Log()
      reads this
    {
      && dir == 0 && oldLength == 0 && newLength == 0 && remaining == 0 && sub == 0
      && (a == 0 || a == |rs|) && index == Off(rs, a) && AtSums(a)
    }

    ghost predicate OnSpan()
      requires Log()
      reads this
    {
      && (dir == 1 || dir == -1) && Group(rs, coarse, a, b)
      && 0 <= sub < Count(rs, coarse, a)
      && index == Off(rs, if dir > 0 then b else a)
      && remaining == (if Count(rs, coarse, a) > 1 then Count(rs, coarse, a) - sub else 0)
      && changed == !rs[a].Keep?
      && oldLength == OldLen(rs, coarse, a, b) && newLength == NewLen(rs, coarse, a, b)
      && srcIndex == OldUpTo(rs, a) + sub * oldLength
      && destIndex == NewUpTo(rs, a) + sub * newLength
      && replIndex == ReplUpTo(rs, a) + (if changed then sub * newLength else 0)
    }

    ghost predicate Valid()
      reads this
    {
      Log() && (AtEnd() || OnSpan())
    }

    constructor (e: Edits, onlyChanges: bool, coarse: bool)
      requires e.Valid()
      ensures Valid() && dir == 0 && a == 0
      ensures rs == e.records && this.onlyChanges == onlyChanges && this.coarse == coarse
    {
      units, rs := e.units, e.records;
      this.onlyChanges, this.coarse := onlyChanges, coarse;
      index, remaining, dir, changed := 0, 0, 0, false;
      oldLength, newLength, srcIndex, replIndex, destIndex := 0, 0, 0, 0, 0;
      a, b, sub := 0, 0, 0;
      new;
      OffEnds(rs);
    }

    method UpdateNextIndexes()
      modifies this`srcIndex, this`replIndex, this`destIndex
      ensures srcIndex == old(srcIndex) + oldLength && destIndex == old(destIndex) + newLength
      ensures replIndex == old(replIndex) + if changed then newLength else 0
    {
      srcIndex := srcIndex + oldLength;
      if changed {
        replIndex := replIndex + newLength;
      }
      destIndex := destIndex + newLength;
    }

    method UpdatePreviousIndexes()
      modifies this`srcIndex, this`replIndex, this`destIndex
      ensures srcIndex == old(srcIndex) - oldLength && destIndex == old(destIndex) - newLength
      ensures replIndex == old(replIndex) - if changed then newLength else 0
    {
      srcIndex := srcIndex - oldLength;
      if changed {
        replIndex := replIndex - newLength;
      }
      destIndex := destIndex - newLength;
    }

    method NoNext(ghost k: int)
      requires Log() && (k == 0 || k == |rs|) && index == Off(rs, k) && AtSums(k) && remaining == 0
      modifies this`dir, this`changed, this`oldLength, this`newLength, this`a, this`sub
      ensures AtEnd() && a == k
    {
      dir, changed, oldLength, newLength := 0, false, 0, 0;
      a, sub := k, 0;
    }

    /** Reads a length whose head field is `head`, moving past trail units. */
    method ReadLen(head: int) returns (len: int)
      requires 0 <= head < 64 && 0 <= index && index + Spill(head) <= |units|
      modifies this`index
      ensures index == old(index) + Spill(head)
      ensures (len, Spill(head)) == ReadLength(head, units[old(index)..])
    {
      if head < LENGTH_IN_1TRAIL {
        len := head;
      } else if head < LENGTH_IN_2TRAIL {
        len := units[index] % 0x8000;
        index := index + 1;
      } else {
        len := head % 2 * 0x4000_0000 + units[index] % 0x8000 * 0x8000 + units[index + 1] % 0x8000;
        index := index + 2;
      }
    }

    /** Reads the lengths of the long record `k`, whose head has been read. */
    method ReadLong(ghost k: int, u: int) returns (m: int, n: int)
      requires Log() && 0 <= k < |rs| && rs[k].Long? && u == Head(rs[k]) && index == Off(rs, k) + 1
      modifies this`index
      ensures m == rs[k].m && n == rs[k].n && index == Off(rs, k + 1)
    {
      hide Units, Off, Field, Trails, Head, Tail, ReadLength, Spill;
      LongAt(rs, k);
      RecordUnits(rs, k);
      var f, g := u / 64 % 64, u % 64;
      assert f == Field(rs[k].m) && g == Field(rs[k].n);
      m := ReadLen(f);
      n := ReadLen(g);
    }

    /** Adds up adjacent unchanged records from record `k` on. */
    method ReadKeeps(ghost k: int) returns (ghost j: int)
      requires Log() && 0 <= k < |rs| && index == Off(rs, k) && Boundary(rs, coarse, k) && rs[k].Keep?
      modifies this`index, this`oldLength, this`newLength, this`changed
      ensures Group(rs, coarse, k, j) && index == Off(rs, j) && !changed
      ensures oldLength == OldUpTo(rs, j) - OldUpTo(rs, k) && newLength == NewUpTo(rs, j) - NewUpTo(rs, k)
    {
      hide Units, Off, Head, Tail;
      RecordUnits(rs, k);
      var u := units[index];
      index := index + 1;
      changed, oldLength := false, u + 1;
      j := k + 1;
      HeadOf(rs, k);
      AtRecord(rs, j);
      if j < |rs| { RecordUnits(rs, j); HeadOf(rs, j); }
      while index < |units| && units[index] <= MAX_UNCHANGED
        invariant k < j <= |rs| && index == Off(rs, j) && !changed
        invariant index < |units| <==> j < |rs|
        invariant j < |rs| ==> units[index] == Head(rs[j]) && (rs[j].Keep? <==> units[index] <= MAX_UNCHANGED)
        invariant j < |rs| && rs[j].Keep? ==> units[index] == rs[j].n - 1 && Off(rs, j + 1) == Off(rs, j) + 1
        invariant forall t :: k <= t < j ==> rs[t].Keep?
        invariant oldLength == OldUpTo(rs, j) - OldUpTo(rs, k)
        decreases |rs| - j
      {
        u := units[index];
        index := index + 1;
        oldLength := oldLength + u + 1;
        j := j + 1;
        AtRecord(rs, j);
        if j < |rs| { RecordUnits(rs, j); HeadOf(rs, j); }
      }
      newLength := oldLength;
      ReplOver(rs, k, j);
      GroupFrom(rs, coarse, k, j);
    }

    /** Old and new length of the change record `k`, whose head `u` has been read. */
    method ReadChange(ghost k: int, u: int) returns (m: int, n: int)
      requires Log() && 0 <= k < |rs| && !rs[k].Keep? && u == Head(rs[k]) && index == Off(rs, k) + 1
      modifies this`index
      ensures m == rs[k].Old() && n == rs[k].New() && index == Off(rs, k + 1)
    {
      hide Units, Off, Head, Tail;
      HeadOf(rs, k);
      RecordUnits(rs, k);
      if u <= MAX_SHORT_CHANGE {
        var num := u % 0x200 + 1;
        m, n := (u / 0x1000) * num, (u / 0x200 % 8) * num;
      } else {
        m, n := ReadLong(k, u);
      }
    }

    /** Assembles the change group that starts at record `k`, whose head `u` has
        been read. */
    method ReadChanges(ghost k: int, u: int) returns (ghost j: int)
      requires Log() && 0 <= k < |rs| && !rs[k].Keep? && Boundary(rs, coarse, k) && remaining == 0
      requires u == Head(rs[k]) && index == Off(rs, k) + 1
      modifies this`index, this`oldLength, this`newLength, this`changed, this`remaining
      ensures Group(rs, coarse, k, j) && index == Off(rs, j) && changed
      ensures oldLength == OldLen(rs, coarse, k, j) && newLength == NewLen(rs, coarse, k, j)
      ensures remaining == if Count(rs, coarse, k) > 1 then Count(rs, coarse, k) else 0
    {
      hide Units, Off, Head, Tail, OldUpTo, NewUpTo;
      HeadOf(rs, k);
      RecordUnits(rs, k);
      changed := true;
      j := k + 1;
      UpToNext(rs, k);
      if !coarse {
        GroupFrom(rs, coarse, k, j);
        if u <= MAX_SHORT_CHANGE {
          oldLength, newLength := u / 0x1000, u / 0x200 % 8;
          var num := u % 0x200 + 1;
          if num > 1 {
            remaining := num;
          }
        } else {
          oldLength, newLength := ReadLong(k, u);
        }
        return;
      }
      oldLength, newLength := ReadChange(k, u);
      AtRecord(rs, j);
      if j < |rs| { RecordUnits(rs, j); HeadOf(rs, j); }
      while index < |units| && units[index] > MAX_UNCHANGED
        invariant k < j <= |rs| && index == Off(rs, j) && changed && remaining == 0
        invariant index < |units| <==> j < |rs|
        invariant j < |rs| ==> units[index] == Head(rs[j]) && (rs[j].Keep? <==> units[index] <= MAX_UNCHANGED)
        invariant forall t :: k <= t < j ==> !rs[t].Keep?
        invariant oldLength == OldUpTo(rs, j) - OldUpTo(rs, k) && newLength == NewUpTo(rs, j) - NewUpTo(rs, k)
        decreases |rs| - j
      {
        var v := units[index];
        index := index + 1;
        var m, n := ReadChange(j, v);
        UpToNext(rs, j);
        oldLength, newLength := oldLength + m, newLength + n;
        j := j + 1;
        AtRecord(rs, j);
        if j < |rs| { RecordUnits(rs, j); HeadOf(rs, j); }
      }
      GroupFrom(rs, coarse, k, j);
    }

    /** The current lengths reach to the end of the group [a, b). */
    ghost predicate AtGroupEnd()
      requires Log()
      reads this
    {
      && dir == 1 && remaining == 0 && 0 <= b <= |rs| && Boundary(rs, coarse, b) && index == Off(rs, b)
      && srcIndex + oldLength == OldUpTo(rs, b) && destIndex + newLength == NewUpTo(rs, b)
      && replIndex + (if changed then newLength else 0) == ReplUpTo(rs, b)
    }

    /** The iterator stands before record `a`, reading backward. */
    ghost predicate AtGroupStart()
      requires Log()
      reads this
    {
      && dir == -1 && remaining == 0 && sub == 0 && 0 <= a <= |rs| && Boundary(rs, coarse, a)
      && index == Off(rs, a) && AtSums(a)
    }

    /** Moves to the next span, or to the next change if `changesOnly`. */
    method Next(changesOnly: bool) returns (found: bool)
      requires Log() && (Valid() || AtGroupEnd())
      modifies this
      ensures Valid() && found == (dir != 0) && (found ==> dir == 1)
      ensures old(dir) < 0 && old(remaining) > 0 ==> found && a == old(a) && b == old(b) && sub == old(sub)
      ensures old(dir) > 0 && old(remaining) > 1 ==> found && a == old(a) && b == old(b) && sub == old(sub) + 1
      ensures !(old(dir) < 0 && old(remaining) > 0) && !(old(dir) > 0 && old(remaining) > 1) ==>
                Arrived(old(if dir > 0 then b else a), changesOnly, found)
    {
      hide Units, Off, Head, Tail, OldUpTo, NewUpTo, ReplUpTo, Group;
      ghost var k := if dir > 0 then b else a;
      PlaceFacts(rs, coarse, a, b, sub);
      if dir > 0 {
        UpdateNextIndexes();
      } else {
        if dir < 0 {
          if remaining > 0 {
            index := index + 1;
            dir := 1;
            return true;
          }
        }
        dir := 1;
      }
      if remaining >= 1 {
        if remaining > 1 {
          remaining := remaining - 1;
          sub := sub + 1;
          return true;
        }
        remaining := 0;
      }
      found := ReadNext(changesOnly, k);
    }

    /** Assembles the group at record `k`, or the next change from there. */
    method ReadNext(changesOnly: bool, ghost k: int) returns (found: bool)
      requires Log() && 0 <= k <= |rs| && Boundary(rs, coarse, k)
      requires dir == 1 && remaining == 0 && index == Off(rs, k) && AtSums(k)
      modifies this
      ensures Valid() && found == (dir != 0) && (found ==> dir == 1) && Arrived(k, changesOnly, found)
    {
      hide Units, Off, Head, Tail, OldUpTo, NewUpTo, ReplUpTo, Group;
      AtRecord(rs, k);
      OffEnds(rs);
      if index >= |units| {
        NoNext(k);
        return false;
      }
      RecordUnits(rs, k);
      HeadOf(rs, k);
      var u := units[index];
      if u <= MAX_UNCHANGED {
        ghost var j := ReadKeeps(k);
        a, b, sub := k, j, 0;
        PlaceFacts(rs, coarse, k, j, 0);
        if !changesOnly {
          return true;
        }
        UpdateNextIndexes();
        AtRecord(rs, j);
        if index >= |units| {
          NoNext(j);
          return false;
        }
        RecordUnits(rs, j);
        u := units[index];
        index := index + 1;
        a := j;
        b := ReadChanges(j, u);
        PlaceFacts(rs, coarse, a, b, 0);
      } else {
        index := index + 1;
        a, sub := k, 0;
        b := ReadChanges(k, u);
        PlaceFacts(rs, coarse, a, b, 0);
      }
      found := true;
    }

    /** Adds up adjacent unchanged records that end at record `k`. */
    method ReadKeepsBack(ghost k: int) returns (ghost j: int)
      requires Log() && 0 < k <= |rs| && index == Off(rs, k) && Boundary(rs, coarse, k) && rs[k - 1].Keep?
      modifies this`index, this`oldLength, this`newLength, this`changed
      ensures 0 <= j < k && Group(rs, coarse, j, k) && index == Off(rs, j) && !changed && rs[j].Keep?
      ensures oldLength == OldUpTo(rs, k) - OldUpTo(rs, j) && newLength == NewUpTo(rs, k) - NewUpTo(rs, j)
    {
      hide Units, Off, Head, Tail, OldUpTo, NewUpTo;
      LastOf(rs, k);
      UpToNext(rs, k - 1);
      index := index - 1;
      var u := units[index];
      changed, oldLength := false, u + 1;
      j := k - 1;
      AtRecord(rs, j);
      if j > 0 { LastOf(rs, j); }
      while index > 0 && units[index - 1] <= MAX_UNCHANGED
        invariant 0 <= j < k && index == Off(rs, j) <= |units| && !changed
        invariant index > 0 <==> j > 0
        invariant j > 0 ==> (rs[j - 1].Keep? <==> units[index - 1] <= MAX_UNCHANGED)
        invariant j > 0 && rs[j - 1].Keep? ==> units[index - 1] == rs[j - 1].n - 1 && Off(rs, j - 1) == Off(rs, j) - 1
        invariant forall t :: j <= t < k ==> rs[t].Keep?
        invariant oldLength == OldUpTo(rs, k) - OldUpTo(rs, j)
        decreases j
      {
        u := units[index - 1];
        index := index - 1;
        oldLength := oldLength + u + 1;
        UpToNext(rs, j - 1);
        j := j - 1;
        AtRecord(rs, j);
        if j > 0 { LastOf(rs, j); }
      }
      newLength := oldLength;
      ReplOver(rs, j, k);
      GroupBack(rs, coarse, j, k);
    }

    /** Backs up from the end of the change record `k` to its head and reads its
        lengths. */
    method ReadChangeBack(ghost k: int) returns (m: int, n: int)
      requires Log() && 0 <= k < |rs| && rs[k].Long? && index == Off(rs, k + 1)
      modifies this`index
      ensures m == rs[k].m && n == rs[k].n && index == Off(rs, k)
    {
      hide Units, Off, Head, Tail;
      RecordUnits(rs, k);
      HeadOf(rs, k);
      TailUnits(rs, k);
      index := index - 1;
      var u := units[index];
      while u > 0x7fff
        invariant Off(rs, k) <= index < Off(rs, k + 1) && u == units[index]
        decreases index
      {
        index := index - 1;
        u := units[index];
      }
      var headIndex := index;
      index := index + 1;
      m, n := ReadLong(k, u);
      index := headIndex;
    }

    /** Assembles the change group that ends at record `k`. */
    method ReadChangesBack(ghost k: int) returns (ghost j: int)
      requires Log() && 0 < k <= |rs| && !rs[k - 1].Keep? && Boundary(rs, coarse, k) && remaining == 0
      requires index == Off(rs, k)
      modifies this`index, this`oldLength, this`newLength, this`changed, this`remaining
      ensures 0 <= j < k && Group(rs, coarse, j, k) && index == Off(rs, j) && changed && !rs[j].Keep?
      ensures oldLength == OldLen(rs, coarse, j, k) && newLength == NewLen(rs, coarse, j, k)
      ensures remaining == if Count(rs, coarse, j) > 1 then 1 else 0
    {
      hide Units, Off, Head, Tail, OldUpTo, NewUpTo;
      LastOf(rs, k);
      UpToNext(rs, k - 1);
      changed := true;
      j := k - 1;
      var u := units[index - 1];
      if u <= MAX_SHORT_CHANGE {
        index := index - 1;
        var num := u % 0x200 + 1;
        if coarse {
          oldLength, newLength := num * (u / 0x1000), num * (u / 0x200 % 8);
          Commute(num, u / 0x1000);
          Commute(num, u / 0x200 % 8);
        } else {
          oldLength, newLength := u / 0x1000, u / 0x200 % 8;
          if num > 1 {
            remaining := 1;
          }
        }
      } else {
        oldLength, newLength := ReadChangeBack(j);
      }
      if coarse {
        j := CombineBack(k, j);
      }
      GroupBack(rs, coarse, j, k);
    }

    /** Joins the changes before record `j0`, stepping over trail units. */
    method CombineBack(ghost k: int, ghost j0: int) returns (ghost j: int)
      requires Log() && 0 <= j0 < k <= |rs| && index == Off(rs, j0)
      requires forall t :: j0 <= t < k ==> !rs[t].Keep?
      requires oldLength == OldUpTo(rs, k) - OldUpTo(rs, j0) && newLength == NewUpTo(rs, k) - NewUpTo(rs, j0)
      modifies this`index, this`oldLength, this`newLength
      ensures 0 <= j <= j0 && index == Off(rs, j) && (forall t :: j <= t < k ==> !rs[t].Keep?)
      ensures j == 0 || rs[j - 1].Keep?
      ensures oldLength == OldUpTo(rs, k) - OldUpTo(rs, j) && newLength == NewUpTo(rs, k) - NewUpTo(rs, j)
    {
      hide Units, Off, Head, Tail, OldUpTo, NewUpTo;
      j := j0;
      AtRecord(rs, j);
      if j > 0 { LastOf(rs, j); InsideRecord(rs, j - 1); }
      while index > 0 && units[index - 1] > MAX_UNCHANGED
        invariant 0 <= j <= j0 && (forall t :: j <= t < k ==> !rs[t].Keep?)
        invariant j == 0 ==> index == 0 && index == Off(rs, 0)
        invariant j > 0 ==> Off(rs, j - 1) < index <= Off(rs, j)
        invariant j > 0 ==> (index == Off(rs, j) || !rs[j - 1].Keep?)
        invariant j > 0 ==> UnitsOf(rs, units, j - 1)
        invariant oldLength == OldUpTo(rs, k) - OldUpTo(rs, j) && newLength == NewUpTo(rs, k) - NewUpTo(rs, j)
        decreases index
      {
        var u := units[index - 1];
        index := index - 1;
        if u <= MAX_SHORT_CHANGE {
          var num := u % 0x200 + 1;
          UpToNext(rs, j - 1);
          oldLength := oldLength + (u / 0x1000) * num;
          newLength := newLength + (u / 0x200 % 8) * num;
          j := j - 1;
          AtRecord(rs, j);
          if j > 0 { InsideRecord(rs, j - 1); }
        } else if u <= 0x7fff {
          var headIndex := index;
          index := index + 1;
          var m, n := ReadLong(j - 1, u);
          UpToNext(rs, j - 1);
          oldLength, newLength := oldLength + m, newLength + n;
          index := headIndex;
          j := j - 1;
          AtRecord(rs, j);
          if j > 0 { InsideRecord(rs, j - 1); }
        }
      }
    }

    /** Moves to the previous span. */
    method Previous() returns (found: bool)
      requires Log() && (Valid() || AtGroupStart())
      modifies this
      ensures Valid() && found == (dir != 0) && (found ==> dir == -1)
      ensures old(dir) > 0 ==> found && a == old(a) && b == old(b) && sub == old(sub)
      ensures old(dir) < 0 && old(sub) > 0 ==> found && a == old(a) && b == old(b) && sub == old(sub) - 1
      ensures old(dir) == 0 || (old(dir) < 0 && old(sub) == 0) ==>
                if old(a) == 0 then !found && a == 0
                else found && b == old(a) && sub == Count(rs, coarse, a) - 1
    {
      hide Units, Off, Head, Tail, OldUpTo, NewUpTo, ReplUpTo, Group;
      ghost var t := if dir > 0 then b else a;
      PlaceFacts(rs, coarse, a, b, sub);
      if dir >= 0 {
        if dir > 0 {
          if remaining > 0 {
            index := index - 1;
            dir := -1;
            return true;
          }
          UpdateNextIndexes();
        }
        dir := -1;
      }
      if remaining > 0 {
        RecordUnits(rs, a);
        HeadOf(rs, a);
        var u := units[index];
        if remaining <= u % 0x200 {
          remaining := remaining + 1;
          UpdatePreviousIndexes();
          PlaceFacts(rs, coarse, a, b, sub - 1);
          sub := sub - 1;
          return true;
        }
        remaining := 0;
      }
      ghost var a0, turned := a, old(dir) > 0;
      found := ReadPrevious(t);
      if turned {
        GroupUnique(rs, coarse, a, a0, t);
      }
    }

    /** Assembles the group that ends at record `t` and stands on its last span. */
    method ReadPrevious(ghost t: int) returns (found: bool)
      requires Log() && 0 <= t <= |rs| && Boundary(rs, coarse, t)
      requires dir == -1 && remaining == 0 && index == Off(rs, t) && AtSums(t)
      modifies this
      ensures Valid() && found == (dir != 0) && (found ==> dir == -1)
      ensures found <==> t > 0
      ensures if found then OnSpan() && b == t && sub == Count(rs, coarse, a) - 1 else a == 0
    {
      hide Units, Off, Head, Tail, OldUpTo, NewUpTo, ReplUpTo, Group;
      AtRecord(rs, t);
      if index <= 0 {
        NoNext(0);
        return false;
      }
      LastOf(rs, t);
      if units[index - 1] <= MAX_UNCHANGED {
        a := ReadKeepsBack(t);
      } else {
        a := ReadChangesBack(t);
      }
      b, sub := t, Count(rs, coarse, a) - 1;
      CountPositive(rs, coarse, a);
      PlaceFacts(rs, coarse, a, b, sub);
      UpdatePreviousIndexes();
      found := true;
    }

    /** The iterator has moved to the group starting at record `k`, or to the
        next change from there. */
    ghost predicate Arrived(k: int, changesOnly: bool, found: bool)
      requires Valid() && 0 <= k <= |rs|
      reads this
    {
      && sub == 0 && (!found ==> a == |rs|)
      && if changesOnly && k < |rs| && rs[k].Keep? then k < a && Group(rs, coarse, k, a) else a == k
    }
  }

  /** What being on span `sub` of a group means for offsets and sums. */
  lemma PlaceFacts(rs: seq<Record>, coarse: bool, a: int, b: int, sub: int)
    requires AllValid(rs)
    ensures Group(rs, coarse, a, b) && 0 <= sub < Count(rs, coarse, a) ==>
              var c, o, n := Count(rs, coarse, a), OldLen(rs, coarse, a, b), NewLen(rs, coarse, a, b);
              && 0 <= a < b <= |rs| && Boundary(rs, coarse, a) && Boundary(rs, coarse, b)
              && (c > 1 ==> Off(rs, b) == Off(rs, a) + 1 && !rs[a].Keep?)
              && (sub + 1) * o == sub * o + o && (sub + 1) * n == sub * n + n
              && (sub + 1 == c ==>
                    && OldUpTo(rs, a) + sub * o + o == OldUpTo(rs, b)
                    && NewUpTo(rs, a) + sub * n + n == NewUpTo(rs, b)
                    && ReplUpTo(rs, b) == ReplUpTo(rs, a) + (if rs[a].Keep? then 0 else sub * n + n))
              && (rs[a].Keep? && b < |rs| ==> !rs[b].Keep?)
              && (c == 1 ==> OldUpTo(rs, a) + 0 * o == OldUpTo(rs, a))
              && 0 * o == 0 && 0 * n == 0
  {
    hide Units, Off, Head, Tail, OldUpTo, NewUpTo, ReplUpTo;
    if Group(rs, coarse, a, b) && 0 <= sub < Count(rs, coarse, a) {
      GroupTotal(rs, coarse, a, b);
      GroupKinds(rs, coarse, a, b);
      if Count(rs, coarse, a) > 1 {
        RecordUnits(rs, a);
        HeadOf(rs, a);
      }
      Distribute(sub, OldLen(rs, coarse, a, b));
      Distribute(sub, NewLen(rs, coarse, a, b));
    }
  }

  lemma CountPositive(rs: seq<Record>, coarse: bool, a: int)
    requires AllValid(rs) && 0 <= a < |rs|
    ensures Count(rs, coarse, a) >= 1
    ensures rs[a].Keep? ==> Count(rs, coarse, a) == 1
  {}

  /** Only one group ends at a boundary. */
  lemma GroupUnique(rs: seq<Record>, coarse: bool, a: int, c: int, b: int)
    requires Group(rs, coarse, a, b) && Group(rs, coarse, c, b)
    ensures a == c
  {}

  lemma TailUnits(rs: seq<Record>, k: int)
    requires AllValid(rs) && 0 <= k < |rs|
    ensures Off(rs, k + 1) <= |Units(rs)|
    ensures forall i :: Off(rs, k) < i < Off(rs, k + 1) ==> Units(rs)[i] >= TRAIL
  {
    RecordUnits(rs, k);
    var u, t := Units(rs), Tail(rs[k]);
    forall i | Off(rs, k) < i < Off(rs, k + 1) ensures u[i] >= TRAIL {
      assert u[Off(rs, k) + 1..Off(rs, k + 1)][i - Off(rs, k) - 1] == u[i];
    }
  }

  /** The last unit of the record before `k`. */
  lemma LastOf(rs: seq<Record>, k: int)
    requires AllValid(rs) && 0 < k <= |rs|
    ensures 0 <= Off(rs, k - 1) < Off(rs, k) <= |Units(rs)|
    ensures var u, r := Units(rs)[Off(rs, k) - 1], rs[k - 1];
            && (r.Keep? <==> u <= MAX_UNCHANGED) && (r.Short? <==> MAX_UNCHANGED < u <= MAX_SHORT_CHANGE)
            && (r.Keep? ==> u == r.n - 1) && (!r.Long? ==> Off(rs, k - 1) == Off(rs, k) - 1)
            && (r.Short? ==> u / 0x1000 == r.m && u / 0x200 % 8 == r.n && u % 0x200 + 1 == r.count)
  {
    hide Units, Off, Head, Tail;
    RecordUnits(rs, k - 1);
    HeadOf(rs, k - 1);
    TailUnits(rs, k - 1);
  }

  /** All units of record `k`: a head, then trail units. */
  ghost predicate UnitsOf(rs: seq<Record>, units: seq<int>, k: int)
    requires AllValid(rs) && 0 <= k < |rs|
  {
    && 0 <= Off(rs, k) < Off(rs, k + 1) <= |units| && units[Off(rs, k)] == Head(rs[k])
    && (forall i :: Off(rs, k) < i < Off(rs, k + 1) ==> units[i] >= TRAIL)
    && (!rs[k].Long? ==> Off(rs, k + 1) == Off(rs, k) + 1)
    && (rs[k].Keep? <==> Head(rs[k]) <= MAX_UNCHANGED)
    && (rs[k].Short? <==> MAX_UNCHANGED < Head(rs[k]) <= MAX_SHORT_CHANGE)
    && (rs[k].Short? ==> Head(rs[k]) / 0x1000 == rs[k].m && Head(rs[k]) / 0x200 % 8 == rs[k].n)
    && (rs[k].Short? ==> Head(rs[k]) % 0x200 + 1 == rs[k].count) && Head(rs[k]) <= 0x7fff
  }

  lemma InsideRecord(rs: seq<Record>, k: int)
    requires AllValid(rs) && 0 <= k < |rs|
    ensures UnitsOf(rs, Units(rs), k)
  {
    hide Units, Off, Head, Tail;
    RecordUnits(rs, k);
    HeadOf(rs, k);
    TailUnits(rs, k);
  }

  lemma Distribute(x: int, y: int)
    ensures (x + 1) * y == x * y + y
  {}

  lemma HeadOf(rs: seq<Record>, k: int)
    requires AllValid(rs) && 0 <= k < |rs|
    ensures rs[k].Keep? <==> Head(rs[k]) <= MAX_UNCHANGED
    ensures rs[k].Keep? ==> Head(rs[k]) == rs[k].n - 1 && Tail(rs[k]) == [] && rs[k].Old() == rs[k].n
    ensures rs[k].Short? <==> MAX_UNCHANGED < Head(rs[k]) <= MAX_SHORT_CHANGE
    ensures rs[k].Short? ==> Tail(rs[k]) == [] && Head(rs[k]) / 0x1000 == rs[k].m
    ensures rs[k].Short? ==> Head(rs[k]) / 0x200 % 8 == rs[k].n && Head(rs[k]) % 0x200 + 1 == rs[k].count
    ensures Head(rs[k]) <= 0x7fff
  {
    if rs[k].Short? { ShortRoundTrip(rs[k]); }
  }
}
