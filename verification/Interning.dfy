/** The chained interning table of hashtable.c: every distinct byte string gets
    the next number, until the table is reset. */
module Interning {

  datatype Option<+T> = None | Some(value: T)

  type Byte = x: int | 0 <= x < 256
  type Key = seq<Byte>

  const HASHTABLE_SIZE: nat := 8091
  const VALUE_MAX: int := 0x7fff_ffff_ffff_ffff
  const WORD: int := 0x1_0000_0000

  // ----- the specification: keys in first-seen order

  /** The numbers handed out so far are the positions of the keys. */
  ghost predicate Distinct(keys: seq<Key>) {
    forall i, j :: 0 <= i < j < |keys| ==> keys[i] != keys[j]
  }

  ghost function Position(keys: seq<Key>, k: Key): (p: nat)
    ensures p <= |keys|
    ensures p < |keys| ==> keys[p] == k
    ensures k in keys <==> p < |keys|
    ensures forall j :: 0 <= j < p ==> keys[j] != k
  {
    if keys == [] then 0
    else if keys[0] == k then 0
    else 1 + Position(keys[1..], k)
  }

  ghost function Seen(keys: seq<Key>, k: Key): seq<Key> {
    if k in keys then keys else keys + [k]
  }

  /** All keys seen after a sequence of requests. */
  ghost function SeenAll(keys: seq<Key>, requests: seq<Key>): seq<Key>
    decreases |requests|
  {
    if requests == [] then keys else SeenAll(Seen(keys, requests[0]), requests[1..])
  }

  lemma SeenDistinct(keys: seq<Key>, k: Key)
    requires Distinct(keys)
    ensures Distinct(Seen(keys, k)) && keys <= Seen(keys, k)
  {}

  /** Numbers are stable, and the keys are the requests without repetitions. */
  lemma {:induction false} SeenAllKeeps(keys: seq<Key>, requests: seq<Key>)
    requires Distinct(keys)
    ensures Distinct(SeenAll(keys, requests)) && keys <= SeenAll(keys, requests)
    ensures forall r :: r in requests ==> r in SeenAll(keys, requests)
    ensures |SeenAll(keys, requests)| <= |keys| + |requests|
    decreases |requests|
  {
    if requests != [] {
      hide Distinct;
      SeenDistinct(keys, requests[0]);
      SeenAllKeeps(Seen(keys, requests[0]), requests[1..]);
      assert requests == [requests[0]] + requests[1..];
      var s := Seen(keys, requests[0]);
      assert requests[0] in s by { if requests[0] !in keys { assert s[|keys|] == requests[0]; } }
      assert forall r :: r in s ==> r in SeenAll(keys, requests);
    }
  }

  lemma PositionUnique(keys: seq<Key>, p: nat)
    requires Distinct(keys) && p < |keys|
    ensures Position(keys, keys[p]) == p
  {}

  /** One request more. */
  lemma {:induction false} SeenAllNext(keys: seq<Key>, requests: seq<Key>, k: Key)
    ensures SeenAll(keys, requests + [k]) == Seen(SeenAll(keys, requests), k)
    decreases |requests|
  {
    var more := requests + [k];
    if requests == [] {
      assert more[1..] == [];
      assert SeenAll(Seen(keys, k), []) == Seen(keys, k);
    } else {
      assert more[0] == requests[0] && more[1..] == requests[1..] + [k];
      SeenAllNext(Seen(keys, requests[0]), requests[1..], k);
    }
  }

  /** The numbers handed out are the positions of the requests. */
  ghost predicate Numbered(keys: seq<Key>, requests: seq<Key>, ids: seq<int>) {
    && |ids| == |requests|
    && forall i :: 0 <= i < |ids| ==> 0 <= ids[i] < |keys| && keys[ids[i]] == requests[i]
  }

  lemma NumberedGrows(keys: seq<Key>, more: seq<Key>, requests: seq<Key>, ids: seq<int>)
    requires Numbered(keys, requests, ids) && keys <= more
    ensures Numbered(more, requests, ids)
  {}

  // ----- hashing

  /** The djb2 polynomial in 33, without any limit. */
  function Polynomial(data: Key): (h: int)
    ensures h >= 0
  {
    if data == [] then 5381 else Polynomial(data[..|data| - 1]) * 33 + data[|data| - 1]
  }

  /** The djb2 hash in 32-bit arithmetic. */
  function Djb2(data: Key): (h: int)
    ensures 0 <= h < WORD
  {
    Polynomial(data) % WORD
  }

  function Bucket(data: Key): (h: int)
    ensures 0 <= h < HASHTABLE_SIZE
  {
    Djb2(data) % HASHTABLE_SIZE
  }

  lemma Djb2Step(data: Key, i: nat)
    requires i <= |data|
    ensures Djb2(data[..0]) == 5381
    ensures i < |data| ==> Djb2(data[..i + 1]) == (Djb2(data[..i]) * 33 + data[i]) % WORD
  {
    if i < |data| {
      assert data[..i + 1][..i] == data[..i];
      var h, c := Polynomial(data[..i]), data[i];
      assert h * 33 + c == (h % WORD) * 33 + c + (h / WORD * 33) * WORD;
      ModShift((h % WORD) * 33 + c, h / WORD * 33);
    }
  }

  lemma WrapOnce(h: int, c: int)
    requires 0 <= h < WORD
    ensures (((h * 32) % WORD + h) % WORD + c) % WORD == (h * 33 + c) % WORD
  {
    var s := (h * 32) % WORD;
    var t := (s + h) % WORD;
    var k := (h * 32) / WORD + (s + h) / WORD;
    assert h * 33 + c == t + c + k * WORD;
    ModShift(t + c, k);
  }

  lemma {:induction false} ModShift(x: int, k: nat)
    ensures (x + k * WORD) % WORD == x % WORD
    decreases k
  {
    if k > 0 {
      ModShift(x, k - 1);
      assert x + k * WORD == (x + (k - 1) * WORD) + WORD;
    }
  }

  /** Shift-and-add, wrapping at 32 bits after every addition. */
  method Hash(data: Key) returns (h: int)
    ensures h == Djb2(data)
  {
    hide Djb2;
    Djb2Step(data, 0);
    h := 5381;
    for i := 0 to |data|
      invariant h == Djb2(data[..i])
    {
      Djb2Step(data, i);
      WrapOnce(h, data[i]);
      var shifted := (h * 32) % WORD;
      h := ((shifted + h) % WORD + data[i]) % WORD;
    }
    assert data[..|data|] == data;
  }

  // ----- the table

  datatype Chain = Nil | Cons(value: int, text: Key, next: Chain)

  ghost predicate Has(c: Chain, value: int, text: Key) {
    c.Cons? && ((c.value == value && c.text == text) || Has(c.next, value, text))
  }

  /** Every tuple of the chain is a seen key of this bucket with its number. */
  ghost predicate ChainOf(c: Chain, bucket: int, keys: seq<Key>) {
    c.Cons? ==>
      && 0 <= c.value < |keys| && keys[c.value] == c.text && Bucket(c.text) == bucket
      && ChainOf(c.next, bucket, keys)
  }

  lemma {:induction false} ChainGrows(c: Chain, bucket: int, keys: seq<Key>, k: Key)
    requires ChainOf(c, bucket, keys)
    ensures ChainOf(c, bucket, keys + [k])
    decreases c
  {
    if c.Cons? { ChainGrows(c.next, bucket, keys, k); }
  }

  ghost predicate Table(table: seq<Chain>, keys: seq<Key>) {
    && |table| == HASHTABLE_SIZE && Distinct(keys)
    && (forall h :: 0 <= h < |table| ==> ChainOf(table[h], h, keys))
    && (forall v :: 0 <= v < |keys| ==> Has(table[Bucket(keys[v])], v, keys[v]))
  }

  lemma TableInsert(table: seq<Chain>, keys: seq<Key>, k: Key)
    requires Table(table, keys) && k !in keys
    ensures Table(table[Bucket(k) := Cons(|keys|, k, table[Bucket(k)])], keys + [k])
  {
    var b := Bucket(k);
    var t := table[b := Cons(|keys|, k, table[b])];
    forall h | 0 <= h < |t| ensures ChainOf(t[h], h, keys + [k]) {
      ChainGrows(table[h], h, keys, k);
    }
    forall v | 0 <= v < |keys + [k]| ensures Has(t[Bucket((keys + [k])[v])], v, (keys + [k])[v]) {
      if v < |keys| {
        assert (keys + [k])[v] == keys[v] && Has(table[Bucket(keys[v])], v, keys[v]);
      }
    }
  }

  class Interner {
    const table: array<Chain>
    var nextValue: int
    ghost var keys: seq<Key>

    ghost predicate Valid()
      reads this, table
    {
      Table(table[..], keys) && nextValue == |keys| && nextValue <= VALUE_MAX
    }

    constructor ()
      ensures Valid() && keys == [] && fresh(table)
    {
      table := new Chain[HASHTABLE_SIZE](_ => Nil);
      nextValue := 0;
      keys := [];
    }

    /** The number of `data`, a new one if it has not been seen; fails only
        when the numbers are used up. */
    method GetValue(data: Key) returns (r: Option<int>)
      requires Valid()
      modifies this, table
      ensures Valid()
      ensures r.None? <==> old(data !in keys && nextValue == VALUE_MAX)
      ensures r.None? ==> keys == old(keys)
      ensures r.Some? ==> keys == Seen(old(keys), data)
      ensures r.Some? ==> 0 <= r.value < |keys| && keys[r.value] == data
    {
      var hash := Hash(data);
      var b := hash % HASHTABLE_SIZE;
      var tuple := table[b];
      assert ChainOf(table[..][b], b, keys);
      while tuple.Cons? && !(|data| == |tuple.text| && data == tuple.text)
        invariant ChainOf(tuple, b, keys)
        invariant forall v :: 0 <= v < |keys| && keys[v] == data ==> Has(tuple, v, data)
        decreases tuple
      {
        tuple := tuple.next;
      }
      if tuple.Nil? {
        if nextValue == VALUE_MAX {
          return None;
        }
        TableInsert(table[..], keys, data);
        tuple := Cons(nextValue, data, table[b]);
        nextValue := nextValue + 1;
        table[b] := tuple;
        keys := keys + [data];
        assert table[..] == old(table[..])[b := tuple];
      }
      r := Some(tuple.value);
    }

    /** The number of values handed out; resets the table. */
    method GetHashMax() returns (hashMax: int)
      requires Valid()
      modifies this, table
      ensures hashMax == old(|keys|)
      ensures Valid() && keys == []
    {
      hashMax := nextValue;
      for i := 0 to HASHTABLE_SIZE
        invariant forall h :: 0 <= h < i ==> table[h] == Nil
      {
        table[i] := Nil;
      }
      nextValue := 0;
      keys := [];
    }
  }

  /** Numbers a sequence of byte strings. Between two resets equal numbers mean
      equal strings, and every number is below the count that sizes the tables
      indexed by it. */
  method InternAll(t: Interner, requests: seq<Key>) returns (ids: seq<int>)
    requires t.Valid() && |t.keys| + |requests| <= VALUE_MAX
    modifies t, t.table
    ensures t.Valid() && t.keys == SeenAll(old(t.keys), requests) && |t.keys| <= old(|t.keys|) + |requests|
    ensures |ids| == |requests| && forall i :: 0 <= i < |ids| ==> ids[i] == Position(t.keys, requests[i]) < |t.keys|
    ensures Numbered(t.keys, requests, ids) && old(t.keys) <= t.keys
    ensures forall i, j :: 0 <= i < |ids| && 0 <= j < |ids| ==> (ids[i] == ids[j] <==> requests[i] == requests[j])
  {
    hide Interner.Valid, Numbered, Seen, SeenAll, Distinct, Position;
    ghost var first := t.keys;
    CountedDistinct(t);
    ids := [];
    NumberedNothing(first);
    SeenAllNothing(first);
    assert requests[..0] == [];
    for k := 0 to |requests|
      invariant t.Valid() && |t.keys| <= |first| + k
      invariant t.keys == SeenAll(first, requests[..k])
      invariant Numbered(t.keys, requests[..k], ids)
    {
      ghost var keys := t.keys;
      CountedDistinct(t);
      assert requests[..k + 1] == requests[..k] + [requests[k]];
      SeenAllNext(first, requests[..k], requests[k]);
      SeenLength(keys, requests[k]);
      var r := t.GetValue(requests[k]);
      NumberedNext(keys, t.keys, requests[..k], ids, requests[k], r.value);
      ids := ids + [r.value];
    }
    assert requests[..|requests|] == requests;
    SeenAllKeeps(first, requests);
    NumberedPositions(t.keys, requests, ids);
  }

  lemma CountedDistinct(t: Interner)
    requires t.Valid()
    ensures t.nextValue == |t.keys| && Distinct(t.keys)
  {}

  lemma SeenAllNothing(keys: seq<Key>)
    ensures SeenAll(keys, []) == keys
  {}

  lemma SeenLength(keys: seq<Key>, k: Key)
    ensures |keys| <= |Seen(keys, k)| <= |keys| + 1
  {}

  lemma NumberedNothing(keys: seq<Key>)
    ensures Numbered(keys, [], [])
  {}

  lemma NumberedNext(keys: seq<Key>, more: seq<Key>, requests: seq<Key>, ids: seq<int>, k: Key, id: int)
    requires Numbered(keys, requests, ids) && more == Seen(keys, k) && 0 <= id < |more| && more[id] == k
    ensures Numbered(more, requests + [k], ids + [id])
  {}

  lemma NumberedPositions(keys: seq<Key>, requests: seq<Key>, ids: seq<int>)
    requires Distinct(keys) && Numbered(keys, requests, ids)
    ensures |ids| == |requests|
    ensures forall i :: 0 <= i < |ids| ==> ids[i] == Position(keys, requests[i]) < |keys|
    ensures forall i, j :: 0 <= i < |ids| && 0 <= j < |ids| ==> (ids[i] == ids[j] <==> requests[i] == requests[j])
  {
    forall i | 0 <= i < |ids| ensures ids[i] == Position(keys, requests[i]) < |keys| {
      PositionUnique(keys, ids[i]);
    }
  }
}
