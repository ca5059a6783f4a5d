/** An ordered map from indexes, as the sequence of its pairs in key order. */
module SortedMap {
  import opened Bytes

  type SortedMap<V> = seq<(nat, V)>

  ghost predicate Ascending<V>(m: SortedMap<V>) {
    forall i, j :: 0 <= i < j < |m| ==> m[i].0 < m[j].0
  }

  function Get<V>(m: SortedMap<V>, key: nat): Option<V> {
    if m == [] then None else if m[0].0 == key then Some(m[0].1) else Get(m[1..], key)
  }

  function Put<V>(m: SortedMap<V>, key: nat, value: V): SortedMap<V> {
    if m == [] || key < m[0].0 then [(key, value)] + m
    else if m[0].0 == key then [(key, value)] + m[1..]
    else [m[0]] + Put(m[1..], key, value)
  }

  /** Erases every key at or above `key`. */
  function EraseFrom<V>(m: SortedMap<V>, key: nat): SortedMap<V> {
    if m == [] || m[0].0 >= key then [] else [m[0]] + EraseFrom(m[1..], key)
  }

  /** Erases every key up to and including `key`. */
  function EraseThrough<V>(m: SortedMap<V>, key: nat): SortedMap<V> {
    if m == [] || m[0].0 > key then m else EraseThrough(m[1..], key)
  }

  /** Consecutive keys from `start`. */
  function Numbered<V>(start: nat, values: seq<V>): (m: SortedMap<V>)
    ensures |m| == |values|
    decreases values
  {
    if values == [] then [] else [(start, values[0])] + Numbered(start + 1, values[1..])
  }

  lemma NumberedNothing<V>(start: nat)
    ensures Numbered<V>(start, []) == []
  {
  }

  lemma NumberedTail<V>(start: nat, values: seq<V>)
    requires values != []
    ensures var m := Numbered(start, values);
            m != [] && m[0] == (start, values[0]) && m[1..] == Numbered(start + 1, values[1..])
  {
  }

  lemma {:induction false} NumberedAt<V>(start: nat, values: seq<V>, i: nat)
    requires i < |values|
    ensures Numbered(start, values)[i] == (start + i, values[i])
    decreases values
  {
    if i > 0 {
      NumberedAt(start + 1, values[1..], i - 1);
    }
  }

  lemma {:induction false} NumberedSnoc<V>(start: nat, values: seq<V>, value: V)
    ensures Numbered(start, values + [value]) == Numbered(start, values) + [(start + |values|, value)]
    decreases values
  {
    if values == [] {
      assert (values + [value])[1..] == [];
    } else {
      NumberedSnoc(start + 1, values[1..], value);
      assert (values + [value])[1..] == values[1..] + [value];
    }
  }

  lemma {:induction false} PutNext<V>(start: nat, values: seq<V>, value: V)
    ensures Put(Numbered(start, values), start + |values|, value) == Numbered(start, values + [value])
    decreases values
  {
    if values == [] {
      assert (values + [value])[1..] == [];
    } else {
      PutNext(start + 1, values[1..], value);
      assert (values + [value])[1..] == values[1..] + [value];
    }
  }

  lemma {:induction false} PutLast<V>(m: SortedMap<V>, key: nat, value: V)
    requires forall i :: 0 <= i < |m| ==> m[i].0 < key
    ensures Put(m, key, value) == m + [(key, value)]
  {
    if m != [] {
      PutLast(m[1..], key, value);
      assert m == [m[0]] + m[1..];
    }
  }

  lemma {:induction false} GetNumbered<V>(start: nat, values: seq<V>, key: nat)
    ensures Get(Numbered(start, values), key) ==
            if start <= key < start + |values| then Some(values[key - start]) else None
    decreases values
  {
    if values != [] && key != start {
      GetNumbered(start + 1, values[1..], key);
    }
  }

  /** How many of `count` consecutive keys from `start` lie below `key`. */
  function Below(start: nat, count: nat, key: nat): (n: nat)
    ensures n <= count
  {
    if key <= start then 0 else if key - start <= count then key - start else count
  }

  lemma {:induction false} EraseFromNumbered<V>(start: nat, values: seq<V>, key: nat)
    ensures EraseFrom(Numbered(start, values), key) == Numbered(start, values[..Below(start, |values|, key)])
    decreases values
  {
    var n := Below(start, |values|, key);
    if values != [] && start < key {
      EraseFromNumbered(start + 1, values[1..], key);
      assert values[..n][1..] == values[1..][..n - 1];
    }
  }

  lemma BelowStep(start: nat, count: nat, key: nat)
    ensures key < start || count == 0 ==> Below(start, count, key + 1) == 0
    ensures start <= key && count > 0 ==> Below(start, count, key + 1) == 1 + Below(start + 1, count - 1, key + 1)
  {
  }

  lemma EraseThroughNothing<V>(key: nat)
    ensures EraseThrough<V>([], key) == []
  {
  }

  lemma EraseThroughHead<V>(m: SortedMap<V>, key: nat)
    requires m != []
    ensures EraseThrough(m, key) == if m[0].0 > key then m else EraseThrough(m[1..], key)
  {
  }

  lemma {:induction false} EraseThroughNumbered<V>(start: nat, values: seq<V>, key: nat)
    ensures var n := Below(start, |values|, key + 1);
            EraseThrough(Numbered(start, values), key) == Numbered(start + n, values[n..])
    decreases values
  {
    hide Numbered, EraseThrough, Below;
    BelowStep(start, |values|, key);
    var n := Below(start, |values|, key + 1);
    if values == [] {
      NumberedNothing<V>(start);
      EraseThroughNothing<V>(key);
      assert values[n..] == [];
    } else {
      NumberedTail(start, values);
      EraseThroughHead(Numbered(start, values), key);
      if start <= key {
        EraseThroughNumbered(start + 1, values[1..], key);
        assert values[1..][n - 1..] == values[n..];
      } else {
        assert values[n..] == values;
      }
    }
  }
}
