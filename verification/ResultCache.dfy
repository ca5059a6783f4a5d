/** The bounded cache that hands each committed entry's result to the proposal waiting for it. */
module ResultCache {
  import opened Bytes
  import opened SortedMap

  const CAPACITY := 65536

  datatype Event<V> = Committed(index: nat, result: V) | Taken(index: nat) | Installed

  function Remove<V>(m: SortedMap<V>, key: nat): SortedMap<V> {
    if m == [] then [] else if m[0].0 == key then m[1..] else [m[0]] + Remove(m[1..], key)
  }

  /** Erases the smallest keys until the cache is within its capacity. */
  function Trim<V>(m: SortedMap<V>): SortedMap<V>
    decreases |m|
  {
    if |m| > CAPACITY then Trim(m[1..]) else m
  }

  function Step<V>(m: SortedMap<V>, e: Event<V>): SortedMap<V> {
    match e
    case Committed(index, result) => Trim(Put(m, index, result))
    case Taken(index) => Remove(m, index)
    case Installed => []
  }

  function CacheAfter<V>(events: seq<Event<V>>): SortedMap<V> {
    if events == [] then [] else Step(CacheAfter(events[..|events| - 1]), events[|events| - 1])
  }

  /** Commits come in increasing index order. */
  ghost predicate InOrder<V>(events: seq<Event<V>>) {
    forall i, j :: 0 <= i < j < |events| && events[i].Committed? && events[j].Committed? ==>
                     events[i].index < events[j].index
  }

  function Commits<V>(events: seq<Event<V>>): nat {
    if events == [] then 0 else Commits(events[..|events| - 1]) + (if events[|events| - 1].Committed? then 1 else 0)
  }

  // ---- Facts about the map ----

  lemma {:induction false} GetAt<V>(m: SortedMap<V>, k: nat)
    requires Ascending(m) && k < |m|
    ensures Get(m, m[k].0) == Some(m[k].1)
  {
    if k > 0 {
      GetAt(m[1..], k - 1);
    }
  }

  lemma {:induction false} GetFound<V>(m: SortedMap<V>, key: nat) returns (k: nat)
    requires Get(m, key).Some?
    ensures k < |m| && m[k] == (key, Get(m, key).value)
  {
    if m[0].0 == key {
      k := 0;
    } else {
      k := GetFound(m[1..], key);
      k := k + 1;
    }
  }

  /** Removing splices out the pair with the key, if there is one. */
  lemma {:induction false} RemoveSplices<V>(m: SortedMap<V>, key: nat) returns (k: nat)
    ensures k < |m| ==> m[k].0 == key && Remove(m, key) == m[..k] + m[k + 1..]
    ensures k >= |m| ==> Remove(m, key) == m && forall i :: 0 <= i < |m| ==> m[i].0 != key
  {
    if m == [] {
      k := 0;
    } else if m[0].0 == key {
      k := 0;
    } else {
      var j := RemoveSplices(m[1..], key);
      k := j + 1;
      assert m == [m[0]] + m[1..];
      if j < |m[1..]| {
        assert [m[0]] + (m[1..][..j] + m[1..][j + 1..]) == m[..k] + m[k + 1..];
      }
    }
  }

  lemma RemoveAt<V>(m: SortedMap<V>, key: nat)
    requires Ascending(m)
    ensures Ascending(Remove(m, key)) && |Remove(m, key)| <= |m|
    ensures forall i :: 0 <= i < |Remove(m, key)| ==> Remove(m, key)[i] in m && Remove(m, key)[i].0 != key
  {
    hide Remove;
    var k := RemoveSplices(m, key);
  }

  lemma RemoveKeeps<V>(m: SortedMap<V>, key: nat, i: nat)
    requires Ascending(m) && i < |m| && m[i].0 != key
    ensures Remains(Remove(m, key), m[i], |m| - 1 - i)
  {
    hide Remove;
    var k := RemoveSplices(m, key);
    var r := Remove(m, key);
    assert r[if k < i then i - 1 else i] == m[i];
  }

  /** The pair is in the map with at most `later` pairs after it. */
  ghost predicate Remains<V>(m: SortedMap<V>, pair: (nat, V), later: int) {
    exists p :: 0 <= p < |m| && m[p] == pair && |m| - 1 - p <= later
  }

  lemma GetRemoved<V>(m: SortedMap<V>, key: nat, other: nat)
    requires Ascending(m) && key != other
    ensures Get(Remove(m, key), other) == Get(m, other)
  {
    hide Remove, Get;
    var r := Remove(m, key);
    RemoveAt(m, key);
    if Get(m, other).Some? {
      var k := GetFound(m, other);
      RemoveKeeps(m, key, k);
      var p :| 0 <= p < |r| && r[p] == m[k];
      GetAt(r, p);
    } else if Get(r, other).Some? {
      var k := GetFound(r, other);
      var p :| 0 <= p < |m| && m[p] == r[k];
      GetAt(m, p);
    }
  }

  // ---- Runs ----

  /** Ordered, within capacity, and holding only results committed under their own index. */
  ghost predicate Sound<V>(m: SortedMap<V>, events: seq<Event<V>>) {
    && Ascending(m) && |m| <= CAPACITY
    && forall i :: 0 <= i < |m| ==> Committed(m[i].0, m[i].1) in events
  }

  /** Over any run with increasing indexes the cache is sound. */
  lemma {:induction false} CacheBounded<V>(events: seq<Event<V>>)
    requires InOrder(events)
    ensures Sound(CacheAfter(events), events)
  {
    hide Step, Sound;
    if events == [] {
      EmptySound<V>();
    } else {
      var before, e := events[..|events| - 1], events[|events| - 1];
      assert before + [e] == events;
      CacheBounded(before);
      SoundStep(CacheAfter(before), before, e);
    }
  }

  lemma EmptySound<V>()
    ensures Sound<V>([], [])
  {
  }

  /** A commit whose index is above all others is appended, and pushes out the first pair of a
      full cache. */
  lemma CommitAppends<V>(m: SortedMap<V>, before: seq<Event<V>>, e: Event<V>)
    requires Sound(m, before) && InOrder(before + [e]) && e.Committed?
    ensures var grown := m + [(e.index, e.result)];
            Step(m, e) == if |m| == CAPACITY then grown[1..] else grown
    ensures forall i :: 0 <= i < |m| ==> m[i].0 < e.index
  {
    forall i | 0 <= i < |m|
      ensures m[i].0 < e.index
    {
      var c := Committed(m[i].0, m[i].1);
      var j :| 0 <= j < |before| && before[j] == c;
      assert (before + [e])[j] == c && (before + [e])[|before|] == e;
    }
    PutLast(m, e.index, e.result);
    TrimOne(m + [(e.index, e.result)]);
  }

  lemma TrimOne<V>(m: SortedMap<V>)
    requires |m| <= CAPACITY + 1
    ensures Trim(m) == if |m| > CAPACITY then m[1..] else m
  {
    if |m| > CAPACITY {
      assert Trim(m[1..]) == m[1..];
    }
  }

  lemma SoundStep<V>(m: SortedMap<V>, before: seq<Event<V>>, e: Event<V>)
    requires Sound(m, before) && InOrder(before + [e])
    ensures Sound(Step(m, e), before + [e])
  {
    hide Trim, Put, Remove;
    match e {
      case Committed(_, _) => SoundCommit(m, before, e);
      case Taken(index) =>
        RemoveAt(m, index);
        var t := Remove(m, index);
        forall i | 0 <= i < |t|
          ensures Committed(t[i].0, t[i].1) in before + [e]
        {
          var k :| 0 <= k < |m| && m[k] == t[i];
        }
      case Installed =>
    }
  }

  lemma SoundCommit<V>(m: SortedMap<V>, before: seq<Event<V>>, e: Event<V>)
    requires Sound(m, before) && InOrder(before + [e]) && e.Committed?
    ensures Sound(Step(m, e), before + [e])
  {
    hide Step;
    CommitAppends(m, before, e);
    hide InOrder;
    var grown := m + [(e.index, e.result)];
    assert e in before + [e];
    forall i | 0 <= i < |grown|
      ensures Committed(grown[i].0, grown[i].1) in before + [e]
    {
      if i < |m| {
        assert Committed(m[i].0, m[i].1) in before;
      }
    }
  }

  /** A result handed out is the one committed under that index, and once handed out it is
      gone for good. */
  lemma HandedOutOnce<V>(events: seq<Event<V>>, p: nat, q: nat)
    requires InOrder(events) && p < q <= |events|
    requires events[p].Taken?
    requires forall j :: p <= j < q && events[j].Committed? ==> events[j].index != events[p].index
    ensures var i := events[p].index;
            && (Get(CacheAfter(events[..p]), i).Some? ==>
                  Committed(i, Get(CacheAfter(events[..p]), i).value) in events[..p])
            && Get(CacheAfter(events[..q]), i) == None
  {
    var i := events[p].index;
    CacheBounded(events[..p]);
    if Get(CacheAfter(events[..p]), i).Some? {
      var k := GetFound(CacheAfter(events[..p]), i);
    }
    StaysGone(events, p, q);
  }

  lemma {:induction false} StaysGone<V>(events: seq<Event<V>>, p: nat, q: nat)
    requires InOrder(events) && p < q <= |events| && events[p].Taken?
    requires forall j :: p <= j < q && events[j].Committed? ==> events[j].index != events[p].index
    ensures Get(CacheAfter(events[..q]), events[p].index) == None
    decreases q
  {
    hide Step, Get, Sound;
    var i := events[p].index;
    var before := events[..q - 1];
    assert events[..q][..q - 1] == before;
    CacheBounded(before);
    SoundAscends(CacheAfter(before), before);
    if q == p + 1 {
      TakenGone(CacheAfter(before), i);
    } else {
      StaysGone(events, p, q - 1);
      GoneStep(CacheAfter(before), events[q - 1], i);
    }
  }

  lemma TakenGone<V>(m: SortedMap<V>, i: nat)
    requires Ascending(m)
    ensures Get(Step(m, Taken(i)), i) == None
  {
    hide Remove, Get;
    RemoveAt(m, i);
    if Get(Remove(m, i), i).Some? {
      var k := GetFound(Remove(m, i), i);
    }
  }

  /** A step that does not commit the index does not bring it back. */
  lemma GoneStep<V>(m: SortedMap<V>, e: Event<V>, i: nat)
    requires Ascending(m) && |m| <= CAPACITY && Get(m, i) == None && (e.Committed? ==> e.index != i)
    ensures Get(Step(m, e), i) == None
  {
    hide Step, Get;
    var t := Step(m, e);
    if Get(t, i).Some? {
      var k := GetFound(t, i);
      StepKeeps(m, e, t[k]);
      var w :| 0 <= w < |m| && m[w] == t[k];
      GetAt(m, w);
    }
  }

  /** Installing a snapshot forgets every result, and none comes back unless it is committed
      again. */
  lemma {:induction false} InstalledForgets<V>(events: seq<Event<V>>, p: nat, q: nat, i: nat)
    requires InOrder(events) && p < q <= |events| && events[p].Installed?
    requires forall j :: p < j < q && events[j].Committed? ==> events[j].index != i
    ensures Get(CacheAfter(events[..q]), i) == None
    decreases q
  {
    var before := events[..q - 1];
    assert events[..q][..q - 1] == before;
    CacheBounded(before);
    SoundAscends(CacheAfter(before), before);
    if q > p + 1 {
      InstalledForgets(events, p, q - 1, i);
      GoneStep(CacheAfter(before), events[q - 1], i);
    }
  }

  /** A step adds nothing but the committed pair. */
  lemma StepKeeps<V>(m: SortedMap<V>, e: Event<V>, pair: (nat, V))
    requires Ascending(m) && |m| <= CAPACITY && pair in Step(m, e)
    ensures pair in m || (e.Committed? && pair == (e.index, e.result))
  {
    match e {
      case Committed(index, result) =>
        TrimWithin(Put(m, index, result));
        PutWithin(m, index, result);
      case Taken(index) =>
        RemoveAt(m, index);
      case Installed =>
    }
  }

  lemma {:induction false} TrimWithin<V>(m: SortedMap<V>)
    ensures forall i :: 0 <= i < |Trim(m)| ==> Trim(m)[i] in m
    decreases |m|
  {
    if |m| > CAPACITY {
      TrimWithin(m[1..]);
    }
  }

  lemma {:induction false} PutWithin<V>(m: SortedMap<V>, key: nat, value: V)
    ensures forall i :: 0 <= i < |Put(m, key, value)| ==>
                          Put(m, key, value)[i] in m || Put(m, key, value)[i] == (key, value)
  {
    if m != [] && key > m[0].0 {
      PutWithin(m[1..], key, value);
    }
  }

  /** An uncollected result is still there after fewer than 65,536 later commits, unless a
      snapshot was installed. */
  lemma {:induction false} UncollectedSurvives<V>(events: seq<Event<V>>, p: nat, q: nat)
    requires InOrder(events) && p < q <= |events| && events[p].Committed?
    requires forall j :: p < j < q ==> !events[j].Installed? && events[j] != Taken(events[p].index)
    requires Commits(events[..q]) - Commits(events[..p + 1]) < CAPACITY
    ensures Get(CacheAfter(events[..q]), events[p].index) == Some(events[p].result)
  {
    SurvivesNearEnd(events, p, q);
    CacheBounded(events[..q]);
    var m := CacheAfter(events[..q]);
    var k :| 0 <= k < |m| && m[k] == (events[p].index, events[p].result);
    GetAt(m, k);
  }

  lemma {:induction false} SurvivesNearEnd<V>(events: seq<Event<V>>, p: nat, q: nat)
    requires InOrder(events) && p < q <= |events| && events[p].Committed?
    requires forall j :: p < j < q ==> !events[j].Installed? && events[j] != Taken(events[p].index)
    requires Commits(events[..q]) - Commits(events[..p + 1]) < CAPACITY
    ensures var later := Commits(events[..q]) - Commits(events[..p + 1]);
            Remains(CacheAfter(events[..q]), (events[p].index, events[p].result), later)
    decreases q
  {
    hide Step, Sound;
    var pair := (events[p].index, events[p].result);
    var before, e := events[..q - 1], events[q - 1];
    assert events[..q][..q - 1] == before && before + [e] == events[..q];
    CacheBounded(before);
    var m := CacheAfter(before);
    if q == p + 1 {
      NewestRemains(m, before, e);
    } else {
      SurvivesNearEnd(events, p, q - 1);
      SurvivesStep(m, before, e, pair, Commits(before) - Commits(events[..p + 1]));
    }
  }

  lemma NewestRemains<V>(m: SortedMap<V>, before: seq<Event<V>>, e: Event<V>)
    requires Sound(m, before) && InOrder(before + [e]) && e.Committed?
    ensures Remains(Step(m, e), (e.index, e.result), 0)
  {
    hide Step;
    CommitAppends(m, before, e);
    var t := Step(m, e);
    assert t[|t| - 1] == (e.index, e.result);
  }

  lemma SoundAscends<V>(m: SortedMap<V>, events: seq<Event<V>>)
    requires Sound(m, events)
    ensures Ascending(m) && |m| <= CAPACITY
  {
  }

  lemma SurvivesCommit<V>(m: SortedMap<V>, before: seq<Event<V>>, e: Event<V>, pair: (nat, V), later: int)
    requires Sound(m, before) && InOrder(before + [e]) && e.Committed?
    requires Remains(m, pair, later) && later + 1 < CAPACITY
    ensures Remains(Step(m, e), pair, later + 1)
  {
    hide Step;
    CommitAppends(m, before, e);
    SoundAscends(m, before);
    hide Sound, InOrder, Ascending;
    var k :| 0 <= k < |m| && m[k] == pair && |m| - 1 - k <= later;
    assert Step(m, e)[if |m| == CAPACITY then k - 1 else k] == pair;
  }

  lemma SurvivesStep<V>(m: SortedMap<V>, before: seq<Event<V>>, e: Event<V>, pair: (nat, V), later: int)
    requires Sound(m, before) && InOrder(before + [e])
    requires Remains(m, pair, later) && !e.Installed? && e != Taken(pair.0)
    requires e.Committed? ==> later + 1 < CAPACITY
    ensures Remains(Step(m, e), pair, if e.Committed? then later + 1 else later)
  {
    hide Trim, Put, Remove, Sound, InOrder;
    if e.Committed? {
      SurvivesCommit(m, before, e, pair, later);
    } else {
      assert Ascending(m) by { SoundAscends(m, before); }
      var k :| 0 <= k < |m| && m[k] == pair && |m| - 1 - k <= later;
      RemoveKeeps(m, e.index, k);
    }
  }
}
