/** One replica: the state machine and its result cache, over every run of commits, collected
    results and installed images on one committed log. */
module Replicas {
  import opened Bytes
  import opened Commands
  import opened KvApply
  import opened SortedMap
  import opened Machine = KvStateMachine
  import Cache = ResultCache

  datatype Replica = Replica(state: State, recent: SortedMap<ApplyResult>)

  const FRESH := Replica(EMPTY, [])

  /** `commit` or `commit_config` of the entry after the last one applied. */
  function ApplyNext(r: Replica, entry: LogEntry, maxField: nat): Replica {
    var index := r.state.lastIndex + 1;
    match entry
    case App(data) =>
      var (state, result) := CommitData(r.state, index, data, maxField);
      Replica(state, Cache.Step(r.recent, Cache.Committed(index, result)))
    case Config => r.(state := ApplyEntry(r.state, index, entry, maxField))
  }

  /** `take_result`. */
  function Collected(r: Replica, index: nat): Replica {
    r.(recent := Cache.Step(r.recent, Cache.Taken(index)))
  }

  /** Starting from an image, or installing one: the cache is empty. */
  function FromImage(image: State): Replica {
    Replica(image, [])
  }

  /** The result of the command at `index` of the log, applied once where it stands. */
  function ResultOf(log: seq<LogEntry>, index: nat, maxField: nat): ApplyResult
    requires 0 < index <= |log| && log[index - 1].App?
  {
    CommitData(Replay(log[..index - 1], maxField), index, log[index - 1].data, maxField).1
  }

  // ---- The invariant ----

  predicate CachedOk(log: seq<LogEntry>, pair: (nat, ApplyResult), applied: nat, maxField: nat) {
    && 0 < pair.0 <= applied && pair.0 <= |log| && log[pair.0 - 1].App?
    && pair.1 == ResultOf(log, pair.0, maxField)
  }

  predicate OnPrefix(state: State, log: seq<LogEntry>, maxField: nat) {
    state.lastIndex <= |log| && state == Replay(log[..state.lastIndex], maxField)
  }

  /** The state is the replay of a prefix, and every cached result is that of its own entry. */
  ghost predicate Faithful(r: Replica, log: seq<LogEntry>, maxField: nat) {
    && OnPrefix(r.state, log, maxField)
    && Ascending(r.recent) && |r.recent| <= Cache.CAPACITY
    && forall i :: 0 <= i < |r.recent| ==> CachedOk(log, r.recent[i], r.state.lastIndex, maxField)
  }

  lemma EmptyOnPrefix(log: seq<LogEntry>, maxField: nat)
    ensures OnPrefix(EMPTY, log, maxField)
  {
    assert log[..0] == [];
  }

  lemma ImageFaithful(image: State, log: seq<LogEntry>, maxField: nat)
    requires OnPrefix(image, log, maxField)
    ensures Faithful(FromImage(image), log, maxField)
  {
  }

  lemma NextOnPrefix(state: State, log: seq<LogEntry>, maxField: nat)
    requires OnPrefix(state, log, maxField) && state.lastIndex < |log|
    ensures OnPrefix(ApplyEntry(state, state.lastIndex + 1, log[state.lastIndex], maxField), log, maxField)
    ensures ApplyEntry(state, state.lastIndex + 1, log[state.lastIndex], maxField).lastIndex == state.lastIndex + 1
  {
    hide CommitData;
    var k := state.lastIndex;
    assert log[..k + 1][..k] == log[..k];
    assert Replay(log[..k + 1], maxField) == ApplyEntry(state, k + 1, log[k], maxField);
  }

  /** A commit keeps the replica on the log and caches the result of the entry it applies. */
  lemma CommitFaithful(r: Replica, log: seq<LogEntry>, maxField: nat)
    requires Faithful(r, log, maxField) && r.state.lastIndex < |log|
    ensures Faithful(ApplyNext(r, log[r.state.lastIndex], maxField), log, maxField)
    ensures ApplyNext(r, log[r.state.lastIndex], maxField).state.lastIndex == r.state.lastIndex + 1
    ensures log[r.state.lastIndex].App? ==>
              Get(ApplyNext(r, log[r.state.lastIndex], maxField).recent, r.state.lastIndex + 1)
              == Some(ResultOf(log, r.state.lastIndex + 1, maxField))
  {
    hide OnPrefix, CachedOk, Ascending, CommitData, ResultOf, Replay, Cache.Step, Get;
    var k := r.state.lastIndex;
    NextOnPrefix(r.state, log, maxField);
    if log[k].Config? {
      CachedLater(r.recent, log, k, maxField);
    } else {
      var result := CommitData(r.state, k + 1, log[k].data, maxField).1;
      assert result == ResultOf(log, k + 1, maxField) by { ResultHere(r.state, log, maxField); }
      CommitCached(r.recent, log, k, result, maxField);
    }
  }

  lemma ResultHere(state: State, log: seq<LogEntry>, maxField: nat)
    requires OnPrefix(state, log, maxField) && state.lastIndex < |log| && log[state.lastIndex].App?
    ensures CommitData(state, state.lastIndex + 1, log[state.lastIndex].data, maxField).1
            == ResultOf(log, state.lastIndex + 1, maxField)
  {
    hide CommitData, Replay;
  }

  lemma CachedLater(m: SortedMap<ApplyResult>, log: seq<LogEntry>, applied: nat, maxField: nat)
    requires forall i :: 0 <= i < |m| ==> CachedOk(log, m[i], applied, maxField)
    ensures forall i :: 0 <= i < |m| ==> CachedOk(log, m[i], applied + 1, maxField)
  {
    hide ResultOf;
  }

  lemma CommitCached(m: SortedMap<ApplyResult>, log: seq<LogEntry>, k: nat, result: ApplyResult, maxField: nat)
    requires k < |log| && log[k].App? && result == ResultOf(log, k + 1, maxField)
    requires Ascending(m) && |m| <= Cache.CAPACITY
    requires forall i :: 0 <= i < |m| ==> CachedOk(log, m[i], k, maxField)
    ensures var t := Cache.Step(m, Cache.Committed(k + 1, result));
            && Ascending(t) && |t| <= Cache.CAPACITY && Get(t, k + 1) == Some(result)
            && forall i :: 0 <= i < |t| ==> CachedOk(log, t[i], k + 1, maxField)
  {
    hide ResultOf, Cache.Step, Get;
    CachedLater(m, log, k, maxField);
    CommitAppends(m, log, k, result, maxField);
    var t := Cache.Step(m, Cache.Committed(k + 1, result));
    var grown: SortedMap<ApplyResult> := m + [(k + 1, result)];
    assert forall i :: 0 <= i < |grown| ==> CachedOk(log, grown[i], k + 1, maxField);
    assert t[|t| - 1] == (k + 1, result);
    Cache.GetAt(t, |t| - 1);
  }

  /** A commit appends its pair, and pushes out the first one of a full cache. */
  lemma CommitAppends(m: SortedMap<ApplyResult>, log: seq<LogEntry>, k: nat, result: ApplyResult, maxField: nat)
    requires Ascending(m) && |m| <= Cache.CAPACITY
    requires forall i :: 0 <= i < |m| ==> CachedOk(log, m[i], k, maxField)
    ensures var grown := m + [(k + 1, result)];
            Cache.Step(m, Cache.Committed(k + 1, result)) == if |m| == Cache.CAPACITY then grown[1..] else grown
  {
    hide ResultOf, Cache.Trim, Put;
    PutLast(m, k + 1, result);
    Cache.TrimOne<ApplyResult>(m + [(k + 1, result)]);
  }

  lemma CollectFaithful(r: Replica, index: nat, log: seq<LogEntry>, maxField: nat)
    requires Faithful(r, log, maxField)
    ensures Faithful(Collected(r, index), log, maxField)
  {
    hide CachedOk, OnPrefix, Cache.Remove;
    Cache.RemoveAt(r.recent, index);
    var t := Cache.Remove(r.recent, index);
    forall i | 0 <= i < |t|
      ensures CachedOk(log, t[i], r.state.lastIndex, maxField)
    {
      var k :| 0 <= k < |r.recent| && r.recent[k] == t[i];
    }
  }

  /** Collecting hands a result out once: it is gone afterwards, and no other is. */
  lemma CollectTakes(r: Replica, index: nat, log: seq<LogEntry>, maxField: nat, other: nat)
    requires Faithful(r, log, maxField)
    ensures Get(Collected(r, index).recent, other) == if other == index then None else Get(r.recent, other)
    ensures Collected(r, index).state == r.state
  {
    hide CachedOk, OnPrefix, Cache.Remove, Get;
    if other == index {
      Cache.TakenGone(r.recent, index);
    } else {
      Cache.GetRemoved(r.recent, index, other);
    }
  }

  /** Growing the log changes nothing for a replica. */
  lemma PrefixStays(state: State, log: seq<LogEntry>, longer: seq<LogEntry>, maxField: nat)
    requires OnPrefix(state, log, maxField) && log <= longer
    ensures OnPrefix(state, longer, maxField)
  {
    hide Replay;
    assert longer[..state.lastIndex] == log[..state.lastIndex];
  }

  lemma FaithfulStays(r: Replica, log: seq<LogEntry>, longer: seq<LogEntry>, maxField: nat)
    requires Faithful(r, log, maxField) && log <= longer
    ensures Faithful(r, longer, maxField)
  {
    hide OnPrefix, Replay, CommitData;
    PrefixStays(r.state, log, longer, maxField);
    forall i | 0 <= i < |r.recent|
      ensures CachedOk(longer, r.recent[i], r.state.lastIndex, maxField)
    {
      var k := r.recent[i].0;
      assert CachedOk(log, r.recent[i], r.state.lastIndex, maxField);
      assert longer[..k - 1] == log[..k - 1] && longer[k - 1] == log[k - 1];
    }
  }

  /** What a faithful replica hands out for an index is the result of that index's own command. */
  lemma HandsOutOwnResult(r: Replica, index: nat, log: seq<LogEntry>, maxField: nat)
    requires Faithful(r, log, maxField) && Get(r.recent, index).Some?
    ensures 0 < index <= r.state.lastIndex <= |log| && log[index - 1].App?
    ensures Get(r.recent, index).value == ResultOf(log, index, maxField)
  {
    hide Get, ResultOf;
    var k := Cache.GetFound(r.recent, index);
    assert CachedOk(log, r.recent[k], r.state.lastIndex, maxField);
  }

  // ---- Runs ----

  /** `Install` brings the state another replica had after `index` entries. */
  datatype Event = CommitNext | Collect(index: nat) | Install(image: State)

  function Step(r: Replica, e: Event, log: seq<LogEntry>, maxField: nat): Replica {
    match e
    case CommitNext => if r.state.lastIndex < |log| then ApplyNext(r, log[r.state.lastIndex], maxField) else r
    case Collect(index) => Collected(r, index)
    case Install(image) => FromImage(image)
  }

  function After(events: seq<Event>, log: seq<LogEntry>, maxField: nat): Replica {
    if events == [] then FRESH
    else Step(After(events[..|events| - 1], log, maxField), events[|events| - 1], log, maxField)
  }

  /** Every image installed in the run is on a prefix of the log. */
  predicate ImagesOnPrefixes(events: seq<Event>, log: seq<LogEntry>, maxField: nat) {
    forall i :: 0 <= i < |events| && events[i].Install? ==> OnPrefix(events[i].image, log, maxField)
  }

  lemma {:induction false} AlwaysFaithful(events: seq<Event>, log: seq<LogEntry>, maxField: nat)
    requires ImagesOnPrefixes(events, log, maxField)
    ensures Faithful(After(events, log, maxField), log, maxField)
  {
    hide Faithful, ApplyNext, OnPrefix, Collected, FromImage;
    if events == [] {
      EmptyOnPrefix(log, maxField);
      ImageFaithful(EMPTY, log, maxField);
      assert FromImage(EMPTY) == FRESH by { Fresh(); }
    } else {
      var before, e := events[..|events| - 1], events[|events| - 1];
      AlwaysFaithful(before, log, maxField);
      var r := After(before, log, maxField);
      match e {
        case CommitNext =>
          if r.state.lastIndex < |log| {
            CommitFaithful(r, log, maxField);
          }
        case Collect(index) => CollectFaithful(r, index, log, maxField);
        case Install(image) => ImageFaithful(image, log, maxField);
      }
    }
  }

  lemma Fresh()
    ensures FromImage(EMPTY) == FRESH
  {
  }

  /** Over every run of commits, collected results and installed images, a result handed out for
      an index is the one application of the command at that index of the log. */
  lemma OwnResultOnly(events: seq<Event>, log: seq<LogEntry>, maxField: nat, index: nat)
    requires ImagesOnPrefixes(events, log, maxField)
    ensures var handed := Get(After(events, log, maxField).recent, index);
            handed.Some? ==>
              && 0 < index <= |log| && log[index - 1].App?
              && handed.value
                 == CommitData(Replay(log[..index - 1], maxField), index, log[index - 1].data, maxField).1
  {
    hide After, CommitData, Replay, Get, Faithful;
    AlwaysFaithful(events, log, maxField);
    var r := After(events, log, maxField);
    if Get(r.recent, index).Some? {
      HandsOutOwnResult(r, index, log, maxField);
    }
  }

  /** How many commits a stretch of a run makes. */
  function CommitsIn(events: seq<Event>): nat {
    if events == [] then 0
    else CommitsIn(events[..|events| - 1]) + (if events[|events| - 1].CommitNext? then 1 else 0)
  }

  /** One event leaves a cached pair in place, with one more pair after it if it was a commit. */
  lemma PairStays(r: Replica, e: Event, log: seq<LogEntry>, maxField: nat, pair: (nat, ApplyResult), later: nat)
    requires Faithful(r, log, maxField) && Cache.Remains(r.recent, pair, later)
    requires !e.Install? && e != Collect(pair.0) && (e.CommitNext? ==> later + 1 < Cache.CAPACITY)
    ensures Cache.Remains(Step(r, e, log, maxField).recent, pair, if e.CommitNext? then later + 1 else later)
  {
    hide OnPrefix, CachedOk, Cache.Remove, Cache.Trim, Put, CommitData;
    var p :| 0 <= p < |r.recent| && r.recent[p] == pair && |r.recent| - 1 - p <= later;
    match e {
      case Collect(index) => Cache.RemoveKeeps(r.recent, index, p);
      case CommitNext =>
        var k := r.state.lastIndex;
        if k < |log| && log[k].App? {
          var result := CommitData(r.state, k + 1, log[k].data, maxField).1;
          CommitAppends(r.recent, log, k, result, maxField);
          var t := Cache.Step(r.recent, Cache.Committed(k + 1, result));
          assert t[if |r.recent| == Cache.CAPACITY then p - 1 else p] == pair;
        } else {
          assert Cache.Remains(r.recent, pair, later + 1);
        }
    }
  }

  lemma {:induction false} PairSurvives(
    events: seq<Event>, more: seq<Event>, log: seq<LogEntry>, maxField: nat, pair: (nat, ApplyResult))
    requires ImagesOnPrefixes(events + more, log, maxField)
    requires Cache.Remains(After(events, log, maxField).recent, pair, 0)
    requires forall i :: 0 <= i < |more| ==> !more[i].Install? && more[i] != Collect(pair.0)
    requires CommitsIn(more) < Cache.CAPACITY
    ensures Cache.Remains(After(events + more, log, maxField).recent, pair, CommitsIn(more))
    decreases |more|
  {
    hide Step, Cache.Remains, OnPrefix, Faithful;
    if more == [] {
      assert events + more == events;
    } else {
      var n := |more| - 1;
      var all := events + more;
      assert all[..|all| - 1] == events + more[..n] && all[|all| - 1] == more[n];
      PairSurvives(events, more[..n], log, maxField, pair);
      AlwaysFaithful(events + more[..n], log, maxField);
      PairStays(After(events + more[..n], log, maxField), more[n], log, maxField, pair, CommitsIn(more[..n]));
    }
  }

  /** A committed command's own result is handed out as long as fewer than 65,536 commits follow,
      nobody collects it and no image is installed. */
  lemma UncollectedHandedOut(events: seq<Event>, more: seq<Event>, log: seq<LogEntry>, maxField: nat)
    requires ImagesOnPrefixes(events + [CommitNext] + more, log, maxField)
    requires After(events, log, maxField).state.lastIndex < |log|
    requires log[After(events, log, maxField).state.lastIndex].App?
    requires var index := After(events, log, maxField).state.lastIndex + 1;
             forall i :: 0 <= i < |more| ==> !more[i].Install? && more[i] != Collect(index)
    requires CommitsIn(more) < Cache.CAPACITY
    ensures var index := After(events, log, maxField).state.lastIndex + 1;
            Get(After(events + [CommitNext] + more, log, maxField).recent, index)
            == Some(ResultOf(log, index, maxField))
  {
    hide OnPrefix, ResultOf, Get, CommitData, Replay, After, Faithful, Cache.Remains, CommitsIn;
    var r := After(events, log, maxField);
    var index := r.state.lastIndex + 1;
    var pair: (nat, ApplyResult) := (index, ResultOf(log, index, maxField));
    var now, all := events + [CommitNext], events + [CommitNext] + more;
    ImagesPrefix(all, |events|, log, maxField);
    ImagesPrefix(all, |now|, log, maxField);
    assert all[..|events|] == events && all[..|now|] == now;
    AlwaysFaithful(events, log, maxField);
    AlwaysFaithful(now, log, maxField);
    AlwaysFaithful(all, log, maxField);
    LastCached(events, log, maxField);
    PairSurvives(now, more, log, maxField, pair);
    HandsOutPair(After(all, log, maxField), log, maxField, pair, CommitsIn(more));
  }

  lemma HandsOutPair(r: Replica, log: seq<LogEntry>, maxField: nat, pair: (nat, ApplyResult), later: nat)
    requires Faithful(r, log, maxField) && Cache.Remains(r.recent, pair, later)
    ensures Get(r.recent, pair.0) == Some(pair.1)
  {
    hide OnPrefix, CachedOk, Get;
    var p :| 0 <= p < |r.recent| && r.recent[p] == pair;
    Cache.GetAt(r.recent, p);
  }

  lemma ImagesPrefix(events: seq<Event>, n: nat, log: seq<LogEntry>, maxField: nat)
    requires ImagesOnPrefixes(events, log, maxField) && n <= |events|
    ensures ImagesOnPrefixes(events[..n], log, maxField)
  {
    hide OnPrefix;
  }

  /** The pair a commit adds is the last one. */
  lemma LastCached(events: seq<Event>, log: seq<LogEntry>, maxField: nat)
    requires Faithful(After(events, log, maxField), log, maxField)
    requires After(events, log, maxField).state.lastIndex < |log|
    requires log[After(events, log, maxField).state.lastIndex].App?
    ensures var index := After(events, log, maxField).state.lastIndex + 1;
            Cache.Remains(
              After(events + [CommitNext], log, maxField).recent, (index, ResultOf(log, index, maxField)), 0)
  {
    hide After, Step, Cache.Remains, Faithful, ResultOf, Replay, CommitData;
    AfterSnoc(events, CommitNext, log, maxField);
    LastPair(After(events, log, maxField), log, maxField);
  }

  lemma AfterSnoc(events: seq<Event>, e: Event, log: seq<LogEntry>, maxField: nat)
    ensures After(events + [e], log, maxField) == Step(After(events, log, maxField), e, log, maxField)
  {
    hide Step;
    assert (events + [e])[..|events|] == events;
  }

  lemma LastPair(r: Replica, log: seq<LogEntry>, maxField: nat)
    requires Faithful(r, log, maxField) && r.state.lastIndex < |log| && log[r.state.lastIndex].App?
    ensures var index := r.state.lastIndex + 1;
            Cache.Remains(Step(r, CommitNext, log, maxField).recent, (index, ResultOf(log, index, maxField)), 0)
  {
    hide OnPrefix, CachedOk, CommitData, Replay, Cache.Step, ResultOf, Ascending;
    var k := r.state.lastIndex;
    var result := CommitData(r.state, k + 1, log[k].data, maxField).1;
    ResultHere(r.state, log, maxField);
    CommitAppends(r.recent, log, k, result, maxField);
    var t := Cache.Step(r.recent, Cache.Committed(k + 1, result));
    assert t[|t| - 1] == (k + 1, result);
  }

  // ---- The class ----

  /** Raft hands the state machine the next entry of the log: it becomes what `ApplyNext` says and
      stays faithful. */
  method CommitEntry(machine: KvStateMachine, entry: LogEntry, ghost log: seq<LogEntry>)
    requires Faithful(Replica(machine.state, machine.recent), log, machine.maxField)
    requires machine.state.lastIndex < |log| && log[machine.state.lastIndex] == entry
    modifies machine
    ensures Replica(machine.state, machine.recent)
            == ApplyNext(old(Replica(machine.state, machine.recent)), entry, machine.maxField)
    ensures Faithful(Replica(machine.state, machine.recent), log, machine.maxField)
  {
    hide Faithful, CommitData, Cache.Step;
    CommitFaithful(Replica(machine.state, machine.recent), log, machine.maxField);
    var index := machine.state.lastIndex + 1;
    match entry {
      case App(data) => var result := machine.Commit(index, data);
      case Config => machine.CommitConfig(index);
    }
  }
}
