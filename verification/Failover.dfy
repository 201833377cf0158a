/** Health checking of the primary database and the routing that follows it (db_failover.py):
    threads claim a probe under a lock, probe without it, and record the outcome under it again. */
module Failover {
  import opened Sets
  import opened Wrappers

  datatype Config = Config(cacheSeconds: real, failThreshold: int, recoverThreshold: int)

  /** `_state`; a checkedAt of None stands for minus infinity. */
  datatype HealthState = HealthState(healthy: bool, checkedAt: Option<real>, fail: nat, ok: nat)

  const INITIAL := HealthState(true, None, 0, 0)

  // ---------- The two critical sections ----------

  /** The cached verdict is still fresh. */
  predicate IsFresh(c: Config, s: HealthState, now: real) {
    s.checkedAt.Some? && now - s.checkedAt.value < c.cacheSeconds
  }

  function Claimed(s: HealthState, now: real): HealthState {
    s.(checkedAt := Some(now))
  }

  function Recorded(c: Config, s: HealthState, ok: bool): HealthState {
    if ok then
      var count := s.ok + 1;
      HealthState(s.healthy || count >= c.recoverThreshold, s.checkedAt, 0, count)
    else
      var count := s.fail + 1;
      HealthState(s.healthy && count < c.failThreshold, s.checkedAt, count, 0)
  }

  // ---------- Interleavings ----------

  /** A recorded probe: which start it belongs to, when it was recorded and how it went. */
  datatype Probe = Probe(id: nat, at: real, ok: bool)

  /** What a thread may do next. The clock readings of a run never decrease. */
  datatype Event = Call(thread: nat, now: real) | Finish(thread: nat, at: real, ok: bool)

  function TimeOf(e: Event): real {
    if e.Call? then e.now else e.at
  }

  /** The shared state with its history: when probes started, which threads probe, what was recorded. */
  datatype System = System(state: HealthState, starts: seq<real>, probing: map<nat, nat>, log: seq<Probe>,
                           clock: Option<real>)

  function Start(): System {
    System(INITIAL, [], map[], [], None)
  }

  /** One step of one thread; None when that thread cannot take it or the clock would run backwards. */
  function Step(c: Config, s: System, e: Event): Option<System> {
    if s.clock.Some? && TimeOf(e) < s.clock.value then None else
      match e
      case Call(thread, now) =>
        if thread in s.probing then None
        else if IsFresh(c, s.state, now) then Some(s.(clock := Some(now)))
        else Some(System(Claimed(s.state, now), s.starts + [now], s.probing[thread := |s.starts|], s.log, Some(now)))
      case Finish(thread, at, ok) =>
        if thread !in s.probing then None
        else
          var log := s.log + [Probe(s.probing[thread], at, ok)];
          Some(System(Recorded(c, s.state, ok), s.starts, s.probing - {thread}, log, Some(at)))
  }

  function Run(c: Config, events: seq<Event>): Option<System> {
    if events == [] then Some(Start()) else
      var before := Run(c, events[..|events| - 1]);
      if before.None? then None else Step(c, before.value, events[|events| - 1])
  }

  // ---------- Routing ----------

  datatype Route = Primary | OracleReadOnly | Unavailable

  /** `get_db`: writes go to the primary or are refused. */
  function WriteRoute(healthy: bool): Route {
    if healthy then Primary else Unavailable
  }

  /** `get_read_db`: reads fall back to Oracle where it is configured. */
  function ReadRoute(healthy: bool, oracleConfigured: bool): Route {
    if healthy then Primary else if oracleConfigured then OracleReadOnly else Unavailable
  }

  // ---------- Counters and verdict ----------

  /** How many probes at the end of the log went this way. */
  function TrailingRun(log: seq<Probe>, ok: bool): nat {
    if log == [] || log[|log| - 1].ok != ok then 0 else 1 + TrailingRun(log[..|log| - 1], ok)
  }

  /** The last recorded probe completes a run of its kind that reaches the threshold of its kind. */
  predicate Decides(c: Config, log: seq<Probe>) {
    log != [] &&
    var ok := log[|log| - 1].ok;
    TrailingRun(log, ok) >= if ok then c.recoverThreshold else c.failThreshold
  }

  /** The verdict of the last run to reach its threshold, healthy when none has. */
  function Verdict(c: Config, log: seq<Probe>): bool {
    if log == [] then true
    else if Decides(c, log) then log[|log| - 1].ok
    else Verdict(c, log[..|log| - 1])
  }

  ghost predicate CountsTheLog(c: Config, s: System) {
    && s.state.fail == TrailingRun(s.log, false)
    && s.state.ok == TrailingRun(s.log, true)
    && s.state.healthy == Verdict(c, s.log)
  }

  lemma RunPrefix(c: Config, events: seq<Event>)
    requires events != [] && Run(c, events).Some?
    ensures Run(c, events[..|events| - 1]).Some?
    ensures Step(c, Run(c, events[..|events| - 1]).value, events[|events| - 1]) == Run(c, events)
  {
  }

  /** Under every interleaving the counters are the lengths of the trailing runs of recorded failures and successes,
      never both positive, and the verdict is that of the last run to reach its threshold: so writes are refused, and
      reads leave the primary, exactly if that was a run of failures. */
  lemma {:induction false} CountersAreTrailingRuns(c: Config, events: seq<Event>)
    requires Run(c, events).Some?
    ensures CountsTheLog(c, Run(c, events).value)
    ensures Run(c, events).value.state.fail == 0 || Run(c, events).value.state.ok == 0
    ensures var s := Run(c, events).value;
            && (WriteRoute(s.state.healthy) == Unavailable <==> !Verdict(c, s.log))
            && (ReadRoute(s.state.healthy, true) == OracleReadOnly <==> !Verdict(c, s.log))
            && (ReadRoute(s.state.healthy, false) == Unavailable <==> !Verdict(c, s.log))
  {
    if events != [] {
      RunPrefix(c, events);
      CountersAreTrailingRuns(c, events[..|events| - 1]);
      var s, s' := Run(c, events[..|events| - 1]).value, Run(c, events).value;
      if events[|events| - 1].Finish? {
        assert s'.log[..|s'.log| - 1] == s.log;
      }
    }
  }

  /** What Verdict means: it is the outcome at the last deciding prefix of the log. */
  lemma {:induction false} VerdictIsLastDecision(c: Config, log: seq<Probe>)
    ensures (forall n :: 0 <= n <= |log| ==> !Decides(c, log[..n])) ==> Verdict(c, log)
    ensures forall n :: 0 < n <= |log| && Decides(c, log[..n]) && (forall k :: n < k <= |log| ==> !Decides(c, log[..k]))
              ==> Verdict(c, log) == log[n - 1].ok
  {
    if log != [] {
      var init := log[..|log| - 1];
      VerdictIsLastDecision(c, init);
      assert log[..|log|] == log;
      assert forall n :: 0 <= n <= |init| ==> init[..n] == log[..n];
    }
  }

  // ---------- Spacing of the probes ----------

  ghost predicate Spaced(c: Config, s: System) {
    && (forall i :: 0 <= i < |s.starts| - 1 ==> s.starts[i + 1] - s.starts[i] >= c.cacheSeconds)
    && s.state.checkedAt == (if s.starts == [] then None else Some(s.starts[|s.starts| - 1]))
    && (s.starts != [] ==> s.clock.Some? && s.starts[|s.starts| - 1] <= s.clock.value)
  }

  lemma {:induction false} ProbesAreSpaced(c: Config, events: seq<Event>)
    requires Run(c, events).Some?
    ensures Spaced(c, Run(c, events).value)
  {
    if events != [] {
      RunPrefix(c, events);
      ProbesAreSpaced(c, events[..|events| - 1]);
    }
  }

  /** n cache times. */
  function CacheTimes(c: Config, n: int): real {
    n as real * c.cacheSeconds
  }

  lemma OneMoreCacheTime(c: Config, n: int)
    ensures CacheTimes(c, 0) == 0.0
    ensures CacheTimes(c, n + 1) == CacheTimes(c, n) + c.cacheSeconds
  {
    assert (n + 1) as real == n as real + 1.0;
  }

  lemma MoreCacheTimes(c: Config, m: int, n: int)
    requires m <= n && c.cacheSeconds >= 0.0
    ensures CacheTimes(c, m) <= CacheTimes(c, n)
  {
    assert m as real <= n as real;
  }

  lemma {:induction false} SpacedFurther(c: Config, s: System, i: nat, j: nat)
    requires Spaced(c, s) && i <= j < |s.starts|
    ensures s.starts[j] - s.starts[i] >= CacheTimes(c, j - i)
    decreases j - i
  {
    hide CacheTimes;
    OneMoreCacheTime(c, j - 1 - i);
    if i < j {
      SpacedFurther(c, s, i, j - 1);
      assert s.starts[j - 1 + 1] - s.starts[j - 1] >= c.cacheSeconds;
    }
  }

  lemma CancelFactor(a: real, b: real, factor: real)
    requires factor > 0.0 && a * factor <= b * factor
    ensures a <= b
  {
  }

  lemma CacheTimesWithin(c: Config, n: nat, length: real)
    requires c.cacheSeconds > 0.0 && CacheTimes(c, n) <= length
    ensures n <= (length / c.cacheSeconds).Floor
  {
    assert length / c.cacheSeconds * c.cacheSeconds == length;
    CancelFactor(n as real, length / c.cacheSeconds, c.cacheSeconds);
  }

  /** Under every interleaving, a window of length T sees at most floor(T / c) + 1 probe starts. */
  lemma ProbesInWindow(c: Config, events: seq<Event>, i: nat, j: nat, length: real)
    requires c.cacheSeconds > 0.0 && Run(c, events).Some?
    requires i <= j < |Run(c, events).value.starts|
    requires Run(c, events).value.starts[j] - Run(c, events).value.starts[i] <= length
    ensures j - i + 1 <= (length / c.cacheSeconds).Floor + 1
  {
    hide CacheTimes;
    ProbesAreSpaced(c, events);
    SpacedFurther(c, Run(c, events).value, i, j);
    CacheTimesWithin(c, j - i, length);
  }

  // ---------- Probes in flight ----------

  /** Every start is recorded or in flight at most once; records come after their starts and in order of time. */
  ghost predicate Traced(s: System) {
    && (forall k :: 0 <= k < |s.log| ==> s.log[k].id < |s.starts| && s.starts[s.log[k].id] <= s.log[k].at)
    && (forall t :: t in s.probing ==> s.probing[t] < |s.starts|)
    && (forall k, l :: 0 <= k < l < |s.log| ==> s.log[k].id != s.log[l].id && s.log[k].at <= s.log[l].at)
    && (forall k, t :: 0 <= k < |s.log| && t in s.probing ==> s.log[k].id != s.probing[t])
    && (forall t, u :: t in s.probing && u in s.probing && t != u ==> s.probing[t] != s.probing[u])
    && (forall i :: 0 <= i < |s.starts| ==> s.clock.Some? && s.starts[i] <= s.clock.value)
    && (forall k :: 0 <= k < |s.log| ==> s.clock.Some? && s.log[k].at <= s.clock.value)
  }

  lemma TracedAfterCall(c: Config, s: System, thread: nat, now: real)
    requires Traced(s) && Step(c, s, Call(thread, now)).Some?
    ensures Traced(Step(c, s, Call(thread, now)).value)
  {
    hide Claimed, IsFresh;
  }

  lemma TracedAfterFinish(c: Config, s: System, thread: nat, at: real, ok: bool)
    requires Traced(s) && Step(c, s, Finish(thread, at, ok)).Some?
    ensures Traced(Step(c, s, Finish(thread, at, ok)).value)
  {
    hide Recorded;
    var s' := Step(c, s, Finish(thread, at, ok)).value;
    forall k | 0 <= k < |s'.log|
      ensures k < |s.log| ==> s'.log[k] == s.log[k]
      ensures k == |s.log| ==> s'.log[k] == Probe(s.probing[thread], at, ok)
    {
    }
  }

  lemma {:induction false} ProbesAreTraced(c: Config, events: seq<Event>)
    requires Run(c, events).Some?
    ensures Traced(Run(c, events).value)
  {
    if events != [] {
      RunPrefix(c, events);
      ProbesAreTraced(c, events[..|events| - 1]);
      var s := Run(c, events[..|events| - 1]).value;
      match events[|events| - 1]
      case Call(thread, now) => TracedAfterCall(c, s, thread, now);
      case Finish(thread, at, ok) => TracedAfterFinish(c, s, thread, at, ok);
    }
  }

  /** Every probe is recorded within less than the cache time: nothing happens while one is older. */
  ghost predicate Timely(c: Config, events: seq<Event>) {
    forall n :: 0 <= n < |events| && Run(c, events[..n]).Some? ==>
        NoneOverdue(c, Run(c, events[..n]).value, TimeOf(events[n]))
  }

  ghost predicate NoneOverdue(c: Config, s: System, now: real) {
    forall t :: t in s.probing && s.probing[t] < |s.starts| ==> now - s.starts[s.probing[t]] < c.cacheSeconds
  }

  /** No two threads probe at the same time. */
  ghost predicate AtMostOneProbes(s: System) {
    forall t, u :: t in s.probing && u in s.probing ==> t == u
  }

  lemma {:induction false} AtMostOneInFlight(c: Config, events: seq<Event>)
    requires Run(c, events).Some? && Timely(c, events)
    ensures AtMostOneProbes(Run(c, events).value)
  {
    if events != [] {
      var n := |events| - 1;
      RunPrefix(c, events);
      TimelyPrefix(c, events);
      hide Timely, Traced, Spaced, AtMostOneProbes, Step, NoneOverdue, Run;
      AtMostOneInFlight(c, events[..n]);
      ProbesAreTraced(c, events[..n]);
      ProbesAreSpaced(c, events[..n]);
      OneProbesAfter(c, Run(c, events[..n]).value, events[n]);
    } else {
      NobodyProbesYet(c);
    }
  }

  lemma NobodyProbesYet(c: Config)
    ensures Run(c, []).Some? && AtMostOneProbes(Run(c, []).value)
  {
  }

  lemma TimelyPrefix(c: Config, events: seq<Event>)
    requires events != [] && Timely(c, events) && Run(c, events[..|events| - 1]).Some?
    ensures Timely(c, events[..|events| - 1])
    ensures NoneOverdue(c, Run(c, events[..|events| - 1]).value, TimeOf(events[|events| - 1]))
  {
    hide Run, NoneOverdue;
    var init := events[..|events| - 1];
    assert forall n :: 0 <= n < |init| ==> init[..n] == events[..n] && init[n] == events[n];
  }

  /** A probe starts only once the last start is a cache time ago; by then every other has finished. */
  lemma OneProbesAfter(c: Config, s: System, e: Event)
    requires AtMostOneProbes(s) && Traced(s) && Spaced(c, s) && NoneOverdue(c, s, TimeOf(e)) && Step(c, s, e).Some?
    ensures AtMostOneProbes(Step(c, s, e).value)
  {
    if e.Call? && !IsFresh(c, s.state, e.now) {
      NobodyProbes(c, s, e.now);
    }
    hide Traced, Spaced, NoneOverdue;
  }

  lemma NobodyProbes(c: Config, s: System, now: real)
    requires Traced(s) && Spaced(c, s) && NoneOverdue(c, s, now) && !IsFresh(c, s.state, now)
    requires s.clock.Some? ==> s.clock.value <= now
    ensures s.probing == map[]
  {
    forall t | t in s.probing
      ensures false
    {
      OldestIsNotAfterNewest(c, s, s.probing[t]);
    }
  }

  lemma OldestIsNotAfterNewest(c: Config, s: System, i: nat)
    requires Spaced(c, s) && Traced(s) && i < |s.starts|
    ensures c.cacheSeconds >= 0.0 ==> s.starts[i] <= s.starts[|s.starts| - 1]
  {
    if c.cacheSeconds >= 0.0 {
      LaterIdStartsLater(c, s, i, |s.starts| - 1);
    }
  }

  // ---------- How fast the verdict can turn ----------

  function Range(low: nat, high: nat): (r: set<nat>)
    requires low <= high
    ensures forall x :: x in r <==> low <= x <= high
    ensures |r| == high - low + 1
  {
    if low == high then {low} else Range(low, high - 1) + {high}
  }

  function Ids(log: seq<Probe>, from: nat): set<nat>
    requires from <= |log|
    decreases |log| - from
  {
    if from == |log| then {} else {log[from].id} + Ids(log, from + 1)
  }

  lemma {:induction false} WhereId(log: seq<Probe>, from: nat, id: nat) returns (k: nat)
    requires from <= |log| && id in Ids(log, from)
    ensures from <= k < |log| && log[k].id == id
    decreases |log| - from
  {
    k := from;
    if log[from].id != id {
      k := WhereId(log, from + 1, id);
    }
  }

  lemma {:induction false} DistinctIds(log: seq<Probe>, from: nat)
    requires from <= |log| && forall k, l :: 0 <= k < l < |log| ==> log[k].id != log[l].id
    ensures |Ids(log, from)| == |log| - from
    decreases |log| - from
  {
    if from < |log| {
      DistinctIds(log, from + 1);
      if log[from].id in Ids(log, from + 1) {
        var k := WhereId(log, from + 1, log[from].id);
      }
    }
  }

  /** From some entry on the log has an entry of least and one of greatest id. */
  lemma {:induction false} ExtremeIds(log: seq<Probe>, from: nat) returns (least: nat, greatest: nat)
    requires from < |log|
    ensures from <= least < |log| && from <= greatest < |log|
    ensures forall k :: from <= k < |log| ==> log[least].id <= log[k].id <= log[greatest].id
    decreases |log| - from
  {
    least, greatest := from, from;
    if from + 1 < |log| {
      var low, high := ExtremeIds(log, from + 1);
      least := if log[low].id < log[from].id then low else from;
      greatest := if log[high].id > log[from].id then high else from;
    }
  }

  /** n distinct starts span at least n - 1 gaps. */
  lemma IdsSpread(log: seq<Probe>, from: nat, least: nat, greatest: nat)
    requires from <= least < |log| && from <= greatest < |log|
    requires forall k, l :: 0 <= k < l < |log| ==> log[k].id != log[l].id
    requires forall k :: from <= k < |log| ==> log[least].id <= log[k].id <= log[greatest].id
    ensures log[greatest].id - log[least].id >= |log| - from - 1
  {
    DistinctIds(log, from);
    forall id | id in Ids(log, from)
      ensures log[least].id <= id <= log[greatest].id
    {
      var k := WhereId(log, from, id);
    }
    SubsetSize(Ids(log, from), Range(log[least].id, log[greatest].id));
  }

  lemma {:induction false} TrailingRunIsUniform(log: seq<Probe>, ok: bool)
    ensures TrailingRun(log, ok) <= |log|
    ensures forall k :: |log| - TrailingRun(log, ok) <= k < |log| ==> log[k].ok == ok
  {
    if log != [] && log[|log| - 1].ok == ok {
      TrailingRunIsUniform(log[..|log| - 1], ok);
    }
  }

  /** Of the last n records, `first` belongs to the earliest start. */
  ghost predicate EarliestOfLast(s: System, n: nat, first: nat) {
    && 1 <= n <= |s.log| && |s.log| - n <= first < |s.log| && s.log[first].id < |s.starts|
    && forall k :: |s.log| - n <= k < |s.log| ==>
         s.log[k].id < |s.starts| && s.starts[s.log[first].id] <= s.starts[s.log[k].id]
  }

  lemma LaterIdStartsLater(c: Config, s: System, i: nat, j: nat)
    requires Spaced(c, s) && c.cacheSeconds >= 0.0 && i <= j < |s.starts|
    ensures s.starts[i] <= s.starts[j]
  {
    hide CacheTimes;
    SpacedFurther(c, s, i, j);
    MoreCacheTimes(c, 0, j - i);
    OneMoreCacheTime(c, 0);
  }

  /** n records, at least `threshold`, span at least threshold - 1 cache times, from the earliest of their starts to
      the last of them. */
  lemma RecordsTakeTime(c: Config, s: System, n: nat, threshold: int) returns (first: nat)
    requires Spaced(c, s) && Traced(s) && c.cacheSeconds >= 0.0 && 1 <= n <= |s.log| && threshold <= n
    ensures EarliestOfLast(s, n, first)
    ensures s.log[|s.log| - 1].at - s.starts[s.log[first].id] >= CacheTimes(c, threshold - 1)
  {
    hide CacheTimes;
    var least, greatest := ExtremeIds(s.log, |s.log| - n);
    first := least;
    assert s.log[least].id <= s.log[greatest].id < |s.starts|;
    forall k | |s.log| - n <= k < |s.log|
      ensures s.log[k].id < |s.starts| && s.starts[s.log[first].id] <= s.starts[s.log[k].id]
    {
      LaterIdStartsLater(c, s, s.log[least].id, s.log[k].id);
    }
    assert s.log[greatest].at <= s.log[|s.log| - 1].at && s.starts[s.log[greatest].id] <= s.log[greatest].at;
    IdsSpanTime(c, s, n, threshold, least, greatest);
  }

  lemma IdsSpanTime(c: Config, s: System, n: nat, threshold: int, least: nat, greatest: nat)
    requires Spaced(c, s) && Traced(s) && c.cacheSeconds >= 0.0 && 1 <= n <= |s.log| && threshold <= n
    requires |s.log| - n <= least < |s.log| && |s.log| - n <= greatest < |s.log|
    requires forall k :: |s.log| - n <= k < |s.log| ==> s.log[least].id <= s.log[k].id <= s.log[greatest].id
    ensures s.log[least].id < |s.starts| && s.log[greatest].id < |s.starts|
    ensures s.starts[s.log[greatest].id] - s.starts[s.log[least].id] >= CacheTimes(c, threshold - 1)
  {
    hide CacheTimes;
    IdsSpread(s.log, |s.log| - n, least, greatest);
    SpacedFurther(c, s, s.log[least].id, s.log[greatest].id);
    MoreCacheTimes(c, threshold - 1, s.log[greatest].id - s.log[least].id);
  }

  function Threshold(c: Config, ok: bool): int {
    if ok then c.recoverThreshold else c.failThreshold
  }

  /** The outcomes in a row that turn the verdict: one at least. */
  function NeededRun(c: Config, ok: bool): (n: nat)
    ensures n >= 1
  {
    if Threshold(c, ok) >= 1 then Threshold(c, ok) else 1
  }

  /** When a step turns the verdict, its log ends in a run of exactly as many outcomes of the new kind as the threshold
      says, one at least, and from the earliest start of that run to this step at least threshold - 1 cache times
      pass. */
  lemma TurningTakesTime(c: Config, events: seq<Event>, before: System, s: System) returns (first: nat)
    requires c.cacheSeconds >= 0.0 && events != []
    requires Run(c, events[..|events| - 1]) == Some(before) && Run(c, events) == Some(s)
    requires before.state.healthy != s.state.healthy
    ensures TrailingRun(s.log, s.state.healthy) == NeededRun(c, s.state.healthy)
    ensures EarliestOfLast(s, NeededRun(c, s.state.healthy), first)
    ensures forall k :: |s.log| - NeededRun(c, s.state.healthy) <= k < |s.log| ==> s.log[k].ok == s.state.healthy
    ensures TimeOf(events[|events| - 1]) - s.starts[s.log[first].id]
         >= CacheTimes(c, Threshold(c, s.state.healthy) - 1)
  {
    hide *;
    CountersAreTrailingRuns(c, events);
    CountersAreTrailingRuns(c, events[..|events| - 1]);
    LastOutcomeDecides(c, events, before, s);
    TrailingRunIsUniform(s.log, s.state.healthy);
    ProbesAreTraced(c, events);
    ProbesAreSpaced(c, events);
    first := RecordsTakeTime(c, s, NeededRun(c, s.state.healthy), Threshold(c, s.state.healthy));
  }

  lemma LastOutcomeDecides(c: Config, events: seq<Event>, before: System, s: System)
    requires events != [] && Run(c, events[..|events| - 1]) == Some(before) && Run(c, events) == Some(s)
    requires before.state.healthy != s.state.healthy
    requires CountsTheLog(c, before) && CountsTheLog(c, s)
    ensures s.log != [] && s.log[|s.log| - 1].at == TimeOf(events[|events| - 1])
    ensures TrailingRun(s.log, s.state.healthy) == NeededRun(c, s.state.healthy) >= Threshold(c, s.state.healthy)
  {
    hide Verdict, TrailingRun, NeededRun, Threshold, Run;
    RunPrefix(c, events);
    var e := events[|events| - 1];
    assert e.Finish?;
    VerdictTurns(c, before.log, Probe(before.probing[e.thread], e.at, e.ok));
  }

  /** A record that turns the verdict of a log completes exactly the run that is needed. */
  lemma VerdictTurns(c: Config, log: seq<Probe>, p: Probe)
    requires Verdict(c, log) != Verdict(c, log + [p])
    ensures p.ok == Verdict(c, log + [p])
    ensures TrailingRun(log + [p], p.ok) == NeededRun(c, p.ok) >= Threshold(c, p.ok)
  {
    assert (log + [p])[..|log|] == log;
  }

  // ---------- When a probe starts ----------

  /** No probe has started yet, or the last one started at least a cache time ago. */
  predicate IsDue(c: Config, starts: seq<real>, now: real) {
    starts == [] || now - starts[|starts| - 1] >= c.cacheSeconds
  }

  /** The clock does not run backwards. */
  predicate IsNow(s: System, now: real) {
    s.clock.None? || s.clock.value <= now
  }

  lemma RunThen(c: Config, events: seq<Event>, e: Event)
    requires Run(c, events).Some?
    ensures Run(c, events + [e]) == Step(c, Run(c, events).value, e)
  {
    assert (events + [e])[..|events + [e]| - 1] == events;
  }

  /** Under every interleaving a thread that does not probe may call, and its call starts a probe exactly if one is due;
      no other thread is touched and nothing is recorded. */
  lemma CallProbesExactly(c: Config, events: seq<Event>, thread: nat, now: real)
    requires Run(c, events).Some?
    ensures var s, after := Run(c, events).value, Run(c, events + [Call(thread, now)]);
      && (after.Some? <==> thread !in s.probing && IsNow(s, now))
      && (after.Some? ==>
            && (thread in after.value.probing <==> IsDue(c, s.starts, now))
            && after.value.starts == s.starts + (if IsDue(c, s.starts, now) then [now] else [])
            && after.value.probing
               == (if IsDue(c, s.starts, now) then s.probing[thread := |s.starts|] else s.probing)
            && after.value.log == s.log && after.value.state.healthy == s.state.healthy
            && after.value.clock == Some(now))
  {
    RunThen(c, events, Call(thread, now));
    ProbesAreSpaced(c, events);
    hide Run;
  }

  /** A thread that probes may record at any time, and does so under the start that it claimed. */
  lemma FinishRecordsExactly(c: Config, events: seq<Event>, thread: nat, at: real, ok: bool)
    requires Run(c, events).Some?
    ensures var s, after := Run(c, events).value, Run(c, events + [Finish(thread, at, ok)]);
      && (after.Some? <==> thread in s.probing && IsNow(s, at))
      && (after.Some? ==>
            && after.value.log == s.log + [Probe(s.probing[thread], at, ok)]
            && after.value.starts == s.starts && after.value.probing == s.probing - {thread}
            && after.value.clock == Some(at))
  {
    RunThen(c, events, Finish(thread, at, ok));
    hide Run;
  }

  // ---------- How slowly the verdict can turn ----------

  /** A call that starts a probe, and its record. */
  datatype Round = Round(thread: nat, now: real, at: real)

  function EventsOf(rounds: seq<Round>, ok: bool): seq<Event> {
    if rounds == [] then [] else
      var last := rounds[|rounds| - 1];
      EventsOf(rounds[..|rounds| - 1], ok) + [Call(last.thread, last.now), Finish(last.thread, last.at, ok)]
  }

  /** The rounds follow the clock and each other, by threads that do not probe, each at least a cache time after the
      last start. */
  ghost predicate FollowOn(c: Config, s: System, rounds: seq<Round>) {
    && (forall k :: 0 <= k < |rounds| ==> rounds[k].thread !in s.probing && rounds[k].now <= rounds[k].at)
    && (rounds != [] ==> IsNow(s, rounds[0].now) && IsDue(c, s.starts, rounds[0].now))
    && (forall k :: 0 <= k < |rounds| - 1 ==>
          rounds[k].at <= rounds[k + 1].now && rounds[k + 1].now - rounds[k].now >= c.cacheSeconds)
  }

  /** After the rounds all of them have started and been recorded, in order. */
  ghost predicate AfterRounds(s: System, rounds: seq<Round>, ok: bool, after: System) {
    && after.starts == s.starts + seq(|rounds|, k requires 0 <= k < |rounds| => rounds[k].now)
    && |after.log| == |s.log| + |rounds| && after.log[..|s.log|] == s.log
    && (forall k :: |s.log| <= k < |after.log| ==>
          after.log[k] == Probe(|s.starts| + k - |s.log|, rounds[k - |s.log|].at, ok))
    && after.probing == s.probing
    && after.clock == (if rounds == [] then s.clock else Some(rounds[|rounds| - 1].at))
  }

  lemma OneRound(c: Config, events: seq<Event>, round: Round, ok: bool)
    requires Run(c, events).Some?
    requires var s := Run(c, events).value;
      round.thread !in s.probing && round.now <= round.at && IsNow(s, round.now) && IsDue(c, s.starts, round.now)
    ensures var s, after := Run(c, events).value,
                            Run(c, events + [Call(round.thread, round.now), Finish(round.thread, round.at, ok)]);
      && after.Some? && after.value.starts == s.starts + [round.now]
      && after.value.log == s.log + [Probe(|s.starts|, round.at, ok)]
      && after.value.probing == s.probing && after.value.clock == Some(round.at)
  {
    hide Run;
    var call := Call(round.thread, round.now);
    CallProbesExactly(c, events, round.thread, round.now);
    FinishRecordsExactly(c, events + [call], round.thread, round.at, ok);
    assert events + [call, Finish(round.thread, round.at, ok)]
        == (events + [call]) + [Finish(round.thread, round.at, ok)];
  }

  lemma FollowOnPrefix(c: Config, s: System, rounds: seq<Round>, n: nat)
    requires FollowOn(c, s, rounds) && n < |rounds|
    ensures FollowOn(c, s, rounds[..n])
  {
  }

  /** After the rounds before it, a round finds its probe due. */
  lemma NextIsDue(c: Config, s: System, rounds: seq<Round>, n: nat, ok: bool, mid: System)
    requires FollowOn(c, s, rounds) && n < |rounds| && AfterRounds(s, rounds[..n], ok, mid)
    ensures rounds[n].thread !in mid.probing && rounds[n].now <= rounds[n].at
    ensures IsNow(mid, rounds[n].now) && IsDue(c, mid.starts, rounds[n].now)
  {
    assert n > 0 ==> mid.starts[|mid.starts| - 1] == rounds[n - 1].now;
    assert n > 0 ==> rounds[n - 1].at <= rounds[n - 1 + 1].now;
  }

  lemma AfterNextRound(s: System, rounds: seq<Round>, n: nat, ok: bool, mid: System, after: System)
    requires |rounds| == n + 1 && AfterRounds(s, rounds[..n], ok, mid)
    requires after.starts == mid.starts + [rounds[n].now]
    requires after.log == mid.log + [Probe(|mid.starts|, rounds[n].at, ok)]
    requires after.probing == mid.probing && after.clock == Some(rounds[n].at)
    ensures AfterRounds(s, rounds, ok, after)
  {
    var nows := seq(|rounds|, k requires 0 <= k < |rounds| => rounds[k].now);
    assert nows == seq(n, k requires 0 <= k < n => rounds[..n][k].now) + [rounds[n].now];
  }

  lemma NoRounds(s: System, ok: bool)
    ensures AfterRounds(s, [], ok, s)
  {
  }

  lemma {:induction false} RoundsAreRecorded(c: Config, events: seq<Event>, rounds: seq<Round>, ok: bool)
    requires Run(c, events).Some? && FollowOn(c, Run(c, events).value, rounds)
    ensures Run(c, events + EventsOf(rounds, ok)).Some?
    ensures AfterRounds(Run(c, events).value, rounds, ok, Run(c, events + EventsOf(rounds, ok)).value)
  {
    hide Run, FollowOn, AfterRounds, IsNow, IsDue;
    var s := Run(c, events).value;
    if rounds == [] {
      assert events + [] == events;
      NoRounds(s, ok);
    } else {
      var n := |rounds| - 1;
      FollowOnPrefix(c, s, rounds, n);
      RoundsAreRecorded(c, events, rounds[..n], ok);
      var before := events + EventsOf(rounds[..n], ok);
      NextIsDue(c, s, rounds, n, ok, Run(c, before).value);
      OneRound(c, before, rounds[n], ok);
      var last := [Call(rounds[n].thread, rounds[n].now), Finish(rounds[n].thread, rounds[n].at, ok)];
      assert events + EventsOf(rounds, ok) == before + last;
      AfterNextRound(s, rounds, n, ok, Run(c, before).value, Run(c, before + last).value);
    }
  }

  lemma {:induction false} MoreOfTheSame(c: Config, log: seq<Probe>, longer: seq<Probe>, ok: bool)
    requires |log| < |longer| && longer[..|log|] == log
    requires forall k :: |log| <= k < |longer| ==> longer[k].ok == ok
    ensures TrailingRun(longer, ok) == TrailingRun(log, ok) + |longer| - |log|
    ensures Verdict(c, longer) == ok <==> Verdict(c, log) == ok || TrailingRun(longer, ok) >= Threshold(c, ok)
    decreases |longer|
  {
    var init := longer[..|longer| - 1];
    assert init[..|log|] == log;
    if |init| > |log| {
      MoreOfTheSame(c, log, init, ok);
    } else {
      assert init == log;
    }
  }

  lemma RecordsOfRounds(s: System, rounds: seq<Round>, ok: bool, after: System)
    requires AfterRounds(s, rounds, ok, after)
    ensures |after.log| == |s.log| + |rounds| && after.log[..|s.log|] == s.log
    ensures forall k :: |s.log| <= k < |after.log| ==> after.log[k].ok == ok
  {
  }

  /** Whatever happened before, rounds of one outcome turn the verdict to it exactly if they complete as many in a row
      as its threshold says: so the primary is given up, and taken back, after that many rounds. */
  lemma RoundsTurnExactly(c: Config, events: seq<Event>, rounds: seq<Round>, ok: bool)
    requires Run(c, events).Some? && rounds != [] && FollowOn(c, Run(c, events).value, rounds)
    ensures var s, after := Run(c, events).value, Run(c, events + EventsOf(rounds, ok));
      && after.Some? && AfterRounds(s, rounds, ok, after.value)
      && (after.value.state.healthy == ok <==>
            s.state.healthy == ok || TrailingRun(s.log, ok) + |rounds| >= Threshold(c, ok))
  {
    hide Run, FollowOn, AfterRounds, Verdict, TrailingRun, Threshold;
    var s := Run(c, events).value;
    RoundsAreRecorded(c, events, rounds, ok);
    var after := Run(c, events + EventsOf(rounds, ok)).value;
    CountersAreTrailingRuns(c, events);
    CountersAreTrailingRuns(c, events + EventsOf(rounds, ok));
    RecordsOfRounds(s, rounds, ok, after);
    MoreOfTheSame(c, s.log, after.log, ok);
  }

  /** n rounds of one thread, each a cache time after the one before it and recorded at once. */
  function Quickest(c: Config, n: nat): (rounds: seq<Round>)
    ensures |rounds| == n
    ensures forall k :: 0 <= k < n ==> rounds[k] == Round(0, CacheTimes(c, k), CacheTimes(c, k))
  {
    seq(n, k => Round(0, CacheTimes(c, k), CacheTimes(c, k)))
  }

  lemma QuickestFollowOn(c: Config, n: nat)
    requires c.cacheSeconds >= 0.0
    ensures FollowOn(c, Start(), Quickest(c, n))
  {
    hide CacheTimes, Quickest;
    var rounds := Quickest(c, n);
    forall k | 0 <= k < |rounds| - 1
      ensures rounds[k + 1].now - rounds[k].now == c.cacheSeconds
    {
      OneMoreCacheTime(c, k);
      assert rounds[k + 1].now == CacheTimes(c, k + 1);
    }
  }

  /** The time that turning takes is met: as many failures as are needed, one after every cache time, give the primary
      up with the last of them, threshold - 1 cache times after the first start. */
  lemma TurningTimeIsMet(c: Config)
    requires c.cacheSeconds >= 0.0
    ensures forall k: nat :: k <= NeededRun(c, false) ==> Run(c, EventsOf(Quickest(c, k), false)).Some?
    ensures forall k: nat :: k <= NeededRun(c, false) ==>
              (Run(c, EventsOf(Quickest(c, k), false)).value.state.healthy <==> k < NeededRun(c, false))
    ensures var rounds := Quickest(c, NeededRun(c, false));
            rounds[|rounds| - 1].at - rounds[0].now == CacheTimes(c, |rounds| - 1)
  {
    hide CacheTimes, Quickest, Run;
    var n := NeededRun(c, false);
    forall k: nat | k <= n
      ensures Run(c, EventsOf(Quickest(c, k), false)).Some?
      ensures Run(c, EventsOf(Quickest(c, k), false)).value.state.healthy <==> k < n
    {
      QuickestTurn(c, k);
    }
    OneMoreCacheTime(c, 0);
  }

  lemma QuickestTurn(c: Config, k: nat)
    requires c.cacheSeconds >= 0.0
    ensures Run(c, EventsOf(Quickest(c, k), false)).Some?
    ensures Run(c, EventsOf(Quickest(c, k), false)).value.state.healthy <==> k < NeededRun(c, false)
  {
    NobodyProbesYet(c);
    QuickestFollowOn(c, k);
    if k > 0 {
      RoundsTurnExactly(c, [], Quickest(c, k), false);
      assert [] + EventsOf(Quickest(c, k), false) == EventsOf(Quickest(c, k), false);
    }
    hide Quickest, EventsOf;
  }

  // ---------- The shared object ----------

  /** The health check that all threads share, with its history. */
  class HealthCheck {
    const config: Config
    var healthy: bool
    var checkedAt: Option<real>
    var fail: nat
    var ok: nat

    /** What the threads did so far, and where that led. */
    ghost var events: seq<Event>
    ghost var system: System

    function State(): HealthState
      reads this
    {
      HealthState(healthy, checkedAt, fail, ok)
    }

    /** The events lead to the present state; the counters and the verdict are those of the recorded outcomes. */
    ghost predicate Valid()
      reads this
    {
      && Run(config, events) == Some(system) && system.state == State()
      && fail == TrailingRun(system.log, false) && ok == TrailingRun(system.log, true)
      && healthy == Verdict(config, system.log)
    }

    constructor (config: Config)
      ensures Valid() && this.config == config && events == [] && system == Start()
    {
      this.config := config;
      healthy, checkedAt, fail, ok := true, None, 0, 0;
      events, system := [], Start();
    }

    /** A thread that can take this step takes it. */
    ghost method Took(e: Event)
      requires Run(config, events) == Some(system) && Step(config, system, e).Some?
      requires Step(config, system, e).value.state == State()
      modifies this`events, this`system
      ensures Valid() && events == old(events) + [e] && Some(system) == Step(config, old(system), e)
    {
      assert (events + [e])[..|events + [e]| - 1] == events;
      events, system := events + [e], Step(config, system, e).value;
      CountersAreTrailingRuns(config, events);
    }

    /** The first critical section: answers the verdict of the outcomes recorded so far, if the last check is younger
        than the cache time, or claims a probe for this thread, which then is in flight. */
    method Claim(ghost thread: nat, now: real) returns (cached: Option<bool>)
      requires Valid() && Step(config, system, Call(thread, now)).Some?
      modifies this`checkedAt, this`events, this`system
      ensures Valid() && events == old(events) + [Call(thread, now)] && system.log == old(system).log
      ensures cached.None? <==> IsDue(config, old(system).starts, now)
      ensures cached.Some? <==> thread !in system.probing
      ensures cached.Some? ==> cached.value == Verdict(config, system.log) && system.starts == old(system).starts
      ensures cached.None? ==> system.starts == old(system).starts + [now]
    {
      ProbesAreSpaced(config, events);
      if checkedAt.Some? && now - checkedAt.value < config.cacheSeconds {
        Took(Call(thread, now));
        return Some(healthy);
      }
      checkedAt := Some(now);
      Took(Call(thread, now));
      return None;
    }

    /** The second critical section: the outcome is logged, and the answer is the verdict of the log with it. */
    method Record(ghost thread: nat, ghost at: real, outcome: bool) returns (verdict: bool)
      requires Valid() && Step(config, system, Finish(thread, at, outcome)).Some?
      modifies this`healthy, this`fail, this`ok, this`events, this`system
      ensures Valid() && events == old(events) + [Finish(thread, at, outcome)]
      ensures thread in old(system).probing && thread !in system.probing
      ensures system.log == old(system).log + [Probe(old(system).probing[thread], at, outcome)]
      ensures verdict == Verdict(config, system.log)
    {
      if outcome {
        ok := ok + 1;
        fail := 0;
        if ok >= config.recoverThreshold {
          healthy := true;
        }
      } else {
        fail := fail + 1;
        ok := 0;
        if fail >= config.failThreshold {
          healthy := false;
        }
      }
      verdict := healthy;
      Took(Finish(thread, at, outcome));
    }
  }
}
