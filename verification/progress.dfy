/** The progress projector, `getJobStatus` (src/utils/process.worker.ts:76-188):
    status counts read from the store, the start and elapsed time, the
    trailing window of completion history, the remaining-time estimate and
    the projected total cost. The clock is a parameter `now`; the module
    state that the program keeps in globals is an explicit `TimeStats`. */
module Progress {
  import opened Wrappers
  import opened Schema
  import Worker

  datatype StatusCounts = StatusCounts(
    total: nat, pending: nat, processing: nat, completed: nat,
    uniqueTotal: nat, uniquePending: nat, uniqueProcessing: nat, uniqueCompleted: nat,
    cached: int)

  function UniqueWithStatus(unique: UniqueTable, s: Status): (r: set<nat>)
    ensures forall id :: id in r <==> id in unique && unique[id].status == s
  {
    set id | id in unique && unique[id].status == s
  }

  /** The status a raw row sees through the left join, null when its link is
      null or dangling. */
  function LinkedStatus(db: Db, rawId: string): Option<Status>
    requires rawId in db.jobs
  {
    var link := db.jobs[rawId];
    if link.Some? && link.value in db.unique then Some(db.unique[link.value].status) else None
  }

  function RawWithStatus(db: Db, s: Status): (r: set<string>)
    ensures forall x :: x in r <==> x in db.jobs && LinkedStatus(db, x) == Some(s)
  {
    set x | x in db.jobs && LinkedStatus(db, x) == Some(s)
  }

  /** A blank title or the "--" placeholder. */
  predicate Placeholder(title: string) {
    title == "" || title == "--"
  }

  /** Canonical records whose title is blank or the "--" placeholder (line 97). */
  function SkippedCount(unique: UniqueTable): (r: nat)
    ensures r <= |unique|
    ensures r == 0 <==> forall id :: id in unique ==> !Placeholder(unique[id].jobTitle)
  {
    var skipped := set id | id in unique && Placeholder(unique[id].jobTitle);
    SubsetCardinality(skipped, unique.Keys);
    assert |skipped| == 0 <==> skipped == {};
    assert (forall id :: id in unique ==> !Placeholder(unique[id].jobTitle)) <==> skipped == {} by {
      forall id | id in unique && Placeholder(unique[id].jobTitle) ensures id in skipped {
      }
    }
    |skipped|
  }

  /** Every raw row's link resolves to a canonical record. */
  predicate AllLinked(db: Db) {
    forall x :: x in db.jobs ==> db.jobs[x].Some? && db.jobs[x].value in db.unique
  }

  /** Lines 77-132: unique counts by status, raw counts by the status of the
      linked record, and the cached count. The total is the number of linked
      rows, falling back to the number of raw rows when no row is linked. */
  function Counts(db: Db): (r: StatusCounts)
    ensures r.uniquePending == |UniqueWithStatus(db.unique, Pending)|
    ensures r.uniqueProcessing == |UniqueWithStatus(db.unique, Processing)|
    ensures r.uniqueCompleted == |UniqueWithStatus(db.unique, Completed)|
    ensures r.pending == |RawWithStatus(db, Pending)|
    ensures r.processing == |RawWithStatus(db, Processing)|
    ensures r.completed == |RawWithStatus(db, Completed)|
    ensures r.uniqueTotal == |db.unique|
    ensures r.total == if r.pending + r.processing + r.completed == 0 then |db.jobs|
                       else r.pending + r.processing + r.completed
    ensures r.total <= |db.jobs|
    ensures AllLinked(db) ==> r.total == |db.jobs|
    ensures r.cached == r.completed - SkippedCount(db.unique) - r.uniqueCompleted
  {
    var up := |UniqueWithStatus(db.unique, Pending)|;
    var ur := |UniqueWithStatus(db.unique, Processing)|;
    var uc := |UniqueWithStatus(db.unique, Completed)|;
    var rp := |RawWithStatus(db, Pending)|;
    var rr := |RawWithStatus(db, Processing)|;
    var rc := |RawWithStatus(db, Completed)|;
    var linked := rp + rr + rc;
    PartitionUnique(db.unique);
    PartitionRaw(db);
    StatusCounts(if linked == 0 then |db.jobs| else linked, rp, rr, rc,
                 up + ur + uc, up, ur, uc, (rc - SkippedCount(db.unique)) - uc)
  }

  lemma PartitionUnique(unique: UniqueTable)
    ensures |UniqueWithStatus(unique, Pending)| + |UniqueWithStatus(unique, Processing)|
            + |UniqueWithStatus(unique, Completed)| == |unique|
  {
    var a := UniqueWithStatus(unique, Pending);
    var b := UniqueWithStatus(unique, Processing);
    var c := UniqueWithStatus(unique, Completed);
    assert unique.Keys == a + b + c;
    assert |a + b| == |a| + |b|;
  }

  /** Disjoint subsets of a set add up to at most its size. */
  lemma DisjointSubsetsBound(a: set<string>, b: set<string>, c: set<string>, all: set<string>)
    requires a !! b && a !! c && b !! c
    requires a + b + c <= all
    ensures |a| + |b| + |c| <= |all|
    ensures a + b + c == all ==> |a| + |b| + |c| == |all|
  {
    assert |a + b| == |a| + |b|;
    assert |a + b + c| == |a + b| + |c|;
    assert all == (a + b + c) + (all - (a + b + c));
  }

  lemma AllLinkedCovers(db: Db)
    requires AllLinked(db)
    ensures db.jobs.Keys == RawWithStatus(db, Pending) + RawWithStatus(db, Processing)
                            + RawWithStatus(db, Completed)
  {
    forall x | x in db.jobs
      ensures x in RawWithStatus(db, Pending) + RawWithStatus(db, Processing) + RawWithStatus(db, Completed)
    {
      var st := LinkedStatus(db, x).value;
      match st
      case Pending => assert x in RawWithStatus(db, Pending);
      case Processing => assert x in RawWithStatus(db, Processing);
      case Completed => assert x in RawWithStatus(db, Completed);
    }
  }

  lemma PartitionRaw(db: Db)
    ensures |RawWithStatus(db, Pending)| + |RawWithStatus(db, Processing)|
            + |RawWithStatus(db, Completed)| <= |db.jobs|
    ensures AllLinked(db) ==>
              |RawWithStatus(db, Pending)| + |RawWithStatus(db, Processing)|
              + |RawWithStatus(db, Completed)| == |db.jobs|
  {
    RawStatusesDisjoint(db);
    if AllLinked(db) {
      AllLinkedCovers(db);
    }
    DisjointSubsetsBound(RawWithStatus(db, Pending), RawWithStatus(db, Processing),
                         RawWithStatus(db, Completed), db.jobs.Keys);
  }

  lemma RawStatusesDisjoint(db: Db)
    ensures RawWithStatus(db, Pending) !! RawWithStatus(db, Processing)
    ensures RawWithStatus(db, Pending) !! RawWithStatus(db, Completed)
    ensures RawWithStatus(db, Processing) !! RawWithStatus(db, Completed)
    ensures RawWithStatus(db, Pending) + RawWithStatus(db, Processing) + RawWithStatus(db, Completed)
            <= db.jobs.Keys
  {
  }

  /** The canonical ids referenced by the rows of `s`. */
  function Referenced(s: set<string>, links: map<string, Option<nat>>): set<nat>
    requires forall x :: x in s ==> x in links && links[x].Some?
  {
    set x | x in s :: links[x].value
  }

  lemma {:induction false} ReferencedCardinality(s: set<string>, links: map<string, Option<nat>>)
    requires forall x :: x in s ==> x in links && links[x].Some?
    ensures |Referenced(s, links)| <= |s|
    decreases |s|
  {
    if s != {} {
      var y :| y in s;
      ReferencedCardinality(s - {y}, links);
      assert Referenced(s, links) == Referenced(s - {y}, links) + {links[y].value};
    }
  }

  /** The cached count is never negative when no title is blank and every
      completed canonical record is referenced by some raw row: each such
      record accounts for one raw row, the others were served from it. */
  lemma CachedNonNegative(db: Db)
    requires SkippedCount(db.unique) == 0
    requires forall id :: id in UniqueWithStatus(db.unique, Completed) ==>
               exists x :: x in db.jobs && db.jobs[x] == Some(id)
    ensures Counts(db).cached >= 0
  {
    var raw := RawWithStatus(db, Completed);
    var uc := UniqueWithStatus(db.unique, Completed);
    ReferencedCardinality(raw, db.jobs);
    var image := Referenced(raw, db.jobs);
    assert uc <= image by {
      forall id | id in uc ensures id in image {
        var x :| x in db.jobs && db.jobs[x] == Some(id);
        assert x in raw;
      }
    }
    assert image == uc + (image - uc);
  }

  /** One completion snapshot of the history (line 30). */
  datatype Entry = Entry(timestamp: int, completed: nat)

  /** The retention window of the history, in milliseconds (line 149). */
  const WindowMs: int := 62000

  predicate Chronological(h: seq<Entry>) {
    forall i, j :: 0 <= i < j < |h| ==> h[i].timestamp <= h[j].timestamp
  }

  /** `filter(entry => entry.timestamp >= cutoff)`. */
  function KeepSince(h: seq<Entry>, cutoff: int): (r: seq<Entry>)
    ensures |r| <= |h|
    ensures forall e :: e in r <==> e in h && e.timestamp >= cutoff
    ensures Chronological(h) ==> Chronological(r)
  {
    if |h| == 0 then []
    else
      var rest := KeepSince(h[1..], cutoff);
      if h[0].timestamp >= cutoff then
        assert forall e :: e in rest ==> e in h[1..];
        [h[0]] + rest
      else rest
  }

  /** Line 149: append the current snapshot and drop entries older than the
      window. The newest entry always survives. */
  function PruneHistory(h: seq<Entry>, now: int, completed: nat): (r: seq<Entry>)
    ensures |r| > 0 && r[|r| - 1] == Entry(now, completed)
    ensures forall i :: 0 <= i < |r| ==> r[i].timestamp >= now - WindowMs
    ensures forall e :: e in h && e.timestamp >= now - WindowMs ==> e in r
    ensures forall e :: e in r ==> e in h || e == Entry(now, completed)
    ensures Chronological(h) && (forall e :: e in h ==> e.timestamp <= now) ==> Chronological(r)
  {
    KeepSinceAppend(h, Entry(now, completed), now - WindowMs);
    KeepSince(h + [Entry(now, completed)], now - WindowMs)
  }

  lemma {:induction false} KeepSinceAppend(h: seq<Entry>, e: Entry, cutoff: int)
    requires e.timestamp >= cutoff
    ensures KeepSince(h + [e], cutoff) == KeepSince(h, cutoff) + [e]
    decreases |h|
  {
    if |h| > 0 {
      assert (h + [e])[1..] == h[1..] + [e];
      KeepSinceAppend(h[1..], e, cutoff);
    }
  }

  datatype Estimate = Finite(ms: real) | Unknown

  /** The throughput over the window: completions per second. */
  function Rate(first: Entry, last: Entry): real
    requires last.timestamp != first.timestamp
  {
    (last.completed - first.completed) as real / ((last.timestamp - first.timestamp) as real / 1000.0)
  }

  /** Lines 154-171: the estimated time in ms to finish the remaining
      records at the rate measured over the window. */
  function EstimateRemaining(first: Entry, last: Entry, remaining: nat): (r: Estimate)
    ensures remaining == 0 <==> r == Finite(0.0)
    ensures remaining > 0 && r.Finite? ==>
              last.timestamp - first.timestamp > 1000
              && r.ms > 0.0 && r.ms * Rate(first, last) == remaining as real * 1000.0
    ensures remaining > 0 && r == Unknown <==>
              remaining > 0 && (last.completed <= first.completed
                                || last.timestamp - first.timestamp <= 1000)
  {
    var completedInPeriod := last.completed - first.completed;
    var seconds := (last.timestamp - first.timestamp) as real / 1000.0;
    if remaining == 0 then Finite(0.0)
    else if completedInPeriod == 0 || seconds <= 1.0 then Unknown
    else
      var rate := completedInPeriod as real / seconds;
      if rate > 0.0 then
        var est := remaining as real / rate * 1000.0;
        assert est * rate == remaining as real * 1000.0;
        Finite(est)
      else Unknown
  }

  /** The projector's memory between ticks (the module globals of lines
      60-68). Times of 0 mean "never", as in the program. */
  datatype TimeStats = TimeStats(
    startTime: Option<int>, elapsedTime: int, lastElapsedUpdate: int,
    estimatedTime: Estimate, lastEstimateUpdate: int, history: seq<Entry>,
    startingCounts: Option<StatusCounts>)

  const InitialTimeStats: TimeStats := TimeStats(None, 0, 0, Finite(0.0), 0, [], None)

  /** Lines 134-136: the start time is taken on the first tick that sees a
      processing record, and then kept. A start of 0 counts as unset. */
  function NextStartTime(start: Option<int>, processing: nat, now: int): (r: Option<int>)
    ensures start.Some? && start.value != 0 ==> r == start
    ensures processing > 0 && (start.None? || start.value == 0) ==> r == Some(now)
    ensures r != start ==> processing > 0 && r == Some(now)
  {
    if processing > 0 && (start.None? || start.value == 0) then Some(now) else start
  }

  /** Lines 138-144: the elapsed time, refreshed at most once a second once
      the run has started. Returns the elapsed time and the refresh time. */
  function ElapsedStep(start: Option<int>, elapsed: int, lastUpdate: int, now: int): (r: (int, int))
    ensures start.Some? && start.value != 0 && now - lastUpdate > 1000 ==>
              r == (now - start.value, now)
    ensures r != (elapsed, lastUpdate) ==>
              now - lastUpdate > 1000 && start.Some? && start.value != 0
  {
    if start.Some? && start.value != 0 && now - lastUpdate > 1000 then (now - start.value, now)
    else (elapsed, lastUpdate)
  }

  /** Lines 151-174: the estimate, refreshed at most once a second from the
      oldest and newest entries of the window when it holds two or more. */
  function EstimateStep(estimate: Estimate, lastUpdate: int, history: seq<Entry>,
                        remaining: nat, now: int): (r: (Estimate, int))
    ensures |history| > 1 && now - lastUpdate > 1000 ==>
              r == (EstimateRemaining(history[0], history[|history| - 1], remaining), now)
    ensures r != (estimate, lastUpdate) ==> now - lastUpdate > 1000 && |history| > 1
  {
    if |history| > 1 && now - lastUpdate > 1000 then
      (EstimateRemaining(history[0], history[|history| - 1], remaining), now)
    else (estimate, lastUpdate)
  }

  /** The run has a start time; a start of 0 counts as unset (line 134). */
  predicate Started(ts: TimeStats) {
    ts.startTime.Some? && ts.startTime.value != 0
  }

  /** The start time changes only to `now`, and only on a tick that sees a
      processing record; such a tick before the start always takes it. */
  predicate StartTaken(ts: TimeStats, r: TimeStats, processing: nat, now: int) {
    && (r.startTime != ts.startTime ==> processing > 0 && r.startTime == Some(now))
    && (processing > 0 && !Started(ts) ==> r.startTime == Some(now))
  }

  /** A tick at `now` after the start, more than a second after the last
      refresh, sets the elapsed time to the time since the start. */
  predicate ElapsedRefreshed(ts: TimeStats, r: TimeStats, now: int) {
    Started(r) && now - ts.lastElapsedUpdate > 1000 ==>
      r.elapsedTime == now - r.startTime.value && r.lastElapsedUpdate == now
  }

  /** A tick at `now` that finds two or more entries in the window, more
      than a second after the last refresh, re-estimates from the oldest and
      newest entry with `remaining` records left. */
  predicate EstimateRefreshed(ts: TimeStats, r: TimeStats, remaining: nat, now: int) {
    |r.history| > 1 && now - ts.lastEstimateUpdate > 1000 ==>
      && r.estimatedTime == EstimateRemaining(r.history[0], r.history[|r.history| - 1], remaining)
      && r.lastEstimateUpdate == now
  }

  /** The rules a tick that read `counts` at `now` follows: the window gains
      the new entry, the start is taken on the first processing tick, and the
      elapsed time and estimate are refreshed when due. */
  predicate TickRules(ts: TimeStats, counts: StatusCounts, r: TimeStats, now: int) {
    && r.history == PruneHistory(ts.history, now, counts.uniqueCompleted)
    && StartTaken(ts, r, counts.processing, now)
    && ElapsedRefreshed(ts, r, now)
    && EstimateRefreshed(ts, r, counts.uniquePending + counts.uniqueProcessing, now)
  }

  /** The time statistics after a tick that read `counts` at `now`. */
  function Advance(ts: TimeStats, counts: StatusCounts, now: int): (r: TimeStats)
    ensures r.history == PruneHistory(ts.history, now, counts.uniqueCompleted)
    ensures |r.history| > 0 && r.history[|r.history| - 1] == Entry(now, counts.uniqueCompleted)
    ensures forall i :: 0 <= i < |r.history| ==> r.history[i].timestamp >= now - WindowMs
    ensures StartTaken(ts, r, counts.processing, now)
    ensures r.elapsedTime != ts.elapsedTime ==> now - ts.lastElapsedUpdate > 1000
    ensures ElapsedRefreshed(ts, r, now)
    ensures (r.elapsedTime, r.lastElapsedUpdate) != (ts.elapsedTime, ts.lastElapsedUpdate) ==>
              Started(r) && now - ts.lastElapsedUpdate > 1000
    ensures r.estimatedTime != ts.estimatedTime ==> now - ts.lastEstimateUpdate > 1000
    ensures EstimateRefreshed(ts, r, counts.uniquePending + counts.uniqueProcessing, now)
    ensures (r.estimatedTime, r.lastEstimateUpdate) != (ts.estimatedTime, ts.lastEstimateUpdate) ==>
              |r.history| > 1 && now - ts.lastEstimateUpdate > 1000
    ensures ts.startingCounts.Some? ==> r.startingCounts == ts.startingCounts
    ensures ts.startingCounts.None? ==> r.startingCounts == Some(counts)
    ensures TickRules(ts, counts, r, now)
  {
    var start := NextStartTime(ts.startTime, counts.processing, now);
    var elapsed := ElapsedStep(start, ts.elapsedTime, ts.lastElapsedUpdate, now);
    var history := PruneHistory(ts.history, now, counts.uniqueCompleted);
    var estimate := EstimateStep(ts.estimatedTime, ts.lastEstimateUpdate, history,
                                 counts.uniquePending + counts.uniqueProcessing, now);
    var starting := if ts.startingCounts.None? then Some(counts) else ts.startingCounts;
    TimeStats(start, elapsed.0, elapsed.1, estimate.0, estimate.1, history, starting)
  }

  /** One polling tick (lines 76-188): the counts read from the store and
      the time statistics advanced with them. */
  function Tick(ts: TimeStats, db: Db, now: int): (r: (StatusCounts, TimeStats))
    ensures r.0 == Counts(db)
    ensures r.1 == Advance(ts, r.0, now)
    ensures TickRules(ts, r.0, r.1, now)
  {
    var counts := Counts(db);
    var stats := Advance(ts, counts, now);
    (counts, stats)
  }

  /** Ticks that read `counts[i]` at `times[i]`, one after the other. */
  function AdvanceRun(ts: TimeStats, counts: seq<StatusCounts>, times: seq<int>): (r: TimeStats)
    requires |counts| == |times|
    ensures |counts| == 0 ==> r == ts
    ensures ts.startingCounts.Some? ==> r.startingCounts == ts.startingCounts
    ensures ts.startingCounts.None? && |counts| > 0 ==> r.startingCounts == Some(counts[0])
    ensures |counts| > 0 ==>
              |r.history| > 0 && r.history[|r.history| - 1] == Entry(times[|times| - 1], counts[|counts| - 1].uniqueCompleted)
    decreases |counts|
  {
    if |counts| == 0 then ts
    else AdvanceRun(Advance(ts, counts[0], times[0]), counts[1..], times[1..])
  }


  /** Once set, the start time is never changed by later ticks. */
  lemma {:induction false} StartTimeKept(ts: TimeStats, counts: seq<StatusCounts>, times: seq<int>)
    requires |counts| == |times| && Started(ts)
    ensures AdvanceRun(ts, counts, times).startTime == ts.startTime
    decreases |counts|
  {
    if |counts| > 0 {
      StartTimeKept(Advance(ts, counts[0], times[0]), counts[1..], times[1..]);
    }
  }

  /** The start time of a run is the time of the first tick that sees a
      processing record. */
  lemma {:induction false} StartTimeIsFirstProcessingTick(ts: TimeStats, counts: seq<StatusCounts>,
                                                          times: seq<int>, k: nat)
    requires |counts| == |times| && !Started(ts)
    requires k < |counts| && counts[k].processing > 0 && times[k] != 0
    requires forall i :: 0 <= i < k ==> counts[i].processing == 0
    ensures AdvanceRun(ts, counts, times).startTime == Some(times[k])
    decreases |counts|
  {
    var ts1 := Advance(ts, counts[0], times[0]);
    if k == 0 {
      StartTimeKept(ts1, counts[1..], times[1..]);
    } else {
      assert ts1.startTime == ts.startTime;
      StartTimeIsFirstProcessingTick(ts1, counts[1..], times[1..], k - 1);
    }
  }

  /** The reported elapsed time is 0 until its first refresh, and from then
      on the time from the start to the tick that last refreshed it. */
  predicate ElapsedTracksStart(ts: TimeStats) {
    || (ts.elapsedTime == 0 && ts.lastElapsedUpdate == 0)
    || (Started(ts) && ts.elapsedTime == ts.lastElapsedUpdate - ts.startTime.value)
  }

  lemma AdvanceTracksStart(ts: TimeStats, counts: StatusCounts, now: int)
    requires ElapsedTracksStart(ts)
    ensures ElapsedTracksStart(Advance(ts, counts, now))
  {
  }

  lemma {:induction false} ElapsedTracksStartOverRun(ts: TimeStats, counts: seq<StatusCounts>, times: seq<int>)
    requires |counts| == |times| && ElapsedTracksStart(ts)
    ensures ElapsedTracksStart(AdvanceRun(ts, counts, times))
    decreases |counts|
  {
    if |counts| > 0 {
      AdvanceTracksStart(ts, counts[0], times[0]);
      ElapsedTracksStartOverRun(Advance(ts, counts[0], times[0]), counts[1..], times[1..]);
    }
  }

  /** From the initial statistics, every run of ticks reports an elapsed
      time consistent with its start. */
  lemma InitialElapsedTracksStart(counts: seq<StatusCounts>, times: seq<int>)
    requires |counts| == |times|
    ensures ElapsedTracksStart(AdvanceRun(InitialTimeStats, counts, times))
  {
    ElapsedTracksStartOverRun(InitialTimeStats, counts, times);
  }

  /** Line 181: the spend so far plus, for each remaining record, the
      average spend per record of the billed calls so far. `batchSize` is
      None before a run has started. */
  function ProjectedTotalCost(counters: Worker.Counters, batchSize: Option<int>, remaining: nat): (r: real)
    ensures Worker.BillableCalls(counters) == 0 || batchSize.None? || batchSize.value == 0 ==> r == 0.0
    ensures Worker.BillableCalls(counters) > 0 && batchSize.Some? && batchSize.value > 0 ==>
              (counters.currentCost >= 0.0 ==> r >= counters.currentCost)
              && (remaining == 0 ==> r == counters.currentCost)
  {
    var billable := Worker.BillableCalls(counters);
    if billable > 0 && batchSize.Some? && batchSize.value != 0 then
      var records := (billable * batchSize.value) as real;
      var projected := counters.currentCost / records * remaining as real + counters.currentCost;
      if batchSize.value > 0 then
        ProjectionStepNonNegative(counters.currentCost, records, remaining as real);
        projected
      else projected
    else 0.0
  }

  lemma ProjectionStepNonNegative(cost: real, records: real, remaining: real)
    requires records > 0.0 && remaining >= 0.0
    ensures cost >= 0.0 ==> cost / records * remaining >= 0.0
  {
  }

  /** When every billed call has cost the same `perRecord` per record, the
      projection is exactly the spend so far plus that price for each
      remaining record. */
  lemma ProjectionExactForUniformPrice(counters: Worker.Counters, batchSize: int, remaining: nat, perRecord: real)
    requires Worker.BillableCalls(counters) > 0 && batchSize > 0
    requires counters.currentCost == perRecord * (Worker.BillableCalls(counters) * batchSize) as real
    ensures ProjectedTotalCost(counters, Some(batchSize), remaining)
            == counters.currentCost + perRecord * remaining as real
  {
    var n := (Worker.BillableCalls(counters) * batchSize) as real;
    assert counters.currentCost / n == perRecord;
  }
}
