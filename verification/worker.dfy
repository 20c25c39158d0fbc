/** The classification worker's store transitions and counters
    (src/utils/process.worker.ts): the start-of-run stale reset, the claim of
    a batch of pending records, the reconciliation of a batch with the
    classification result, and the dispatch pacing of the two worker loops.
    The store is the canonical table, a map from id to record; each claim and
    each reconciliation is one indivisible step on it. */
module Worker {
  import opened Wrappers
  import opened Schema
  import opened AiTypes
  import Selection
  import AiClassify

  /** A claimed record together with its id, as `returning()` yields it. */
  datatype Job = Job(id: nat, row: UniqueJob)

  function PendingIds(store: UniqueTable): (r: set<nat>)
    ensures forall id :: id in r <==> id in store && store[id].status == Pending
  {
    set id | id in store && store[id].status == Pending
  }

  /** Set `status` to `s` on the records whose id is in `ids`; ids that are
      not in the store are ignored, as by an UPDATE ... WHERE id IN (...). */
  function SetStatus(store: UniqueTable, ids: set<nat>, s: Status): (r: UniqueTable)
    ensures r.Keys == store.Keys
    ensures forall id :: id in r && id in ids ==> r[id] == store[id].(status := s)
    ensures forall id :: id in r && id !in ids ==> r[id] == store[id]
  {
    map id | id in store :: if id in ids then store[id].(status := s) else store[id]
  }

  /** The start-of-run recovery (line 265): every `processing` record goes
      back to `pending`; no other record changes. */
  function ResetStale(store: UniqueTable): (r: UniqueTable)
    ensures r.Keys == store.Keys
    ensures forall id :: id in r ==> r[id].status != Processing
    ensures forall id :: id in r && store[id].status == Processing ==>
              r[id] == store[id].(status := Pending)
    ensures forall id :: id in r && store[id].status != Processing ==> r[id] == store[id]
  {
    map id | id in store :: if store[id].status == Processing then store[id].(status := Pending) else store[id]
  }

  lemma ResetStaleIdempotent(store: UniqueTable)
    ensures ResetStale(ResetStale(store)) == ResetStale(store)
  {
  }

  function IdsOf(batch: seq<Job>): (r: set<nat>)
    ensures forall id :: id in r <==> exists i :: 0 <= i < |batch| && batch[i].id == id
  {
    set i | 0 <= i < |batch| :: batch[i].id
  }

  /** `getBatch` (lines 190-204): atomically select at most `batchSize`
      pending records, mark them `processing` and return them as updated. */
  method GetBatch(store: UniqueTable, batchSize: int) returns (batch: seq<Job>, store': UniqueTable)
    ensures |batch| == Selection.LimitCount(batchSize, |PendingIds(store)|)
    ensures forall i :: 0 <= i < |batch| ==> batch[i].id in PendingIds(store)
    ensures forall i, j :: 0 <= i < j < |batch| ==> batch[i].id < batch[j].id
    ensures forall i, y :: 0 <= i < |batch| && y in PendingIds(store) - IdsOf(batch) ==> batch[i].id < y
    ensures store' == SetStatus(store, IdsOf(batch), Processing)
    ensures forall i :: 0 <= i < |batch| ==> batch[i].row == store'[batch[i].id]
  {
    var ids := Selection.TakeSmallest(PendingIds(store), batchSize);
    var marked := MarkProcessing(store, ids);
    batch, store' := marked.0, marked.1;
    SmallestCarryOver(PendingIds(store), ids, batch);
  }

  /** The rows `returning()` yields once `ids` are set to `processing`. */
  function MarkProcessing(store: UniqueTable, ids: seq<nat>): (r: (seq<Job>, UniqueTable))
    requires forall i :: 0 <= i < |ids| ==> ids[i] in store
    ensures |r.0| == |ids| && forall i :: 0 <= i < |ids| ==> r.0[i].id == ids[i]
    ensures IdsOf(r.0) == set i | 0 <= i < |ids| :: ids[i]
    ensures r.1 == SetStatus(store, IdsOf(r.0), Processing)
    ensures forall i :: 0 <= i < |ids| ==> r.0[i].row == r.1[ids[i]]
  {
    var chosen := set i | 0 <= i < |ids| :: ids[i];
    var store' := SetStatus(store, chosen, Processing);
    var batch := seq(|ids|, i requires 0 <= i < |ids| => Job(ids[i], store'[ids[i]]));
    assert IdsOf(batch) == chosen by {
      forall id | id in chosen ensures id in IdsOf(batch) {
        var i :| 0 <= i < |ids| && ids[i] == id;
        assert batch[i].id == id;
      }
    }
    (batch, store')
  }

  /** A batch listing the ids of a smallest-first selection keeps its
      order and its minimality. */
  lemma SmallestCarryOver(candidates: set<nat>, ids: seq<nat>, batch: seq<Job>)
    requires |batch| == |ids| && forall i :: 0 <= i < |ids| ==> batch[i].id == ids[i]
    requires Selection.StrictlyIncreasing(ids)
    requires forall i, y :: 0 <= i < |ids| && y in candidates && y !in ids ==> ids[i] < y
    ensures forall i, j :: 0 <= i < j < |batch| ==> batch[i].id < batch[j].id
    ensures forall i, y :: 0 <= i < |batch| && y in candidates - IdsOf(batch) ==> batch[i].id < y
  {
    forall k | 0 <= k < |ids| ensures ids[k] in IdsOf(batch) {
      assert batch[k].id == ids[k];
    }
  }

  /** The batch as sent to the model. */
  function Inputs(batch: seq<Job>): (r: seq<JobTitleInput>)
    ensures |r| == |batch|
    ensures forall i :: 0 <= i < |batch| ==> r[i] == JobTitleInput(batch[i].id, batch[i].row.jobTitle)
  {
    seq(|batch|, i requires 0 <= i < |batch| => JobTitleInput(batch[i].id, batch[i].row.jobTitle))
  }

  /** `new Map(classifications.map(c => [c.id, c]))`: a later item with the
      same id replaces an earlier one. */
  function ClassificationMap(cs: seq<JobClassification>): (r: map<int, JobClassification>)
    ensures r.Keys == IdSet(ClassifiedIdSeq(cs))
    ensures forall id :: id in r ==> exists i :: LastWithId(cs, i, id) && cs[i] == r[id]
  {
    if |cs| == 0 then map[]
    else
      var last := cs[|cs| - 1];
      var front := cs[..|cs| - 1];
      var m := ClassificationMap(front);
      assert IdSet(ClassifiedIdSeq(cs)) == IdSet(ClassifiedIdSeq(front)) + {last.id} by {
        assert ClassifiedIdSeq(cs) == ClassifiedIdSeq(front) + [last.id];
      }
      var r := m[last.id := last];
      assert LastWithId(cs, |cs| - 1, last.id);
      assert forall id :: id in r ==> exists i :: LastWithId(cs, i, id) && cs[i] == r[id] by {
        forall id | id in r && id != last.id ensures exists i :: LastWithId(cs, i, id) && cs[i] == r[id] {
          var i :| LastWithId(front, i, id) && front[i] == m[id];
          LastWithIdExtends(cs, i, id);
        }
      }
      r
  }

  /** Index `i` holds the last item of `cs` with this id. */
  predicate LastWithId(cs: seq<JobClassification>, i: int, id: int) {
    0 <= i < |cs| && cs[i].id == id && forall j :: i < j < |cs| ==> cs[j].id != id
  }

  lemma LastWithIdExtends(cs: seq<JobClassification>, i: int, id: int)
    requires |cs| > 0 && LastWithId(cs[..|cs| - 1], i, id) && cs[|cs| - 1].id != id
    ensures LastWithId(cs, i, id) && cs[i] == cs[..|cs| - 1][i]
  {
  }


  /** The record after a successful classification (lines 226-231). */
  function Complete(row: UniqueJob, c: JobClassification): (r: UniqueJob)
    ensures r.status == Completed && r.jobTitle == row.jobTitle
    ensures r.jobFunction == Some(c.jobFunction) && r.jobSeniority == Some(c.jobSeniority)
    ensures r.confidence == Some(c.confidence)
  {
    row.(jobFunction := Some(c.jobFunction), jobSeniority := Some(c.jobSeniority),
         confidence := Some(c.confidence), status := Completed)
  }

  /** The running call counters and spend (lines 70-74). */
  datatype Counters = Counters(
    currentCost: real, totalCalls: nat, successfulCalls: nat, failedCalls: nat, mismatchCalls: nat)

  const InitialCounters: Counters := Counters(0.0, 0, 0, 0, 0)

  /** Calls that consumed tokens: successes and mismatches (line 180). */
  function BillableCalls(c: Counters): nat {
    c.successfulCalls + c.mismatchCalls
  }

  /** Every returned call is a success, a mismatch or a failure, and every
      success or mismatch was a returned call. */
  predicate CountersConsistent(c: Counters) {
    BillableCalls(c) <= c.totalCalls <= BillableCalls(c) + c.failedCalls
  }

  datatype WorkerState = WorkerState(store: UniqueTable, counters: Counters)

  /** The counters after a call that returned `resp` (lines 217-218, 221 and
      235-236): every returned call is counted and billed, then counted once
      more by its status. */
  function Tally(c: Counters, resp: AIResponse): (r: Counters)
    ensures var billed := c.(totalCalls := c.totalCalls + 1, currentCost := c.currentCost + resp.cost);
            && (resp.status == Success ==> r == billed.(successfulCalls := c.successfulCalls + 1))
            && (resp.status == MismatchError ==> r == billed.(mismatchCalls := c.mismatchCalls + 1))
            && (resp.status == Error ==> r == billed.(failedCalls := c.failedCalls + 1))
    ensures CountersConsistent(c) ==> CountersConsistent(r)
  {
    var billed := c.(totalCalls := c.totalCalls + 1, currentCost := c.currentCost + resp.cost);
    match resp.status
    case Success => billed.(successfulCalls := c.successfulCalls + 1)
    case MismatchError => billed.(mismatchCalls := c.mismatchCalls + 1)
    case Error => billed.(failedCalls := c.failedCalls + 1)
  }

  /** `processBatch` (lines 210-250). `outcome` is what `classifyJobTitles`
      produced: a response, or the exception it let escape. */
  function ProcessBatch(st: WorkerState, batch: seq<Job>, outcome: Result<AIResponse, string>)
    : (r: WorkerState)
    ensures r.store.Keys == st.store.Keys
    ensures forall id :: id in st.store && id !in IdsOf(batch) ==> r.store[id] == st.store[id]
    ensures |batch| == 0 ==> r == st
    ensures |batch| > 0 && outcome.Ok? ==> r.counters == Tally(st.counters, outcome.value)
    ensures |batch| > 0 && outcome.Err? ==>
              r.counters == st.counters.(failedCalls := st.counters.failedCalls + 1)
    ensures |batch| > 0 && !(outcome.Ok? && outcome.value.status == Success) ==>
              && r.store == SetStatus(st.store, IdsOf(batch), Pending)
    ensures |batch| > 0 && outcome.Ok? && outcome.value.status == Success ==>
              var cmap := ClassificationMap(outcome.value.classifications);
              && (forall id :: id in st.store && id in IdsOf(batch) && id in cmap ==>
                    r.store[id] == Complete(st.store[id], cmap[id]))
              && (forall id :: id in st.store && id in IdsOf(batch) && id !in cmap ==>
                    r.store[id] == st.store[id])
    ensures CountersConsistent(st.counters) ==> CountersConsistent(r.counters)
  {
    if |batch| == 0 then st
    else
      var ids := IdsOf(batch);
      var c := st.counters;
      match outcome
      case Err(_) =>
        WorkerState(SetStatus(st.store, ids, Pending), c.(failedCalls := c.failedCalls + 1))
      case Ok(resp) =>
        if resp.status == Success then
          var cmap := ClassificationMap(resp.classifications);
          var store' := map id | id in st.store ::
            if id in ids && id in cmap then Complete(st.store[id], cmap[id]) else st.store[id];
          WorkerState(store', Tally(c, resp))
        else
          WorkerState(SetStatus(st.store, ids, Pending), Tally(c, resp))
  }

  /** No loss: a claimed batch whose model call has resolved
      (the response `classifyJobTitles` builds for the batch, or an escaped
      exception) leaves none of its records in `processing`. */
  lemma NoRecordLeftProcessing(st: WorkerState, batch: seq<Job>, call: AiClassify.ModelCall,
                               outcome: Result<AIResponse, string>)
    requires forall i :: 0 <= i < |batch| ==> batch[i].id in st.store
    requires outcome.Err? || outcome == AiClassify.ClassifyJobTitles(Inputs(batch), call)
    ensures forall i :: 0 <= i < |batch| ==>
              ProcessBatch(st, batch, outcome).store[batch[i].id].status != Processing
  {
    if |batch| > 0 && outcome.Ok? && outcome.value.status == Success {
      AiClassify.SuccessCoversBatch(Inputs(batch), call);
      var cmap := ClassificationMap(outcome.value.classifications);
      forall i | 0 <= i < |batch|
        ensures ProcessBatch(st, batch, outcome).store[batch[i].id].status == Completed
      {
        assert InputIdSeq(Inputs(batch))[i] == batch[i].id;
        assert batch[i].id in cmap;
      }
    }
  }

  /** A completed record never regresses: reconciling a batch of claimed
      (`processing`) records leaves every completed record completed and
      every pending record pending. */
  lemma ReconcileKeepsSettledRecords(st: WorkerState, batch: seq<Job>, outcome: Result<AIResponse, string>)
    requires forall i :: 0 <= i < |batch| ==>
               batch[i].id in st.store && st.store[batch[i].id].status == Processing
    ensures forall id :: id in st.store && st.store[id].status != Processing ==>
              ProcessBatch(st, batch, outcome).store[id] == st.store[id]
  {
  }

  /** Claim exclusivity: two claims in a row never return the same record,
      because the first one has already moved its records out of `pending`. */
  method ClaimTwice(store: UniqueTable, size1: int, size2: int)
    returns (first: seq<Job>, second: seq<Job>, store': UniqueTable)
    ensures IdsOf(first) !! IdsOf(second)
    ensures forall i :: 0 <= i < |second| ==> second[i].id in PendingIds(store)
  {
    var mid: UniqueTable;
    first, mid := GetBatch(store, size1);
    second, store' := GetBatch(mid, size2);
  }

  /** The wait that tops an elapsed time up to `gap`, or none once the gap
      has passed. */
  function WaitOut(elapsed: real, gap: real): (r: real)
    ensures r >= 0.0
    ensures elapsed < gap <==> r > 0.0
    ensures elapsed < gap ==> elapsed + r == gap
  {
    if elapsed < gap then gap - elapsed else 0.0
  }

  /** Dispatch pacing of both worker loops (lines 312-316 and 339-344): wait
      until `gap` ms have passed since `last`, unless `last` is still 0. */
  function PacingWait(last: int, now: int, gap: real): (r: real)
    ensures r >= 0.0
    ensures last > 0 ==> now as real + r >= last as real + gap
    ensures last > 0 && ((now - last) as real) < gap ==> now as real + r == last as real + gap
    ensures last <= 0 || (now - last) as real >= gap ==> r == 0.0
  {
    if last > 0 then WaitOut((now - last) as real, gap) else 0.0
  }

  /** Spacing between dispatch starts in throughput mode (line 331). */
  function DispatchInterval(requestsPerMinute: int): (r: real)
    ensures requestsPerMinute > 0 ==> r * requestsPerMinute as real == 60000.0
    ensures requestsPerMinute <= 0 ==> r == 0.0
  {
    if requestsPerMinute > 0 then 60000.0 / requestsPerMinute as real else 0.0
  }

  /** Dispatch start times of the throughput loop: each iteration begins
      `delays[i]` ms after the previous dispatch and waits out the
      interval. */
  function DispatchStarts(last: real, delays: seq<nat>, gap: real): (r: seq<real>)
    requires last > 0.0
    ensures |r| == |delays|
    decreases |delays|
  {
    if |delays| == 0 then []
    else
      var now := last + delays[0] as real;
      var wait := WaitOut(now - last, gap);
      [now + wait] + DispatchStarts(now + wait, delays[1..], gap)
  }

  /** With a previous dispatch at `last > 0`, n dispatches end at least
      n intervals later: at 30 requests a minute, 60 dispatches after the
      first one span at least 120 seconds. */
  lemma {:induction false} DispatchesAreSpaced(last: real, delays: seq<nat>, gap: real)
    requires last > 0.0
    requires |delays| > 0
    ensures SpacedBy(DispatchStarts(last, delays, gap)[|delays| - 1], last, |delays| as real, gap)
    decreases |delays|
  {
    var now := last + delays[0] as real;
    var start := now + WaitOut(now - last, gap);
    var x := DispatchStarts(last, delays, gap)[|delays| - 1];
    if |delays| > 1 {
      var rest := DispatchStarts(start, delays[1..], gap);
      DispatchesAreSpaced(start, delays[1..], gap);
      assert x == rest[|delays| - 2];
      OneMoreGap(last, start, x, |delays[1..]| as real, gap);
    } else {
      assert x == start;
      OneMoreGap(last, start, x, 0.0, gap);
    }
    assert |delays[1..]| as real + 1.0 == |delays| as real;
  }

  /** `x` lies at least n gaps after `from`. */
  predicate SpacedBy(x: real, from: real, n: real, gap: real) {
    x >= from + n * gap
  }

  /** n gaps after a start that is itself one gap after `last`. */
  lemma OneMoreGap(last: real, start: real, x: real, n: real, gap: real)
    requires start >= last + gap && SpacedBy(x, start, n, gap)
    ensures SpacedBy(x, last, n + 1.0, gap)
  {
  }

}
