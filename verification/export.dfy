/** CSV export (src/utils/export.ts:14-92): the raw rows left-joined with
    their canonical records, filtered by status and minimum confidence,
    ordered by descending confidence, each with a standardized title
    column, and the progress cadence of the writer. */
module Export {
  import opened Wrappers
  import opened Text
  import opened Schema
  import opened Standardize

  /** The two optional filters of `exportCsv` (lines 17-18). */
  datatype ExportFilter = ExportFilter(statusFilter: Option<string>, minConfidence: Option<real>)

  /** Lines 32 and 58: the canonical record a raw row joins with; a null or
      dangling reference joins with nothing (the columns read as null). */
  function JoinedRecord(db: Db, id: string): (r: Option<UniqueJob>)
    ensures r.Some? <==> id in db.jobs && db.jobs[id].Some? && db.jobs[id].value in db.unique
    ensures r.Some? ==> r.value == db.unique[db.jobs[id].value]
  {
    if id in db.jobs && db.jobs[id].Some? && db.jobs[id].value in db.unique
    then Some(db.unique[db.jobs[id].value]) else None
  }

  /** Lines 22-24: a non-empty status filter compares the joined status; a
      row without a record has a null status and never matches. */
  predicate StatusCondition(f: ExportFilter, rec: Option<UniqueJob>)
    ensures !Truthy(f.statusFilter) ==> StatusCondition(f, rec)
    ensures Truthy(f.statusFilter) && rec.None? ==> !StatusCondition(f, rec)
    ensures Truthy(f.statusFilter) && rec.Some? ==>
              (StatusCondition(f, rec) <==> StatusName(rec.value.status) == f.statusFilter.value)
  {
    Truthy(f.statusFilter) ==> rec.Some? && StatusName(rec.value.status) == f.statusFilter.value
  }

  /** Lines 25-27: a given minimum (zero included) compares the joined
      confidence; a null confidence never matches. */
  predicate ConfidenceCondition(f: ExportFilter, rec: Option<UniqueJob>)
    ensures f.minConfidence.None? ==> ConfidenceCondition(f, rec)
    ensures f.minConfidence.Some? && (rec.None? || rec.value.confidence.None?) ==>
              !ConfidenceCondition(f, rec)
    ensures f.minConfidence.Some? && rec.Some? && rec.value.confidence.Some? ==>
              (ConfidenceCondition(f, rec) <==> rec.value.confidence.value >= f.minConfidence.value)
  {
    f.minConfidence.Some? ==>
      rec.Some? && rec.value.confidence.Some? && rec.value.confidence.value >= f.minConfidence.value
  }

  /** Lines 33 and 59: the conditions joined with AND, or no WHERE at all. */
  predicate Passes(f: ExportFilter, rec: Option<UniqueJob>)
    ensures f == ExportFilter(None, None) ==> Passes(f, rec)
    ensures Passes(f, rec) ==> StatusCondition(f, rec) && ConfidenceCondition(f, rec)
    ensures !Truthy(f.statusFilter) ==> (Passes(f, rec) <==> ConfidenceCondition(f, rec))
    ensures f.minConfidence.None? ==> (Passes(f, rec) <==> StatusCondition(f, rec))
  {
    StatusCondition(f, rec) && ConfidenceCondition(f, rec)
  }

  /** The raw ids the select query returns. */
  function Selected(db: Db, f: ExportFilter): set<string> {
    set id | id in db.jobs && Passes(f, JoinedRecord(db, id))
  }

  /** Lines 31-35: the count query uses the same join and conditions. */
  function TotalRows(db: Db, f: ExportFilter): (r: nat)
    ensures r <= |db.jobs|
  {
    assert Selected(db, f) <= db.jobs.Keys;
    SubsetCardinality(Selected(db, f), db.jobs.Keys);
    |Selected(db, f)|
  }

  /** Without filters every raw row is exported, linked or not. */
  lemma NoFilterExportsEveryRow(db: Db)
    ensures Selected(db, ExportFilter(None, None)) == db.jobs.Keys
    ensures TotalRows(db, ExportFilter(None, None)) == |db.jobs|
  {
  }

  /** With both filters, a row is exported exactly when it passes each of
      them alone. */
  lemma FiltersConjoin(db: Db, status: string, min: real)
    ensures Selected(db, ExportFilter(Some(status), Some(min)))
            == Selected(db, ExportFilter(Some(status), None)) * Selected(db, ExportFilter(None, Some(min)))
  {
  }

  /** A status filter keeps exactly the raw rows linked to a record with
      that status; an empty filter string is no filter. */
  lemma StatusFilterSelects(db: Db, status: Status, id: string)
    ensures id in Selected(db, ExportFilter(Some(StatusName(status)), None))
            <==> JoinedRecord(db, id).Some? && JoinedRecord(db, id).value.status == status
                 && id in db.jobs
    ensures Selected(db, ExportFilter(Some(""), None)) == db.jobs.Keys
  {
    if JoinedRecord(db, id).Some? {
      StatusNameInjective(JoinedRecord(db, id).value.status, status);
    }
  }

  // ----------------------------------------------------------------- ordering

  /** The joined confidence, null when there is no record or no score. */
  function ConfidenceOf(db: Db, id: string): (r: Option<real>)
    ensures r.Some? ==> JoinedRecord(db, id).Some? && JoinedRecord(db, id).value.confidence == r
  {
    match JoinedRecord(db, id)
    case Some(rec) => rec.confidence
    case None => None
  }

  /** `ORDER BY confidence DESC` in SQLite: larger first, nulls last, ties in
      no particular order. */
  predicate Precedes(a: Option<real>, b: Option<real>)
    ensures a.Some? && b.Some? ==> (Precedes(a, b) <==> a.value >= b.value)
    ensures a.Some? && b.None? ==> Precedes(a, b)
    ensures a.None? && b.Some? ==> !Precedes(a, b)
    ensures a.None? && b.None? ==> Precedes(a, b)
  {
    match (a, b)
    case (Some(x), Some(y)) => x >= y
    case (Some(_), None) => true
    case (None, None) => true
    case (None, Some(_)) => false
  }

  lemma PrecedesTotal(a: Option<real>, b: Option<real>)
    ensures Precedes(a, b) || Precedes(b, a)
  {
  }

  lemma PrecedesTransitive(a: Option<real>, b: Option<real>, c: Option<real>)
    ensures Precedes(a, b) && Precedes(b, c) ==> Precedes(a, c)
  {
  }

  predicate SortedDescending(db: Db, ids: seq<string>) {
    forall i, j :: 0 <= i < j < |ids| ==> Precedes(ConfidenceOf(db, ids[i]), ConfidenceOf(db, ids[j]))
  }

  predicate IsFirst(db: Db, id: string, s: set<string>) {
    id in s && forall o :: o in s ==> Precedes(ConfidenceOf(db, id), ConfidenceOf(db, o))
  }

  lemma {:induction false} FirstExists(db: Db, s: set<string>)
    requires s != {}
    ensures exists m :: IsFirst(db, m, s)
    decreases |s|
  {
    var x :| x in s;
    if s != {x} {
      FirstExists(db, s - {x});
      var m :| IsFirst(db, m, s - {x});
      PrecedesTotal(ConfidenceOf(db, x), ConfidenceOf(db, m));
      if Precedes(ConfidenceOf(db, x), ConfidenceOf(db, m)) {
        forall o | o in s ensures Precedes(ConfidenceOf(db, x), ConfidenceOf(db, o)) {
          if o != x {
            assert o in s - {x};
            PrecedesTransitive(ConfidenceOf(db, x), ConfidenceOf(db, m), ConfidenceOf(db, o));
          }
        }
        assert IsFirst(db, x, s);
      } else {
        forall o | o in s ensures Precedes(ConfidenceOf(db, m), ConfidenceOf(db, o)) {
          if o != x { assert o in s - {x}; }
        }
        assert IsFirst(db, m, s);
      }
    } else {
      assert IsFirst(db, x, s);
    }
  }

  predicate DistinctIds(ids: seq<string>) {
    forall i, j :: 0 <= i < j < |ids| ==> ids[i] != ids[j]
  }

  /** Every id already emitted precedes every id still to come. */
  predicate EmittedFirst(db: Db, ids: seq<string>, remaining: set<string>) {
    forall i, o :: 0 <= i < |ids| && o in remaining ==> Precedes(ConfidenceOf(db, ids[i]), ConfidenceOf(db, o))
  }

  predicate Partition(sel: set<string>, ids: seq<string>, remaining: set<string>) {
    && (forall i :: 0 <= i < |ids| ==> ids[i] in sel && ids[i] !in remaining)
    && remaining <= sel
    && (forall id :: id in sel ==> id in remaining || id in ids)
  }

  lemma EmitStep(db: Db, sel: set<string>, ids: seq<string>, remaining: set<string>, m: string)
    requires Partition(sel, ids, remaining) && DistinctIds(ids)
    requires SortedDescending(db, ids) && EmittedFirst(db, ids, remaining)
    requires IsFirst(db, m, remaining)
    ensures Partition(sel, ids + [m], remaining - {m}) && DistinctIds(ids + [m])
    ensures SortedDescending(db, ids + [m]) && EmittedFirst(db, ids + [m], remaining - {m})
  {
  }

  /** The select query's rows in output order (line 59), before the
      standardized column is added. */
  method OrderedIds(db: Db, f: ExportFilter) returns (ids: seq<string>)
    ensures DistinctIds(ids) && |ids| == TotalRows(db, f)
    ensures forall id :: id in ids <==> id in Selected(db, f)
    ensures SortedDescending(db, ids)
  {
    var sel := Selected(db, f);
    var remaining := sel;
    ids := [];
    while remaining != {}
      invariant Partition(sel, ids, remaining) && DistinctIds(ids)
      invariant SortedDescending(db, ids) && EmittedFirst(db, ids, remaining)
      invariant |ids| + |remaining| == |sel|
      decreases |remaining|
    {
      FirstExists(db, remaining);
      var m :| IsFirst(db, m, remaining);
      EmitStep(db, sel, ids, remaining, m);
      ids := ids + [m];
      remaining := remaining - {m};
    }
  }

  // ---------------------------------------------------------------- columns

  /** One CSV line: the selected columns and `standardized_job_title`. */
  datatype ExportRow = ExportRow(
    id: string, jobTitle: Option<string>, jobFunction: Option<string>,
    jobSeniority: Option<string>, confidence: Option<real>, standardizedJobTitle: Option<string>)

  /** Line 69: the standardized title is computed only for a truthy
      seniority, from the joined title, function and seniority. */
  function StandardizedColumn(rec: Option<UniqueJob>): (r: Option<string>)
    ensures rec.None? ==> r.None?
    ensures rec.Some? && !Truthy(rec.value.jobSeniority) ==> r.None?
  {
    match rec
    case None => None
    case Some(j) =>
      if Truthy(j.jobSeniority) then StandardizedTitle(j.jobSeniority, j.jobFunction, Some(j.jobTitle))
      else None
  }

  /** The seniority guard changes nothing: the column always equals the
      classifier's standardized title of the joined record, so exported
      files and stored classifications agree. */
  lemma StandardizedColumnAgrees(j: UniqueJob)
    ensures StandardizedColumn(Some(j)) == StandardizedTitle(j.jobSeniority, j.jobFunction, Some(j.jobTitle))
  {
  }

  function RowFor(db: Db, id: string): (r: ExportRow)
    ensures r.id == id && r.confidence == ConfidenceOf(db, id)
    ensures JoinedRecord(db, id).None? ==>
              r.jobTitle.None? && r.jobFunction.None? && r.jobSeniority.None? && r.standardizedJobTitle.None?
    ensures JoinedRecord(db, id).Some? ==>
              && r.jobTitle == Some(JoinedRecord(db, id).value.jobTitle)
              && r.jobFunction == JoinedRecord(db, id).value.jobFunction
              && r.jobSeniority == JoinedRecord(db, id).value.jobSeniority
              && r.confidence == JoinedRecord(db, id).value.confidence
              && r.standardizedJobTitle
                 == StandardizedTitle(r.jobSeniority, r.jobFunction, r.jobTitle)
  {
    var rec := JoinedRecord(db, id);
    match rec
    case None => ExportRow(id, None, None, None, None, None)
    case Some(j) =>
      ExportRow(id, Some(j.jobTitle), j.jobFunction, j.jobSeniority, j.confidence, StandardizedColumn(rec))
  }

  /** `exportCsv`: the lines written and the total the progress callback is
      given. */
  method ExportCsv(db: Db, f: ExportFilter) returns (rows: seq<ExportRow>, totalRows: nat)
    ensures totalRows == TotalRows(db, f) && |rows| == totalRows
    ensures forall i :: 0 <= i < |rows| ==> rows[i] == RowFor(db, rows[i].id)
    ensures forall i, j :: 0 <= i < j < |rows| ==> rows[i].id != rows[j].id
    ensures forall id :: id in Selected(db, f) <==> exists i :: 0 <= i < |rows| && rows[i].id == id
    ensures forall i, j :: 0 <= i < j < |rows| ==> Precedes(rows[i].confidence, rows[j].confidence)
  {
    totalRows := TotalRows(db, f);
    var ids := OrderedIds(db, f);
    rows := seq(|ids|, i requires 0 <= i < |ids| => RowFor(db, ids[i]));
    forall id | id in Selected(db, f) ensures exists i :: 0 <= i < |rows| && rows[i].id == id {
      var i :| 0 <= i < |ids| && ids[i] == id;
      assert rows[i].id == id;
    }
  }

  // ---------------------------------------------------------------- progress

  /** Line 72: the callback fires on every thousandth line and on the last. */
  predicate ShouldReport(exported: nat, total: nat) {
    exported % 1000 == 0 || exported == total
  }

  /** The counts passed to the callback while the first `n` lines are
      written. */
  function {:induction false} Reports(n: nat, total: nat): (r: seq<nat>)
    ensures forall k :: k in r <==> 1 <= k <= n && ShouldReport(k, total)
    ensures forall i, j :: 0 <= i < j < |r| ==> r[i] < r[j]
    decreases n
  {
    if n == 0 then []
    else
      var front := Reports(n - 1, total);
      assert forall i :: 0 <= i < |front| ==> front[i] in front && front[i] < n;
      if ShouldReport(n, total) then front + [n] else front
  }

  /** Because the count query and the select agree, a non-empty export
      always ends with a report of `(total, total)`, and an empty export
      reports nothing. */
  lemma LastReportIsComplete(total: nat)
    ensures total > 0 ==> |Reports(total, total)| > 0 && Reports(total, total)[|Reports(total, total)| - 1] == total
    ensures total == 0 ==> Reports(total, total) == []
  {
    if total > 0 {
      var r := Reports(total, total);
      assert total in r;
      var i :| 0 <= i < |r| && r[i] == total;
      assert r[|r| - 1] in r;
      assert i == |r| - 1;
    }
  }

  /** No thousand lines pass without a report. */
  lemma ReportEveryThousand(n: nat, total: nat, k: nat)
    requires 1 <= k && 1000 * k <= n
    ensures 1000 * k in Reports(n, total)
  {
  }
}
