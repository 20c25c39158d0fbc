/** CSV ingest (src/utils/ingest.worker.ts): a batch of raw rows becomes the
    distinct canonical titles it mentions (inserted if new, left alone if
    present) and one raw-row link per row id. The CSV stream is a sequence
    of rows cut into batches of 5000. */
module Ingest {
  import opened Wrappers
  import opened Schema

  /** Line 9. */
  const IngestBatchSize: nat := 5000

  /** One parsed CSV row (line 11). */
  datatype CsvRow = CsvRow(id: string, jobTitle: string)

  /** The truthy titles of a batch, as a set. */
  function NonEmptyTitles(rows: seq<CsvRow>): set<string> {
    set r | r in rows && r.jobTitle != "" :: r.jobTitle
  }

  predicate NoDuplicates(ts: seq<string>) {
    forall i, j :: 0 <= i < j < |ts| ==> ts[i] != ts[j]
  }

  /** Line 19, from the inside out: titles of `rows` not yet in `acc` are
      appended in order of first occurrence, empty titles skipped. */
  function {:induction false} CollectTitles(rows: seq<CsvRow>, acc: seq<string>): (r: seq<string>)
    requires NoDuplicates(acc) && "" !in acc
    ensures NoDuplicates(r) && "" !in r
    ensures |acc| <= |r| && r[..|acc|] == acc
    ensures forall t :: t in r <==> t in acc || t in NonEmptyTitles(rows)
    decreases |rows|
  {
    if |rows| == 0 then acc
    else
      var t := rows[0].jobTitle;
      var acc' := if t != "" && t !in acc then acc + [t] else acc;
      var r := CollectTitles(rows[1..], acc');
      assert forall u :: u in NonEmptyTitles(rows) <==> u in NonEmptyTitles(rows[1..]) || (u == t && t != "") by {
        assert rows == [rows[0]] + rows[1..];
        forall u | u in NonEmptyTitles(rows) ensures u in NonEmptyTitles(rows[1..]) || (u == t && t != "") {
          var row :| row in rows && row.jobTitle != "" && row.jobTitle == u;
          if row != rows[0] {
            assert row in rows[1..];
          }
        }
      }
      assert r[..|acc|] == r[..|acc'|][..|acc|];
      r
  }

  /** `[...new Set(batch.map(title).filter(truthy))]`: the distinct
      non-empty titles of the batch, in order of first occurrence. */
  function UniqueTitles(rows: seq<CsvRow>): (r: seq<string>)
    ensures NoDuplicates(r) && "" !in r
    ensures forall t :: t in r <==> t in NonEmptyTitles(rows)
  {
    CollectTitles(rows, [])
  }

  /** The canonical records of `db` are still in `r` unchanged, every title
      keeps its id, and every record `r` adds is a fresh pending one. */
  predicate Extends(db: Db, r: Db) {
    && (forall id :: id in db.unique ==> id in r.unique && r.unique[id] == db.unique[id])
    && (forall t :: t in db.titleIndex ==> t in r.titleIndex && r.titleIndex[t] == db.titleIndex[t])
    && (forall id :: id in r.unique && id !in db.unique ==> r.unique[id] == NewUniqueJob(r.unique[id].jobTitle))
  }

  /** Insert-or-ignore of one title (`onConflictDoNothing`): a present title
      leaves the store as it is; a new one gets the next autoincrement id. */
  function InsertTitle(db: Db, t: string): (r: Db)
    requires Valid(db)
    ensures Valid(r) && Extends(db, r) && r.jobs == db.jobs
    ensures r.titleIndex.Keys == db.titleIndex.Keys + {t}
    ensures t in db.titleIndex ==> r == db
  {
    if t in db.titleIndex then db
    else
      var id := db.nextId;
      assert id !in db.unique;
      Db(db.unique[id := NewUniqueJob(t)], db.titleIndex[t := id], id + 1, db.jobs)
  }

  /** Line 24: the multi-row insert, one title after another. */
  function {:induction false} InsertTitles(db: Db, ts: seq<string>): (r: Db)
    requires Valid(db)
    ensures Valid(r) && Extends(db, r) && r.jobs == db.jobs
    ensures r.titleIndex.Keys == db.titleIndex.Keys + set t | t in ts
    ensures (forall t :: t in ts ==> t in db.titleIndex) ==> r == db
    decreases |ts|
  {
    if |ts| == 0 then db
    else
      var db1 := InsertTitle(db, ts[0]);
      var r := InsertTitles(db1, ts[1..]);
      ExtendsTransitive(db, db1, r);
      assert (set t | t in ts) == {ts[0]} + set t | t in ts[1..];
      r
  }

  /** Lines 27-33: the id of each listed title, as read back after the
      insert. */
  function TitleToId(db: Db, ts: seq<string>): (r: map<string, nat>)
    ensures forall t :: t in r <==> t in ts && t in db.titleIndex
    ensures forall t :: t in r ==> r[t] == db.titleIndex[t]
  {
    map t | t in ts && t in db.titleIndex :: db.titleIndex[t]
  }

  /** The title of the last row of `rows` with this id and a non-empty
      title: the link the upsert leaves for that id. */
  function LastLinkedTitle(rows: seq<CsvRow>, id: string): (r: Option<string>)
    ensures r.Some? ==> r.value != "" && CsvRow(id, r.value) in rows
    ensures r.None? ==> forall row :: row in rows && row.id == id ==> row.jobTitle == ""
  {
    if |rows| == 0 then None
    else
      var last := rows[|rows| - 1];
      if last.id == id && last.jobTitle != "" then Some(last.jobTitle)
      else
        var r := LastLinkedTitle(rows[..|rows| - 1], id);
        assert rows == rows[..|rows| - 1] + [last];
        r
  }

  /** Lines 36-55: each row whose title has an id is upserted by raw id,
      later rows overwriting earlier ones; a row whose title has none is
      dropped. */
  function {:induction false} LinkRows(jobs: JobTable, rows: seq<CsvRow>, lookup: map<string, nat>): (r: JobTable)
    requires "" !in lookup
    requires forall row :: row in rows && row.jobTitle != "" ==> row.jobTitle in lookup
    ensures forall id :: LastLinkedTitle(rows, id).Some? ==>
              id in r && r[id] == Some(lookup[LastLinkedTitle(rows, id).value])
    ensures forall id :: LastLinkedTitle(rows, id).None? ==>
              (id in r <==> id in jobs) && (id in jobs ==> r[id] == jobs[id])
    decreases |rows|
  {
    if |rows| == 0 then jobs
    else
      var last := rows[|rows| - 1];
      var front := LinkRows(jobs, rows[..|rows| - 1], lookup);
      if last.jobTitle in lookup then front[last.id := Some(lookup[last.jobTitle])] else front
  }

  lemma LinkedTitleIsNonEmpty(rows: seq<CsvRow>, id: string)
    ensures LastLinkedTitle(rows, id).Some? ==> LastLinkedTitle(rows, id).value in NonEmptyTitles(rows)
  {
    if LastLinkedTitle(rows, id).Some? {
      var row := CsvRow(id, LastLinkedTitle(rows, id).value);
      assert row in rows && row.jobTitle != "";
    }
  }

  /** Raw rows are outside the canonical-table invariant. */
  lemma RelinkKeepsValid(db: Db, jobs: JobTable)
    requires Valid(db)
    ensures Valid(db.(jobs := jobs))
  {
  }

  /** Line 19 as a set: the distinct titles list exactly the batch's
      non-empty titles. */
  lemma UniqueTitlesAsSet(batch: seq<CsvRow>)
    ensures (set t | t in UniqueTitles(batch)) == NonEmptyTitles(batch)
  {
  }

  /** The raw rows of `r` are those of `db` with each id that `rows` names
      under a non-empty title linked to the canonical record of the last
      such title. */
  ghost predicate LinkedBy(db: Db, r: Db, rows: seq<CsvRow>) {
    && (forall id :: LastLinkedTitle(rows, id).Some? ==>
          && id in r.jobs && LastLinkedTitle(rows, id).value in r.titleIndex
          && r.jobs[id] == Some(r.titleIndex[LastLinkedTitle(rows, id).value]))
    && (forall id :: LastLinkedTitle(rows, id).None? ==>
          (id in r.jobs <==> id in db.jobs) && (id in db.jobs ==> r.jobs[id] == db.jobs[id]))
  }

  /** `processBatch` (lines 13-56). An empty batch, or one whose titles are
      all empty, returns before touching the store. Each raw id mentioned
      with a non-empty title ends up linked to the canonical record of the
      last such title; every other raw row is left as it was. */
  function ProcessBatch(db: Db, batch: seq<CsvRow>): (r: Db)
    requires Valid(db)
    ensures Valid(r) && Extends(db, r)
    ensures r.titleIndex.Keys == db.titleIndex.Keys + NonEmptyTitles(batch)
    ensures NonEmptyTitles(batch) == {} ==> r == db
    ensures LinkedBy(db, r, batch)
  {
    if |batch| == 0 then db
    else
      var titles := UniqueTitles(batch);
      UniqueTitlesAsSet(batch);
      if |titles| == 0 then
        assert NonEmptyTitles(batch) == {} by {
          assert titles == [];
        }
        assert forall id :: LastLinkedTitle(batch, id).None? by {
          forall id ensures LastLinkedTitle(batch, id).None? {
            LinkedTitleIsNonEmpty(batch, id);
          }
        }
        db
      else
        var db1 := InsertTitles(db, titles);
        var lookup := TitleToId(db1, titles);
        assert forall row :: row in batch && row.jobTitle != "" ==> row.jobTitle in lookup by {
          forall row | row in batch && row.jobTitle != "" ensures row.jobTitle in lookup {
            assert row.jobTitle in NonEmptyTitles(batch);
          }
        }
        var jobs := LinkRows(db1.jobs, batch, lookup);
        RelinkKeepsValid(db1, jobs);
        db1.(jobs := jobs)
  }

  lemma ExtendsTransitive(a: Db, b: Db, c: Db)
    requires Extends(a, b) && Extends(b, c)
    ensures Extends(a, c)
  {
  }

  /** Re-ingesting a batch changes nothing: no title is inserted twice and
      every raw id keeps the link it already has. */
  lemma ProcessBatchIdempotent(db: Db, batch: seq<CsvRow>)
    requires Valid(db)
    ensures ProcessBatch(ProcessBatch(db, batch), batch) == ProcessBatch(db, batch)
  {
    var r1 := ProcessBatch(db, batch);
    var r2 := ProcessBatch(r1, batch);
    if NonEmptyTitles(batch) != {} {
      assert LinkedBy(db, r1, batch) && LinkedBy(r1, r2, batch);
      assert r2.titleIndex == r1.titleIndex by {
        assert InsertTitles(r1, UniqueTitles(batch)) == r1;
      }
      SameLinks(db, r1, r2, batch);
    }
  }

  /** Linking the same rows twice against the same titles gives the same
      raw rows. */
  lemma SameLinks(db: Db, r1: Db, r2: Db, rows: seq<CsvRow>)
    requires LinkedBy(db, r1, rows) && LinkedBy(r1, r2, rows) && r2.titleIndex == r1.titleIndex
    ensures r2.jobs == r1.jobs
  {
    assert r2.jobs.Keys == r1.jobs.Keys by {
      forall id | id in r1.jobs ensures id in r2.jobs {
        if LastLinkedTitle(rows, id).None? {
        }
      }
    }
    forall id | id in r1.jobs ensures r2.jobs[id] == r1.jobs[id] {
      if LastLinkedTitle(rows, id).None? {
      }
    }
  }

  // ---------------------------------------------------------------- batching

  function Flatten(cs: seq<seq<CsvRow>>): seq<CsvRow> {
    if |cs| == 0 then [] else cs[0] + Flatten(cs[1..])
  }

  /** Lines 66-80: rows are buffered and flushed whenever the buffer reaches
      5000; a non-empty remainder is flushed at end of input. */
  function {:induction false} Chunks(rows: seq<CsvRow>): (r: seq<seq<CsvRow>>)
    ensures Flatten(r) == rows
    ensures forall i :: 0 <= i < |r| ==> 0 < |r[i]| <= IngestBatchSize
    ensures forall i :: 0 <= i < |r| - 1 ==> |r[i]| == IngestBatchSize
    decreases |rows|
  {
    if |rows| == 0 then []
    else if |rows| <= IngestBatchSize then
      assert Flatten([rows]) == rows + Flatten([]);
      [rows]
    else
      var rest := Chunks(rows[IngestBatchSize..]);
      var r := [rows[..IngestBatchSize]] + rest;
      assert r[1..] == rest;
      assert rows == rows[..IngestBatchSize] + rows[IngestBatchSize..];
      r
  }

  /** Batch after batch, in input order. */
  function {:induction false} IngestChunks(db: Db, cs: seq<seq<CsvRow>>): (r: Db)
    requires Valid(db)
    ensures Valid(r) && Extends(db, r)
    ensures r.titleIndex.Keys == db.titleIndex.Keys + NonEmptyTitles(Flatten(cs))
    ensures LinkedBy(db, r, Flatten(cs))
    decreases |cs|
  {
    if |cs| == 0 then
      assert LinkedBy(db, db, []) by {
        forall id ensures LastLinkedTitle([], id).None? {
        }
      }
      db
    else
      var db1 := ProcessBatch(db, cs[0]);
      var r := IngestChunks(db1, cs[1..]);
      assert Flatten(cs) == cs[0] + Flatten(cs[1..]);
      ExtendsTransitive(db, db1, r);
      NonEmptyTitlesAppend(cs[0], Flatten(cs[1..]));
      LinkedByCompose(db, db1, r, cs[0], Flatten(cs[1..]));
      r
  }

  /** Two consecutive batches link as their concatenation does. */
  lemma LinkedByCompose(db: Db, db1: Db, r: Db, a: seq<CsvRow>, b: seq<CsvRow>)
    requires LinkedBy(db, db1, a) && LinkedBy(db1, r, b) && Extends(db1, r)
    ensures LinkedBy(db, r, a + b)
  {
    forall id ensures LastLinkedTitle(a + b, id) ==
      (if LastLinkedTitle(b, id).Some? then LastLinkedTitle(b, id) else LastLinkedTitle(a, id))
    {
      LastLinkedTitleAppend(a, b, id);
    }
  }

  lemma NonEmptyTitlesAppend(a: seq<CsvRow>, b: seq<CsvRow>)
    ensures NonEmptyTitles(a + b) == NonEmptyTitles(a) + NonEmptyTitles(b)
  {
    forall t | t in NonEmptyTitles(a + b) ensures t in NonEmptyTitles(a) + NonEmptyTitles(b) {
      var row :| row in a + b && row.jobTitle != "" && row.jobTitle == t;
      if row in a {
        assert t in NonEmptyTitles(a);
      } else {
        assert t in NonEmptyTitles(b);
      }
    }
  }

  /** The later part of the input decides the link when it mentions the id. */
  lemma {:induction false} LastLinkedTitleAppend(a: seq<CsvRow>, b: seq<CsvRow>, id: string)
    ensures LastLinkedTitle(a + b, id) ==
            if LastLinkedTitle(b, id).Some? then LastLinkedTitle(b, id) else LastLinkedTitle(a, id)
    decreases |b|
  {
    if |b| == 0 {
      assert a + b == a;
    } else {
      var ab := a + b;
      assert ab[..|ab| - 1] == a + b[..|b| - 1];
      assert ab[|ab| - 1] == b[|b| - 1];
      LastLinkedTitleAppend(a, b[..|b| - 1], id);
    }
  }

  /** The whole file: every non-empty title of the input has a canonical
      record, no earlier record is disturbed, and each raw id is linked by
      the last row that names it with a non-empty title, exactly as if the
      file had been one batch. */
  function IngestFile(db: Db, rows: seq<CsvRow>): (r: Db)
    requires Valid(db)
    ensures Valid(r) && Extends(db, r)
    ensures r.titleIndex.Keys == db.titleIndex.Keys + NonEmptyTitles(rows)
    ensures LinkedBy(db, r, rows)
  {
    IngestChunks(db, Chunks(rows))
  }
}
