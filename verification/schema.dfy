/** The store (src/db/schema.ts:3-23): the `unique_job` table of canonical
    titles, keyed by an autoincrement id, with a UNIQUE, NOT NULL title,
    and the `job` table of raw rows keyed by the source id, each holding a
    nullable reference to a canonical record. The UNIQUE constraint is kept
    as an explicit title index. */
module Schema {
  import opened Wrappers

  datatype Status = Pending | Processing | Completed

  /** The status as stored in the `status` column. */
  function StatusName(s: Status): (r: string)
    ensures |r| > 0
  {
    match s
    case Pending => "pending"
    case Processing => "processing"
    case Completed => "completed"
  }

  lemma StatusNameInjective(a: Status, b: Status)
    ensures StatusName(a) == StatusName(b) <==> a == b
  {
  }

  /** One canonical title record. Classification columns are null until the
      record is completed. */
  datatype UniqueJob = UniqueJob(
    jobTitle: string, jobFunction: Option<string>, jobSeniority: Option<string>,
    confidence: Option<real>, status: Status)

  /** The row an insert creates: defaults for everything but the title. */
  function NewUniqueJob(title: string): (r: UniqueJob)
    ensures r.jobTitle == title && r.status == Pending
    ensures r.jobFunction.None? && r.jobSeniority.None? && r.confidence.None?
  {
    UniqueJob(title, None, None, None, Pending)
  }

  type UniqueTable = map<nat, UniqueJob>

  /** Raw rows: source id to the referenced canonical id, if any. */
  type JobTable = map<string, Option<nat>>

  datatype Db = Db(unique: UniqueTable, titleIndex: map<string, nat>, nextId: nat, jobs: JobTable)

  /** The title index is exactly the UNIQUE constraint on `job_title`, and
      every id is below the autoincrement counter. */
  predicate Valid(db: Db) {
    && (forall t :: t in db.titleIndex ==>
          db.titleIndex[t] in db.unique && db.unique[db.titleIndex[t]].jobTitle == t)
    && (forall id :: id in db.unique ==>
          db.unique[id].jobTitle in db.titleIndex && db.titleIndex[db.unique[id].jobTitle] == id)
    && (forall id :: id in db.unique ==> 0 < id < db.nextId)
    && db.nextId >= 1
  }

  const EmptyDb: Db := Db(map[], map[], 1, map[])

  lemma EmptyDbValid()
    ensures Valid(EmptyDb)
  {
  }

  /** No two canonical records share a title. */
  lemma TitlesUnique(db: Db, a: nat, b: nat)
    requires Valid(db)
    requires a in db.unique && b in db.unique && a != b
    ensures db.unique[a].jobTitle != db.unique[b].jobTitle
  {
  }

  /** An update that keeps every record and every title (a status or
      classification change) keeps the store valid. */
  lemma TitlePreservingUpdateValid(db: Db, unique': UniqueTable)
    requires Valid(db)
    requires unique'.Keys == db.unique.Keys
    requires forall id :: id in unique' ==> unique'[id].jobTitle == db.unique[id].jobTitle
    ensures Valid(db.(unique := unique'))
  {
  }

  lemma {:induction false} InjectiveMapCardinality(m: map<string, nat>)
    requires forall a, b :: a in m && b in m && a != b ==> m[a] != m[b]
    ensures |m.Values| == |m.Keys|
    decreases |m.Keys|
  {
    if m != map[] {
      var k :| k in m;
      var m' := m - {k};
      InjectiveMapCardinality(m');
      assert m'.Values == m.Values - {m[k]} by {
        forall v | v in m.Values - {m[k]} ensures v in m'.Values {
          var a :| a in m && m[a] == v;
          assert a in m' && m'[a] == v;
        }
        forall v | v in m'.Values ensures v in m.Values - {m[k]} {
          var a :| a in m' && m'[a] == v;
          assert a in m && a != k;
        }
      }
      assert m'.Keys == m.Keys - {k};
    }
  }

  /** Deduplication: there are exactly as many canonical records as
      distinct titles in the index. */
  lemma CanonicalCountEqualsTitleCount(db: Db)
    requires Valid(db)
    ensures |db.unique| == |db.titleIndex|
  {
    InjectiveMapCardinality(db.titleIndex);
    assert db.titleIndex.Values == db.unique.Keys by {
      forall id | id in db.unique ensures id in db.titleIndex.Values {
        assert db.titleIndex[db.unique[id].jobTitle] == id;
      }
    }
  }

  /** A subset of a finite set is no larger than the set. */
  lemma SubsetCardinality<T>(a: set<T>, b: set<T>)
    requires a <= b
    ensures |a| <= |b|
  {
    assert b == a + (b - a);
  }
}
