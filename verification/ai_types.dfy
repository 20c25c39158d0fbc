/** The records exchanged with the classification model
    (src/utils/ai/types.ts:3-22). Ids are the canonical records' integer
    ids, echoed back by the model. */
module AiTypes {
  import opened Wrappers

  /** One title sent to the model. */
  datatype JobTitleInput = JobTitleInput(id: int, jobTitle: string)

  /** One classification as the model returns it: a `JobClassification`
      without the standardized title and the cost, which are added locally. */
  datatype RawClassification = RawClassification(
    id: int, jobFunction: string, jobSeniority: string, confidence: real)

  /** A classification after local post-processing. The standardized title
      is nullable because the standardizer may return null. */
  datatype JobClassification = JobClassification(
    id: int, jobFunction: string, jobSeniority: string, confidence: real,
    standardizedJobTitle: Option<string>, cost: real)

  datatype CallStatus = Success | Error | MismatchError

  datatype AIResponse = AIResponse(
    classifications: seq<JobClassification>, cost: real, status: CallStatus, error: Option<string>)

  /** The ids of a batch, in batch order. */
  function InputIdSeq(jobs: seq<JobTitleInput>): (r: seq<int>)
    ensures |r| == |jobs|
    ensures forall i :: 0 <= i < |jobs| ==> r[i] == jobs[i].id
  {
    seq(|jobs|, i requires 0 <= i < |jobs| => jobs[i].id)
  }

  /** The ids of a model response, in response order. */
  function RawIdSeq(results: seq<RawClassification>): (r: seq<int>)
    ensures |r| == |results|
    ensures forall i :: 0 <= i < |results| ==> r[i] == results[i].id
  {
    seq(|results|, i requires 0 <= i < |results| => results[i].id)
  }

  /** The ids of post-processed classifications, in order. */
  function ClassifiedIdSeq(cs: seq<JobClassification>): (r: seq<int>)
    ensures |r| == |cs|
    ensures forall i :: 0 <= i < |cs| ==> r[i] == cs[i].id
  {
    seq(|cs|, i requires 0 <= i < |cs| => cs[i].id)
  }

  /** `new Set(xs)`. */
  function IdSet(xs: seq<int>): set<int> {
    set x | x in xs
  }

  predicate Distinct(xs: seq<int>) {
    forall i, j :: 0 <= i < j < |xs| ==> xs[i] != xs[j]
  }

  /** A sequence has at most as many distinct ids as elements, and exactly as
      many when no id repeats. */
  lemma {:induction false} IdSetCardinality(xs: seq<int>)
    ensures |IdSet(xs)| <= |xs|
    ensures |IdSet(xs)| == |xs| <==> Distinct(xs)
  {
    if |xs| > 0 {
      var t := xs[1..];
      IdSetCardinality(t);
      assert IdSet(xs) == {xs[0]} + IdSet(t) by {
        assert xs == [xs[0]] + t;
      }
      DistinctCons(xs);
    }
  }

  /** A non-empty sequence is repetition-free exactly when its tail is and
      its head does not occur in the tail. */
  lemma DistinctCons(xs: seq<int>)
    requires |xs| > 0
    ensures Distinct(xs) <==> Distinct(xs[1..]) && xs[0] !in IdSet(xs[1..])
  {
    var t := xs[1..];
    if xs[0] in IdSet(t) {
      var k :| 0 <= k < |t| && t[k] == xs[0];
      assert xs[0] == xs[k + 1];
    }
    if Distinct(xs) {
      forall i, j | 0 <= i < j < |t| ensures t[i] != t[j] {
        assert t[i] == xs[i + 1] && t[j] == xs[j + 1];
      }
    }
    if Distinct(t) && xs[0] !in IdSet(t) {
      forall i, j | 0 <= i < j < |xs| ensures xs[i] != xs[j] {
        if i == 0 {
          assert xs[j] == t[j - 1];
        } else {
          assert xs[i] == t[i - 1] && xs[j] == t[j - 1];
        }
      }
    }
  }

}
