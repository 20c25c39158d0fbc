/** Cost accounting, response validation and post-processing of a model
    response (src/utils/ai/utils.ts). */
module AiUtils {
  import opened Wrappers
  import opened AiTypes
  import Standardize

  /** Published prices in dollars per million tokens (src/utils/ai/config.ts:8-10). */
  const InputTokenPerMillion: real := 0.10
  const CacheTokenPerMillion: real := 0.025
  const OutputTokenPerMillion: real := 0.40

  /** The usage metadata reported with a response; every count is optional. */
  datatype Usage = Usage(
    promptTokenCount: Option<nat>, cachedContentTokenCount: Option<nat>, candidatesTokenCount: Option<nat>)

  /** A count is truthy when it is reported and not zero. */
  predicate Reported(n: Option<nat>) {
    n.Some? && n.value != 0
  }

  /** The call is billed only when both the prompt and the candidates count
      are reported and non-zero. */
  predicate Billed(u: Usage)
    ensures Billed(u) ==> u.promptTokenCount.Some? && u.candidatesTokenCount.Some?
    ensures u.promptTokenCount == Some(0) || u.candidatesTokenCount == Some(0) ==> !Billed(u)
    ensures (&& u.promptTokenCount.Some? && u.promptTokenCount.value > 0
             && u.candidatesTokenCount.Some? && u.candidatesTokenCount.value > 0) ==> Billed(u)
  {
    Reported(u.promptTokenCount) && Reported(u.candidatesTokenCount)
  }

  /** `calculateAICost`: cached prompt tokens are billed at the cache rate,
      the rest of the prompt at the input rate, candidates at the output
      rate. A missing cached count means no cached tokens. */
  function CalculateCost(usage: Option<Usage>): (r: real)
    ensures usage.None? ==> r == 0.0
    ensures usage.Some? && !Billed(usage.value) ==> r == 0.0
  {
    if usage.None? then 0.0
    else
      var u := usage.value;
      var cached := u.cachedContentTokenCount.GetOr(0);
      if Billed(u) then
        var prompt := u.promptTokenCount.value;
        var candidates := u.candidatesTokenCount.value;
        ((prompt - cached) as real / 1000000.0) * InputTokenPerMillion
          + (cached as real / 1000000.0) * CacheTokenPerMillion
          + (candidates as real / 1000000.0) * OutputTokenPerMillion
      else 0.0
  }

  /** A billed call whose cached count does not exceed its prompt count costs
      something, and at least its output tokens' price. */
  lemma CostPositiveWhenBilled(u: Usage)
    requires Billed(u)
    requires u.cachedContentTokenCount.GetOr(0) <= u.promptTokenCount.value
    ensures CalculateCost(Some(u)) >= (u.candidatesTokenCount.value as real / 1000000.0) * OutputTokenPerMillion
    ensures CalculateCost(Some(u)) > 0.0
  {
  }

  /** Reporting some prompt tokens as cached never raises the cost, because
      the cache rate is below the input rate; an absent cached count costs
      the same as zero cached tokens. */
  lemma CachingNeverIncreasesCost(u: Usage)
    ensures CalculateCost(Some(u)) <= CalculateCost(Some(u.(cachedContentTokenCount := None)))
    ensures CalculateCost(Some(u.(cachedContentTokenCount := None)))
         == CalculateCost(Some(u.(cachedContentTokenCount := Some(0))))
  {
  }

  /** Each further output token of a billed call adds exactly the output
      price of one token. */
  lemma OutputTokenMarginalCost(u: Usage)
    requires Billed(u)
    ensures CalculateCost(Some(u.(candidatesTokenCount := Some(u.candidatesTokenCount.value + 1))))
         == CalculateCost(Some(u)) + OutputTokenPerMillion / 1000000.0
  {
  }

  /** Each further uncached prompt token of a billed call adds exactly the
      input price of one token. */
  lemma PromptTokenMarginalCost(u: Usage)
    requires Billed(u)
    ensures CalculateCost(Some(u.(promptTokenCount := Some(u.promptTokenCount.value + 1))))
         == CalculateCost(Some(u)) + InputTokenPerMillion / 1000000.0
  {
  }

  /** Moving one prompt token of a billed call into the cache lowers the cost
      by exactly the difference between the input and the cache price. */
  lemma CachedTokenMarginalCost(u: Usage)
    requires Billed(u)
    ensures CalculateCost(Some(u.(cachedContentTokenCount := Some(u.cachedContentTokenCount.GetOr(0) + 1))))
         == CalculateCost(Some(u)) - (InputTokenPerMillion - CacheTokenPerMillion) / 1000000.0
  {
  }

  /** The smallest billed call: one prompt token, one output token, nothing
      cached, costs the input and the output price of one token each. */
  lemma SmallestBilledCallCost()
    ensures CalculateCost(Some(Usage(Some(1), None, Some(1)))) == 0.0000005
    ensures CalculateCost(Some(Usage(Some(1), None, Some(1))))
         == (InputTokenPerMillion + OutputTokenPerMillion) / 1000000.0
  {
  }

  datatype ValidationError = CountMismatch | IdMismatch

  function ValidationMessage(e: ValidationError): string {
    match e
    case CountMismatch => "AI response classification count mismatch."
    case IdMismatch => "AI response classification ID mismatch."
  }

  /** `validateAIResponse`: None stands for JavaScript's `null` (the response
      is accepted). A missing `classifications` array is a count mismatch. */
  function ValidateResponse(jobs: seq<JobTitleInput>, result: Option<seq<RawClassification>>)
    : (r: Option<ValidationError>)
    ensures r == Some(CountMismatch) <==> result.None? || |result.value| != |jobs|
    ensures r == None <==>
              result.Some? && |result.value| == |jobs|
              && IdSet(InputIdSeq(jobs)) == IdSet(RawIdSeq(result.value))
  {
    if result.None? || |result.value| != |jobs| then Some(CountMismatch)
    else
      var inputIds := IdSet(InputIdSeq(jobs));
      var outputIds := IdSet(RawIdSeq(result.value));
      if |inputIds| != |outputIds| || !(forall id :: id in inputIds ==> id in outputIds) then
        Some(IdMismatch)
      else
        SubsetOfEqualSize(inputIds, outputIds);
        None
  }

  /** A subset of a finite set with the same number of elements is the set. */
  lemma SubsetOfEqualSize(a: set<int>, b: set<int>)
    requires a <= b && |a| == |b|
    ensures a == b
  {
    assert b == a + (b - a);
    assert |b - a| == 0;
  }

  /** For a batch with distinct ids (canonical ids are a primary key), an
      accepted response holds every batch id exactly once. */
  lemma AcceptedResponseHasDistinctIds(jobs: seq<JobTitleInput>, result: seq<RawClassification>)
    requires Distinct(InputIdSeq(jobs))
    requires ValidateResponse(jobs, Some(result)) == None
    ensures Distinct(RawIdSeq(result))
    ensures IdSet(RawIdSeq(result)) == IdSet(InputIdSeq(jobs))
  {
    IdSetCardinality(InputIdSeq(jobs));
    IdSetCardinality(RawIdSeq(result));
  }

  /** For a batch with distinct ids, a response of the right length that
      repeats an id is rejected as an id mismatch. */
  lemma DuplicateIdsRejected(jobs: seq<JobTitleInput>, result: seq<RawClassification>, i: int, j: int)
    requires Distinct(InputIdSeq(jobs))
    requires |result| == |jobs|
    requires 0 <= i < j < |result| && result[i].id == result[j].id
    ensures ValidateResponse(jobs, Some(result)) == Some(IdMismatch)
  {
    IdSetCardinality(InputIdSeq(jobs));
    IdSetCardinality(RawIdSeq(result));
    assert !Distinct(RawIdSeq(result)) by {
      assert RawIdSeq(result)[i] == RawIdSeq(result)[j];
    }
  }

  /** `jobs.find(j => j.id === id)?.jobTitle`: the title of the first batch
      row with that id. */
  function FindTitle(jobs: seq<JobTitleInput>, id: int): (r: Option<string>)
    ensures r.None? <==> forall k :: 0 <= k < |jobs| ==> jobs[k].id != id
    ensures r.Some? ==> exists k :: 0 <= k < |jobs| && jobs[k].id == id && jobs[k].jobTitle == r.value
                                    && forall l :: 0 <= l < k ==> jobs[l].id != id
  {
    if |jobs| == 0 then None
    else if jobs[0].id == id then Some(jobs[0].jobTitle)
    else
      FindTitle(jobs[1..], id)
  }

  /** The share of the call cost attributed to each classification. */
  function PerItemCost(total: real, n: nat): real {
    if n > 0 then total / n as real else 0.0
  }

  /** `processClassifications`: keeps the response's length, order and
      fields, adds the per-item cost and the standardized title computed
      from the item's own labels and its batch row's title. */
  function ProcessClassifications(jobs: seq<JobTitleInput>, results: seq<RawClassification>, cost: real)
    : (r: seq<JobClassification>)
    ensures |r| == |results|
    ensures forall i :: 0 <= i < |r| ==>
              && r[i].id == results[i].id
              && r[i].jobFunction == results[i].jobFunction
              && r[i].jobSeniority == results[i].jobSeniority
              && r[i].confidence == results[i].confidence
              && r[i].cost == PerItemCost(cost, |results|)
              && r[i].standardizedJobTitle == Standardize.StandardizedTitle(
                   Some(results[i].jobSeniority), Some(results[i].jobFunction),
                   FindTitle(jobs, results[i].id))
    ensures ClassifiedIdSeq(r) == RawIdSeq(results)
  {
    var per := PerItemCost(cost, |results|);
    seq(|results|, i requires 0 <= i < |results| =>
      var c := results[i];
      JobClassification(c.id, c.jobFunction, c.jobSeniority, c.confidence,
        Standardize.StandardizedTitle(Some(c.jobSeniority), Some(c.jobFunction), FindTitle(jobs, c.id)),
        per))
  }

  function SumCosts(cs: seq<JobClassification>): real {
    if |cs| == 0 then 0.0 else cs[0].cost + SumCosts(cs[1..])
  }

  lemma {:induction false} SumOfEqualCosts(cs: seq<JobClassification>, c: real)
    requires forall i :: 0 <= i < |cs| ==> cs[i].cost == c
    ensures SumCosts(cs) == |cs| as real * c
  {
    if |cs| > 0 {
      SumOfEqualCosts(cs[1..], c);
    }
  }

  /** The per-item costs add up to the call's cost; an empty response
      carries none. */
  lemma PerItemCostsSumToCallCost(jobs: seq<JobTitleInput>, results: seq<RawClassification>, cost: real)
    ensures |results| > 0 ==> SumCosts(ProcessClassifications(jobs, results, cost)) == cost
    ensures |results| == 0 ==> SumCosts(ProcessClassifications(jobs, results, cost)) == 0.0
  {
    var r := ProcessClassifications(jobs, results, cost);
    SumOfEqualCosts(r, PerItemCost(cost, |results|));
    if |results| > 0 {
      var n := |results| as real;
      assert n * (cost / n) == cost;
    }
  }
}
