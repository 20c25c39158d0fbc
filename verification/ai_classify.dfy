/** `classifyJobTitles` (src/utils/ai/index.ts:14-51): one call to the
    classification model, turned into a `success`, `mismatch_error` or
    `error` response. The call itself is an input: it either threw or
    returned usage metadata and a response text. */
module AiClassify {
  import opened Wrappers
  import opened AiTypes
  import opened AiUtils

  /** What the model client threw: an `ApiError` or anything else. */
  datatype ThrownError = ApiError(name: string, message: string) | OtherError(description: string)

  /** A response text as `JSON.parse` sees it: malformed (the parse, or the
      field access after it, throws), or an object whose `classifications`
      field may be missing. */
  datatype ResponseText = Malformed | Json(classifications: Option<seq<RawClassification>>)

  /** The outcome of `ai.models.generateContent`. A text of None stands for
      an undefined or empty `response.text`. */
  datatype ModelCall =
    | Threw(err: ThrownError)
    | Returned(usage: Option<Usage>, text: Option<ResponseText>)

  function ErrorMessage(e: ThrownError): string {
    match e
    case ApiError(name, message) => "AI error: " + name + ": " + message
    case OtherError(description) => "An unknown error occurred: " + description
  }

  /** `response.text || "{}"`: a missing text parses as an empty object. */
  function EffectiveText(text: Option<ResponseText>): (r: ResponseText)
    ensures text.None? ==> r == Json(None)
    ensures text.Some? ==> r == text.value
  {
    text.GetOr(Json(None))
  }

  /** Err carries the exception that escapes the function: a malformed body
      is not caught. */
  function ClassifyJobTitles(jobs: seq<JobTitleInput>, call: ModelCall): (r: Result<AIResponse, string>)
    ensures call.Threw? ==> r == Ok(AIResponse([], 0.0, Error, Some(ErrorMessage(call.err))))
    ensures r.Err? <==> call.Returned? && EffectiveText(call.text) == Malformed
    ensures r.Ok? && r.value.status != Error ==>
              call.Returned? && r.value.cost == CalculateCost(call.usage)
    ensures r.Ok? && call.Returned? ==> r.value.status != Error
    ensures r.Ok? && r.value.status == MismatchError ==>
              && r.value.classifications == []
              && call.Returned? && EffectiveText(call.text).Json?
              && ValidateResponse(jobs, EffectiveText(call.text).classifications).Some?
              && r.value.error == Some(ValidationMessage(
                   ValidateResponse(jobs, EffectiveText(call.text).classifications).value))
    ensures r.Ok? && r.value.status == Success ==>
              && call.Returned? && EffectiveText(call.text).Json?
              && EffectiveText(call.text).classifications.Some?
              && r.value.error == None
              && r.value.classifications
                 == ProcessClassifications(jobs, EffectiveText(call.text).classifications.value, r.value.cost)
    ensures r.Ok? && r.value.status == Success <==>
              call.Returned? && EffectiveText(call.text).Json?
              && ValidateResponse(jobs, EffectiveText(call.text).classifications) == None
  {
    match call
    case Threw(e) => Ok(AIResponse([], 0.0, Error, Some(ErrorMessage(e))))
    case Returned(usage, text) =>
      var cost := CalculateCost(usage);
      match EffectiveText(text)
      case Malformed => Err("malformed JSON in model response")
      case Json(result) =>
        var validation := ValidateResponse(jobs, result);
        if validation.Some? then
          Ok(AIResponse([], cost, MismatchError, Some(ValidationMessage(validation.value))))
        else
          Ok(AIResponse(ProcessClassifications(jobs, result.value, cost), cost, Success, None))
  }

  /** A call that returns no text fails the count check and is billed. */
  lemma MissingTextIsCountMismatch(jobs: seq<JobTitleInput>, usage: Option<Usage>)
    ensures ClassifyJobTitles(jobs, Returned(usage, None))
         == Ok(AIResponse([], CalculateCost(usage), MismatchError,
                          Some("AI response classification count mismatch.")))
  {
  }

  /** A successful response classifies exactly the batch: as many items as
      inputs, and the same set of ids, each item carrying its share of the
      call cost. */
  lemma SuccessCoversBatch(jobs: seq<JobTitleInput>, call: ModelCall)
    requires ClassifyJobTitles(jobs, call).Ok?
    requires ClassifyJobTitles(jobs, call).value.status == Success
    ensures var resp := ClassifyJobTitles(jobs, call).value;
            |resp.classifications| == |jobs|
            && IdSet(ClassifiedIdSeq(resp.classifications)) == IdSet(InputIdSeq(jobs))
            && (|jobs| > 0 ==> SumCosts(resp.classifications) == resp.cost)
  {
    var result := EffectiveText(call.text).classifications.value;
    PerItemCostsSumToCallCost(jobs, result, CalculateCost(call.usage));
  }

  /** A successful response for a batch with distinct ids names every batch
      id exactly once. */
  lemma SuccessIdsAreDistinct(jobs: seq<JobTitleInput>, call: ModelCall)
    requires Distinct(InputIdSeq(jobs))
    requires ClassifyJobTitles(jobs, call).Ok?
    requires ClassifyJobTitles(jobs, call).value.status == Success
    ensures Distinct(ClassifiedIdSeq(ClassifyJobTitles(jobs, call).value.classifications))
  {
    var result := EffectiveText(call.text).classifications.value;
    AcceptedResponseHasDistinctIds(jobs, result);
  }
}
