/** `getStandardizedJobTitle` (src/utils/standardize.ts:1-22): a fixed cascade
    of rules mapping a classified seniority and function, plus an optional
    title from the source register, to a standardized job title, or to null
    when seniority or function is missing.

    The AI adapter and the exporter import this function from a helper module
    that is not part of this model; they are modelled against this
    definition. */
module Standardize {
  import opened Wrappers
  import opened Text

  /** Lower-cased seniorities that are reported as "Executive Decision Maker"
      before any function rule applies. */
  const ExecutiveSeniorities: set<string> :=
    {"founder", "managing director", "entrepreneur", "chairman of the board", "ceo"}

  /** The seniority templates, keyed by lower-cased seniority: the title is
      prefix + F + suffix, where F is the capitalized function. */
  const SeniorityTemplates: map<string, (string, string)> := map[
    "chief" := ("Chief ", " Officer"),
    "president" := ("President of ", ""),
    "vice president" := ("Vice President of ", ""),
    "director" := ("", " Director"),
    "head of" := ("Head of ", ""),
    "manager" := ("", " Manager"),
    "lead" := ("", " Lead")
  ]

  /** The template used when the seniority has none of its own. */
  const FallbackTemplate: (string, string) := ("", " Other")

  /** The lower-cased source title, or None when the title is not truthy. */
  function SourceTitleKey(sourceTitle: Option<string>): (r: Option<string>)
    ensures r.Some? <==> Truthy(sourceTitle)
    ensures r.Some? ==> r.value == Lower(sourceTitle.value)
  {
    if Truthy(sourceTitle) then Some(Lower(sourceTitle.value)) else None
  }

  /** The function label as it appears inside a template: lower-cased, then
      capitalized. */
  function FunctionWord(jobFunction: string): (r: string)
    ensures |r| == |jobFunction|
    ensures |r| > 0 ==> r[1..] == Lower(jobFunction)[1..]
  {
    Capitalize(Lower(jobFunction))
  }

  function StandardizedTitle(jobSeniority: Option<string>, jobFunction: Option<string>,
                             sourceTitle: Option<string>): (r: Option<string>)
    ensures r.None? <==> !Truthy(jobSeniority) || !Truthy(jobFunction)
  {
    if !Truthy(jobSeniority) || !Truthy(jobFunction) then None
    else
      var seniority := Lower(jobSeniority.value);
      var func := Lower(jobFunction.value);
      var prh := SourceTitleKey(sourceTitle);
      if prh == Some("toimitusjohtaja") then Some("Chief Executive Officer")
      else if seniority in ExecutiveSeniorities then Some("Executive Decision Maker")
      else if prh == Some("executive decision maker") then Some("Executive Decision Maker")
      else if func == "other commercial" then Some("Other Commercial")
      else if func == "other" then Some("Other")
      else if seniority == "chief" then Some("Chief " + Capitalize(func) + " Officer")
      else if seniority == "president" then Some("President of " + Capitalize(func))
      else if seniority == "vice president" then Some("Vice President of " + Capitalize(func))
      else if seniority == "director" then Some(Capitalize(func) + " Director")
      else if seniority == "head of" then Some("Head of " + Capitalize(func))
      else if seniority == "manager" then Some(Capitalize(func) + " Manager")
      else if seniority == "lead" then Some(Capitalize(func) + " Lead")
      else Some(Capitalize(func) + " Other")
  }

  /** A missing or empty seniority or function yields null, whatever the
      source title says. */
  lemma MissingLabelYieldsNull(jobSeniority: Option<string>, jobFunction: Option<string>,
                               sourceTitle: Option<string>)
    requires !Truthy(jobSeniority) || !Truthy(jobFunction)
    ensures StandardizedTitle(jobSeniority, jobFunction, sourceTitle) == None
  {
  }

  /** The register title "toimitusjohtaja", in any letter case, overrides
      every seniority and function rule. */
  lemma ToimitusjohtajaOverride(jobSeniority: string, jobFunction: string, sourceTitle: string)
    requires |jobSeniority| > 0 && |jobFunction| > 0
    requires Lower(sourceTitle) == "toimitusjohtaja"
    ensures StandardizedTitle(Some(jobSeniority), Some(jobFunction), Some(sourceTitle))
            == Some("Chief Executive Officer")
  {
  }

  /** An executive seniority wins over every function rule. */
  lemma ExecutiveSeniorityPrecedence(jobSeniority: string, jobFunction: string,
                                     sourceTitle: Option<string>)
    requires |jobSeniority| > 0 && |jobFunction| > 0
    requires Lower(jobSeniority) in ExecutiveSeniorities
    requires SourceTitleKey(sourceTitle) != Some("toimitusjohtaja")
    ensures StandardizedTitle(Some(jobSeniority), Some(jobFunction), sourceTitle)
            == Some("Executive Decision Maker")
  {
  }

  /** The register title "executive decision maker", in any letter case,
      gives "Executive Decision Maker" for every seniority and function. */
  lemma RegisterExecutiveTitle(jobSeniority: string, jobFunction: string, sourceTitle: string)
    requires |jobSeniority| > 0 && |jobFunction| > 0
    requires Lower(sourceTitle) == "executive decision maker"
    ensures StandardizedTitle(Some(jobSeniority), Some(jobFunction), Some(sourceTitle))
            == Some("Executive Decision Maker")
  {
  }

  /** Once the override rules have not fired, the functions "other
      commercial" and "other" decide the title whatever the seniority. */
  lemma OtherFunctionRules(jobSeniority: string, jobFunction: string, sourceTitle: Option<string>)
    requires |jobSeniority| > 0 && |jobFunction| > 0
    requires Lower(jobSeniority) !in ExecutiveSeniorities
    requires SourceTitleKey(sourceTitle) !in {Some("toimitusjohtaja"), Some("executive decision maker")}
    requires Lower(jobFunction) in {"other commercial", "other"}
    ensures Lower(jobFunction) == "other commercial" ==>
              StandardizedTitle(Some(jobSeniority), Some(jobFunction), sourceTitle) == Some("Other Commercial")
    ensures Lower(jobFunction) == "other" ==>
              StandardizedTitle(Some(jobSeniority), Some(jobFunction), sourceTitle) == Some("Other")
  {
  }

  /** When no override fires, the title is the seniority's template, or the
      fallback template, wrapped around the capitalized function. */
  lemma TemplateRule(jobSeniority: string, jobFunction: string, sourceTitle: Option<string>)
    requires |jobSeniority| > 0 && |jobFunction| > 0
    requires Lower(jobSeniority) !in ExecutiveSeniorities
    requires SourceTitleKey(sourceTitle) !in {Some("toimitusjohtaja"), Some("executive decision maker")}
    requires Lower(jobFunction) !in {"other commercial", "other"}
    ensures var t := if Lower(jobSeniority) in SeniorityTemplates
                     then SeniorityTemplates[Lower(jobSeniority)] else FallbackTemplate;
            StandardizedTitle(Some(jobSeniority), Some(jobFunction), sourceTitle)
            == Some(t.0 + FunctionWord(jobFunction) + t.1)
  {
    var s := Lower(jobSeniority);
    var f := FunctionWord(jobFunction);
    var r := StandardizedTitle(Some(jobSeniority), Some(jobFunction), sourceTitle);
    if s == "chief" {
      assert r == Some("Chief " + f + " Officer");
    } else if s == "president" {
      assert r == Some("President of " + f);
      assert "President of " + f + "" == "President of " + f;
    } else if s == "vice president" {
      assert r == Some("Vice President of " + f);
      assert "Vice President of " + f + "" == "Vice President of " + f;
    } else if s == "director" {
      assert r == Some(f + " Director");
      assert "" + f + " Director" == f + " Director";
    } else if s == "head of" {
      assert r == Some("Head of " + f);
      assert "Head of " + f + "" == "Head of " + f;
    } else if s == "manager" {
      assert r == Some(f + " Manager");
      assert "" + f + " Manager" == f + " Manager";
    } else if s == "lead" {
      assert r == Some(f + " Lead");
      assert "" + f + " Lead" == f + " Lead";
    } else {
      assert s !in SeniorityTemplates;
      assert r == Some(f + " Other");
      assert "" + f + " Other" == f + " Other";
    }
  }

  /** The rules compare lower-cased labels only, so the result does not
      depend on the letter case of any input. */
  lemma CaseInsensitive(jobSeniority: string, jobFunction: string, sourceTitle: Option<string>)
    ensures StandardizedTitle(Some(jobSeniority), Some(jobFunction), sourceTitle)
         == StandardizedTitle(Some(Lower(jobSeniority)), Some(Lower(jobFunction)),
                              if sourceTitle.Some? then Some(Lower(sourceTitle.value)) else None)
  {
    LowerIdempotent(jobSeniority);
    LowerIdempotent(jobFunction);
    if sourceTitle.Some? {
      LowerIdempotent(sourceTitle.value);
    }
  }

  /** Worked case: only the first letter of the function is upper case, so
      "HR" becomes "Hr". */
  lemma HrManagerCase(seniority: string, func: string)
    requires seniority == "Manager" && func == "HR"
    ensures StandardizedTitle(Some(seniority), Some(func), None) == Some("Hr Manager")
  {
    assert Lower(seniority) == "manager";
    assert Lower(func) == "hr";
    assert FunctionWord(func) == "Hr";
    TemplateRule(seniority, func, None);
    assert SeniorityTemplates["manager"] == ("", " Manager");
    assert "" + "Hr" + " Manager" == "Hr Manager";
  }

  /** Worked case: an executive seniority beats the "Other Commercial" rule. */
  lemma CeoBeatsOtherCommercial(seniority: string, func: string)
    requires seniority == "CEO" && func == "Other Commercial"
    ensures StandardizedTitle(Some(seniority), Some(func), None) == Some("Executive Decision Maker")
  {
    assert Lower(seniority) == "ceo";
    ExecutiveSeniorityPrecedence(seniority, func, None);
  }

  /** Worked case: a seniority without a template falls back to "F Other". */
  lemma FallbackCase(seniority: string, func: string)
    requires seniority == "Partner" && func == "Legal"
    ensures StandardizedTitle(Some(seniority), Some(func), None) == Some("Legal Other")
  {
    assert Lower(seniority) == "partner";
    assert Lower(func) == "legal";
    assert FunctionWord(func) == "Legal";
    assert "partner" !in SeniorityTemplates;
    TemplateRule(seniority, func, None);
    assert "" + "Legal" + " Other" == "Legal Other";
  }
}
